/** Printing arguments as a command line, and getting them back
    (the escapes and quotes that esp_console.h documents). */
module ArgvPrinting {
  import opened Bytes
  import opened SplitArgv

  /** An argument to print, in quotes or bare. */
  datatype Item = Item(quoted: bool, arg: seq<byte>)

  /** Only an argument in quotes may be empty; none may hold a NUL. */
  ghost predicate Printable(item: Item) {
    0 !in item.arg && (item.quoted || item.arg != [])
  }

  function Delimiter(quoted: bool): byte {
    if quoted then QUOTE else SPACE
  }

  /** A backslash before every backslash and quote, and in a bare argument before
      every space. */
  function Escape(quoted: bool, arg: seq<byte>): seq<byte> {
    if arg == [] then [] else
      var c := arg[0];
      (if c == ESCAPE || c == QUOTE || c == Delimiter(quoted) then [ESCAPE, c] else [c]) + Escape(quoted, arg[1..])
  }

  function Print(item: Item): seq<byte> {
    if item.quoted then [QUOTE] + Escape(true, item.arg) + [QUOTE] else Escape(false, item.arg)
  }

  function PrintLine(items: seq<Item>): seq<byte> {
    if items == [] then []
    else if |items| == 1 then Print(items[0])
    else Print(items[0]) + [SPACE] + PrintLine(items[1..])
  }

  function Args(items: seq<Item>): seq<seq<byte>> {
    seq(|items|, i requires 0 <= i < |items| => items[i].arg)
  }

  lemma ArgumentPlain(end: byte, c: byte, more: seq<byte>)
    requires c != end && c != ESCAPE
    ensures Argument(end, [c] + more) == Argument(end, more).Prepend([c])
  {
    assert ([c] + more)[1..] == more;
  }

  lemma ArgumentEscape(end: byte, c: byte, more: seq<byte>)
    requires end != ESCAPE
    ensures Argument(end, [ESCAPE, c] + more) == Argument(end, more).Prepend(Escaped(c))
  {
    assert ([ESCAPE, c] + more)[2..] == more;
  }

  /** An escaped argument, followed by its delimiter or by the end of the line, is
      read back whole. */
  lemma {:induction false} ReadBack(quoted: bool, arg: seq<byte>, tail: seq<byte>)
    requires tail == [] || tail[0] == Delimiter(quoted)
    ensures Argument(Delimiter(quoted), Escape(quoted, arg) + tail) == Cut(arg, if tail == [] then [] else tail[1..])
  {
    var end := Delimiter(quoted);
    if arg == [] {
      assert Escape(quoted, arg) + tail == tail;
    } else {
      var c, more := arg[0], Escape(quoted, arg[1..]);
      ReadBack(quoted, arg[1..], tail);
      assert [c] + arg[1..] == arg;
      if c == ESCAPE || c == QUOTE || c == end {
        Associate([ESCAPE, c], more, tail);
        ArgumentEscape(end, c, more + tail);
      } else {
        Associate([c], more, tail);
        ArgumentPlain(end, c, more + tail);
      }
    }
  }

  /** A backslash before any other byte is dropped with it, wherever in an argument. */
  lemma {:induction false} DropsUnknown(quoted: bool, arg: seq<byte>, c: byte, more: seq<byte>)
    requires c != ESCAPE && c != QUOTE && c != SPACE
    ensures Argument(Delimiter(quoted), Escape(quoted, arg) + ([ESCAPE, c] + more))
            == Argument(Delimiter(quoted), Escape(quoted, arg) + more)
  {
    var end, text := Delimiter(quoted), Escape(quoted, arg);
    if arg == [] {
      ArgumentEscape(end, c, more);
      assert text + ([ESCAPE, c] + more) == [ESCAPE, c] + more && text + more == more;
      assert [] + Argument(end, more).arg == Argument(end, more).arg;
    } else {
      var a, rest := arg[0], Escape(quoted, arg[1..]);
      DropsUnknown(quoted, arg[1..], c, more);
      if a == ESCAPE || a == QUOTE || a == end {
        Associate([ESCAPE, a], rest, [ESCAPE, c] + more);
        Associate([ESCAPE, a], rest, more);
        ArgumentEscape(end, a, rest + ([ESCAPE, c] + more));
        ArgumentEscape(end, a, rest + more);
      } else {
        Associate([a], rest, [ESCAPE, c] + more);
        Associate([a], rest, more);
        ArgumentPlain(end, a, rest + ([ESCAPE, c] + more));
        ArgumentPlain(end, a, rest + more);
      }
    }
  }

  /** The same on a whole line, in quotes and bare. */
  lemma TokensDropUnknown(item: Item, c: byte, more: seq<byte>)
    requires c != ESCAPE && c != QUOTE && c != SPACE
    requires item.quoted || item.arg != []
    ensures var text := (if item.quoted then [QUOTE] else []) + Escape(item.quoted, item.arg);
            Tokens(text + ([ESCAPE, c] + more)) == Tokens(text + more)
  {
    var text := Escape(item.quoted, item.arg);
    DropsUnknown(item.quoted, item.arg, c, more);
    if item.quoted {
      Associate([QUOTE], text, [ESCAPE, c] + more);
      Associate([QUOTE], text, more);
      assert ([QUOTE] + (text + ([ESCAPE, c] + more)))[1..] == text + ([ESCAPE, c] + more);
      assert ([QUOTE] + (text + more))[1..] == text + more;
    } else {
      assert [] + text == text;
      TokensBare(text + ([ESCAPE, c] + more));
      TokensBare(text + more);
    }
  }

  /** Spaces between arguments do not count. */
  lemma TokensAfterSpace(line: seq<byte>)
    ensures Tokens([SPACE] + line) == Tokens(line)
  {
    assert ([SPACE] + line)[1..] == line;
  }

  /** A quote opens an argument only at its start, and the end of the line closes
      one, even an empty one. */
  lemma Quotes(c: byte)
    requires c != ESCAPE && c != QUOTE && c != SPACE
    ensures Tokens([c, QUOTE]) == [[c, QUOTE]]
    ensures Tokens([QUOTE]) == [[]]
    ensures Tokens([QUOTE, c, QUOTE, c]) == [[c], [c]]
  {
    ArgumentPlain(SPACE, QUOTE, []);
    ArgumentPlain(SPACE, c, [QUOTE]);
    ArgumentPlain(QUOTE, c, [QUOTE, c]);
    ArgumentPlain(SPACE, c, []);
    assert [c] + [QUOTE] == [c, QUOTE] && [QUOTE] + [] == [QUOTE] && [c] + [] == [c] && [c] + [QUOTE, c] == [c, QUOTE, c];
    assert [QUOTE, c, QUOTE, c][1..] == [c, QUOTE, c] && [QUOTE, c][1..] == [c] && [QUOTE][1..] == [];
  }

  /** A printed argument in front of the rest of a line is its first token. */
  lemma FirstToken(item: Item, tail: seq<byte>)
    requires Printable(item)
    requires tail == [] || tail[0] == SPACE
    ensures Tokens(Print(item) + tail) == [item.arg] + Tokens(tail)
  {
    var text := Escape(item.quoted, item.arg);
    if item.quoted {
      ReadBack(true, item.arg, [QUOTE] + tail);
      TokensQuoted(text, tail);
    } else {
      ReadBack(false, item.arg, tail);
      TokensBare(text + tail);
    }
  }

  lemma TokensQuoted(text: seq<byte>, tail: seq<byte>)
    requires Argument(QUOTE, text + ([QUOTE] + tail)).rest == ([QUOTE] + tail)[1..]
    ensures Tokens([QUOTE] + text + [QUOTE] + tail) == [Argument(QUOTE, text + ([QUOTE] + tail)).arg] + Tokens(tail)
  {
    var line := [QUOTE] + text + [QUOTE] + tail;
    assert line[1..] == text + ([QUOTE] + tail) && ([QUOTE] + tail)[1..] == tail;
  }

  lemma TokensBare(line: seq<byte>)
    requires line != [] && line[0] != SPACE && line[0] != QUOTE
    ensures Tokens(line) == [Argument(SPACE, line).arg] + Tokens(Argument(SPACE, line).rest)
  {
  }

  /** Splitting undoes printing, whichever arguments are quoted. */
  lemma {:induction false} TokensOfPrinted(items: seq<Item>)
    requires forall i | 0 <= i < |items| :: Printable(items[i])
    ensures Tokens(PrintLine(items)) == Args(items)
  {
    if |items| == 1 {
      FirstToken(items[0], []);
      assert Print(items[0]) + [] == Print(items[0]);
    } else if |items| > 1 {
      var rest := [SPACE] + PrintLine(items[1..]);
      TokensOfPrinted(items[1..]);
      FirstToken(items[0], rest);
      assert PrintLine(items) == Print(items[0]) + rest;
      assert rest[1..] == PrintLine(items[1..]);
      assert Args(items) == [items[0].arg] + Args(items[1..]);
    }
  }

  lemma {:induction false} PrintedNulFree(items: seq<Item>)
    requires forall i | 0 <= i < |items| :: Printable(items[i])
    ensures 0 !in PrintLine(items)
  {
    if items != [] {
      EscapedNulFree(items[0].quoted, items[0].arg);
      PrintedNulFree(items[1..]);
    }
  }

  lemma {:induction false} EscapedNulFree(quoted: bool, arg: seq<byte>)
    requires 0 !in arg
    ensures 0 !in Escape(quoted, arg)
  {
    if arg != [] {
      EscapedNulFree(quoted, arg[1..]);
    }
  }

  /** The round trip through memory: a line is printed into a buffer, split in
      place, and argv points at the arguments it was printed from. */
  method PrintAndSplit(items: seq<Item>, slots: nat) returns (mem: seq<byte>, argv: seq<Option<nat>>, argc: nat)
    requires forall i | 0 <= i < |items| :: Printable(items[i])
    requires |items| < slots
    ensures argc == |items| && |argv| == slots && argv[argc] == None
    ensures forall k | 0 <= k < argc :: argv[k].Some? && IsString(mem, argv[k].value, items[k].arg)
  {
    var text := PrintLine(items);
    var line := new byte[|text| + 1](i => if 0 <= i < |text| then text[i] else 0);
    var ptrs := new Option<nat>[slots](_ => None);
    PrintedNulFree(items);
    TokensOfPrinted(items);
    assert line[..|text|] == text;
    argc := Split(line, ptrs, |text|);
    mem, argv := line[..], ptrs[..];
  }
}
