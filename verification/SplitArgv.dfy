/** The console's command-line splitter (split_argv.c): a five-state parser that
    rewrites the line in place into NUL-terminated arguments. */
module SplitArgv {
  import opened Bytes

  const QUOTE: byte := 34
  const ESCAPE: byte := 92
  const SPACE: byte := 32

  // The language of command lines

  /** What a backslash followed by c stands for; anything else is dropped. */
  function Escaped(c: byte): seq<byte> {
    if c == ESCAPE || c == QUOTE || c == SPACE then [c] else []
  }

  /** An argument and the text behind it. */
  datatype Cut = Cut(arg: seq<byte>, rest: seq<byte>) {
    function Prepend(bytes: seq<byte>): Cut {
      Cut(bytes + arg, rest)
    }
  }

  /** The rest of an argument that ends at the given delimiter, which is a space
      for a bare argument and a quote for a quoted one. */
  function Argument(end: byte, s: seq<byte>): (cut: Cut)
    ensures |cut.rest| <= |s| && (s != [] ==> |cut.rest| < |s|)
  {
    if s == [] then Cut([], [])
    else if s[0] == end then Cut([], s[1..])
    else if s[0] == ESCAPE then
      if |s| == 1 then Cut([], []) else Argument(end, s[2..]).Prepend(Escaped(s[1]))
    else Argument(end, s[1..]).Prepend([s[0]])
  }

  /** The arguments of a command line. */
  function Tokens(s: seq<byte>): seq<seq<byte>>
    decreases |s|
  {
    if s == [] then []
    else if s[0] == SPACE then Tokens(s[1..])
    else
      var cut := if s[0] == QUOTE then Argument(QUOTE, s[1..]) else Argument(SPACE, s);
      [cut.arg] + Tokens(cut.rest)
  }

  // The parser

  datatype State = Space | Arg | Quoted | ArgEscaped | QuotedEscaped

  /** What one input character makes the parser do besides changing state. */
  datatype Action = Skip | Start | StartWith(c: byte) | Emit(c: byte) | EndArg

  function React(state: State, c: byte): (State, Action) {
    match state
    case Space =>
      if c == SPACE then (Space, Skip)
      else if c == QUOTE then (Quoted, Start)
      else if c == ESCAPE then (ArgEscaped, Start)
      else (Arg, StartWith(c))
    case Quoted =>
      if c == QUOTE then (Space, EndArg)
      else if c == ESCAPE then (QuotedEscaped, Skip)
      else (Quoted, Emit(c))
    case Arg =>
      if c == SPACE then (Space, EndArg)
      else if c == ESCAPE then (ArgEscaped, Skip)
      else (Arg, Emit(c))
    case ArgEscaped =>
      (Arg, if c == ESCAPE || c == QUOTE || c == SPACE then Emit(c) else Skip)
    case QuotedEscaped =>
      (Quoted, if c == ESCAPE || c == QUOTE || c == SPACE then Emit(c) else Skip)
  }

  /** The arguments still to come when the parser is in the given state, has read
      part of an argument and has rest ahead of it. */
  ghost function Pending(state: State, part: seq<byte>, rest: seq<byte>): seq<seq<byte>> {
    match state
    case Space => Tokens(rest)
    case Arg => Completed(Argument(SPACE, rest).Prepend(part))
    case Quoted => Completed(Argument(QUOTE, rest).Prepend(part))
    case ArgEscaped =>
      if rest == [] then [part] else Completed(Argument(SPACE, rest[1..]).Prepend(part + Escaped(rest[0])))
    case QuotedEscaped =>
      if rest == [] then [part] else Completed(Argument(QUOTE, rest[1..]).Prepend(part + Escaped(rest[0])))
  }

  ghost function Completed(cut: Cut): seq<seq<byte>> {
    [cut.arg] + Tokens(cut.rest)
  }

  /** The part of an argument read so far, after an action. */
  ghost function PartAfter(part: seq<byte>, action: Action): seq<byte> {
    match action
    case Skip => part
    case Start => []
    case StartWith(c) => [c]
    case Emit(c) => part + [c]
    case EndArg => []
  }

  /** One step of the parser follows the language. */
  lemma Advance(state: State, part: seq<byte>, rest: seq<byte>)
    requires rest != []
    ensures var (next, action) := React(state, rest[0]);
            var more := Pending(next, PartAfter(part, action), rest[1..]);
            Pending(state, part, rest) == if action.EndArg? then [part] + more else more
  {
    var c, tail := rest[0], rest[1..];
    assert part + [] == part;
    match state
    case Space =>
      if c == QUOTE {
        assert [] + Argument(QUOTE, tail).arg == Argument(QUOTE, tail).arg;
      } else if c == ESCAPE && tail == [] {
        assert Argument(SPACE, rest) == Cut([], []) && Tokens([]) == [];
      } else if c == ESCAPE {
        assert tail[1..] == rest[2..] && [] + Escaped(tail[0]) == Escaped(tail[0]);
      }
    case Arg | Quoted =>
      var end := if state.Arg? then SPACE else QUOTE;
      if c != end && c != ESCAPE {
        Associate(part, [c], Argument(end, tail).arg);
      } else if c == ESCAPE && c != end && tail != [] {
        assert tail[1..] == rest[2..];
        Associate(part, Escaped(tail[0]), Argument(end, tail[1..]).arg);
      }
    case ArgEscaped | QuotedEscaped =>
  }

  lemma AtEnd(state: State, part: seq<byte>)
    ensures Pending(state, part, []) == if state.Space? then [] else [part]
  {
    assert part + [] == part;
  }

  // The line buffer

  /** Arguments laid out one behind the other, each with its NUL. */
  ghost function Pack(args: seq<seq<byte>>): seq<byte> {
    if args == [] then [] else Pack(args[..|args| - 1]) + args[|args| - 1] + [0]
  }

  lemma PackAppend(args: seq<seq<byte>>, arg: seq<byte>)
    ensures Pack(args + [arg]) == Pack(args) + arg + [0]
  {
    assert (args + [arg])[..|args|] == args;
  }

  /** p is the address of a C string holding exactly arg. */
  ghost predicate IsString(mem: seq<byte>, p: nat, arg: seq<byte>) {
    p + |arg| < |mem| && mem[p..p + |arg|] == arg && mem[p + |arg|] == 0 && 0 !in arg
  }

  /** The finished arguments and the part being read, as laid out at the start of
      the line, with argv pointing at the finished ones. */
  ghost predicate Laid(mem: seq<byte>, out: nat, argv: seq<Option<nat>>, done: seq<seq<byte>>, part: seq<byte>) {
    && out <= |mem| && |done| < |argv|
    && mem[..out] == Pack(done) + part
    && forall k | 0 <= k < |done| :: argv[k].Some? && IsString(mem[..out], argv[k].value, done[k])
  }

  lemma LaidEmit(mem: seq<byte>, out: nat, argv: seq<Option<nat>>, done: seq<seq<byte>>, part: seq<byte>, b: byte)
    requires Laid(mem, out, argv, done, part) && out < |mem|
    ensures Laid(mem[out := b], out + 1, argv, done, part + [b])
  {
    var after := mem[out := b];
    assert after[..out + 1] == mem[..out] + [b];
    Associate(Pack(done), part, [b]);
  }

  lemma LaidEnd(mem: seq<byte>, out: nat, argv: seq<Option<nat>>, done: seq<seq<byte>>, part: seq<byte>)
    requires Laid(mem, out, argv, done, part) && out < |mem|
    requires |done| + 1 < |argv| && 0 !in part
    ensures Laid(mem[out := 0], out + 1, argv[|done| := Some(|Pack(done)|)], done + [part], [])
  {
    var after, p := mem[out := 0], |Pack(done)|;
    PackAppend(done, part);
    assert after[..out + 1] == mem[..out] + [0];
    assert Pack(done + [part]) + [] == Pack(done + [part]);
    assert (Pack(done) + part)[p..] == part;
    assert IsString(after[..out + 1], p, part);
  }

  /** The strings stay in place when memory behind them changes. */
  lemma LaidStrings(mem: seq<byte>, out: nat, argv: seq<Option<nat>>, done: seq<seq<byte>>, part: seq<byte>, k: nat)
    requires Laid(mem, out, argv, done, part) && k < |done|
    ensures argv[k].Some? && IsString(mem, argv[k].value, done[k])
  {
    var p := argv[k].value;
    assert mem[..out][p..p + |done[k]|] == mem[p..p + |done[k]|];
  }

  /** The parser has read text[..i]: done and part are what it made of it. */
  ghost predicate Parsed(text: seq<byte>, i: nat, state: State, done: seq<seq<byte>>, part: seq<byte>) {
    && i <= |text|
    && Tokens(text) == done + Pending(state, part, text[i..])
    && (state.Space? ==> part == [])
    && 0 !in part
  }

  lemma ParseOne(text: seq<byte>, i: nat, state: State, done: seq<seq<byte>>, part: seq<byte>)
    requires Parsed(text, i, state, done, part) && i < |text| && 0 !in text
    ensures var (next, action) := React(state, text[i]);
            Parsed(text, i + 1, next, if action.EndArg? then done + [part] else done, PartAfter(part, action))
  {
    var (next, action) := React(state, text[i]);
    Advance(state, part, text[i..]);
    assert text[i..][1..] == text[i + 1..];
    if action.EndArg? {
      Associate(done, [part], Pending(next, [], text[i + 1..]));
    }
  }

  /** What is left of a parse once all slots are taken or the text is used up. */
  lemma ParseEnd(text: seq<byte>, i: nat, state: State, done: seq<seq<byte>>, part: seq<byte>, slots: nat)
    requires Parsed(text, i, state, done, part) && |done| <= slots
    requires |done| == slots || i == |text|
    ensures var args := if !state.Space? && |done| < slots then done + [part] else done;
            |args| == Min(|Tokens(text)|, slots) && args <= Tokens(text)
  {
    if i == |text| {
      assert text[i..] == [];
      AtEnd(state, part);
    }
  }

  method Put(line: array<byte>, out: nat, b: byte, ghost ptrs: seq<Option<nat>>, ghost done: seq<seq<byte>>, ghost part: seq<byte>)
    requires out < line.Length && Laid(line[..], out, ptrs, done, part)
    modifies line
    ensures Laid(line[..], out + 1, ptrs, done, part + [b])
    ensures forall k | out < k < line.Length :: line[k] == old(line[k])
  {
    LaidEmit(line[..], out, ptrs, done, part, b);
    line[out] := b;
    assert line[..] == old(line[..])[out := b];
  }

  method Close(line: array<byte>, out: nat, argv: array<Option<nat>>, argc: nat, start: nat, ghost done: seq<seq<byte>>, ghost part: seq<byte>)
    requires out < line.Length && Laid(line[..], out, argv[..], done, part) && 0 !in part
    requires argc == |done| < argv.Length - 1 && start == |Pack(done)|
    modifies line, argv
    ensures Laid(line[..], out + 1, argv[..], done + [part], [])
    ensures forall k | out < k < line.Length :: line[k] == old(line[k])
  {
    LaidEnd(line[..], out, argv[..], done, part);
    line[out] := 0;
    argv[argc] := Some(start);
    assert line[..] == old(line[..])[out := 0] && argv[..] == old(argv[..])[argc := Some(start)];
  }

  ghost function DoneAfter(done: seq<seq<byte>>, part: seq<byte>, action: Action): seq<seq<byte>> {
    if action.EndArg? then done + [part] else done
  }

  /** Carries out an action on the buffers. */
  method Act(line: array<byte>, argv: array<Option<nat>>, action: Action, argc: nat, start: nat, out: nat,
             ghost done: seq<seq<byte>>, ghost part: seq<byte>)
    returns (argc': nat, start': nat, out': nat)
    requires out < line.Length && Laid(line[..], out, argv[..], done, part) && 0 !in part
    requires argc == |done| < argv.Length - 1
    requires action.Start? || action.StartWith? ==> part == []
    requires action.EndArg? ==> start == |Pack(done)|
    modifies line, argv
    ensures out <= out' <= out + 1 && argc' == |DoneAfter(done, part, action)|
    ensures Laid(line[..], out', argv[..], DoneAfter(done, part, action), PartAfter(part, action))
    ensures forall k | out < k < line.Length :: line[k] == old(line[k])
    ensures start' == if action.Start? || action.StartWith? then |Pack(done)| else start
  {
    argc', start', out' := argc, start, out;
    match action {
      case Skip =>
      case Start =>
        start' := out;
      case StartWith(b) =>
        start' := out;
        Put(line, out, b, argv[..], done, part);
        out' := out + 1;
      case Emit(b) =>
        Put(line, out, b, argv[..], done, part);
        out' := out + 1;
      case EndArg =>
        Close(line, out, argv, argc, start, done, part);
        out' := out + 1;
        argc' := argc + 1;
    }
  }

  /** Terminates the last argument and the list. */
  method Conclude(line: array<byte>, argv: array<Option<nat>>, state: State, argc: nat, start: nat, out: nat,
                  ghost done: seq<seq<byte>>, ghost part: seq<byte>)
    returns (argc': nat)
    requires out < line.Length && Laid(line[..], out, argv[..], done, part) && 0 !in part
    requires argc == |done| <= argv.Length - 1
    requires !state.Space? ==> start == |Pack(done)|
    modifies line, argv
    ensures var args := if !state.Space? && |done| < argv.Length - 1 then done + [part] else done;
            && argc' == |args| < argv.Length && argv[argc'] == None
            && forall k | 0 <= k < argc' :: argv[k].Some? && IsString(line[..], argv[k].value, args[k])
    ensures forall k | out < k < line.Length :: line[k] == old(line[k])
  {
    argc' := argc;
    if !state.Space? && argc < argv.Length - 1 {
      Close(line, out, argv, argc, start, done, part);
      argc' := argc + 1;
      EndList(argv, argc', line[..], out + 1, done + [part], []);
    } else {
      Terminate(line, out, argv[..], done, part);
      EndList(argv, argc', line[..], out, done, part);
    }
  }

  /** The NUL behind what is laid out. */
  method Terminate(line: array<byte>, out: nat, ghost ptrs: seq<Option<nat>>, ghost done: seq<seq<byte>>, ghost part: seq<byte>)
    requires out < line.Length && Laid(line[..], out, ptrs, done, part)
    modifies line
    ensures Laid(line[..], out, ptrs, done, part)
    ensures forall k | out < k < line.Length :: line[k] == old(line[k])
  {
    line[out] := 0;
    assert line[..][..out] == old(line[..])[..out];
  }

  /** The NULL behind the entries. */
  method EndList(argv: array<Option<nat>>, argc: nat, ghost mem: seq<byte>, ghost out: nat,
                 ghost done: seq<seq<byte>>, ghost part: seq<byte>)
    requires Laid(mem, out, argv[..], done, part) && argc == |done|
    modifies argv
    ensures argv[argc] == None
    ensures forall k | 0 <= k < argc :: argv[k].Some? && IsString(mem, argv[k].value, done[k])
  {
    forall k | 0 <= k < argc
      ensures argv[k].Some? && IsString(mem, argv[k].value, done[k])
    {
      LaidStrings(mem, out, argv[..], done, part, k);
    }
    argv[argc] := None;
  }

  /** The loop invariant: text[..i] is parsed, its arguments are laid out behind
      the read pointer, and the unread text is untouched. */
  ghost predicate Splitting(mem: seq<byte>, argv: seq<Option<nat>>, text: seq<byte>, i: nat, state: State,
                            argc: nat, start: nat, out: nat, done: seq<seq<byte>>, part: seq<byte>)
  {
    && |text| < |mem| && 0 !in text && mem[|text|] == 0
    && out <= i <= |text| && (forall k | i <= k < |text| :: mem[k] == text[k])
    && argc == |done| && Laid(mem, out, argv, done, part)
    && (!state.Space? ==> start == |Pack(done)|)
    && Parsed(text, i, state, done, part)
  }

  /** Carrying out an action keeps the unread text and moves on by one character. */
  lemma SplittingNext(mem: seq<byte>, argv: seq<Option<nat>>, text: seq<byte>, i: nat, state: State, argc: nat, start: nat,
                      out: nat, done: seq<seq<byte>>, part: seq<byte>, mem': seq<byte>, argv': seq<Option<nat>>, out': nat)
    requires Splitting(mem, argv, text, i, state, argc, start, out, done, part) && i < |text|
    requires |mem'| == |mem| && out' <= out + 1 && forall k | out < k < |mem| :: mem'[k] == mem[k]
    requires var action := React(state, text[i]).1;
             Laid(mem', out', argv', DoneAfter(done, part, action), PartAfter(part, action))
    ensures var (next, action) := React(state, text[i]);
            Splitting(mem', argv', text, i + 1, next, |DoneAfter(done, part, action)|,
                      if action.Start? || action.StartWith? then |Pack(done)| else start,
                      out', DoneAfter(done, part, action), PartAfter(part, action))
  {
    ParseOne(text, i, state, done, part);
    ReactStart(state, text[i]);
  }

  /** An argument is left in progress only by an action that starts it or goes on
      with one. */
  lemma ReactStart(state: State, c: byte)
    ensures var (next, action) := React(state, c);
            next.Space? || action.Start? || action.StartWith? || (!state.Space? && !action.EndArg?)
    ensures React(state, c).1.Start? || React(state, c).1.StartWith? ==> state.Space?
  {
  }

  lemma SplittingStart(mem: seq<byte>, argv: seq<Option<nat>>, text: seq<byte>)
    requires |text| < |mem| && 0 !in text && mem[|text|] == 0 && |argv| >= 1 && text == mem[..|text|]
    ensures Splitting(mem, argv, text, 0, Space, 0, 0, 0, [], [])
  {
    assert text[0..] == text && mem[..0] == Pack([]) + [];
  }

  method Step(line: array<byte>, argv: array<Option<nat>>, i: nat, state: State, argc: nat, start: nat, out: nat,
              ghost text: seq<byte>, ghost done: seq<seq<byte>>, ghost part: seq<byte>)
    returns (state': State, argc': nat, start': nat, out': nat, ghost done': seq<seq<byte>>, ghost part': seq<byte>)
    requires Splitting(line[..], argv[..], text, i, state, argc, start, out, done, part)
    requires argc < argv.Length - 1 && i < |text|
    modifies line, argv
    ensures Splitting(line[..], argv[..], text, i + 1, state', argc', start', out', done', part')
    ensures forall k | out < k < line.Length :: line[k] == old(line[k])
  {
    assert line[i] == line[..][i] == text[i];
    ghost var mem, ptrs := line[..], argv[..];
    var (next, action) := React(state, line[i]);
    state' := next;
    argc', start', out' := Act(line, argv, action, argc, start, out, done, part);
    done', part' := DoneAfter(done, part, action), PartAfter(part, action);
    SplittingNext(mem, ptrs, text, i, state, argc, start, out, done, part, line[..], argv[..], out');
  }

  method Finish(line: array<byte>, argv: array<Option<nat>>, i: nat, state: State, argc: nat, start: nat, out: nat,
                ghost text: seq<byte>, ghost done: seq<seq<byte>>, ghost part: seq<byte>)
    returns (argc': nat)
    requires Splitting(line[..], argv[..], text, i, state, argc, start, out, done, part)
    requires argc == argv.Length - 1 || i == |text|
    modifies line, argv
    ensures argc' == Min(|Tokens(text)|, argv.Length - 1) && argv[argc'] == None
    ensures forall k | 0 <= k < argc' :: argv[k].Some? && IsString(line[..], argv[k].value, Tokens(text)[k])
    ensures forall k | out < k < line.Length :: line[k] == old(line[k])
  {
    ParseEnd(text, i, state, done, part, argv.Length - 1);
    argc' := Conclude(line, argv, state, argc, start, out, done, part);
  }

  /** Splits the NUL-terminated line of length n in place. */
  method Split(line: array<byte>, argv: array<Option<nat>>, ghost n: nat) returns (argc: nat)
    requires argv.Length >= 1
    requires n < line.Length && line[n] == 0 && 0 !in line[..n]
    modifies line, argv
    ensures argc == Min(|Tokens(old(line[..n]))|, argv.Length - 1)
    ensures forall k | 0 <= k < argc :: argv[k].Some? && IsString(line[..], argv[k].value, Tokens(old(line[..n]))[k])
    ensures argv[argc] == None
    ensures forall k | n < k < line.Length :: line[k] == old(line[k])
  {
    ghost var text := line[..n];
    ghost var done: seq<seq<byte>>, part: seq<byte> := [], [];
    var state := Space;
    argc := 0;
    var start, out, i := 0, 0, 0;
    SplittingStart(line[..], argv[..], text);
    while argc < argv.Length - 1 && line[i] != 0
      invariant i <= n
      invariant Splitting(line[..], argv[..], text, i, state, argc, start, out, done, part)
      invariant forall k | i <= k < line.Length :: line[k] == old(line[k])
      decreases n - i
    {
      state, argc, start, out, done, part := Step(line, argv, i, state, argc, start, out, text, done, part);
      i := i + 1;
    }
    argc := Finish(line, argv, i, state, argc, start, out, text, done, part);
  }
}
