/** The camera's copy out of the DMA buffer (ll_cam_memcpy in ll_cam.c), which
    keeps every other byte when YUV input is stored as grey. */
module PixelCopy {
  import opened Bytes

  /** The luminance bytes of YUV data. */
  function Grey(s: seq<byte>): (g: seq<byte>)
    ensures |g| == |s| / 2
  {
    seq(|s| / 2, i requires 0 <= i < |s| / 2 => s[2 * i])
  }

  /** Group i of eight bytes becomes group i of four. */
  lemma GreyGroup(s: seq<byte>, i: nat)
    requires 8 * i + 8 <= |s|
    ensures var g := Grey(s);
            && g[4 * i] == s[8 * i] && g[4 * i + 1] == s[8 * i + 2]
            && g[4 * i + 2] == s[8 * i + 4] && g[4 * i + 3] == s[8 * i + 6]
  {
    var g := Grey(s);
    assert g[4 * i] == s[2 * (4 * i)] && g[4 * i + 1] == s[2 * (4 * i + 1)];
    assert g[4 * i + 2] == s[2 * (4 * i + 2)] && g[4 * i + 3] == s[2 * (4 * i + 3)];
  }

  lemma GreyPrefix(s: seq<byte>, groups: nat)
    requires 8 * groups <= |s|
    ensures 4 * groups <= |s| / 2 && Grey(s)[..4 * groups] == Grey(s[..8 * groups])
  {
  }

  function Converted(grey: bool, s: seq<byte>): seq<byte> {
    if grey then Grey(s) else s
  }

  /** Byte i of what is stored: every other byte of what is received, or each. */
  lemma ConvertedAt(grey: bool, s: seq<byte>)
    ensures |Converted(grey, s)| == if grey then |s| / 2 else |s|
    ensures forall i | 0 <= i < |Converted(grey, s)| :: Converted(grey, s)[i] == s[if grey then 2 * i else i]
  {
  }

  /** The bytes the copy really writes: with conversion, four for each complete
      group of eight. */
  function Copied(grey: bool, len: nat): nat {
    if grey then len / 8 * 4 else len
  }

  /** One round of the conversion loop. */
  method PutGroup(out: array<byte>, o: nat, inp: array<byte>, p: nat)
    requires p + 8 <= inp.Length && o + 4 <= out.Length
    requires out == inp ==> o <= p
    modifies out
    ensures out[o] == old(inp[p]) && out[o + 1] == old(inp[p + 2])
    ensures out[o + 2] == old(inp[p + 4]) && out[o + 3] == old(inp[p + 6])
    ensures forall k | 0 <= k < o || o + 4 <= k < out.Length :: out[k] == old(out[k])
  {
    out[o] := inp[p];
    out[o + 1] := inp[p + 2];
    out[o + 2] := inp[p + 4];
    out[o + 3] := inp[p + 6];
  }

  /** The conversion loop, eight bytes to four, also in place. */
  method ToGrey(out: array<byte>, outAt: nat, inp: array<byte>, inAt: nat, groups: nat)
    requires inAt + 8 * groups <= inp.Length && outAt + 4 * groups <= out.Length
    requires out == inp ==> outAt == inAt
    modifies out
    ensures out[outAt..outAt + 4 * groups] == Grey(old(inp[inAt..inAt + 8 * groups]))
    ensures forall k | 0 <= k < outAt || outAt + 4 * groups <= k < out.Length :: out[k] == old(out[k])
  {
    ghost var from := inp[inAt..inAt + 8 * groups];
    ghost var want := Grey(from);
    var o, p := outAt, inAt;
    for i := 0 to groups
      invariant o == outAt + 4 * i && p == inAt + 8 * i
      invariant forall k | outAt <= k < o :: out[k] == want[k - outAt]
      invariant forall k | p <= k < inp.Length :: inp[k] == old(inp[k])
      invariant forall k | 0 <= k < outAt || o <= k < out.Length :: out[k] == old(out[k])
    {
      GreyGroup(from, i);
      PutGroup(out, o, inp, p);
      o := o + 4;
      p := p + 8;
    }
  }

  method Plain(out: array<byte>, outAt: nat, inp: array<byte>, inAt: nat, len: nat)
    requires inAt + len <= inp.Length && outAt + len <= out.Length
    requires out == inp ==> outAt == inAt
    modifies out
    ensures out[outAt..outAt + len] == old(inp[inAt..inAt + len])
    ensures forall k | 0 <= k < outAt || outAt + len <= k < out.Length :: out[k] == old(out[k])
  {
    ghost var want := inp[inAt..inAt + len];
    for i := 0 to len
      invariant out[outAt..outAt + i] == want[..i]
      invariant forall k | inAt + i <= k < inp.Length :: inp[k] == old(inp[k])
      invariant forall k | 0 <= k < outAt || outAt + i <= k < out.Length :: out[k] == old(out[k])
    {
      out[outAt + i] := inp[inAt + i];
    }
  }

  /** Copies or converts len bytes, into another buffer or in place. The length
      returned is that of the whole conversion; the bytes written are a prefix
      of it, all of it when len is a multiple of 8. */
  method Memcpy(grey: bool, out: array<byte>, outAt: nat, inp: array<byte>, inAt: nat, len: nat) returns (n: nat)
    requires inAt + len <= inp.Length && outAt + Copied(grey, len) <= out.Length
    requires out == inp ==> outAt == inAt
    modifies out
    ensures n == |Converted(grey, old(inp[inAt..inAt + len]))|
    ensures Copied(grey, len) <= n && (len % 8 == 0 ==> Copied(grey, len) == n)
    ensures out[outAt..outAt + Copied(grey, len)] == Converted(grey, old(inp[inAt..inAt + len]))[..Copied(grey, len)]
    ensures forall i | 0 <= i < outAt || outAt + Copied(grey, len) <= i < out.Length :: out[i] == old(out[i])
  {
    if grey {
      n := MemcpyGrey(out, outAt, inp, inAt, len);
    } else {
      Plain(out, outAt, inp, inAt, len);
      n := len;
    }
  }

  method MemcpyGrey(out: array<byte>, outAt: nat, inp: array<byte>, inAt: nat, len: nat) returns (n: nat)
    requires inAt + len <= inp.Length && outAt + Copied(true, len) <= out.Length
    requires out == inp ==> outAt == inAt
    modifies out
    ensures n == len / 2 && Copied(true, len) <= n && (len % 8 == 0 ==> Copied(true, len) == n)
    ensures out[outAt..outAt + Copied(true, len)] == Grey(old(inp[inAt..inAt + len]))[..Copied(true, len)]
    ensures forall i | 0 <= i < outAt || outAt + Copied(true, len) <= i < out.Length :: out[i] == old(out[i])
  {
    var end := len / 8;
    Eighths(len);
    GreyOfStart(inp[inAt..inAt + len], inp[inAt..inAt + 8 * end], end);
    ToGrey(out, outAt, inp, inAt, end);
    n := len / 2;
  }

  lemma GreyOfStart(s: seq<byte>, start: seq<byte>, groups: nat)
    requires 8 * groups == |start| <= |s| && start == s[..|start|]
    ensures 4 * groups <= |s| / 2 && Grey(s)[..4 * groups] == Grey(start)
  {
    GreyPrefix(s, groups);
  }

  /** Converting in place gives the same bytes as converting into another buffer. */
  method InPlaceAgrees(data: seq<byte>) returns (inPlace: seq<byte>, apart: seq<byte>)
    requires |data| % 8 == 0
    ensures inPlace == apart == Grey(data)
  {
    var n, groups := |data| / 2, |data| / 8;
    Eighths(|data|);
    var a := new byte[|data|](i requires 0 <= i < |data| => data[i]);
    var b := new byte[|data|](i requires 0 <= i < |data| => data[i]);
    var c := new byte[n];
    assert a[0..|data|] == data && b[0..|data|] == data;
    ToGrey(a, 0, a, 0, groups);
    inPlace := a[0..4 * groups];
    ToGrey(c, 0, b, 0, groups);
    apart := c[0..4 * groups];
  }

  lemma Eighths(n: nat)
    ensures 8 * (n / 8) <= n && 4 * (n / 8) <= n / 2
    ensures n % 8 == 0 ==> 8 * (n / 8) == n && 4 * (n / 8) == n / 2
  {
  }
}
