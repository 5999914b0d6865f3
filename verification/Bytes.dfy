/** Bytes and the handful of sequence facts the component models share. */
module Bytes {

  type byte = b: int | 0 <= b < 256

  const UINT32_MAX: nat := 0xFFFF_FFFF

  datatype Option<+T> = None | Some(value: T)

  function Min(a: nat, b: nat): (m: nat)
    ensures m <= a && m <= b && (m == a || m == b)
  {
    if a < b then a else b
  }

  lemma Associate<T>(a: seq<T>, b: seq<T>, c: seq<T>)
    ensures (a + b) + c == a + (b + c)
  {
  }

  /** Moving the first n elements of b behind a. */
  lemma Carry<T>(a: seq<T>, b: seq<T>, n: nat)
    requires n <= |b|
    ensures (a + b[..n]) + b[n..] == a + b
  {
  }

  lemma Join<T>(s: seq<T>, a: nat, b: nat, c: nat)
    requires a <= b <= c <= |s|
    ensures s[a..c] == s[a..b] + s[b..c]
  {
  }

  lemma Cut<T>(s: seq<T>, a: nat, n: nat, c: nat)
    requires a + n <= c <= |s|
    ensures s[a..c][..n] == s[a..a + n] && s[a..c][n..] == s[a + n..c]
  {
  }

  function Flatten<T>(parts: seq<seq<T>>): seq<T> {
    if parts == [] then [] else Flatten(parts[..|parts| - 1]) + parts[|parts| - 1]
  }

  lemma FlattenAppend<T>(parts: seq<seq<T>>, part: seq<T>)
    ensures Flatten(parts + [part]) == Flatten(parts) + part
  {
    assert (parts + [part])[..|parts|] == parts;
  }

  lemma {:induction false} FlattenFront<T>(parts: seq<seq<T>>)
    requires parts != []
    ensures Flatten(parts) == parts[0] + Flatten(parts[1..])
  {
    var last := |parts| - 1;
    if last > 0 {
      FlattenFront(parts[..last]);
      assert parts[..last][1..] == parts[1..][..last - 1];
      Associate(parts[0], Flatten(parts[1..][..last - 1]), parts[last]);
    } else {
      assert parts[..last] == [] && parts[1..] == [];
    }
  }

  lemma FlattenSome<T>(parts: seq<seq<T>>, k: nat)
    requires k < |parts|
    ensures Flatten(parts[..k + 1]) == parts[0] + Flatten(parts[1..][..k])
  {
    FlattenFront(parts[..k + 1]);
    assert parts[..k + 1][1..] == parts[1..][..k];
  }
}
