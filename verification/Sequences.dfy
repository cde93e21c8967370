/** Sequence vocabulary shared by the paging, constraint and translation models. */
module Sequences {
  datatype Option<+T> = None | Some(value: T)

  function Reverse<T>(s: seq<T>): seq<T> {
    seq(|s|, i requires 0 <= i < |s| => s[|s| - 1 - i])
  }

  lemma ReverseInvolutive<T>(s: seq<T>)
    ensures Reverse(Reverse(s)) == s
  {
  }

  /** Reading a window of a reversed list backwards reads the mirrored window of the list. */
  lemma ReverseWindow<T>(s: seq<T>, lo: nat, hi: nat)
    requires lo <= hi <= |s|
    ensures Reverse(s)[lo..hi] == Reverse(s[|s| - hi..|s| - lo])
    ensures Reverse(Reverse(s)[lo..hi]) == s[|s| - hi..|s| - lo]
  {
    var mirrored := s[|s| - hi..|s| - lo];
    forall i | 0 <= i < hi - lo ensures Reverse(s)[lo..hi][i] == Reverse(mirrored)[i] {
      assert Reverse(s)[lo + i] == s[|s| - 1 - lo - i];
      assert mirrored[hi - lo - 1 - i] == s[|s| - 1 - lo - i];
    }
    assert Reverse(s)[lo..hi] == Reverse(mirrored);
    ReverseInvolutive(mirrored);
  }

  function Min(a: int, b: int): int {
    if a < b then a else b
  }

  function Max(a: int, b: int): int {
    if a < b then b else a
  }

  /** How many entries whole pages hold: the product, without its nonlinearity. */
  function Offset(index: int, size: nat): nat {
    if index <= 0 then 0 else Offset(index - 1, size) + size
  }

  lemma {:induction false} OffsetIsProduct(index: nat, size: nat)
    ensures Offset(index, size) == index * size
  {
    if index > 0 {
      OffsetIsProduct(index - 1, size);
    }
  }

  lemma {:induction false} OffsetMonotone(a: int, b: int, size: nat)
    requires a <= b
    ensures Offset(a, size) <= Offset(b, size)
    decreases b - a
  {
    if a < b {
      OffsetMonotone(a, b - 1, size);
    }
  }
}
