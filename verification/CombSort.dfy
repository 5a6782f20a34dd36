/** csorte and ipsorti: Combsort11 on an array of indices, exchanged by exclusive or. */
module CombSort {
  import opened Words

  lemma {:induction false} XorUndone(a: nat, b: nat)
    ensures Xor(Xor(a, b), b) == a && Xor(a, Xor(a, b)) == b
    decreases a + b
  {
    if a > 0 || b > 0 {
      XorUndone(a / 2, b / 2);
      XorHalves(a, b);
      XorHalves(Xor(a, b), b);
      XorHalves(a, Xor(a, b));
    }
  }

  lemma XorHalves(a: nat, b: nat)
    ensures Xor(a, b) / 2 == Xor(a / 2, b / 2) && Xor(a, b) % 2 == (if a % 2 != b % 2 then 1 else 0)
  {
    if a == 0 && b == 0 { assert Xor(0, 0) == 0; }
  }

  /** The values of the list in the order of the index. */
  function Keys(list: seq<int>, index: seq<int>): (s: seq<int>)
    ensures |s| == |index|
  {
    seq(|index|, k requires 0 <= k < |index| => if 1 <= index[k] <= |list| then list[index[k] - 1] else 0)
  }

  predicate InRange(index: seq<int>, size: nat) {
    forall k :: 0 <= k < |index| ==> 1 <= index[k] <= size
  }

  predicate Sorted(s: seq<int>) {
    forall i, j :: 0 <= i <= j < |s| ==> s[i] <= s[j]
  }

  /** 1, 2, ..., n */
  function Identity(n: nat): (s: seq<int>)
    ensures |s| == n && forall k :: 0 <= k < n ==> s[k] == k + 1
  {
    seq(n, k => k + 1)
  }

  /** gap / 1.3 truncated, with 0 taken as 1, and 9 and 10 as 11. */
  function NextGap(gap: nat): nat {
    var g := gap * 10 / 13;
    if g == 0 then 1 else if g == 9 || g == 10 then 11 else g
  }

  /** The gap falls until it is 1, the detour over 11 included. */
  lemma GapFalls(gap: nat)
    ensures gap > 1 ==> 1 <= NextGap(gap) < gap
    ensures gap <= 1 ==> NextGap(gap) == 1
    ensures 12 <= gap <= 15 ==> NextGap(gap) == 11
    ensures gap > 1 && !(12 <= gap <= 15) ==> 13 * NextGap(gap) <= 10 * gap < 13 * NextGap(gap) + 13
  {
  }

  function CountLess(x: int, s: seq<int>): nat {
    if s == [] then 0 else (if s[0] < x then 1 else 0) + CountLess(x, s[1..])
  }

  /** The pairs that are out of order. */
  function Inversions(s: seq<int>): nat {
    if s == [] then 0 else CountLess(s[0], s[1..]) + Inversions(s[1..])
  }

  function Swap<T>(s: seq<T>, i: nat, j: nat): (r: seq<T>)
    requires i < |s| && j < |s|
    ensures |r| == |s|
  {
    s[i := s[j]][j := s[i]]
  }

  lemma {:induction false} CountLessSwap(x: int, s: seq<int>, k: nat)
    requires k + 1 < |s|
    ensures CountLess(x, Swap(s, k, k + 1)) == CountLess(x, s)
    decreases k
  {
    var r := Swap(s, k, k + 1);
    if k == 0 {
      assert r[1..][1..] == s[1..][1..];
    } else {
      CountLessSwap(x, s[1..], k - 1);
      assert r[1..] == Swap(s[1..], k - 1, k);
    }
  }

  /** Exchanging two neighbours that are out of order removes exactly one inversion. */
  lemma {:induction false} SwapNeighbours(s: seq<int>, k: nat)
    requires k + 1 < |s| && s[k] > s[k + 1]
    ensures Inversions(Swap(s, k, k + 1)) == Inversions(s) - 1
    decreases k
  {
    var r := Swap(s, k, k + 1);
    if k == 0 {
      assert r[1..][1..] == s[1..][1..];
    } else {
      SwapNeighbours(s[1..], k - 1);
      CountLessSwap(s[0], s[1..], k - 1);
      assert r[1..] == Swap(s[1..], k - 1, k);
    }
  }

  lemma SwapSame<T>(s: seq<T>, i: nat, j: nat)
    requires i < |s| && j < |s|
    ensures multiset(Swap(s, i, j)) == multiset(s)
  {
  }

  lemma SwapKeys(list: seq<int>, index: seq<int>, i: nat, j: nat)
    requires i < |index| && j < |index|
    ensures Keys(list, Swap(index, i, j)) == Swap(Keys(list, index), i, j)
  {
  }

  lemma StaysInRange(index: seq<int>, index': seq<int>, size: nat)
    requires InRange(index, size) && multiset(index') == multiset(index)
    ensures InRange(index', size)
  {
    forall k | 0 <= k < |index'|
      ensures 1 <= index'[k] <= size
    {
      assert index'[k] in multiset(index');
      assert index'[k] in multiset(index);
    }
  }

  lemma {:induction false} NeighboursSorted(s: seq<int>, i: int, j: int)
    requires forall k :: 0 <= k < |s| - 1 ==> s[k] <= s[k + 1]
    requires 0 <= i <= j < |s|
    ensures s[i] <= s[j]
    decreases j
  {
    if i < j {
      NeighboursSorted(s, i, j - 1);
      assert s[j - 1] <= s[j - 1 + 1];
    }
  }

  /** The exchange by exclusive or. */
  method XorSwap(index: array<int>, i: nat, j: nat)
    requires i < index.Length && j < index.Length && i != j && index[i] >= 0 && index[j] >= 0
    modifies index
    ensures index[..] == Swap(old(index[..]), i, j)
  {
    hide Xor;
    XorUndone(index[i], index[j]);
    index[i] := Xor(index[i], index[j]);
    index[j] := Xor(index[i], index[j]);
    index[i] := Xor(index[i], index[j]);
    assert index[i] == old(index[j]) && index[j] == old(index[i]) by {
      XorUndone(old(index[j]), old(index[i]));
      XorCommutes(old(index[i]), old(index[j]));
    }
  }

  lemma {:induction false} XorCommutes(a: nat, b: nat)
    ensures Xor(a, b) == Xor(b, a)
    decreases a + b
  {
    if a > 0 || b > 0 { XorCommutes(a / 2, b / 2); }
  }

  /** One pass: values `gap` apart are put in order. */
  method Pass(list: seq<int>, index: array<int>, gap: nat) returns (switches: nat)
    requires gap >= 1 && InRange(index[..], |list|) && |list| == index.Length
    modifies index
    ensures multiset(index[..]) == multiset(old(index[..])) && InRange(index[..], |list|)
    ensures switches == 0 ==> index[..] == old(index[..]) && forall k :: 0 <= k < index.Length - gap ==>
      Keys(list, index[..])[k] <= Keys(list, index[..])[k + gap]
    ensures gap == 1 && switches > 0 ==> Inversions(Keys(list, index[..])) < Inversions(Keys(list, old(index[..])))
  {
    hide Keys, Inversions, Swap;
    ghost var before := index[..];
    switches := 0;
    var top := index.Length - gap;
    var i := 0;
    while i < top
      invariant 0 <= i && (i <= top || i == 0)
      invariant multiset(index[..]) == multiset(before) && InRange(index[..], |list|)
      invariant switches == 0 ==> index[..] == before && forall k :: 0 <= k < i ==>
        Keys(list, before)[k] <= Keys(list, before)[k + gap]
      invariant gap == 1 && switches > 0 ==> Inversions(Keys(list, index[..])) < Inversions(Keys(list, before))
    {
      var j := i + gap;
      KeyAt(list, index[..], i);
      KeyAt(list, index[..], j);
      if list[index[i] - 1] > list[index[j] - 1] {
        ghost var was := index[..];
        SwapSame(was, i, j);
        SwapKeys(list, was, i, j);
        if gap == 1 { SwapNeighbours(Keys(list, was), i); }
        XorSwap(index, i, j);
        StaysInRange(was, index[..], |list|);
        switches := switches + 1;
      }
      i := i + 1;
    }
  }

  lemma KeyAt(list: seq<int>, index: seq<int>, k: nat)
    requires k < |index| && InRange(index, |list|)
    ensures |Keys(list, index)| == |index| && Keys(list, index)[k] == list[index[k] - 1]
  {
  }

  /**
    csorte: index, or 1..size when its first element is not positive, is permuted so that the list is in order through
    it.
   */
  method CSortE(list: seq<int>, index: array<int>)
    requires |list| == index.Length >= 1
    requires index[0] > 0 ==> InRange(index[..], |list|)
    modifies index
    ensures multiset(index[..]) == multiset(if old(index[0]) <= 0 then Identity(|list|) else old(index[..]))
    ensures InRange(index[..], |list|) && Sorted(Keys(list, index[..]))
  {
    hide Keys, Inversions, NextGap;
    var size := index.Length;
    var gap := size;
    if index[0] <= 0 { Initialize(index); }
    ghost var initial := index[..];
    var switches, first := 0, true;
    while first || switches > 0 || gap > 1
      invariant gap >= 1 && switches >= 0 && InRange(index[..], |list|) && multiset(index[..]) == multiset(initial)
      invariant !first && switches == 0 && gap == 1 ==> forall k :: 0 <= k < size - 1 ==>
        Keys(list, index[..])[k] <= Keys(list, index[..])[k + 1]
      decreases gap, Inversions(Keys(list, index[..])), if first || switches > 0 then 1 else 0
    {
      GapFalls(gap);
      gap := NextGap(gap);
      switches := Pass(list, index, gap);
      first := false;
    }
    KeyAt(list, index[..], 0);
    ghost var s := Keys(list, index[..]);
    forall i, j | 0 <= i <= j < |s| ensures s[i] <= s[j] { NeighboursSorted(s, i, j); }
  }

  method Initialize(index: array<int>)
    modifies index
    ensures index[..] == Identity(index.Length)
  {
    var i := 0;
    while i < index.Length
      invariant 0 <= i <= index.Length && forall k :: 0 <= k < i ==> index[k] == k + 1
    {
      index[i] := i + 1;
      i := i + 1;
    }
  }

  /** ipsorti: the index of a list, from scratch. */
  method IpSortI(list: seq<int>, index: array<int>)
    requires |list| == index.Length >= 1
    modifies index
    ensures multiset(index[..]) == multiset(Identity(|list|)) && InRange(index[..], |list|)
      && Sorted(Keys(list, index[..]))
  {
    hide Keys;
    index[0] := -1;
    CSortE(list, index);
  }
}
