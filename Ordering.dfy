/** The order sequencer: the traversal order over the filtered set, either
    [0, 1, ..., n-1] or that list shuffled in place by Fisher-Yates. */
module Ordering {
  import opened Seqs

  /** The draws of Math.random: at step i the shuffle swaps position i with
      position pick(i), which Math.floor(Math.random() * (i + 1)) keeps
      within 0..i. */
  ghost predicate ValidPick(pick: nat -> nat) {
    forall i: nat :: pick(i) <= i
  }

  /** [0, 1, ..., n-1]. */
  function Iota(n: nat): (r: seq<nat>)
    ensures |r| == n
    ensures forall i :: 0 <= i < n ==> r[i] == i
  {
    seq(n, i requires 0 <= i < n => i)
  }

  function Swap<T>(s: seq<T>, i: nat, j: nat): (r: seq<T>)
    requires i < |s| && j < |s|
    ensures |r| == |s|
  {
    s[i := s[j]][j := s[i]]
  }

  /** The Fisher-Yates steps i, i-1, ..., 1 applied to s. */
  function Steps<T>(s: seq<T>, pick: nat -> nat, i: int): (r: seq<T>)
    requires ValidPick(pick)
    requires i < |s|
    ensures |r| == |s|
    decreases i
  {
    if i <= 0 then s else Steps(Swap(s, i, pick(i)), pick, i - 1)
  }

  /** What the shuffle leaves in an array that held s. */
  function FisherYates<T>(s: seq<T>, pick: nat -> nat): seq<T>
    requires ValidPick(pick)
  {
    Steps(s, pick, |s| - 1)
  }

  /** The in-place shuffle: for i from the last index down to 1, swap a[i]
      with a[pick(i)]. */
  method Shuffle<T>(a: array<T>, pick: nat -> nat)
    requires ValidPick(pick)
    modifies a
    ensures a[..] == FisherYates(old(a[..]), pick)
  {
    var i := a.Length - 1;
    while i > 0
      invariant -1 <= i < a.Length
      invariant a.Length > 0 ==> 0 <= i
      invariant Steps(a[..], pick, i) == FisherYates(old(a[..]), pick)
      decreases i
    {
      var j := pick(i);
      ghost var before := a[..];
      a[i], a[j] := a[j], a[i];
      assert a[..] == Swap(before, i, j);
      i := i - 1;
    }
  }

  /** A swap rearranges: same elements with the same multiplicities. */
  lemma SwapPermutes<T>(s: seq<T>, i: nat, j: nat)
    requires i < |s| && j < |s|
    ensures multiset(Swap(s, i, j)) == multiset(s)
  {
    var t := s[i := s[j]];
    assert multiset(t) == multiset(s) - multiset{s[i]} + multiset{s[j]};
    assert multiset(t[j := s[i]]) == multiset(t) - multiset{t[j]} + multiset{s[i]};
  }

  /** Every run of the shuffle yields a permutation of its input. */
  lemma {:induction false} StepsPermutes<T>(s: seq<T>, pick: nat -> nat, i: int)
    requires ValidPick(pick)
    requires i < |s|
    ensures multiset(Steps(s, pick, i)) == multiset(s)
    decreases i
  {
    if i > 0 {
      SwapPermutes(s, i, pick(i));
      StepsPermutes(Swap(s, i, pick(i)), pick, i - 1);
    }
  }

  lemma FisherYatesPermutes<T>(s: seq<T>, pick: nat -> nat)
    requires ValidPick(pick)
    ensures |FisherYates(s, pick)| == |s|
    ensures multiset(FisherYates(s, pick)) == multiset(s)
  {
    StepsPermutes(s, pick, |s| - 1);
  }

  /** o lists every position of an n-element list exactly once: n entries,
      each below n, none repeated. */
  predicate IsPermutationOf(o: seq<nat>, n: nat) {
    && |o| == n
    && (forall k :: 0 <= k < |o| ==> o[k] < n)
    && NoDup(o)
  }

  /** A rearrangement of [0, ..., n-1] lists every position exactly once. */
  lemma PermutationBounds(o: seq<nat>, n: nat)
    requires multiset(o) == multiset(Iota(n))
    ensures IsPermutationOf(o, n)
  {
    assert |multiset(o)| == |o| && |multiset(Iota(n))| == n;
    forall k | 0 <= k < |o| ensures o[k] < n {
      assert o[k] in multiset(Iota(n));
    }
    forall k, l | 0 <= k < l < |o| ensures o[k] != o[l] {
      var x := o[k];
      IotaOnce(n, x);
      var rest := o[..k] + o[k + 1..];
      assert o == o[..k] + [x] + o[k + 1..];
      assert multiset(o)[x] == multiset(rest)[x] + 1;
      assert rest[l - 1] == o[l];
      assert o[l] in multiset(rest);
    }
  }

  lemma {:induction false} IotaOnce(n: nat, x: nat)
    requires x < n
    ensures multiset(Iota(n))[x] == 1
  {
    if n > 1 && x < n - 1 {
      IotaOnce(n - 1, x);
      assert Iota(n) == Iota(n - 1) + [n - 1];
    } else if n > 1 {
      assert Iota(n) == Iota(n - 1) + [n - 1];
      assert x !in Iota(n - 1);
    } else {
      assert Iota(n) == [0];
    }
  }

  /** The order a rebuild, a filter change or a reshuffle installs. */
  function OrderFor(n: nat, shuffled: bool, pick: nat -> nat): (r: seq<nat>)
    requires ValidPick(pick)
    ensures multiset(r) == multiset(Iota(n)) && IsPermutationOf(r, n)
    ensures !shuffled ==> r == Iota(n)
  {
    var r := if shuffled then FisherYatesPermutes(Iota(n), pick); FisherYates(Iota(n), pick) else Iota(n);
    PermutationBounds(r, n);
    r
  }

  /** A fresh array holding [0..n), shuffled in place when asked. */
  method NewOrder(n: nat, shuffled: bool, pick: nat -> nat) returns (a: array<nat>)
    requires ValidPick(pick)
    ensures fresh(a)
    ensures a[..] == OrderFor(n, shuffled, pick)
  {
    a := new nat[n](i requires 0 <= i < n => i);
    assert a[..] == Iota(n);
    if shuffled {
      Shuffle(a, pick);
    }
  }

  /** The shuffle never moves an entry behind the step it has reached: the
      steps i, ..., 1 leave positions above i alone, and step i fixes
      position i for good. */
  lemma {:induction false} StepsFixesTail<T>(s: seq<T>, pick: nat -> nat, i: int, k: int)
    requires ValidPick(pick)
    requires 0 <= k < |s| && i < k
    ensures Steps(s, pick, i)[k] == s[k]
    decreases i
  {
    if i > 0 {
      StepsFixesTail(Swap(s, i, pick(i)), pick, i - 1, k);
    }
  }

  /** Different draws give different orders: on a list of distinct entries,
      two runs of the steps i, ..., 1 agree only when their draws agree at
      every step. Since the draws at step k range over k + 1 values, the n!
      draw sequences give n! different orders, each of them once. */
  lemma {:induction false} StepsInjective<T>(s: seq<T>, p1: nat -> nat, p2: nat -> nat, i: int)
    requires ValidPick(p1) && ValidPick(p2)
    requires i < |s|
    requires NoDup(s)
    requires Steps(s, p1, i) == Steps(s, p2, i)
    ensures forall k: nat :: 1 <= k <= i ==> p1(k) == p2(k)
    decreases i
  {
    if i > 0 {
      var s1 := Swap(s, i, p1(i));
      var s2 := Swap(s, i, p2(i));
      StepsFixesTail(s1, p1, i - 1, i);
      StepsFixesTail(s2, p2, i - 1, i);
      assert s1[i] == s[p1(i)] && s2[i] == s[p2(i)];
      assert p1(i) == p2(i);
      SwapKeepsDistinct(s, i, p1(i));
      StepsInjective(s1, p1, p2, i - 1);
    }
  }

  lemma SwapKeepsDistinct<T>(s: seq<T>, i: nat, j: nat)
    requires i < |s| && j < |s|
    requires NoDup(s)
    ensures NoDup(Swap(s, i, j))
  {
  }
}
