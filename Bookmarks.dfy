/** The bookmark list: question ids the user has starred, toggled one at a
    time by removing the first occurrence or appending at the end. */
module Bookmarks {
  import opened Seqs

  /** Array.prototype.indexOf: the first position of x in s, or -1. */
  function IndexOf<T(==)>(s: seq<T>, x: T): (r: int)
    ensures -1 <= r < |s|
    ensures r == -1 <==> x !in s
    ensures r >= 0 ==> s[r] == x && forall k :: 0 <= k < r ==> s[k] != x
  {
    if s == [] then -1
    else if s[0] == x then 0
    else
      var r := IndexOf(s[1..], x);
      if r == -1 then -1 else r + 1
  }

  /** The list after a toggle of x: its first occurrence spliced out when
      present, otherwise x pushed at the end. */
  function Toggled<T(==)>(b: seq<T>, x: T): seq<T> {
    var i := IndexOf(b, x);
    if i >= 0 then b[..i] + b[i + 1..] else b + [x]
  }

  /** A toggle removes one copy of x when there is one and adds one when
      there is none, at the end; nothing else is added or removed. */
  lemma ToggleMultiset<T>(b: seq<T>, x: T)
    ensures x in b ==> multiset(Toggled(b, x)) == multiset(b) - multiset{x}
    ensures x !in b ==> Toggled(b, x) == b + [x]
  {
    var i := IndexOf(b, x);
    if i >= 0 {
      assert b == b[..i] + [x] + b[i + 1..];
      assert multiset(b) == multiset(b[..i]) + multiset{x} + multiset(b[i + 1..]);
    }
  }

  /** The other entries keep their relative order. */
  lemma ToggleKeepsOrder<T>(b: seq<T>, x: T)
    ensures Without(Toggled(b, x), x) == Without(b, x)
  {
    var i := IndexOf(b, x);
    assert Without([x], x) == [];
    if i >= 0 {
      var pre, post := b[..i], b[i + 1..];
      assert b == (pre + [x]) + post;
      WithoutAppend(pre + [x], post, x);
      WithoutAppend(pre, [x], x);
      WithoutAppend(pre, post, x);
      assert Toggled(b, x) == pre + post;
    } else {
      WithoutAppend(b, [x], x);
      assert Toggled(b, x) == b + [x];
    }
  }

  /** On a list without duplicates the toggle flips whether x is bookmarked
      and leaves every other id's membership alone. */
  lemma ToggleMembership<T>(b: seq<T>, x: T)
    requires NoDup(b)
    ensures x in Toggled(b, x) <==> x !in b
    ensures forall y :: y != x ==> (y in Toggled(b, x) <==> y in b)
  {
    var i := IndexOf(b, x);
    var r := Toggled(b, x);
    if i >= 0 {
      assert r == b[..i] + b[i + 1..];
      forall k | 0 <= k < |r| ensures r[k] != x {
        var k' := if k < i then k else k + 1;
        assert r[k] == b[k'];
      }
      forall y | y != x ensures y in r <==> y in b {
        if y in b {
          var k :| 0 <= k < |b| && b[k] == y;
          assert r[if k < i then k else k - 1] == y;
        }
      }
    }
  }

  /** The toggle keeps the list free of duplicates. */
  lemma ToggleKeepsNoDup<T>(b: seq<T>, x: T)
    requires NoDup(b)
    ensures NoDup(Toggled(b, x))
  {
    var i := IndexOf(b, x);
    var r := Toggled(b, x);
    if i >= 0 {
      forall k, l | 0 <= k < l < |r| ensures r[k] != r[l] {
        var k' := if k < i then k else k + 1;
        var l' := if l < i then l else l + 1;
        assert r[k] == b[k'] && r[l] == b[l'];
      }
    }
  }

  /** Two toggles of an id restore whether it is bookmarked. */
  lemma ToggleTwiceMembership<T>(b: seq<T>, x: T)
    requires NoDup(b)
    ensures NoDup(Toggled(Toggled(b, x), x))
    ensures forall y :: y in Toggled(Toggled(b, x), x) <==> y in b
  {
    ToggleMembership(b, x);
    ToggleKeepsNoDup(b, x);
    ToggleMembership(Toggled(b, x), x);
    ToggleKeepsNoDup(Toggled(b, x), x);
  }

  /** Starring and unstarring an id that was not bookmarked gives back exactly
      the list it started from. */
  lemma ToggleTwiceAbsent<T>(b: seq<T>, x: T)
    requires x !in b
    ensures Toggled(Toggled(b, x), x) == b
  {
    var once := b + [x];
    assert IndexOf(b, x) == -1;
    assert IndexOf(once, x) == |b| by {
      assert once[|b|] == x;
      assert forall k :: 0 <= k < |b| ==> once[k] != x;
    }
    assert once[..|b|] == b;
  }

  /** Unstarring and restarring a bookmarked id moves it to the end. */
  lemma ToggleTwicePresent<T>(b: seq<T>, x: T)
    requires NoDup(b) && x in b
    ensures Toggled(Toggled(b, x), x) == Without(b, x) + [x]
  {
    ToggleMembership(b, x);
    var once := Toggled(b, x);
    assert IndexOf(once, x) == -1;
    var i := IndexOf(b, x);
    forall k | 0 <= k < |once| ensures once[k] != x {
      var k' := if k < i then k else k + 1;
      assert once[k] == b[k'];
    }
    WithoutAbsent(once, x);
    ToggleKeepsOrder(b, x);
  }

  lemma {:induction false} WithoutAbsent<T>(s: seq<T>, x: T)
    requires x !in s
    ensures Without(s, x) == s
  {
    if s != [] {
      WithoutAbsent(s[1..], x);
      assert [s[0]] + s[1..] == s;
    }
  }
}
