/** Python list operations the servers use: membership without
    duplicates, and `list.remove(x)` (which also models deleting a key from
    an insertion-ordered dict). */
module Seqs {

  predicate NoDup<T(==,!new)>(s: seq<T>) {
    forall i, j :: 0 <= i < j < |s| ==> s[i] != s[j]
  }

  /** Two lists without repeats and with no element in common join into
      one without repeats. */
  lemma NoDupAppend<T(!new)>(a: seq<T>, b: seq<T>)
    requires NoDup(a) && NoDup(b)
    requires forall x :: x in a ==> x !in b
    ensures NoDup(a + b)
  {
    forall i, j | 0 <= i < j < |a + b|
      ensures (a + b)[i] != (a + b)[j]
    {
      if j >= |a| && i < |a| {
        assert (a + b)[i] in a && (a + b)[j] == b[j - |a|];
      }
    }
  }

  /** Index of the first `x` in `s`, or `|s|` when `x` is absent. */
  function IndexOf<T(==,!new)>(s: seq<T>, x: T): (i: nat)
    ensures i <= |s|
    ensures i < |s| ==> s[i] == x
    ensures i == |s| <==> x !in s
    ensures forall j :: 0 <= j < i ==> s[j] != x
    decreases |s|
  {
    if s == [] then 0 else if s[0] == x then 0 else 1 + IndexOf(s[1..], x)
  }

  /** `s.remove(x)` when `x` is present, `s` unchanged otherwise (the
      membership test the callers make before removing). The first
      occurrence goes, the order of the rest is kept, and without
      duplicates `x` is gone altogether. */
  function RemoveFirst<T(==,!new)>(s: seq<T>, x: T): (r: seq<T>)
    ensures x !in s ==> r == s
    ensures x in s ==> |r| == |s| - 1
    ensures x in s ==> r == s[..IndexOf(s, x)] + s[IndexOf(s, x) + 1..]
    ensures multiset(r) == multiset(s) - multiset{x}
    ensures forall y :: y != x ==> (y in r <==> y in s)
    ensures NoDup(s) ==> NoDup(r) && x !in r
  {
    var i := IndexOf(s, x);
    if i == |s| then
      assert multiset(s)[x] == 0;
      s
    else
      var r := s[..i] + s[i + 1..];
      assert s[i] == x by {
        assert x in s;
      }
      RemoveAtFacts(s, i);
      assert |r| == |s| - 1;
      r
  }

  /** Dropping the element at `i`: one fewer of it, every other value
      kept, and no repeats introduced. */
  lemma RemoveAtFacts<T(!new)>(s: seq<T>, i: nat)
    requires i < |s|
    ensures var r := s[..i] + s[i + 1..];
            && multiset(r) == multiset(s) - multiset{s[i]}
            && (forall y :: y != s[i] ==> (y in r <==> y in s))
            && (NoDup(s) ==> NoDup(r) && s[i] !in r)
  {
    var r := s[..i] + s[i + 1..];
    assert multiset(r) == multiset(s) - multiset{s[i]} by {
      assert s == s[..i] + [s[i]] + s[i + 1..];
      assert multiset(s) == multiset(s[..i]) + multiset{s[i]} + multiset(s[i + 1..]);
    }
    assert forall y :: y in r <==> y in s[..i] || y in s[i + 1..];
    assert forall y :: y in s <==> y in s[..i] || y == s[i] || y in s[i + 1..] by {
      assert s == s[..i] + [s[i]] + s[i + 1..];
    }
    RemoveAtNoDup(s, i);
  }

  lemma RemoveAtNoDup<T(!new)>(s: seq<T>, i: nat)
    requires i < |s|
    ensures NoDup(s) ==> NoDup(s[..i] + s[i + 1..]) && s[i] !in s[..i] + s[i + 1..]
  {
    var r := s[..i] + s[i + 1..];
    if NoDup(s) {
      forall a, b | 0 <= a < b < |r|
        ensures r[a] != r[b]
      {
        var a' := if a < i then a else a + 1;
        var b' := if b < i then b else b + 1;
        assert r[a] == s[a'] && r[b] == s[b'];
      }
      forall k | 0 <= k < |r|
        ensures r[k] != s[i]
      {
        var k' := if k < i then k else k + 1;
        assert r[k] == s[k'];
      }
    }
  }
}
