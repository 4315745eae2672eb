/** Vocabulary shared by the edge-set and graph models: ordering predicates on
    sequences of node ids, the canonical ascending enumeration of a finite id
    set, and the two library routines graph.go relies on (sort.SearchInts and
    sort.Ints), each given by the contract the Go library documents. */
module SortedSeqs {

  /** Non-decreasing: what sort.SearchInts needs and what sort.Ints produces. */
  ghost predicate Ascending(s: seq<int>) {
    forall i, j :: 0 <= i < j < |s| ==> s[i] <= s[j]
  }

  /** Strictly increasing, hence duplicate-free: the EdgeSet invariant. */
  ghost predicate StrictlyAscending(s: seq<int>) {
    forall i, j :: 0 <= i < j < |s| ==> s[i] < s[j]
  }

  /** No id occurs twice. Stated on the multiset so that it is invariant under
      permutation. */
  ghost predicate NoDuplicates(s: seq<int>) {
    forall x :: multiset(s)[x] <= 1
  }

  /** The ids a sequence holds, forgetting order and multiplicity. */
  ghost function Elements(s: seq<int>): set<int> {
    set x | x in s
  }

  /** A non-empty set has a member. */
  lemma NonEmptyHasMember(S: set<int>)
    requires S != {}
    ensures exists x :: x in S
  {
    if forall x :: x !in S {
      assert false;
    }
  }

  /** Some id of a non-empty set. */
  ghost function Pick(S: set<int>): (x: int)
    requires S != {}
    ensures x in S
  {
    NonEmptyHasMember(S);
    var x :| x in S; x
  }

  /** The least id of a non-empty finite set. */
  ghost function Min(S: set<int>): (m: int)
    requires S != {}
    ensures m in S
    ensures forall y :: y in S ==> m <= y
  {
    var x := Pick(S);
    var rest := S - {x};
    if rest == {} then
      assert S == {x};
      x
    else
      var r := Min(rest);
      assert forall y :: y in S ==> y == x || y in rest;
      if x < r then x else r
  }

  /** Putting the least id of S in front of a strictly ascending sequence of
      the other ids gives a strictly ascending sequence holding exactly S. */
  lemma PrependLeast(S: set<int>, m: int, rest: seq<int>)
    requires m in S && forall y :: y in S ==> m <= y
    requires StrictlyAscending(rest) && Elements(rest) == S - {m}
    ensures StrictlyAscending([m] + rest)
    ensures Elements([m] + rest) == S
  {
    var s := [m] + rest;
    forall i, j | 0 <= i < j < |s| ensures s[i] < s[j] {
      assert s[j] == rest[j - 1] && rest[j - 1] in Elements(rest);
      if i > 0 {
        assert s[i] == rest[i - 1];
      }
    }
    assert Elements(s) == Elements(rest) + {m};
  }

  /** Every finite id set has a strictly ascending enumeration: its least id
      followed by an enumeration of the others. */
  lemma {:induction false} EnumerationExists(S: set<int>)
    ensures exists s :: StrictlyAscending(s) && Elements(s) == S
    decreases |S|
  {
    if S == {} {
      assert StrictlyAscending([]) && Elements([]) == S;
    } else {
      var m := Min(S);
      EnumerationExists(S - {m});
      var rest :| StrictlyAscending(rest) && Elements(rest) == S - {m};
      PrependLeast(S, m, rest);
    }
  }

  /** Dropping the head of a strictly ascending sequence removes exactly its
      least element. */
  lemma DropLeast(s: seq<int>)
    requires StrictlyAscending(s) && s != []
    ensures Elements(s[1..]) == Elements(s) - {s[0]}
    ensures Elements(s) != {} && Min(Elements(s)) == s[0]
  {
    assert s[0] in Elements(s);
    assert s == [s[0]] + s[1..];
    assert s[0] !in s[1..];
  }

  /** Dropping the last entry of a strictly ascending sequence leaves one,
      and that entry occurs nowhere before it. */
  lemma DropGreatest(s: seq<int>)
    requires StrictlyAscending(s) && s != []
    ensures StrictlyAscending(s[..|s| - 1])
    ensures s[|s| - 1] !in s[..|s| - 1]
    ensures s == s[..|s| - 1] + [s[|s| - 1]]
  {
  }

  /** A strictly ascending sequence is determined by its elements. */
  lemma {:induction false} EnumerationUnique(s: seq<int>, t: seq<int>)
    requires StrictlyAscending(s) && StrictlyAscending(t)
    requires Elements(s) == Elements(t)
    ensures s == t
  {
    StrictCardinality(s);
    StrictCardinality(t);
    if s != [] {
      DropLeast(s);
      DropLeast(t);
      EnumerationUnique(s[1..], t[1..]);
      assert s == [s[0]] + s[1..] && t == [t[0]] + t[1..];
    }
  }

  /** A strictly ascending sequence has as many elements as its length. */
  lemma {:induction false} StrictCardinality(s: seq<int>)
    requires StrictlyAscending(s)
    ensures |Elements(s)| == |s|
  {
    if s != [] {
      DropLeast(s);
      StrictCardinality(s[1..]);
    }
  }

  /** The strictly ascending sequence whose elements are exactly S: the
      abstract value every EdgeSet operation is specified against. */
  ghost function Canonical(S: set<int>): (s: seq<int>)
    ensures StrictlyAscending(s)
    ensures Elements(s) == S
  {
    EnumerationExists(S);
    var s :| StrictlyAscending(s) && Elements(s) == S;
    s
  }

  /** Canonical(S) is the only strictly ascending sequence holding S. */
  lemma CanonicalOf(s: seq<int>)
    requires StrictlyAscending(s)
    ensures Canonical(Elements(s)) == s
  {
    EnumerationUnique(Canonical(Elements(s)), s);
  }

  /** A strictly ascending sequence has as many elements as its length. */
  lemma CardinalityOf(s: seq<int>)
    ensures StrictlyAscending(s) ==> |Elements(s)| == |s|
  {
    if StrictlyAscending(s) {
      StrictCardinality(s);
    }
  }

  /** In a strictly ascending sequence an id occurs at most once. */
  lemma {:induction false} CountInStrict(s: seq<int>, x: int)
    requires StrictlyAscending(s)
    ensures multiset(s)[x] == if x in s then 1 else 0
  {
    if s != [] {
      assert s == [s[0]] + s[1..];
      assert multiset(s) == multiset{s[0]} + multiset(s[1..]);
      CountInStrict(s[1..], x);
      assert s[0] !in s[1..];
    }
  }

  /** Two equal entries make an id occur at least twice. */
  lemma RepeatedEntry(s: seq<int>, i: nat, j: nat)
    requires i < j < |s| && s[i] == s[j]
    ensures multiset(s)[s[i]] >= 2
  {
    assert s == s[..j] + s[j..];
    assert multiset(s) == multiset(s[..j]) + multiset(s[j..]);
    assert s[..j][i] == s[i];
    assert s[j..][0] == s[i];
  }

  /** An ascending sequence is strictly ascending exactly when it has no
      duplicates. */
  lemma StrictIffNoDuplicates(s: seq<int>)
    requires Ascending(s)
    ensures StrictlyAscending(s) <==> NoDuplicates(s)
  {
    if StrictlyAscending(s) {
      forall x ensures multiset(s)[x] <= 1 { CountInStrict(s, x); }
    } else {
      var i, j :| 0 <= i < j < |s| && s[i] >= s[j];
      RepeatedEntry(s, i, j);
    }
  }

  /** Binary search on the half-open window [lo, hi), as sort.Search does:
      the first index in the window whose element is at least x. */
  function SearchWindow(s: seq<int>, x: int, lo: nat, hi: nat): (i: nat)
    requires Ascending(s)
    requires lo <= hi <= |s|
    requires forall k :: 0 <= k < lo ==> s[k] < x
    requires forall k :: hi <= k < |s| ==> x <= s[k]
    ensures lo <= i <= hi
    ensures forall k :: 0 <= k < i ==> s[k] < x
    ensures forall k :: i <= k < |s| ==> x <= s[k]
    decreases hi - lo
  {
    if lo == hi then lo
    else
      var h := (lo + hi) / 2;
      if s[h] < x then SearchWindow(s, x, h + 1, hi) else SearchWindow(s, x, lo, h)
  }

  /** sort.SearchInts: the lower bound of x in an ascending sequence, i.e. the
      index at which x would be inserted. */
  function SearchInts(s: seq<int>, x: int): (i: nat)
    requires Ascending(s)
    ensures i <= |s|
    ensures forall k :: 0 <= k < i ==> s[k] < x
    ensures forall k :: i <= k < |s| ==> x <= s[k]
  {
    SearchWindow(s, x, 0, |s|)
  }

  /** Putting x between the entries below it and the entries not below it
      keeps an ascending sequence ascending and adds exactly x. */
  lemma InsertAtLowerBound(s: seq<int>, x: int, k: nat)
    requires Ascending(s) && k <= |s|
    requires forall i :: 0 <= i < k ==> s[i] < x
    requires forall i :: k <= i < |s| ==> x <= s[i]
    ensures Ascending(s[..k] + [x] + s[k..])
    ensures multiset(s[..k] + [x] + s[k..]) == multiset(s) + multiset{x}
  {
    var r := s[..k] + [x] + s[k..];
    forall i, j | 0 <= i < j < |r| ensures r[i] <= r[j] {
      if j < k {
        assert r[i] == s[i] && r[j] == s[j];
      } else if j == k {
        assert r[i] == s[i] && r[j] == x;
      } else if i < k {
        assert r[i] == s[i] && r[j] == s[j - 1];
      } else if i == k {
        assert r[i] == x && r[j] == s[j - 1];
      } else {
        assert r[i] == s[i - 1] && r[j] == s[j - 1];
      }
    }
    assert s == s[..k] + s[k..];
    assert multiset(r) == multiset(s[..k]) + multiset{x} + multiset(s[k..]);
  }

  /** Inserts x at its lower bound, keeping the sequence ascending. */
  function InsertOrdered(s: seq<int>, x: int): (r: seq<int>)
    requires Ascending(s)
    ensures Ascending(r)
    ensures multiset(r) == multiset(s) + multiset{x}
  {
    var k := SearchInts(s, x);
    InsertAtLowerBound(s, x, k);
    s[..k] + [x] + s[k..]
  }

  /** sort.Ints, given by its contract: an ascending permutation of s. */
  function SortInts(s: seq<int>): (r: seq<int>)
    ensures Ascending(r)
    ensures multiset(r) == multiset(s)
  {
    if s == [] then []
    else
      assert s == [s[0]] + s[1..];
      InsertOrdered(SortInts(s[1..]), s[0])
  }

  /** An id no greater than the head of an ascending sequence is inserted
      in front of it. */
  lemma InsertInFront(t: seq<int>, x: int)
    requires Ascending(t) && (t != [] ==> x <= t[0])
    ensures InsertOrdered(t, x) == [x] + t
  {
    assert SearchInts(t, x) == 0;
    assert t[..0] + [x] + t[0..] == [x] + t;
  }

  /** Sorting an already ascending sequence leaves it as it is. */
  lemma {:induction false} SortAscendingIsIdentity(s: seq<int>)
    requires Ascending(s)
    ensures SortInts(s) == s
  {
    if s != [] {
      var t := s[1..];
      assert s == [s[0]] + t;
      SortAscendingIsIdentity(t);
      InsertInFront(t, s[0]);
    }
  }

  /** The sorted permutation of s is strictly ascending exactly when s has no
      duplicates. */
  lemma SortStrictIffNoDuplicates(s: seq<int>)
    ensures StrictlyAscending(SortInts(s)) <==> NoDuplicates(s)
  {
    StrictIffNoDuplicates(SortInts(s));
  }
}
