/** The EdgeSet of graph.go: the neighbour ids of one node, kept as a strictly
    ascending sequence. Every state change is specified against
    Canonical(S), the unique strictly ascending enumeration of an id set, so
    that each operation's effect is stated on the set of members. */
module EdgeSets {
  import opened SortedSeqs

  /** maxInt: the larger of two ints. */
  function MaxInt(a: int, b: int): (m: int)
    ensures m >= a && m >= b
    ensures m == a || m == b
  {
    if a > b then a else b
  }

  /** intSliceInsert: opens a slot at idx and puts v there. An idx past the
      end is a panic in the source, hence a precondition here. */
  method IntSliceInsert(s: seq<int>, v: int, idx: nat) returns (r: seq<int>)
    requires idx <= |s|
    ensures r == s[..idx] + [v] + s[idx..]
  {
    if idx == 0 {
      var preamble := [v];
      if |s| == 0 {
        return preamble;
      }
      assert s[..0] + [v] + s[0..] == preamble + s;
      return preamble + s;
    }
    if idx == |s| {
      assert s[..idx] == s && s[idx..] == [];
      return s + [v];
    }
    r := s[..idx + 1] + s[idx..];
    r := r[idx := v];
    assert r == s[..idx] + [v] + s[idx..] by {
      assert s[..idx + 1] == s[..idx] + [s[idx]];
    }
  }

  /** Putting x into the gap between the ids below it and the ids above it
      gives the canonical sequence of the enlarged set; x was absent, and at
      the end of the sequence the insertion is an append. */
  lemma InsertInGap(s: seq<int>, x: int, k: nat)
    requires StrictlyAscending(s) && k <= |s|
    requires forall i :: 0 <= i < k ==> s[i] < x
    requires forall i :: k <= i < |s| ==> x < s[i]
    ensures x !in s
    ensures s[..k] + [x] + s[k..] == Canonical(Elements(s) + {x})
    ensures k == |s| ==> s[..k] + [x] + s[k..] == s + [x]
  {
    assert x !in s by {
      forall i | 0 <= i < |s| ensures s[i] != x {
        if i < k { assert s[i] < x; } else { assert x < s[i]; }
      }
    }
    var r := s[..k] + [x] + s[k..];
    GapAscending(s, x, k);
    assert s == s[..k] + s[k..];
    assert Elements(r) == Elements(s) + {x};
    CanonicalOf(r);
    if k == |s| {
      assert s[..k] == s && s[k..] == [];
    }
  }

  lemma GapAscending(s: seq<int>, x: int, k: nat)
    requires StrictlyAscending(s) && k <= |s|
    requires forall i :: 0 <= i < k ==> s[i] < x
    requires forall i :: k <= i < |s| ==> x < s[i]
    ensures StrictlyAscending(s[..k] + [x] + s[k..])
  {
    var r := s[..k] + [x] + s[k..];
    assert forall m :: 0 <= m < k ==> r[m] == s[m];
    assert forall m :: k < m < |r| ==> r[m] == s[m - 1];
  }

  /** Adding an id that is already present leaves the canonical sequence as it
      is. */
  lemma AddPresent(s: seq<int>, x: int)
    requires StrictlyAscending(s) && x in s
    ensures s == Canonical(Elements(s) + {x})
  {
    assert Elements(s) + {x} == Elements(s);
    CanonicalOf(s);
  }

  /** make([]int, n): a buffer of n zeroes. */
  function Zeroes(n: nat): (z: seq<int>)
    ensures |z| == n
  {
    seq(n, _ => 0)
  }

  /** Growing the output buffer of MergeReplace (append of a zeroed slice):
      the filled part, the first used slots, survives unchanged. */
  function Grow(buf: seq<int>, extendo: seq<int>, ghost used: nat): (grown: seq<int>)
    requires used <= |buf|
    ensures |grown| == |buf| + |extendo|
    ensures grown[..used] == buf[..used]
  {
    buf + extendo
  }

  /** outSet[outIdx] = v: writing the slot just past the filled part extends
      the filled part by v. */
  function Put(buf: seq<int>, i: nat, v: int): (r: seq<int>)
    requires i < |buf|
    ensures |r| == |buf|
    ensures r[..i + 1] == buf[..i] + [v]
  {
    buf[i := v]
  }

  /** The last id of out, if any, lies below s[i] (when s has an i-th id). */
  ghost predicate Below(out: seq<int>, s: seq<int>, i: nat) {
    out != [] && i < |s| ==> out[|out| - 1] < s[i]
  }

  /** Appending an id above every id of a strictly ascending sequence keeps it
      strictly ascending and adds exactly that id. */
  lemma AppendAbove(out: seq<int>, v: int)
    requires StrictlyAscending(out)
    requires out != [] ==> out[|out| - 1] < v
    ensures StrictlyAscending(out + [v])
    ensures Elements(out + [v]) == Elements(out) + {v}
  {
  }

  /** Scanning one more entry adds exactly that entry's id. */
  lemma PrefixGrows(s: seq<int>, i: nat)
    requires i < |s|
    ensures Elements(s[..i + 1]) == Elements(s[..i]) + {s[i]}
  {
    assert s[..i + 1] == s[..i] + [s[i]];
  }

  /** How the scanned prefix of a strictly ascending sequence grows by one. */
  lemma PrefixStep(s: seq<int>, i: nat)
    requires StrictlyAscending(s) && i < |s|
    ensures Elements(s[..i + 1]) == Elements(s[..i]) + {s[i]}
    ensures s[i] !in Elements(s[..i])
    ensures forall x :: x in Elements(s) && x < s[i] ==> x in Elements(s[..i])
  {
    PrefixGrows(s, i);
    forall x | x in Elements(s) && x < s[i] ensures x in Elements(s[..i]) {
      var k :| 0 <= k < |s| && s[k] == x;
      assert s[..i][k] == x;
    }
  }

  /** A scanned prefix holds only ids of the whole sequence, and the whole
      prefix is the sequence. */
  lemma PrefixElements(s: seq<int>, i: nat)
    requires i <= |s|
    ensures Elements(s[..i]) <= Elements(s)
    ensures i == |s| ==> Elements(s[..i]) == Elements(s)
  {
    assert s[..|s|] == s;
  }

  /** Progress of the two-cursor intersection: out is strictly ascending and
      holds the ids common to the scanned prefixes, its last id lies below both
      cursors, and an id of one scanned prefix that occurs in the other input
      at all has already been passed in that input too. */
  ghost predicate IntersectedPrefix(out: seq<int>, s: seq<int>, o: seq<int>, si: nat, oi: nat)
    requires si <= |s| && oi <= |o|
  {
    && StrictlyAscending(out)
    && Elements(out) == Elements(s[..si]) * Elements(o[..oi])
    && Below(out, s, si) && Below(out, o, oi)
    && Elements(s[..si]) * Elements(o) <= Elements(o[..oi])
    && Elements(o[..oi]) * Elements(s) <= Elements(s[..si])
  }

  /** Step of Intersection when s[si] < o[oi]: s[si] occurs nowhere in o, so
      the cursor on s advances with out unchanged. */
  lemma IntersectSkip(out: seq<int>, s: seq<int>, o: seq<int>, si: nat, oi: nat)
    requires StrictlyAscending(s) && StrictlyAscending(o)
    requires si < |s| && oi < |o| && s[si] < o[oi]
    requires IntersectedPrefix(out, s, o, si, oi)
    ensures IntersectedPrefix(out, s, o, si + 1, oi)
  {
    PrefixStep(s, si);
    PrefixStep(o, oi);
    assert s[si] in Elements(s);
    assert s[si] !in Elements(o);
  }

  /** Step of Intersection when s[si] == o[oi]: the common id is emitted once
      and both cursors advance. */
  lemma IntersectMatch(out: seq<int>, s: seq<int>, o: seq<int>, si: nat, oi: nat)
    requires StrictlyAscending(s) && StrictlyAscending(o)
    requires si < |s| && oi < |o| && s[si] == o[oi]
    requires IntersectedPrefix(out, s, o, si, oi)
    ensures IntersectedPrefix(out + [s[si]], s, o, si + 1, oi + 1)
  {
    PrefixStep(s, si);
    PrefixStep(o, oi);
    AppendAbove(out, s[si]);
  }

  /** Once either cursor reaches the end, out holds exactly the common ids. */
  lemma IntersectDone(out: seq<int>, s: seq<int>, o: seq<int>, si: nat, oi: nat)
    requires si <= |s| && oi <= |o| && (si == |s| || oi == |o|)
    requires IntersectedPrefix(out, s, o, si, oi)
    ensures Elements(out) == Elements(s) * Elements(o)
  {
    PrefixElements(s, si);
    PrefixElements(o, oi);
  }

  /** Progress of the three-way merge: out is strictly ascending, holds the
      ids of both scanned prefixes, and its last id lies below both cursors. */
  ghost predicate MergedPrefix(out: seq<int>, s: seq<int>, o: seq<int>, si: nat, oi: nat)
  {
    && si <= |s| && oi <= |o|
    && StrictlyAscending(out)
    && Elements(out) == Elements(s[..si]) + Elements(o[..oi])
    && Below(out, s, si) && Below(out, o, oi)
  }

  /** Step of MergeReplace that emits s[si], the smaller head or the only one
      left. MergedPrefix is symmetric, so this also covers emitting o[oi]. */
  lemma MergeTakeLeft(out: seq<int>, s: seq<int>, o: seq<int>, si: nat, oi: nat)
    requires StrictlyAscending(s)
    requires si < |s| && oi <= |o| && (oi < |o| ==> s[si] < o[oi])
    requires MergedPrefix(out, s, o, si, oi)
    ensures MergedPrefix(out + [s[si]], s, o, si + 1, oi)
    ensures MergedPrefix(out + [s[si]], o, s, oi, si + 1)
  {
    PrefixStep(s, si);
    AppendAbove(out, s[si]);
  }

  /** Step of MergeReplace on a common head: the id is emitted once. */
  lemma MergeTakeBoth(out: seq<int>, s: seq<int>, o: seq<int>, si: nat, oi: nat)
    requires StrictlyAscending(s) && StrictlyAscending(o)
    requires si < |s| && oi < |o| && s[si] == o[oi]
    requires MergedPrefix(out, s, o, si, oi)
    ensures MergedPrefix(out + [s[si]], s, o, si + 1, oi + 1)
  {
    PrefixStep(s, si);
    PrefixStep(o, oi);
    AppendAbove(out, s[si]);
  }

  /** Once both cursors reach the end, out is the canonical union. */
  lemma MergeDone(out: seq<int>, s: seq<int>, o: seq<int>, si: nat, oi: nat)
    requires si == |s| && oi == |o|
    requires MergedPrefix(out, s, o, si, oi)
    ensures out == Canonical(Elements(s) + Elements(o))
  {
    PrefixElements(s, si);
    PrefixElements(o, oi);
    CanonicalOf(out);
  }

  /** MergedPrefix does not depend on which input is named first. */
  lemma MergedSwap(out: seq<int>, s: seq<int>, o: seq<int>, si: nat, oi: nat)
    requires MergedPrefix(out, s, o, si, oi)
    ensures MergedPrefix(out, o, s, oi, si)
  {
  }

  /** The two tail loops of MergeReplace: once the other input is used up,
      the rest of s is copied after the merged prefix, the buffer growing by
      the remaining count when it is full. */
  method Drain(outSet: seq<int>, outIdx: nat, ghost out: seq<int>, s: seq<int>, si: nat, ghost o: seq<int>, ghost oi: nat)
    returns (outSet': seq<int>, outIdx': nat, ghost out': seq<int>)
    requires StrictlyAscending(s)
    requires outIdx <= |outSet| && outSet[..outIdx] == out
    requires MergedPrefix(out, s, o, si, oi) && (si == |s| || oi == |o|)
    ensures outIdx' <= |outSet'| && outSet'[..outIdx'] == out'
    ensures MergedPrefix(out', s, o, |s|, oi)
  {
    outSet', outIdx', out' := outSet, outIdx, out;
    var i := si;
    while i < |s|
      invariant si <= i <= |s| && outIdx' <= |outSet'|
      invariant outSet'[..outIdx'] == out'
      invariant MergedPrefix(out', s, o, i, oi)
    {
      if outIdx' >= |outSet'| {
        outSet' := Grow(outSet', Zeroes(|s| - i), outIdx');
      }
      MergeTakeLeft(out', s, o, i, oi);
      outSet' := Put(outSet', outIdx', s[i]);
      outIdx' := outIdx' + 1;
      out' := out' + [s[i]];
      i := i + 1;
    }
  }

  /** The three-way ordered merge at the heart of MergeReplace: the output
      buffer is pre-sized, grows when the estimate falls short, and a common
      id is written once. */
  method MergeSorted(se: seq<int>, oe: seq<int>) returns (merged: seq<int>)
    requires StrictlyAscending(se) && StrictlyAscending(oe)
    ensures merged == Canonical(Elements(se) + Elements(oe))
  {
    var si, oi := 0, 0;
    // pre-sized a little above the larger input, a sizing heuristic
    var outSet := Zeroes(MaxInt(|se|, |oe|) + 5);
    var outIdx := 0;
    ghost var out: seq<int> := [];

    while si < |se| && oi < |oe|
      invariant si <= |se| && oi <= |oe| && outIdx <= |outSet|
      invariant outSet[..outIdx] == out
      invariant MergedPrefix(out, se, oe, si, oi)
    {
      if outIdx >= |outSet| {
        var extendo := Zeroes(MaxInt(|se| - si, |oe| - oi));
        outSet := Grow(outSet, extendo, outIdx);
      }
      var v;
      if se[si] == oe[oi] {
        MergeTakeBoth(out, se, oe, si, oi);
        v := se[si];
        si := si + 1;
        oi := oi + 1;
      } else if se[si] < oe[oi] {
        MergeTakeLeft(out, se, oe, si, oi);
        v := se[si];
        si := si + 1;
      } else if se[si] > oe[oi] {
        MergeTakeLeft(out, oe, se, oi, si);
        v := oe[oi];
        oi := oi + 1;
      } else {
        // unreachable: of two ints one is equal to, below or above the other
        assert false;
      }
      outSet := Put(outSet, outIdx, v);
      outIdx := outIdx + 1;
      out := out + [v];
    }

    outSet, outIdx, out := Drain(outSet, outIdx, out, se, si, oe, oi);
    si := |se|;
    MergedSwap(out, se, oe, si, oi);
    outSet, outIdx, out := Drain(outSet, outIdx, out, oe, oi, se, si);
    oi := |oe|;
    MergedSwap(out, oe, se, oi, si);
    MergeDone(out, se, oe, si, oi);
    merged := outSet[..outIdx];
  }

  class EdgeSet {
    var edges: seq<int>

    /** The set invariant: strictly ascending, so free of duplicates. */
    ghost predicate Valid()
      reads this
    {
      StrictlyAscending(edges)
    }

    /** The ids the set holds. */
    ghost function Members(): set<int>
      reads this
    {
      Elements(edges)
    }

    /** The zero value EdgeSet{}: no ids. */
    constructor ()
      ensures Valid()
      ensures edges == []
    {
      edges := [];
    }

    /** Len: the number of ids in the set. */
    function Len(): (n: int)
      reads this
      ensures Valid() ==> n == |Members()|
    {
      CardinalityOf(edges);
      |edges|
    }

    /** index: (-1, true) when a is present; otherwise (idx, false) with idx
        the insertion point, every id before it below a and every id from it
        on above a. */
    function IndexOf(a: int): (r: (int, bool))
      reads this
      requires Ascending(edges)
      ensures r.1 <==> a in edges
      ensures r.1 ==> r.0 == -1
      ensures !r.1 ==> 0 <= r.0 <= |edges|
      ensures !r.1 ==> forall k :: 0 <= k < r.0 ==> edges[k] < a
      ensures !r.1 ==> forall k :: r.0 <= k < |edges| ==> a < edges[k]
    {
      var idx: int := SearchInts(edges, a);
      if idx < |edges| && edges[idx] == a then (-1, true) else (idx, false)
    }

    /** Exists: binary-search membership. */
    function Exists(a: int): (found: bool)
      reads this
      requires Ascending(edges)
      ensures found <==> a in edges
    {
      IndexOf(a).1
    }

    /** Add: inserts a when absent and reports whether it did. An id above the
        current maximum (or any id into an empty set) is appended without a
        search. */
    method Add(a: int) returns (ok: bool)
      requires Valid()
      modifies this
      ensures Valid()
      ensures ok <==> a !in old(edges)
      ensures edges == Canonical(old(Members()) + {a})
      ensures !ok ==> edges == old(edges)
      ensures |edges| == |old(edges)| + if ok then 1 else 0
      ensures old(edges) == [] || old(edges)[|old(edges)| - 1] < a ==> edges == old(edges) + [a]
    {
      var idx: nat;
      if |edges| == 0 {
        idx := 0;
      } else if edges[|edges| - 1] < a {
        // fast path: a lies above every id, so it goes at the end
        idx := |edges|;
        assert forall i :: 0 <= i < idx ==> edges[i] < a by {
          forall i | 0 <= i < idx ensures edges[i] < a {
            assert i == |edges| - 1 || edges[i] < edges[|edges| - 1];
          }
        }
      } else {
        var r := IndexOf(a);
        if r.1 {
          AddPresent(edges, a);
          return false;
        }
        idx := r.0;
      }
      InsertInGap(edges, a, idx);
      edges := IntSliceInsert(edges, a, idx);
      ok := true;
    }

    /** Intersection: a new set holding exactly the ids present in both sets,
        by a two-cursor ordered merge. Neither input changes. */
    method Intersection(o: EdgeSet) returns (r: EdgeSet)
      requires Valid() && o.Valid()
      ensures fresh(r)
      ensures r.Valid()
      ensures r.edges == Canonical(Members() * o.Members())
    {
      var si, oi := 0, 0;
      var outSet: seq<int> := [];
      while si < |edges| && oi < |o.edges|
        invariant si <= |edges| && oi <= |o.edges|
        invariant IntersectedPrefix(outSet, edges, o.edges, si, oi)
      {
        if edges[si] == o.edges[oi] {
          IntersectMatch(outSet, edges, o.edges, si, oi);
          outSet := outSet + [edges[si]];
          si := si + 1;
          oi := oi + 1;
        } else if edges[si] < o.edges[oi] {
          IntersectSkip(outSet, edges, o.edges, si, oi);
          si := si + 1;
        } else if edges[si] > o.edges[oi] {
          IntersectSkip(outSet, o.edges, edges, oi, si);
          oi := oi + 1;
        } else {
          // unreachable: of two ints one is equal to, below or above the other
          assert false;
        }
      }
      IntersectDone(outSet, edges, o.edges, si, oi);
      CanonicalOf(outSet);
      r := new EdgeSet();
      r.edges := outSet;
    }

    /** Replace: adopts the ids sorted ascending (an empty input clears the
        set). Duplicates are kept, so the set invariant holds afterwards
        exactly when the ids were duplicate-free. */
    method Replace(ids: seq<int>)
      modifies this
      ensures edges == SortInts(ids)
      ensures ids == [] ==> edges == []
      ensures multiset(edges) == multiset(ids)
      ensures Valid() <==> NoDuplicates(ids)
    {
      SortStrictIffNoDuplicates(ids);
      if |ids| == 0 {
        edges := [];
        return;
      }
      edges := SortInts(ids);
    }

    /** Merge: union by adding the other set's ids one at a time. */
    method Merge(o: EdgeSet)
      requires Valid()
      modifies this
      ensures Valid()
      ensures edges == Canonical(old(Members()) + old(o.Members()))
    {
      var ids := o.edges;
      ghost var start := Members();
      for i := 0 to |ids|
        invariant Valid()
        invariant Members() == start + Elements(ids[..i])
      {
        PrefixGrows(ids, i);
        var added := Add(ids[i]);
      }
      PrefixElements(ids, |ids|);
      CanonicalOf(edges);
    }

    /** MergeReplace: union computed by one ordered merge of both sets into
        a fresh buffer, which then replaces this set's ids. */
    method MergeReplace(o: EdgeSet)
      requires Valid() && o.Valid()
      modifies this
      ensures Valid()
      ensures edges == Canonical(old(Members()) + old(o.Members()))
    {
      edges := MergeSorted(edges, o.edges);
    }
  }
}
