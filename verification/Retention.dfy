/** Sorting snapshots newest first, splitting them at the retention window, and keeping the restore source. */
module Retention {
  import opened Cluster

  // ---- Stable sort, newest first ----

  /** Put a snapshot behind every one that is at least as new. */
  function Insert(sorted: seq<Snapshot>, x: Snapshot): seq<Snapshot>
  {
    if sorted == [] || sorted[0].created < x.created then [x] + sorted
    else [sorted[0]] + Insert(sorted[1..], x)
  }

  function NewestFirst(s: seq<Snapshot>): seq<Snapshot>
  {
    if s == [] then [] else Insert(NewestFirst(s[..|s| - 1]), s[|s| - 1])
  }

  predicate Descending(s: seq<Snapshot>)
  {
    forall i, j :: 0 <= i < j < |s| ==> s[i].created >= s[j].created
  }

  /** The snapshots taken at one moment, in order. */
  function TakenAt(s: seq<Snapshot>, t: int): seq<Snapshot>
  {
    if s == [] then [] else if s[0].created == t then [s[0]] + TakenAt(s[1..], t) else TakenAt(s[1..], t)
  }

  lemma {:induction false} InsertPermutes(sorted: seq<Snapshot>, x: Snapshot)
    ensures multiset(Insert(sorted, x)) == multiset(sorted) + multiset{x}
    ensures |Insert(sorted, x)| == |sorted| + 1
    decreases |sorted|
  {
    if sorted != [] && sorted[0].created >= x.created {
      InsertPermutes(sorted[1..], x);
      assert sorted == [sorted[0]] + sorted[1..];
    }
  }

  lemma {:induction false} InsertDescends(sorted: seq<Snapshot>, x: Snapshot)
    requires Descending(sorted)
    ensures Descending(Insert(sorted, x))
    decreases |sorted|
  {
    if sorted != [] && sorted[0].created >= x.created {
      var rest := sorted[1..];
      InsertDescends(rest, x);
      InsertPermutes(rest, x);
      var r := Insert(rest, x);
      forall i | 0 <= i < |r| ensures r[i].created <= sorted[0].created {
        assert r[i] in multiset(r);
        assert r[i] in rest || r[i] == x;
      }
    }
  }

  lemma {:induction false} InsertStable(sorted: seq<Snapshot>, x: Snapshot, t: int)
    requires Descending(sorted)
    ensures TakenAt(Insert(sorted, x), t) == if x.created == t then TakenAt(sorted, t) + [x] else TakenAt(sorted, t)
    decreases |sorted|
  {
    if sorted == [] || sorted[0].created < x.created {
      assert ([x] + sorted)[1..] == sorted;
      if x.created == t {
        NoneTakenAt(sorted, t);
      }
    } else {
      InsertStable(sorted[1..], x, t);
      assert ([sorted[0]] + Insert(sorted[1..], x))[1..] == Insert(sorted[1..], x);
    }
  }

  /** A snapshot newer than all others comes first. */
  lemma {:induction false} NewestComesFirst(s: seq<Snapshot>, x: Snapshot)
    requires forall i :: 0 <= i < |s| ==> s[i].created < x.created
    ensures NewestFirst(s + [x]) == [x] + NewestFirst(s)
  {
    assert (s + [x])[..|s|] == s;
    NewestFirstIsStableSort(s);
    if s != [] {
      var first := NewestFirst(s)[0];
      assert first in multiset(NewestFirst(s));
      assert first in s;
    }
  }

  lemma {:induction false} NoneTakenAt(s: seq<Snapshot>, t: int)
    requires forall i :: 0 <= i < |s| ==> s[i].created != t
    ensures TakenAt(s, t) == []
    decreases |s|
  {
    if s != [] {
      NoneTakenAt(s[1..], t);
    }
  }

  lemma {:induction false} TakenAtSnoc(s: seq<Snapshot>, x: Snapshot, t: int)
    ensures TakenAt(s + [x], t) == if x.created == t then TakenAt(s, t) + [x] else TakenAt(s, t)
    decreases |s|
  {
    if s == [] {
      assert (s + [x])[1..] == [];
    } else {
      assert (s + [x])[0] == s[0] && (s + [x])[1..] == s[1..] + [x];
      TakenAtSnoc(s[1..], x, t);
    }
  }

  /** The result is a newest-first permutation that keeps snapshots of the same second in listing order. */
  lemma {:induction false} NewestFirstIsStableSort(s: seq<Snapshot>)
    ensures Descending(NewestFirst(s)) && multiset(NewestFirst(s)) == multiset(s) && |NewestFirst(s)| == |s|
    ensures forall t :: TakenAt(NewestFirst(s), t) == TakenAt(s, t)
    decreases |s|
  {
    if s != [] {
      var n := |s| - 1;
      assert s == s[..n] + [s[n]];
      NewestFirstIsStableSort(s[..n]);
      InsertDescends(NewestFirst(s[..n]), s[n]);
      InsertPermutes(NewestFirst(s[..n]), s[n]);
      forall t ensures TakenAt(NewestFirst(s), t) == TakenAt(s, t) {
        InsertStable(NewestFirst(s[..n]), s[n], t);
        TakenAtSnoc(s[..n], s[n], t);
      }
    }
  }

  /** Those three facts leave no freedom: any two stable sorts of a list agree. */
  lemma {:induction false} StableSortUnique(a: seq<Snapshot>, b: seq<Snapshot>)
    requires Descending(a) && Descending(b) && forall t :: TakenAt(a, t) == TakenAt(b, t)
    ensures a == b
    decreases |a|
  {
    assert |a| > 0 ==> TakenAt(a, a[0].created)[0] == a[0];
    assert |b| > 0 ==> TakenAt(b, b[0].created)[0] == b[0];
    if a != [] {
      assert TakenAt(b, a[0].created) != [];
      TakenAtMember(b, a[0].created);
      TakenAtMember(a, b[0].created);
      assert a[0].created == b[0].created;
      assert a[0] == b[0];
      forall t ensures TakenAt(a[1..], t) == TakenAt(b[1..], t) {
        if t == a[0].created {
          assert TakenAt(a, t) == [a[0]] + TakenAt(a[1..], t) && TakenAt(b, t) == [b[0]] + TakenAt(b[1..], t);
          assert TakenAt(a, t)[1..] == TakenAt(a[1..], t) && TakenAt(b, t)[1..] == TakenAt(b[1..], t);
        } else {
          assert TakenAt(a, t) == TakenAt(a[1..], t) && TakenAt(b, t) == TakenAt(b[1..], t);
        }
      }
      StableSortUnique(a[1..], b[1..]);
      assert a == [a[0]] + a[1..] && b == [b[0]] + b[1..];
    }
  }

  lemma {:induction false} TakenAtMember(s: seq<Snapshot>, t: int)
    ensures TakenAt(s, t) != [] ==> exists i :: 0 <= i < |s| && s[i].created == t
    decreases |s|
  {
    if s != [] && s[0].created != t {
      TakenAtMember(s[1..], t);
      if TakenAt(s[1..], t) != [] {
        var i :| 0 <= i < |s[1..]| && s[1..][i].created == t;
        assert s[i + 1].created == t;
      }
    }
  }

  lemma {:induction false} InsertAt(p: seq<Snapshot>, x: Snapshot, j: nat)
    requires j <= |p|
    requires forall k :: 0 <= k < j ==> p[k].created >= x.created
    requires j < |p| ==> p[j].created < x.created
    ensures Insert(p, x) == p[..j] + [x] + p[j..]
    decreases j
  {
    if j == 0 {
      assert p[..0] + [x] + p[0..] == [x] + p;
    } else {
      InsertAt(p[1..], x, j - 1);
      assert p[1..][..j - 1] == p[1..j] && p[1..][j - 1..] == p[j..];
      assert [p[0]] + (p[1..j] + [x] + p[j..]) == p[..j] + [x] + p[j..];
    }
  }

  /** Move a[i] left past everything older, so that a[..i + 1] is sorted. */
  method Sift(a: array<Snapshot>, i: nat, ghost p: seq<Snapshot>, ghost x: Snapshot, ghost rest: seq<Snapshot>)
    requires i == |p| < a.Length && a[..] == Sifted(p, x, rest, i) && Descending(p)
    modifies a
    ensures a[..] == Insert(p, x) + rest
  {
    var j := i;
    while j > 0 && a[j - 1].created < a[j].created
      invariant 0 <= j <= i && a[..] == Sifted(p, x, rest, j)
      invariant forall k :: j <= k < i ==> p[k].created < x.created
    {
      SiftedAt(p, x, rest, j);
      SwapBack(a, j);
      SiftStep(p, x, rest, j);
      j := j - 1;
    }
    SiftedAt(p, x, rest, j);
    assert j > 0 ==> p[j - 1].created >= x.created;
    InsertAt(p, x, j);
  }

  method SwapBack(a: array<Snapshot>, j: nat)
    requires 0 < j < a.Length
    modifies a
    ensures a[..] == old(a[..])[j - 1 := old(a[j])][j := old(a[j - 1])]
  {
    a[j - 1], a[j] := a[j], a[j - 1];
  }

  /** The array with the moving element at j. */
  ghost function Sifted(p: seq<Snapshot>, x: Snapshot, rest: seq<Snapshot>, j: nat): seq<Snapshot>
    requires j <= |p|
  {
    p[..j] + [x] + p[j..] + rest
  }

  lemma {:induction false} SiftedAt(p: seq<Snapshot>, x: Snapshot, rest: seq<Snapshot>, j: nat)
    requires j <= |p|
    ensures |Sifted(p, x, rest, j)| == |p| + 1 + |rest| && Sifted(p, x, rest, j)[j] == x
    ensures j > 0 ==> Sifted(p, x, rest, j)[j - 1] == p[j - 1]
  {
  }

  lemma {:induction false} SiftStep(p: seq<Snapshot>, x: Snapshot, rest: seq<Snapshot>, j: nat)
    requires 0 < j <= |p|
    ensures Sifted(p, x, rest, j)[j - 1 := x][j := p[j - 1]] == Sifted(p, x, rest, j - 1)
  {
  }

  /** The in-place stable sort of the copied slice. */
  method SortNewestFirst(a: array<Snapshot>)
    modifies a
    ensures a[..] == NewestFirst(old(a[..]))
  {
    ghost var s := a[..];
    assert s == NewestFirst(s[..0]) + s[0..];
    for i := 0 to a.Length
      invariant a[..] == NewestFirst(s[..i]) + s[i..]
    {
      SortStep(s, i);
      Sift(a, i, NewestFirst(s[..i]), s[i], s[i + 1..]);
    }
    assert s[..|s|] == s && NewestFirst(s) + s[|s|..] == NewestFirst(s);
  }

  lemma {:induction false} SortStep(s: seq<Snapshot>, i: nat)
    requires i < |s|
    ensures var p := NewestFirst(s[..i]);
            && |p| == i && Descending(p) && p + s[i..] == Sifted(p, s[i], s[i + 1..], i)
            && Insert(p, s[i]) == NewestFirst(s[..i + 1])
  {
    NewestFirstIsStableSort(s[..i]);
    assert s[..i + 1][..i] == s[..i];
    var p := NewestFirst(s[..i]);
    assert p + s[i..] == p[..i] + [s[i]] + p[i..] + s[i + 1..];
  }

  function Window(s: seq<Snapshot>, retention: nat): nat
  {
    if |s| <= retention then |s| else retention
  }

  /** The newest `retention` snapshots, newest first. */
  function Live(s: seq<Snapshot>, retention: nat): seq<Snapshot>
  {
    NewestFirstIsStableSort(s);
    NewestFirst(s)[..Window(s, retention)]
  }

  function Deprecated(s: seq<Snapshot>, retention: nat): seq<Snapshot>
  {
    NewestFirstIsStableSort(s);
    NewestFirst(s)[Window(s, retention)..]
  }

  /** splitSnapshots: one sorted copy; live is what precedes the returned index, deprecated what follows. */
  method SplitSnapshots(snapshots: seq<Snapshot>, retention: nat) returns (sorted: array<Snapshot>, k: nat)
    ensures fresh(sorted) && k <= sorted.Length
    ensures sorted[..k] == Live(snapshots, retention) && sorted[k..] == Deprecated(snapshots, retention)
  {
    NewestFirstIsStableSort(snapshots);
    sorted := new Snapshot[|snapshots|](i requires 0 <= i < |snapshots| => snapshots[i]);
    assert sorted[..] == snapshots;
    SortNewestFirst(sorted);
    k := if sorted.Length <= retention then sorted.Length else retention;
    assert sorted[..][..k] == sorted[..k] && sorted[..][k..] == sorted[k..];
  }

  /** No snapshot outside the window is newer than one inside. */
  lemma DeprecatedIsOlder(s: seq<Snapshot>, retention: nat, d: Snapshot, l: Snapshot)
    requires d in Deprecated(s, retention) && l in Live(s, retention)
    ensures d.created <= l.created
  {
    NewestFirstIsStableSort(s);
    var sorted, k := NewestFirst(s), Window(s, retention);
    var i :| 0 <= i < |sorted[k..]| && sorted[k..][i] == d;
    var j :| 0 <= j < |sorted[..k]| && sorted[..k][j] == l;
    assert sorted[k + i] == d && sorted[j] == l;
  }

  /** Every snapshot is on exactly one side. */
  lemma SplitIsPartition(s: seq<Snapshot>, retention: nat)
    ensures multiset(Live(s, retention)) + multiset(Deprecated(s, retention)) == multiset(s)
    ensures |Live(s, retention)| == if |s| <= retention then |s| else retention
  {
    NewestFirstIsStableSort(s);
    var sorted, k := NewestFirst(s), Window(s, retention);
    assert sorted == sorted[..k] + sorted[k..];
  }

  // ---- The restore source stays ----

  /** `pruned := deprecated[:0]`, then appending: the filter overwrites the very slice it reads from. The
      compacted part is what the filter of the original contents would be, and the live part is untouched. */
  method Compact(a: array<Snapshot>, lo: nat, source: string) returns (n: nat)
    requires lo <= a.Length
    modifies a
    ensures lo + n <= a.Length
    ensures a[lo..lo + n] == WithoutName(old(a[lo..]), source)
    ensures a[..lo] == old(a[..lo])
  {
    ghost var front, was := a[..lo], a[lo..];
    n := 0;
    assert was[..0] == [] && a[..] == front + was;
    for m := 0 to a.Length - lo
      invariant Partly(a[..], front, was, source, n, m)
    {
      n := CompactOne(a, lo, source, n, m, front, was);
    }
    PartlyDone(a[..], front, was, source, n);
    assert a[..][..lo] == a[..lo] && a[..][lo..lo + n] == a[lo..lo + n];
  }

  /** One element: append it to the slice being built, or drop it. */
  method CompactOne(a: array<Snapshot>, lo: nat, source: string, n: nat, m: nat, ghost front: seq<Snapshot>, ghost was: seq<Snapshot>)
    returns (n': nat)
    requires lo == |front| && m < |was| && Partly(a[..], front, was, source, n, m)
    modifies a
    ensures Partly(a[..], front, was, source, n', m + 1)
  {
    ghost var s := a[..];
    PartlyStep(s, front, was, source, n, m);
    n' := n;
    if a[lo + m].name != source {
      a[lo + n] := a[lo + m];
      assert a[..] == s[lo + n := s[lo + m]];
      n' := n + 1;
    }
  }

  /** The array while it is compacted: the live part, what was kept so far, and what is still to be read. */
  ghost predicate Partly(s: seq<Snapshot>, front: seq<Snapshot>, was: seq<Snapshot>, source: string, n: nat, m: nat)
  {
    && |s| == |front| + |was| && n <= m <= |was| && n == |WithoutName(was[..m], source)|
    && (forall k :: 0 <= k < |front| ==> s[k] == front[k])
    && (forall k :: 0 <= k < n ==> s[|front| + k] == WithoutName(was[..m], source)[k])
    && (forall k :: m <= k < |was| ==> s[|front| + k] == was[k])
  }

  lemma {:induction false} PartlyStep(s: seq<Snapshot>, front: seq<Snapshot>, was: seq<Snapshot>, source: string, n: nat, m: nat)
    requires Partly(s, front, was, source, n, m) && m < |was|
    ensures var x := s[|front| + m];
            if x.name == source then Partly(s, front, was, source, n, m + 1)
            else Partly(s[|front| + n := x], front, was, source, n + 1, m + 1)
  {
    WithoutNamePrefix(was, m, source);
    var x, kept := s[|front| + m], WithoutName(was[..m], source);
    assert x == was[m];
    if x.name != source {
      var t := s[|front| + n := x];
      forall k | 0 <= k < n + 1 ensures t[|front| + k] == (kept + [x])[k] {
        assert k < n ==> s[|front| + k] == kept[k];
      }
    }
  }

  lemma {:induction false} PartlyDone(s: seq<Snapshot>, front: seq<Snapshot>, was: seq<Snapshot>, source: string, n: nat)
    requires Partly(s, front, was, source, n, |was|)
    ensures s[..|front|] == front && s[|front|..|front| + n] == WithoutName(was, source)
  {
    assert was[..|was|] == was;
  }

  lemma {:induction false} WithoutNamePrefix(s: seq<Snapshot>, m: nat, name: string)
    requires m < |s|
    ensures WithoutName(s[..m + 1], name) ==
            if s[m].name == name then WithoutName(s[..m], name) else WithoutName(s[..m], name) + [s[m]]
  {
    WithoutNameSnoc(s[..m], s[m], name);
    assert s[..m] + [s[m]] == s[..m + 1];
  }

  lemma {:induction false} WithoutNameSnoc(s: seq<Snapshot>, x: Snapshot, name: string)
    ensures WithoutName(s + [x], name) == if x.name == name then WithoutName(s, name) else WithoutName(s, name) + [x]
    decreases |s|
  {
    if s == [] {
      assert (s + [x])[1..] == [];
    } else {
      assert (s + [x])[0] == s[0] && (s + [x])[1..] == s[1..] + [x];
      WithoutNameSnoc(s[1..], x, name);
    }
  }

  /** The snapshots a pass deletes: outside the window, but for the restore source. */
  function Expired(s: seq<Snapshot>, retention: nat, source: string): seq<Snapshot>
  {
    if source == "" then Deprecated(s, retention) else WithoutName(Deprecated(s, retention), source)
  }

  // ---- Status ----

  function RefOf(s: Snapshot): Ref { Ref(s.name, s.pvc, s.created) }

  predicate Listable(s: Snapshot) { s.name != "" && s.created != ZERO_TIME && !s.deleting }

  function Refs(s: seq<Snapshot>): seq<Ref>
  {
    if s == [] then [] else Refs(s[..|s| - 1]) + if Listable(s[|s| - 1]) then [RefOf(s[|s| - 1])] else []
  }

  method SnapshotRefs(snapshots: seq<Snapshot>) returns (refs: seq<Ref>)
    ensures refs == Refs(snapshots)
  {
    refs := [];
    for i := 0 to |snapshots|
      invariant refs == Refs(snapshots[..i])
    {
      assert snapshots[..i + 1][..i] == snapshots[..i];
      if Listable(snapshots[i]) {
        refs := refs + [RefOf(snapshots[i])];
      } else {
        assert refs + [] == refs;
      }
    }
    assert snapshots[..|snapshots|] == snapshots;
  }

  predicate NewestFirstRefs(refs: seq<Ref>)
  {
    forall i, j :: 0 <= i < j < |refs| ==> refs[i].created >= refs[j].created
  }

  lemma {:induction false} RefsKeepOrder(s: seq<Snapshot>)
    requires Descending(s)
    ensures NewestFirstRefs(Refs(s)) && |Refs(s)| <= |s|
    ensures forall r :: r in Refs(s) ==> exists i :: 0 <= i < |s| && r == RefOf(s[i])
    decreases |s|
  {
    if s != [] {
      var n := |s| - 1;
      RefsKeepOrder(s[..n]);
      forall r | r in Refs(s) ensures exists i :: 0 <= i < |s| && r == RefOf(s[i]) {
        if r in Refs(s[..n]) {
          var i :| 0 <= i < n && r == RefOf(s[..n][i]);
          assert r == RefOf(s[i]);
        } else {
          assert r == RefOf(s[n]);
        }
      }
      forall i | 0 <= i < |Refs(s[..n])| ensures Refs(s[..n])[i].created >= s[n].created {
        assert Refs(s[..n])[i] in Refs(s[..n]);
        var k :| 0 <= k < n && Refs(s[..n])[i] == RefOf(s[..n][k]);
      }
    }
  }

  /** The refs are exactly the name, claim and time of the snapshots that are named, timed and not being deleted. */
  lemma {:induction false} RefsExactly(s: seq<Snapshot>, r: Ref)
    ensures r in Refs(s) <==>
            exists i :: 0 <= i < |s| && s[i].name != "" && s[i].created != ZERO_TIME && !s[i].deleting
                        && r == Ref(s[i].name, s[i].pvc, s[i].created)
    decreases |s|
  {
    if s != [] {
      var n := |s| - 1;
      RefsExactly(s[..n], r);
      assert forall i :: 0 <= i < n ==> s[..n][i] == s[i];
    }
  }

  /** The status written with a new snapshot is newest first and no longer than the retention. */
  lemma StatusIsNewestFirst(s: seq<Snapshot>, retention: nat)
    ensures NewestFirstRefs(Refs(Live(s, retention))) && |Refs(Live(s, retention))| <= retention
  {
    NewestFirstIsStableSort(s);
    RefsKeepOrder(Live(s, retention));
  }
}
