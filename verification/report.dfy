/**
 The two reports a time tree produces: the nested mapping of `dict()` and the
 unattributed "rest" row that `str()` prints below the children of a node.
 Percentages and text layout are not modelled; the quantities they are computed
 from are.
 */
module Report {
  import opened Wrappers
  import opened TimeEntry

  /** The value `dict()` returns: `{sum: ..., children: {name: {...}}}`, with the
      children in insertion order. */
  datatype Snapshot = Snapshot(sum: int, children: seq<(Name, Snapshot)>)

  /** The side effect of `dict()` and `str()` on the tree: every node is committed
      at `now`. */
  function CommitAll(e: Entry, now: int): (r: Entry)
    ensures r.sum == Elapsed(e, now) && Elapsed(r, now) == Elapsed(e, now)
    ensures Running(r) == Running(e)
    ensures Running(r) ==> r.start.value == now
    ensures Names(r.children) == Names(e.children)
  {
    Commit(e, now).(children :=
      seq(|e.children|, i requires 0 <= i < |e.children| =>
        (e.children[i].0, CommitAll(e.children[i].1, now))))
  }

  /** At every node of the tree, not only the root, committing everything folds
      the time so far into the sum and restarts a running timer at `now`; the same
      paths reach nodes before and after. */
  lemma {:induction false} CommitAllAt(e: Entry, q: Path, now: int)
    ensures At(CommitAll(e, now), q).Some? <==> At(e, q).Some?
    ensures At(e, q).Some? ==>
              var n, m := At(e, q).value, At(CommitAll(e, now), q).value;
              && m.sum == Elapsed(n, now)
              && Elapsed(m, now) == Elapsed(n, now)
              && Running(m) == Running(n)
              && (Running(m) ==> m.start.value == now)
              && Names(m.children) == Names(n.children)
    decreases |q|
  {
    if |q| > 0 {
      var c := CommitAll(e, now);
      FindByNames(e.children, c.children, q[0]);
      var i := Find(e.children, q[0]);
      if i < |e.children| {
        CommitAllAt(e.children[i].1, q[1..], now);
      }
    }
  }

  /** `dict()`: commit, then report the sum and the children's reports. */
  function Dict(e: Entry, now: int): (s: Snapshot)
    ensures s.sum == Elapsed(e, now)
    ensures |s.children| == |e.children|
    ensures forall i :: 0 <= i < |e.children| ==> s.children[i].0 == e.children[i].0
  {
    Snapshot(Commit(e, now).sum,
      seq(|e.children|, i requires 0 <= i < |e.children| =>
        (e.children[i].0, Dict(e.children[i].1, now))))
  }

  /** `s` mirrors `e` at `now`: the same child names in the same order at every
      level, and at every node the time accounted to it at `now`. */
  predicate Mirrors(s: Snapshot, e: Entry, now: int) {
    && s.sum == Elapsed(e, now)
    && |s.children| == |e.children|
    && forall i :: 0 <= i < |e.children| ==>
         s.children[i].0 == e.children[i].0 && Mirrors(s.children[i].1, e.children[i].1, now)
  }

  lemma {:induction false} DictMirrors(e: Entry, now: int)
    ensures Mirrors(Dict(e, now), e, now)
    decreases e
  {
    forall i | 0 <= i < |e.children|
      ensures Mirrors(Dict(e, now).children[i].1, e.children[i].1, now)
    {
      DictMirrors(e.children[i].1, now);
    }
  }

  /** Committing changes no value a report shows: a report taken right after
      another, at the same instant, is the same report. */
  lemma {:induction false} DictAfterCommit(e: Entry, now: int)
    ensures Dict(CommitAll(e, now), now) == Dict(e, now)
    decreases e
  {
    var c := CommitAll(e, now);
    forall i | 0 <= i < |e.children|
      ensures Dict(c, now).children[i] == Dict(e, now).children[i]
    {
      DictAfterCommit(e.children[i].1, now);
    }
  }

  /** Committing twice at the same instant is committing once. */
  lemma {:induction false} CommitAllIdempotent(e: Entry, now: int)
    ensures CommitAll(CommitAll(e, now), now) == CommitAll(e, now)
    decreases e
  {
    var c := CommitAll(e, now);
    forall i | 0 <= i < |e.children|
      ensures CommitAll(c, now).children[i] == c.children[i]
    {
      CommitAllIdempotent(e.children[i].1, now);
    }
  }

  // ---------------------------------------------------------------------------
  // The rest row of str()
  // ---------------------------------------------------------------------------

  /** `child_sum` in `str()`: the children's sums, each committed at `now`. */
  function ChildSum(kids: seq<(Name, Entry)>, now: int): (s: int)
    ensures |kids| == 0 ==> s == 0
    ensures (forall i :: 0 <= i < |kids| ==> Elapsed(kids[i].1, now) >= 0) ==>
              s >= 0 && forall i :: 0 <= i < |kids| ==> Elapsed(kids[i].1, now) <= s
    decreases |kids|
  {
    if |kids| == 0 then 0
    else ChildSum(kids[..|kids| - 1], now) + Elapsed(kids[|kids| - 1].1, now)
  }

  /** The loop of `str()` that adds up the children's sums, front to back; each
      child has been committed at `now` by its own `str()` just before. */
  method AccumulateChildSum(kids: seq<(Name, Entry)>, now: int) returns (total: int)
    ensures total == ChildSum(kids, now)
  {
    total := 0;
    var k := 0;
    while k < |kids|
      invariant 0 <= k <= |kids|
      invariant total == ChildSum(kids[..k], now)
    {
      var child := Commit(kids[k].1, now);
      assert kids[..k + 1][..k] == kids[..k];
      total := total + child.sum;
      k := k + 1;
    }
    assert kids[..|kids|] == kids;
  }

  /** The `...` row: time of the node not accounted for by any child, clipped at
      zero. There is no such row when the node has no children. */
  function Rest(e: Entry, now: int): (r: Option<int>)
    ensures r.None? <==> |e.children| == 0
    ensures r.Some? ==> r.value >= 0
    ensures r.Some? ==> r.value >= Elapsed(e, now) - ChildSum(e.children, now)
    ensures r.Some? ==> r.value == 0 || r.value == Elapsed(e, now) - ChildSum(e.children, now)
  {
    if |e.children| == 0 then None
    else
      var rest := Elapsed(e, now) - ChildSum(e.children, now);
      Some(if rest < 0 then 0 else rest)
  }

  /** Under a monotonic clock the rest never exceeds the node's own time. */
  lemma RestBounded(e: Entry, now: int)
    requires Sane(e, now) && |e.children| > 0
    ensures 0 <= Rest(e, now).value <= Elapsed(e, now)
  {
  }

  /** The children's time fits inside the parent's, at every level. */
  predicate Balanced(e: Entry, now: int) {
    && ChildSum(e.children, now) <= Elapsed(e, now)
    && forall i :: 0 <= i < |e.children| ==> Balanced(e.children[i].1, now)
  }

  /** In a balanced tree the clip at zero never applies: the rest row and the
      children together account for exactly the node's time. */
  lemma RestExact(e: Entry, now: int)
    requires Balanced(e, now) && |e.children| > 0
    ensures Rest(e, now).value + ChildSum(e.children, now) == Elapsed(e, now)
  {
  }

  // ---------------------------------------------------------------------------
  // Balance under get, write-back and commit
  // ---------------------------------------------------------------------------

  /** The children's sum depends only on the time accounted to each child. */
  lemma {:induction false} ChildSumPointwise(a: seq<(Name, Entry)>, b: seq<(Name, Entry)>, now: int)
    requires |a| == |b|
    requires forall i :: 0 <= i < |a| ==> Elapsed(a[i].1, now) == Elapsed(b[i].1, now)
    ensures ChildSum(a, now) == ChildSum(b, now)
    decreases |a|
  {
    if |a| > 0 {
      ChildSumPointwise(a[..|a| - 1], b[..|b| - 1], now);
    }
  }

  lemma ChildSumAppend(kids: seq<(Name, Entry)>, name: Name, c: Entry, now: int)
    ensures ChildSum(kids + [(name, c)], now) == ChildSum(kids, now) + Elapsed(c, now)
  {
    assert (kids + [(name, c)])[..|kids|] == kids;
  }

  /** The children `get` adds have no time yet, so a balanced tree stays balanced. */
  lemma {:induction false} GetBalanced(e: Entry, p: Path, now: int)
    requires Balanced(e, now)
    ensures Balanced(Get(e, p).0, now)
    ensures Elapsed(Get(e, p).0, now) == Elapsed(e, now)
    decreases |p|
  {
    if |p| > 0 {
      var t := Get(e, p).0;
      var i := Find(e.children, p[0]);
      if i < |e.children| {
        GetBalanced(e.children[i].1, p[1..], now);
        ChildSumPointwise(t.children, e.children, now);
        assert forall j :: 0 <= j < |t.children| && j != i ==> t.children[j] == e.children[j];
      } else {
        var g := Get(Fresh, p[1..]).0;
        GetBalanced(Fresh, p[1..], now);
        ChildSumAppend(e.children, p[0], g, now);
        assert forall j :: 0 <= j < |e.children| ==> t.children[j] == e.children[j];
      }
    }
  }

  /** Writing back a balanced node that accounts the same time as the one it
      replaces keeps the tree balanced. */
  lemma {:induction false} PutBalanced(e: Entry, p: Path, n: Entry, now: int)
    requires Balanced(e, now) && Balanced(n, now)
    requires At(e, p).Some? && Elapsed(n, now) == Elapsed(At(e, p).value, now)
    ensures Balanced(Put(e, p, n), now)
    ensures Elapsed(Put(e, p, n), now) == Elapsed(e, now)
    decreases |p|
  {
    if |p| > 0 {
      var r := Put(e, p, n);
      var i := Find(e.children, p[0]);
      PutBalanced(e.children[i].1, p[1..], n, now);
      ChildSumPointwise(r.children, e.children, now);
      assert forall j :: 0 <= j < |r.children| && j != i ==> r.children[j] == e.children[j];
    }
  }

  /** Committing every node keeps the tree balanced. */
  lemma {:induction false} CommitAllBalanced(e: Entry, now: int)
    requires Balanced(e, now)
    ensures Balanced(CommitAll(e, now), now)
    decreases e
  {
    var c := CommitAll(e, now);
    ChildSumPointwise(c.children, e.children, now);
    forall i | 0 <= i < |e.children|
      ensures Balanced(c.children[i].1, now)
    {
      CommitAllBalanced(e.children[i].1, now);
    }
  }

  lemma {:induction false} AtBalanced(e: Entry, p: Path, now: int)
    requires Balanced(e, now) && At(e, p).Some?
    ensures Balanced(At(e, p).value, now)
    decreases |p|
  {
    if |p| > 0 {
      AtBalanced(e.children[Find(e.children, p[0])].1, p[1..], now);
    }
  }
}
