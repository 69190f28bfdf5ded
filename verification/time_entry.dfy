/**
 The node of sipro's time tree: a `TimeEntry` holds the time accumulated by closed
 intervals, the start of the interval that is open (if any) and its children in
 insertion order. The wall clock is not read here: every operation that needs the
 time takes it as an explicit tick `now`.
 */
module TimeEntry {
  import opened Wrappers

  type Name = string
  type Path = seq<Name>

  /** One region of the tree. `start` is present exactly while the timer runs.
      `children` is the Python dict from child name to child, as an association
      sequence so that insertion order is kept; names are unique (`WellFormed`). */
  datatype Entry = Entry(sum: int, start: Option<int>, children: seq<(Name, Entry)>)

  /** `stop()` on an entry that is not running subtracts from `None` and raises. */
  datatype TimerError = NotRunning

  /** `TimeEntry()`: stopped, nothing accumulated, no children. */
  const Fresh: Entry := Entry(0, None, [])

  predicate Running(e: Entry) {
    e.start.Some?
  }

  /** The time accounted to `e` at instant `now`: its closed intervals plus the
      part of the open interval that has passed. This is the reference against
      which stop, commit and the reports are stated. */
  function Elapsed(e: Entry, now: int): int {
    e.sum + (if e.start.Some? then now - e.start.value else 0)
  }

  // ---------------------------------------------------------------------------
  // The two-state timer
  // ---------------------------------------------------------------------------

  /** `start()`: the entry runs from `now`. An interval that was already open is
      discarded, as the program overwrites `start_time` without looking. */
  function Start(e: Entry, now: int): (r: Entry)
    ensures Running(r) && r.start.value == now
    ensures r.sum == e.sum && r.children == e.children
    ensures Elapsed(r, now) == e.sum
  {
    e.(start := Some(now))
  }

  /** `stop()`: folds the open interval into `sum` and leaves the entry stopped;
      on a stopped entry the program raises, modelled as `NotRunning`. */
  function Stop(e: Entry, now: int): (r: Result<Entry, TimerError>)
    ensures r.Failure? <==> !Running(e)
    ensures r.Success? ==> !Running(r.value) && r.value.children == e.children
    ensures r.Success? ==> r.value.sum == Elapsed(e, now)
    ensures r.Success? && e.start.value <= now ==> r.value.sum >= e.sum
  {
    match e.start
    case None => Failure(NotRunning)
    case Some(t) => Success(e.(sum := e.sum + (now - t), start := None))
  }

  /** `commit()`: a running entry folds the time so far into `sum` and keeps
      running from `now`; a stopped entry is left alone. */
  function Commit(e: Entry, now: int): (r: Entry)
    ensures !Running(e) ==> r == e
    ensures Running(e) ==> Running(r) && r.start.value == now
    ensures r.sum == Elapsed(e, now) && r.children == e.children
    ensures Elapsed(r, now) == Elapsed(e, now)
    ensures Running(e) && e.start.value <= now ==> r.sum >= e.sum
  {
    match e.start
    case None => e
    case Some(t) => e.(sum := e.sum + (now - t), start := Some(now))
  }

  /** A second commit at the same instant adds nothing. */
  lemma CommitIdempotent(e: Entry, now: int)
    ensures Commit(Commit(e, now), now) == Commit(e, now)
  {
  }

  /** Starting at `t0` and stopping at `t1` adds exactly `t1 - t0` to the sum. */
  lemma StartStop(e: Entry, t0: int, t1: int)
    ensures Stop(Start(e, t0), t1) == Success(e.(sum := e.sum + (t1 - t0), start := None))
  {
  }

  /** With a monotonic clock the time accounted to an entry never decreases. */
  lemma ElapsedMonotone(e: Entry, now: int, later: int)
    requires e.start.Some? ==> e.start.value <= now
    requires now <= later
    ensures Elapsed(e, now) <= Elapsed(e, later)
    ensures Running(e) ==> Elapsed(e, later) == Elapsed(e, now) + (later - now)
    ensures !Running(e) ==> Elapsed(e, later) == Elapsed(e, now)
  {
  }

  /** What a monotonic clock guarantees of a whole tree at instant `now`: no sum
      is negative and no timer was started after `now`. */
  predicate Sane(e: Entry, now: int) {
    && e.sum >= 0
    && (e.start.Some? ==> e.start.value <= now)
    && forall i :: 0 <= i < |e.children| ==> Sane(e.children[i].1, now)
  }

  // ---------------------------------------------------------------------------
  // Children and paths
  // ---------------------------------------------------------------------------

  /** The names of `kids`, in order: the keys of the Python dict. */
  function Names(kids: seq<(Name, Entry)>): (ns: seq<Name>)
    ensures |ns| == |kids|
    ensures forall i :: 0 <= i < |kids| ==> ns[i] == kids[i].0
  {
    seq(|kids|, i requires 0 <= i < |kids| => kids[i].0)
  }

  /** Dict keys are unique. */
  predicate UniqueNames(kids: seq<(Name, Entry)>) {
    forall i, j :: 0 <= i < j < |kids| ==> kids[i].0 != kids[j].0
  }

  /** Unique names at every level of the tree. */
  predicate WellFormed(e: Entry) {
    && UniqueNames(e.children)
    && forall i :: 0 <= i < |e.children| ==> WellFormed(e.children[i].1)
  }

  /** Position of the child called `name`, or `|kids|` when there is none: the
      dict lookup `name in children` / `children[name]`. */
  function Find(kids: seq<(Name, Entry)>, name: Name): (i: nat)
    ensures i <= |kids|
    ensures i < |kids| ==> kids[i].0 == name
    ensures forall j :: 0 <= j < i ==> kids[j].0 != name
  {
    if |kids| == 0 then 0
    else if kids[0].0 == name then 0
    else 1 + Find(kids[1..], name)
  }

  /** The lookup depends on the names alone. */
  lemma FindByNames(a: seq<(Name, Entry)>, b: seq<(Name, Entry)>, name: Name)
    requires Names(a) == Names(b)
    ensures Find(a, name) == Find(b, name)
  {
  }

  /** A name found among the first children is found at the same place when more
      children follow. */
  lemma FindPrefixNames(a: seq<(Name, Entry)>, b: seq<(Name, Entry)>, name: Name)
    requires |a| <= |b| && forall i :: 0 <= i < |a| ==> b[i].0 == a[i].0
    requires Find(a, name) < |a|
    ensures Find(b, name) == Find(a, name)
  {
    var i, j := Find(a, name), Find(b, name);
    assert b[i].0 == name;
  }

  /** Appending a child does not move the lookup of a name already present,
      and a name absent before is found at the appended position. */
  lemma FindAppend(kids: seq<(Name, Entry)>, name: Name, c: Entry, key: Name)
    ensures Find(kids, key) < |kids| ==> Find(kids + [(name, c)], key) == Find(kids, key)
    ensures Find(kids, key) == |kids| && key == name ==> Find(kids + [(name, c)], key) == |kids|
    ensures Find(kids, key) == |kids| && key != name ==> Find(kids + [(name, c)], key) == |kids| + 1
  {
    var k := kids + [(name, c)];
    assert forall m :: 0 <= m < |kids| ==> k[m] == kids[m];
    assert k[|kids|].0 == name;
  }

  /** `q` is a prefix of `p`. */
  predicate IsPrefix(q: Path, p: Path) {
    |q| <= |p| && q == p[..|q|]
  }

  /** The node reached by following `path`, without creating anything. */
  function At(e: Entry, path: Path): Option<Entry>
    decreases |path|
  {
    if |path| == 0 then Some(e)
    else
      var i := Find(e.children, path[0]);
      if i < |e.children| then At(e.children[i].1, path[1..]) else None
  }

  // ---------------------------------------------------------------------------
  // get: navigate, creating missing children
  // ---------------------------------------------------------------------------

  /** `get(path)`: the tree after the missing children along `path` have been
      added, paired with the node that `path` reaches in it. */
  function Get(e: Entry, path: Path): (r: (Entry, Entry))
    ensures |path| == 0 ==> r == (e, e)
    ensures At(r.0, path) == Some(r.1)
    ensures |path| > 0 ==> r.0.sum == e.sum && r.0.start == e.start
    decreases |path|
  {
    if |path| == 0 then (e, e)
    else
      var i := Find(e.children, path[0]);
      if i < |e.children| then
        var (c, n) := Get(e.children[i].1, path[1..]);
        var kids := e.children[i := (path[0], c)];
        FindByNames(e.children, kids, path[0]);
        (e.(children := kids), n)
      else
        var (c, n) := Get(Fresh, path[1..]);
        FindAppend(e.children, path[0], c, path[0]);
        (e.(children := e.children + [(path[0], c)]), n)
  }

  /** Writes `n` back in place of the node `path` reaches; the program mutates that
      node through the reference `get` returned. A path that reaches nothing leaves
      the tree as it is. */
  function Put(e: Entry, path: Path, n: Entry): (r: Entry)
    ensures At(e, path).Some? ==> At(r, path) == Some(n)
    ensures |path| > 0 ==> r.sum == e.sum && r.start == e.start
    ensures |path| > 0 ==> Names(r.children) == Names(e.children)
    decreases |path|
  {
    if |path| == 0 then n
    else
      var i := Find(e.children, path[0]);
      if i < |e.children| then
        var kids := e.children[i := (e.children[i].0, Put(e.children[i].1, path[1..], n))];
        assert Names(kids) == Names(e.children);
        FindByNames(e.children, kids, path[0]);
        e.(children := kids)
      else e
  }

  // ---------------------------------------------------------------------------
  // What get does to the tree
  // ---------------------------------------------------------------------------

  /** `b` is `a` with, at most, children appended somewhere below: every node of `a`
      keeps its sum, its timer and its children, in order. */
  predicate Extends(a: Entry, b: Entry) {
    && a.sum == b.sum && a.start == b.start
    && |a.children| <= |b.children|
    && forall i :: 0 <= i < |a.children| ==>
         b.children[i].0 == a.children[i].0 && Extends(a.children[i].1, b.children[i].1)
  }

  lemma {:induction false} ExtendsReflexive(e: Entry)
    ensures Extends(e, e)
    decreases e
  {
    forall i | 0 <= i < |e.children|
      ensures Extends(e.children[i].1, e.children[i].1)
    {
      ExtendsReflexive(e.children[i].1);
    }
  }

  lemma PrefixCons(q: Path, p: Path)
    requires |q| > 0 && |p| > 0
    ensures IsPrefix(q, p) <==> q[0] == p[0] && IsPrefix(q[1..], p[1..])
  {
    if q[0] == p[0] && IsPrefix(q[1..], p[1..]) {
      assert q == [q[0]] + q[1..];
      assert p[..|q|] == [p[0]] + p[1..][..|q| - 1];
    }
  }

  /** Nothing but the node itself is reachable in a fresh entry. */
  lemma AtFresh(q: Path)
    ensures At(Fresh, q).Some? <==> |q| == 0
  {
  }

  /** After `get(p)` exactly the nodes that were there and the prefixes of `p`
      can be reached: every prefix of `p` now exists as a chain of children, and
      nothing else is added. */
  lemma {:induction false} GetShape(e: Entry, p: Path, q: Path)
    ensures At(Get(e, p).0, q).Some? <==> At(e, q).Some? || IsPrefix(q, p)
    decreases |p|
  {
    if |q| == 0 || |p| == 0 {
      return;
    }
    PrefixCons(q, p);
    var t := Get(e, p).0;
    var i := Find(e.children, p[0]);
    if i < |e.children| {
      var c := e.children[i].1;
      GetShape(c, p[1..], q[1..]);
      assert Names(t.children) == Names(e.children);
      FindByNames(e.children, t.children, q[0]);
    } else {
      GetShape(Fresh, p[1..], q[1..]);
      AtFresh(q[1..]);
      FindAppend(e.children, p[0], Get(Fresh, p[1..]).0, q[0]);
      var j := Find(e.children, q[0]);
      if j < |e.children| {
        assert t.children[j] == e.children[j];
      }
    }
  }

  /** `get` reuses the children that exist: every existing node keeps its sum, its
      timer and its children; only new children are appended. */
  lemma {:induction false} GetExtends(e: Entry, p: Path)
    ensures Extends(e, Get(e, p).0)
    decreases |p|
  {
    if |p| == 0 {
      ExtendsReflexive(e);
      return;
    }
    var t := Get(e, p).0;
    var i := Find(e.children, p[0]);
    forall j | 0 <= j < |e.children|
      ensures t.children[j].0 == e.children[j].0 && Extends(e.children[j].1, t.children[j].1)
    {
      if j == i {
        GetExtends(e.children[i].1, p[1..]);
      } else {
        assert t.children[j] == e.children[j];
        ExtendsReflexive(e.children[j].1);
      }
    }
  }

  /** The nodes `get(p)` creates are fresh: stopped, with nothing accumulated. */
  lemma {:induction false} GetCreatesFresh(e: Entry, p: Path, q: Path)
    requires IsPrefix(q, p) && At(e, q).None?
    ensures At(Get(e, p).0, q).Some?
    ensures At(Get(e, p).0, q).value.sum == 0 && !Running(At(Get(e, p).0, q).value)
    decreases |p|
  {
    PrefixCons(q, p);
    var t := Get(e, p).0;
    var i := Find(e.children, p[0]);
    if i < |e.children| {
      GetCreatesFresh(e.children[i].1, p[1..], q[1..]);
      assert Names(t.children) == Names(e.children);
      FindByNames(e.children, t.children, q[0]);
    } else {
      FindAppend(e.children, p[0], Get(Fresh, p[1..]).0, q[0]);
      if |q| == 1 {
        assert At(Get(Fresh, p[1..]).0, q[1..]) == Some(Get(Fresh, p[1..]).0);
      } else {
        GetCreatesFresh(Fresh, p[1..], q[1..]);
      }
    }
  }

  /** On a path that exists, `get` changes nothing and returns the node there. */
  lemma {:induction false} GetExisting(e: Entry, p: Path)
    requires At(e, p).Some?
    ensures Get(e, p) == (e, At(e, p).value)
    decreases |p|
  {
    if |p| > 0 {
      var i := Find(e.children, p[0]);
      GetExisting(e.children[i].1, p[1..]);
      assert e.children[i := (p[0], e.children[i].1)] == e.children;
    }
  }

  /** `get` keeps sibling names unique. */
  lemma {:induction false} GetWellFormed(e: Entry, p: Path)
    requires WellFormed(e)
    ensures WellFormed(Get(e, p).0)
    decreases |p|
  {
    if |p| == 0 {
      return;
    }
    var t := Get(e, p).0;
    var i := Find(e.children, p[0]);
    if i < |e.children| {
      GetWellFormed(e.children[i].1, p[1..]);
      assert Names(t.children) == Names(e.children);
      assert forall j :: 0 <= j < |t.children| && j != i ==> t.children[j] == e.children[j];
    } else {
      GetWellFormed(Fresh, p[1..]);
      assert forall j :: 0 <= j < |e.children| ==> t.children[j] == e.children[j];
    }
  }

  /** Writing back the node that is already there changes nothing. */
  lemma {:induction false} PutBack(e: Entry, p: Path)
    requires At(e, p).Some?
    ensures Put(e, p, At(e, p).value) == e
    decreases |p|
  {
    if |p| > 0 {
      var i := Find(e.children, p[0]);
      PutBack(e.children[i].1, p[1..]);
      assert e.children[i := (e.children[i].0, e.children[i].1)] == e.children;
    }
  }

  /** Writing back through one reference leaves alone every node that is neither
      on the path nor below its end. */
  lemma {:induction false} PutFrame(e: Entry, p: Path, n: Entry, q: Path)
    requires !IsPrefix(p, q) && !IsPrefix(q, p)
    ensures At(Put(e, p, n), q) == At(e, q)
    decreases |p|
  {
    PrefixCons(q, p);
    var i := Find(e.children, p[0]);
    if i < |e.children| {
      var r := Put(e, p, n);
      FindByNames(e.children, r.children, q[0]);
      PrefixCons(p, q);
      if q[0] == p[0] {
        PutFrame(e.children[i].1, p[1..], n, q[1..]);
      }
    }
  }

  /** The ancestors of the node written back keep their sum, their timer and
      their child names. */
  lemma {:induction false} PutAncestors(e: Entry, p: Path, n: Entry, q: Path)
    requires At(e, p).Some? && IsPrefix(q, p) && |q| < |p|
    ensures At(e, q).Some? && At(Put(e, p, n), q).Some?
    ensures At(Put(e, p, n), q).value.sum == At(e, q).value.sum
    ensures At(Put(e, p, n), q).value.start == At(e, q).value.start
    ensures Names(At(Put(e, p, n), q).value.children) == Names(At(e, q).value.children)
    decreases |q|
  {
    if |q| > 0 {
      PrefixCons(q, p);
      var i := Find(e.children, p[0]);
      var r := Put(e, p, n);
      FindByNames(e.children, r.children, p[0]);
      PutAncestors(e.children[i].1, p[1..], n, q[1..]);
    }
  }

  /** Writing back a node with the same children as the one it replaces leaves
      the timer and the sum of every other node as they were. */
  lemma PutOthers(e: Entry, p: Path, n: Entry, q: Path)
    requires At(e, p).Some? && n.children == At(e, p).value.children
    requires At(e, q).Some? && q != p
    ensures At(Put(e, p, n), q).Some?
    ensures At(Put(e, p, n), q).value.sum == At(e, q).value.sum
    ensures At(Put(e, p, n), q).value.start == At(e, q).value.start
  {
    if IsPrefix(q, p) {
      PutAncestors(e, p, n, q);
    } else if IsPrefix(p, q) {
      var before := At(e, p).value;
      PutBack(e, p);
      PutBelow(e, p, before, q);
      PutBelow(e, p, n, q);
      assert |q[|p|..]| > 0;
    } else {
      PutFrame(e, p, n, q);
    }
  }

  /** Below an entry, only its children matter for which paths reach a node. */
  lemma AtSameChildren(a: Entry, b: Entry, r: Path)
    requires a.children == b.children
    ensures At(a, r).Some? <==> At(b, r).Some?
  {
  }

  /** Writing back a node with the same children as the one it replaces neither
      adds nor removes a node: exactly the same paths reach nodes. */
  lemma PutShape(e: Entry, p: Path, n: Entry, q: Path)
    requires At(e, p).Some? && n.children == At(e, p).value.children
    ensures At(Put(e, p, n), q).Some? <==> At(e, q).Some?
  {
    if IsPrefix(q, p) {
      if |q| < |p| {
        PutAncestors(e, p, n, q);
      }
    } else if IsPrefix(p, q) {
      var before := At(e, p).value;
      PutBack(e, p);
      PutBelow(e, p, before, q);
      PutBelow(e, p, n, q);
      AtSameChildren(before, n, q[|p|..]);
    } else {
      PutFrame(e, p, n, q);
    }
  }

  /** A tree that extends another extends it at every node the other reaches. */
  lemma {:induction false} ExtendsAt(a: Entry, b: Entry, q: Path)
    requires Extends(a, b) && At(a, q).Some?
    ensures At(b, q).Some? && Extends(At(a, q).value, At(b, q).value)
    decreases |q|
  {
    if |q| > 0 {
      var i := Find(a.children, q[0]);
      FindPrefixNames(a.children, b.children, q[0]);
      ExtendsAt(a.children[i].1, b.children[i].1, q[1..]);
    }
  }

  /** Below the node written back, the tree is the new node's subtree. */
  lemma {:induction false} PutBelow(e: Entry, p: Path, n: Entry, q: Path)
    requires At(e, p).Some? && IsPrefix(p, q)
    ensures At(Put(e, p, n), q) == At(n, q[|p|..])
    decreases |p|
  {
    if |p| > 0 {
      PrefixCons(p, q);
      var i := Find(e.children, p[0]);
      var r := Put(e, p, n);
      FindByNames(e.children, r.children, p[0]);
      PutBelow(e.children[i].1, p[1..], n, q[1..]);
      assert q[1..][|p| - 1..] == q[|p|..];
    }
  }

  // ---------------------------------------------------------------------------
  // Tree-wide invariants under get and write-back
  // ---------------------------------------------------------------------------

  lemma {:induction false} AtWellFormed(e: Entry, p: Path)
    requires WellFormed(e) && At(e, p).Some?
    ensures WellFormed(At(e, p).value)
    decreases |p|
  {
    if |p| > 0 {
      AtWellFormed(e.children[Find(e.children, p[0])].1, p[1..]);
    }
  }

  /** Writing back a node with unique names keeps names unique everywhere. */
  lemma {:induction false} PutWellFormed(e: Entry, p: Path, n: Entry)
    requires WellFormed(e) && WellFormed(n)
    ensures WellFormed(Put(e, p, n))
    decreases |p|
  {
    if |p| > 0 {
      var i := Find(e.children, p[0]);
      if i < |e.children| {
        PutWellFormed(e.children[i].1, p[1..], n);
        var r := Put(e, p, n);
        assert Names(r.children) == Names(e.children);
        assert forall j :: 0 <= j < |r.children| && j != i ==> r.children[j] == e.children[j];
      }
    }
  }

  lemma {:induction false} AtSane(e: Entry, p: Path, now: int)
    requires Sane(e, now) && At(e, p).Some?
    ensures Sane(At(e, p).value, now)
    decreases |p|
  {
    if |p| > 0 {
      AtSane(e.children[Find(e.children, p[0])].1, p[1..], now);
    }
  }

  lemma {:induction false} PutSane(e: Entry, p: Path, n: Entry, now: int)
    requires Sane(e, now) && Sane(n, now)
    ensures Sane(Put(e, p, n), now)
    decreases |p|
  {
    if |p| > 0 {
      var i := Find(e.children, p[0]);
      if i < |e.children| {
        PutSane(e.children[i].1, p[1..], n, now);
        var r := Put(e, p, n);
        assert forall j :: 0 <= j < |r.children| && j != i ==> r.children[j] == e.children[j];
      }
    }
  }

  /** The children `get` adds are fresh, so a sane tree stays sane. */
  lemma {:induction false} GetSane(e: Entry, p: Path, now: int)
    requires Sane(e, now)
    ensures Sane(Get(e, p).0, now)
    decreases |p|
  {
    if |p| > 0 {
      var t := Get(e, p).0;
      var i := Find(e.children, p[0]);
      if i < |e.children| {
        GetSane(e.children[i].1, p[1..], now);
        assert forall j :: 0 <= j < |t.children| && j != i ==> t.children[j] == e.children[j];
      } else {
        GetSane(Fresh, p[1..], now);
        assert forall j :: 0 <= j < |e.children| ==> t.children[j] == e.children[j];
      }
    }
  }

  /** A sane tree stays sane as the clock moves on. */
  lemma {:induction false} SaneLater(e: Entry, now: int, later: int)
    requires Sane(e, now) && now <= later
    ensures Sane(e, later)
    decreases e
  {
    forall i | 0 <= i < |e.children|
      ensures Sane(e.children[i].1, later)
    {
      SaneLater(e.children[i].1, now, later);
    }
  }
}
