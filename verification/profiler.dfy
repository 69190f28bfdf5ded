/**
 sipro's `Profiler`: one time tree and `current_path`, the names of the regions
 that are open, outermost first. Entering a region pushes its name and starts its
 node; leaving it stops the node and pops the name; `clear()` replaces the tree by
 a fresh chain for the open path. Every transition is a function of the state and
 the tick `now` at which it happens.
 */
module Profiler {
  import opened Wrappers
  import opened TimeEntry
  import opened Report

  /** The profiler: `tree` and `current_path`. */
  datatype State = State(tree: Entry, path: Path)

  /** No timer runs anywhere in `e`. */
  predicate AllStopped(e: Entry) {
    && !Running(e)
    && forall i :: 0 <= i < |e.children| ==> AllStopped(e.children[i].1)
  }

  /** The running nodes of `e` are exactly those on `path`, `e` included. */
  predicate OpenChain(e: Entry, path: Path)
    decreases |path|
  {
    && Running(e)
    && if |path| == 0 then
         forall i :: 0 <= i < |e.children| ==> AllStopped(e.children[i].1)
       else
         var k := Find(e.children, path[0]);
         && k < |e.children|
         && OpenChain(e.children[k].1, path[1..])
         && forall i :: 0 <= i < |e.children| && i != k ==> AllStopped(e.children[i].1)
  }

  /** What holds between operations when regions are entered and left in nested
      order under a monotonic clock: unique names, the open regions are the running
      nodes, no negative sum or future start, and children never account for more
      time than their parent. */
  predicate Valid(s: State, now: int) {
    && WellFormed(s.tree)
    && OpenChain(s.tree, s.path)
    && Sane(s.tree, now)
    && Balanced(s.tree, now)
  }

  // ---------------------------------------------------------------------------
  // Transitions
  // ---------------------------------------------------------------------------

  /** `Profiler()`: a fresh root, started, and nothing open. */
  function New(now: int): (r: State)
    ensures r.path == [] && Running(r.tree) && Elapsed(r.tree, now) == 0
    ensures forall q :: At(r.tree, q).Some? <==> |q| == 0
  {
    State(Start(Fresh, now), [])
  }

  /** Entering region `name` (the code before `yield` in `__call__`): push the
      name, get the node at the new path and start it. */
  function Enter(s: State, name: Name, now: int): (r: State)
    ensures r.path == s.path + [name]
    ensures At(r.tree, r.path).Some?
    ensures Running(At(r.tree, r.path).value) && At(r.tree, r.path).value.start.value == now
  {
    var p := s.path + [name];
    var (t, node) := Get(s.tree, p);
    State(Put(t, p, Start(node, now)), p)
  }

  /** Leaving the innermost region (the code after `yield`): stop its node and pop
      its name. The context manager only runs this after its own push, so the path
      is not empty. */
  function Exit(s: State, now: int): (r: Result<State, TimerError>)
    requires |s.path| > 0
    ensures r.Success? ==> r.value.path == s.path[..|s.path| - 1]
    ensures r.Success? ==> At(r.value.tree, s.path).Some? && !Running(At(r.value.tree, s.path).value)
    ensures r.Success? ==> At(r.value.tree, s.path).value.sum == Elapsed(Get(s.tree, s.path).1, now)
    ensures r.Failure? <==> !Running(Get(s.tree, s.path).1)
  {
    var (t, node) := Get(s.tree, s.path);
    match Stop(node, now)
    case Failure(err) => Failure(err)
    case Success(n) => Success(State(Put(t, s.path, n), s.path[..|s.path| - 1]))
  }

  /** A single branch of fresh nodes along `path`, each started at `now`. */
  function Chain(path: Path, now: int): Entry
    decreases |path|
  {
    Entry(0, Some(now), if |path| == 0 then [] else [(path[0], Chain(path[1..], now))])
  }

  /** The state `clear()` leaves: the chain for the open path, which stays open. */
  function Cleared(s: State, now: int): State {
    State(Chain(s.path, now), s.path)
  }

  /** `clear()`: a new tree, then `get(prefix).start()` for every prefix of the open
      path, shortest first. */
  method Clear(s: State, now: int) returns (r: State)
    ensures r == Cleared(s, now)
  {
    var tree := Fresh;
    var k := 0;
    while k <= |s.path|
      invariant 0 <= k <= |s.path| + 1
      invariant k == 0 ==> tree == Fresh
      invariant k > 0 ==> tree == Chain(s.path[..k - 1], now)
    {
      var prefix := s.path[..k];
      if k > 0 {
        assert prefix == s.path[..k - 1] + [s.path[k - 1]];
        ChainStep(s.path[..k - 1], s.path[k - 1], now);
      }
      var (t, node) := Get(tree, prefix);
      tree := Put(t, prefix, Start(node, now));
      k := k + 1;
    }
    assert s.path[..|s.path|] == s.path;
    r := State(tree, s.path);
  }

  /** `dict()` on the profiler: the report, and the tree left committed at `now`. */
  function Dict(s: State, now: int): (r: (State, Snapshot))
    ensures r.0.path == s.path && r.0.tree == CommitAll(s.tree, now)
    ensures Mirrors(r.1, s.tree, now)
  {
    DictMirrors(s.tree, now);
    (s.(tree := CommitAll(s.tree, now)), Report.Dict(s.tree, now))
  }

  // ---------------------------------------------------------------------------
  // Facts about the open chain
  // ---------------------------------------------------------------------------

  lemma {:induction false} AllStoppedAt(e: Entry, q: Path)
    requires AllStopped(e) && At(e, q).Some?
    ensures AllStopped(At(e, q).value)
    decreases |q|
  {
    if |q| > 0 {
      AllStoppedAt(e.children[Find(e.children, q[0])].1, q[1..]);
    }
  }

  /** The nodes that run are exactly the open regions and their ancestors: each
      prefix of the open path reaches a running node, and any other node that
      exists is stopped, with its whole subtree. */
  lemma {:induction false} OpenChainRunning(e: Entry, path: Path, q: Path)
    requires OpenChain(e, path)
    ensures IsPrefix(q, path) ==> At(e, q).Some? && Running(At(e, q).value)
    ensures At(e, q).Some? && !IsPrefix(q, path) ==> AllStopped(At(e, q).value)
    decreases |q|
  {
    if |q| == 0 {
      return;
    }
    var j := Find(e.children, q[0]);
    if |path| == 0 {
      if At(e, q).Some? {
        AllStoppedAt(e.children[j].1, q[1..]);
      }
      return;
    }
    PrefixCons(q, path);
    var k := Find(e.children, path[0]);
    if q[0] == path[0] {
      OpenChainRunning(e.children[k].1, path[1..], q[1..]);
    } else if At(e, q).Some? {
      AllStoppedAt(e.children[j].1, q[1..]);
    }
  }

  lemma {:induction false} GetAllStopped(e: Entry, p: Path)
    requires AllStopped(e)
    ensures AllStopped(Get(e, p).0)
    decreases |p|
  {
    if |p| > 0 {
      var t := Get(e, p).0;
      var i := Find(e.children, p[0]);
      if i < |e.children| {
        GetAllStopped(e.children[i].1, p[1..]);
        assert forall j :: 0 <= j < |t.children| && j != i ==> t.children[j] == e.children[j];
      } else {
        GetAllStopped(Fresh, p[1..]);
        assert forall j :: 0 <= j < |e.children| ==> t.children[j] == e.children[j];
      }
    }
  }

  /** The children `get` adds are stopped, so the open chain is unchanged. */
  lemma {:induction false} GetOpenChain(e: Entry, path: Path, q: Path)
    requires OpenChain(e, path)
    ensures OpenChain(Get(e, q).0, path)
    decreases |q|
  {
    if |q| == 0 {
      return;
    }
    var t := Get(e, q).0;
    var i := Find(e.children, q[0]);
    if i < |e.children| {
      assert Names(t.children) == Names(e.children);
      assert forall j :: 0 <= j < |t.children| && j != i ==> t.children[j] == e.children[j];
      if |path| > 0 {
        FindByNames(e.children, t.children, path[0]);
        if Find(e.children, path[0]) == i {
          GetOpenChain(e.children[i].1, path[1..], q[1..]);
          return;
        }
      }
      GetAllStopped(e.children[i].1, q[1..]);
    } else {
      GetAllStopped(Fresh, q[1..]);
      assert forall j :: 0 <= j < |e.children| ==> t.children[j] == e.children[j];
      if |path| > 0 {
        FindAppend(e.children, q[0], Get(Fresh, q[1..]).0, path[0]);
      }
    }
  }

  /** Starting a stopped node one level below the open chain extends the chain. */
  lemma {:induction false} StartExtendsChain(t: Entry, path: Path, x: Name, n: Entry, now: int)
    requires OpenChain(t, path)
    requires At(t, path + [x]) == Some(n) && AllStopped(n)
    ensures OpenChain(Put(t, path + [x], Start(n, now)), path + [x])
    decreases |path|
  {
    var p := path + [x];
    var r := Put(t, p, Start(n, now));
    var i := Find(t.children, p[0]);
    FindByNames(t.children, r.children, p[0]);
    assert forall j :: 0 <= j < |r.children| && j != i ==> r.children[j] == t.children[j];
    if |path| > 0 {
      assert p[1..] == path[1..] + [x];
      StartExtendsChain(t.children[i].1, path[1..], x, n, now);
    }
  }

  /** Stopping the innermost open node shortens the chain by one. */
  lemma {:induction false} StopShortensChain(t: Entry, path: Path, x: Name, now: int)
    requires OpenChain(t, path + [x])
    ensures At(t, path + [x]).Some? && Stop(At(t, path + [x]).value, now).Success?
    ensures OpenChain(Put(t, path + [x], Stop(At(t, path + [x]).value, now).value), path)
    decreases |path|
  {
    var p := path + [x];
    OpenChainRunning(t, p, p);
    var n := At(t, p).value;
    var r := Put(t, p, Stop(n, now).value);
    var i := Find(t.children, p[0]);
    FindByNames(t.children, r.children, p[0]);
    assert forall j :: 0 <= j < |r.children| && j != i ==> r.children[j] == t.children[j];
    if |path| > 0 {
      assert p[1..] == path[1..] + [x];
      StopShortensChain(t.children[i].1, path[1..], x, now);
    }
  }

  // ---------------------------------------------------------------------------
  // The passage of time
  // ---------------------------------------------------------------------------

  lemma {:induction false} StoppedBalancedLater(e: Entry, now: int, later: int)
    requires AllStopped(e) && Balanced(e, now)
    ensures Balanced(e, later)
    decreases e
  {
    ChildSumLater(e.children, |e.children|, now, later);
    forall i | 0 <= i < |e.children|
      ensures Balanced(e.children[i].1, later)
    {
      StoppedBalancedLater(e.children[i].1, now, later);
    }
  }

  /** When at most the child at `k` runs, the children's sum grows by exactly
      what that child gains. */
  lemma {:induction false} ChildSumLater(kids: seq<(Name, Entry)>, k: nat, now: int, later: int)
    requires forall i :: 0 <= i < |kids| && i != k ==> !Running(kids[i].1)
    ensures k < |kids| ==> ChildSum(kids, later) == ChildSum(kids, now) + (Elapsed(kids[k].1, later) - Elapsed(kids[k].1, now))
    ensures k >= |kids| ==> ChildSum(kids, later) == ChildSum(kids, now)
    decreases |kids|
  {
    if |kids| > 0 {
      ChildSumLater(kids[..|kids| - 1], k, now, later);
    }
  }

  /** Time passing keeps a valid tree balanced: the only child that gains time is
      on the open chain, and its parent, also running, gains as much. */
  lemma {:induction false} BalancedLater(e: Entry, path: Path, now: int, later: int)
    requires OpenChain(e, path) && Sane(e, now) && Balanced(e, now) && now <= later
    ensures Balanced(e, later)
    decreases |path|
  {
    var k := if |path| == 0 then |e.children| else Find(e.children, path[0]);
    ChildSumLater(e.children, k, now, later);
    ElapsedMonotone(e, now, later);
    if k < |e.children| {
      assert Sane(e.children[k].1, now);
      ElapsedMonotone(e.children[k].1, now, later);
    }
    forall i | 0 <= i < |e.children|
      ensures Balanced(e.children[i].1, later)
    {
      if i == k {
        BalancedLater(e.children[k].1, path[1..], now, later);
      } else {
        StoppedBalancedLater(e.children[i].1, now, later);
      }
    }
  }

  // ---------------------------------------------------------------------------
  // The chain clear() builds
  // ---------------------------------------------------------------------------

  /** One turn of the loop in `clear()`: starting the next prefix extends the chain. */
  lemma {:induction false} ChainStep(q: Path, x: Name, now: int)
    ensures var p := q + [x];
            var (t, node) := Get(Chain(q, now), p);
            Put(t, p, Start(node, now)) == Chain(p, now)
    decreases |q|
  {
    var p := q + [x];
    if |q| > 0 {
      assert p[1..] == q[1..] + [x];
      ChainStep(q[1..], x, now);
    }
  }

  /** The chain holds exactly the prefixes of `path`, each started at `now` with
      nothing accumulated. */
  lemma {:induction false} ChainShape(path: Path, q: Path, now: int)
    ensures At(Chain(path, now), q).Some? <==> IsPrefix(q, path)
    ensures At(Chain(path, now), q).Some? ==>
              At(Chain(path, now), q).value.sum == 0 && At(Chain(path, now), q).value.start == Some(now)
    decreases |q|
  {
    if |q| > 0 && |path| > 0 {
      PrefixCons(q, path);
      ChainShape(path[1..], q[1..], now);
    }
  }

  lemma {:induction false} ChainValid(path: Path, now: int)
    ensures Valid(State(Chain(path, now), path), now)
    ensures Elapsed(Chain(path, now), now) == 0
    decreases |path|
  {
    if |path| > 0 {
      ChainValid(path[1..], now);
      var c := Chain(path, now);
      assert c.children[..0] == [];
    }
  }

  // ---------------------------------------------------------------------------
  // The profiler's invariant
  // ---------------------------------------------------------------------------

  /** A new profiler has its root running and nothing open. */
  lemma NewValid(now: int)
    ensures Valid(New(now), now)
    ensures New(now).path == [] && Running(New(now).tree)
  {
  }

  /** The invariant survives the passage of time. */
  lemma LaterValid(s: State, now: int, later: int)
    requires Valid(s, now) && now <= later
    ensures Valid(s, later)
  {
    SaneLater(s.tree, now, later);
    BalancedLater(s.tree, s.path, now, later);
  }

  /** Entering a region keeps the invariant: the node for the new path runs, and
      every open region's node still does. */
  lemma EnterValid(s: State, name: Name, now: int, later: int)
    requires Valid(s, now) && now <= later
    ensures Valid(Enter(s, name, later), later)
  {
    LaterValid(s, now, later);
    var p := s.path + [name];
    var (t, node) := Get(s.tree, p);
    assert Enter(s, name, later) == State(Put(t, p, Start(node, later)), p);
    EnterWellFormed(s.tree, p, later);
    EnterSane(s.tree, p, later);
    EnterBalanced(s.tree, s.path, name, later);
    GetOpenChain(s.tree, s.path, p);
    OpenChainRunning(t, s.path, p);
    StartExtendsChain(t, s.path, name, node, later);
  }

  lemma EnterWellFormed(e: Entry, p: Path, now: int)
    requires WellFormed(e)
    ensures WellFormed(Put(Get(e, p).0, p, Start(Get(e, p).1, now)))
  {
    var (t, node) := Get(e, p);
    GetWellFormed(e, p);
    AtWellFormed(t, p);
    PutWellFormed(t, p, Start(node, now));
  }

  lemma EnterSane(e: Entry, p: Path, now: int)
    requires Sane(e, now)
    ensures Sane(Put(Get(e, p).0, p, Start(Get(e, p).1, now)), now)
  {
    var (t, node) := Get(e, p);
    GetSane(e, p, now);
    AtSane(t, p, now);
    PutSane(t, p, Start(node, now), now);
  }

  lemma EnterBalanced(e: Entry, path: Path, name: Name, now: int)
    requires Balanced(e, now) && OpenChain(e, path)
    ensures var p := path + [name];
            Balanced(Put(Get(e, p).0, p, Start(Get(e, p).1, now)), now)
  {
    var p := path + [name];
    var (t, node) := Get(e, p);
    GetBalanced(e, p, now);
    GetOpenChain(e, path, p);
    OpenChainRunning(t, path, p);
    AtBalanced(t, p, now);
    PutBalanced(t, p, Start(node, now), now);
  }

  /** Leaving the innermost region succeeds and keeps the invariant. */
  lemma ExitValid(s: State, now: int)
    requires Valid(s, now) && |s.path| > 0
    ensures Exit(s, now).Success? && Valid(Exit(s, now).value, now)
  {
    var path, x := s.path[..|s.path| - 1], s.path[|s.path| - 1];
    assert s.path == path + [x];
    StopShortensChain(s.tree, path, x, now);
    GetExisting(s.tree, s.path);
    var node := At(s.tree, s.path).value;
    var n := Stop(node, now).value;
    AtWellFormed(s.tree, s.path);
    AtSane(s.tree, s.path, now);
    PutWellFormed(s.tree, s.path, n);
    PutSane(s.tree, s.path, n, now);
    AtBalanced(s.tree, s.path, now);
    assert ChildSum(n.children, now) == ChildSum(node.children, now);
    PutBalanced(s.tree, s.path, n, now);
  }

  /** A matched enter and exit leaves the open path as it was and the entered
      node stopped, holding what it had before plus the time in between. */
  lemma EnterExit(s: State, name: Name, t0: int, t1: int, t2: int)
    requires Valid(s, t0) && t0 <= t1 <= t2
    ensures var r := Exit(Enter(s, name, t1), t2);
            var before := if At(s.tree, s.path + [name]).Some? then At(s.tree, s.path + [name]).value.sum else 0;
            && r.Success?
            && r.value.path == s.path
            && Valid(r.value, t2)
            && At(r.value.tree, s.path + [name]).Some?
            && !Running(At(r.value.tree, s.path + [name]).value)
            && At(r.value.tree, s.path + [name]).value.sum == before + (t2 - t1)
  {
    var e := Enter(s, name, t1);
    EnterValid(s, name, t0, t1);
    LaterValid(e, t1, t2);
    ExitValid(e, t2);
    EnterExitTimes(s, name, t1, t2);
  }

  /** Entering touches no other node: every node that existed keeps its sum and
      its timer, except the entered one, which keeps its sum (0 when `get` creates
      it) and runs from `now`. */
  lemma EnterFrame(s: State, name: Name, now: int, q: Path)
    ensures var p := s.path + [name];
            At(Enter(s, name, now).tree, p).value.sum ==
              (if At(s.tree, p).Some? then At(s.tree, p).value.sum else 0)
    ensures At(s.tree, q).Some? && q != s.path + [name] ==>
              && At(Enter(s, name, now).tree, q).Some?
              && At(Enter(s, name, now).tree, q).value.sum == At(s.tree, q).value.sum
              && At(Enter(s, name, now).tree, q).value.start == At(s.tree, q).value.start
  {
    var p := s.path + [name];
    var (t, node) := Get(s.tree, p);
    if At(s.tree, p).Some? {
      GetExisting(s.tree, p);
    } else {
      GetCreatesFresh(s.tree, p, p);
    }
    if At(s.tree, q).Some? && q != p {
      GetExtends(s.tree, p);
      ExtendsAt(s.tree, t, q);
      PutOthers(t, p, Start(node, now), q);
    }
  }

  /** Leaving a region touches no other node: every node but the one stopped
      keeps its sum and its timer. */
  lemma ExitFrame(s: State, now: int, q: Path)
    requires |s.path| > 0
    ensures Exit(s, now).Success? && At(s.tree, q).Some? && q != s.path ==>
              && At(Exit(s, now).value.tree, q).Some?
              && At(Exit(s, now).value.tree, q).value.sum == At(s.tree, q).value.sum
              && At(Exit(s, now).value.tree, q).value.start == At(s.tree, q).value.start
  {
    if Exit(s, now).Success? && At(s.tree, q).Some? && q != s.path {
      var (t, node) := Get(s.tree, s.path);
      GetExtends(s.tree, s.path);
      ExtendsAt(s.tree, t, q);
      PutOthers(t, s.path, Stop(node, now).value, q);
    }
  }

  /** Entering adds exactly the missing nodes along the new path and nothing
      else: a path reaches a node afterwards exactly when it did before or it
      leads to the entered region. */
  lemma EnterShape(s: State, name: Name, now: int, q: Path)
    ensures At(Enter(s, name, now).tree, q).Some? <==> At(s.tree, q).Some? || IsPrefix(q, s.path + [name])
  {
    var p := s.path + [name];
    var (t, node) := Get(s.tree, p);
    GetShape(s.tree, p, q);
    PutShape(t, p, Start(node, now), q);
  }

  /** A successful exit neither adds nor removes a node: its region's node was
      already there (a node `get` would create is not running, so stopping it
      fails), and stopping it keeps its children. */
  lemma ExitShape(s: State, now: int, q: Path)
    requires |s.path| > 0
    ensures Exit(s, now).Success? ==> At(s.tree, s.path).Some?
    ensures Exit(s, now).Success? ==> (At(Exit(s, now).value.tree, q).Some? <==> At(s.tree, q).Some?)
  {
    if Exit(s, now).Success? {
      if At(s.tree, s.path).None? {
        GetCreatesFresh(s.tree, s.path, s.path);
        assert false;
      }
      GetExisting(s.tree, s.path);
      PutShape(s.tree, s.path, Stop(At(s.tree, s.path).value, now).value, q);
    }
  }

  /** In any state, valid or not, a matched enter and exit restores the path and
      leaves the entered node stopped, holding its earlier sum (0 for a node `get`
      creates) plus the time between the two. */
  lemma EnterExitTimes(s: State, name: Name, t1: int, t2: int)
    ensures var r := Exit(Enter(s, name, t1), t2);
            var before := if At(s.tree, s.path + [name]).Some? then At(s.tree, s.path + [name]).value.sum else 0;
            && r.Success?
            && r.value.path == s.path
            && At(r.value.tree, s.path + [name]).Some?
            && !Running(At(r.value.tree, s.path + [name]).value)
            && At(r.value.tree, s.path + [name]).value.sum == before + (t2 - t1)
  {
    var p := s.path + [name];
    var e := Enter(s, name, t1);
    assert p[..|p| - 1] == s.path;
    EnterFrame(s, name, t1, []);
    GetExisting(e.tree, p);
  }

  /** `clear()` leaves exactly the chain for the open path, every node of it,
      root included, running from `now` with nothing accumulated. */
  lemma ClearValid(s: State, now: int, q: Path)
    ensures Valid(Cleared(s, now), now)
    ensures At(Cleared(s, now).tree, q).Some? <==> IsPrefix(q, s.path)
    ensures IsPrefix(q, s.path) ==>
              At(Cleared(s, now).tree, q).value.sum == 0 && At(Cleared(s, now).tree, q).value.start == Some(now)
  {
    ChainValid(s.path, now);
    ChainShape(s.path, q, now);
  }

  /** Taking a report disturbs nothing: the state it leaves is still valid. */
  lemma DictValid(s: State, now: int)
    requires Valid(s, now)
    ensures Valid(Dict(s, now).0, now)
  {
    CommitAllWellFormed(s.tree, now);
    CommitAllSane(s.tree, now);
    CommitAllBalanced(s.tree, now);
    CommitAllOpenChain(s.tree, s.path, now);
  }

  lemma {:induction false} CommitAllWellFormed(e: Entry, now: int)
    requires WellFormed(e)
    ensures WellFormed(CommitAll(e, now))
    decreases e
  {
    var c := CommitAll(e, now);
    forall i | 0 <= i < |e.children|
      ensures WellFormed(c.children[i].1)
    {
      CommitAllWellFormed(e.children[i].1, now);
    }
  }

  lemma {:induction false} CommitAllSane(e: Entry, now: int)
    requires Sane(e, now)
    ensures Sane(CommitAll(e, now), now)
    decreases e
  {
    var c := CommitAll(e, now);
    forall i | 0 <= i < |e.children|
      ensures Sane(c.children[i].1, now)
    {
      CommitAllSane(e.children[i].1, now);
    }
  }

  lemma {:induction false} CommitAllStopped(e: Entry, now: int)
    requires AllStopped(e)
    ensures AllStopped(CommitAll(e, now))
    decreases e
  {
    var c := CommitAll(e, now);
    forall i | 0 <= i < |e.children|
      ensures AllStopped(c.children[i].1)
    {
      CommitAllStopped(e.children[i].1, now);
    }
  }

  lemma {:induction false} CommitAllOpenChain(e: Entry, path: Path, now: int)
    requires OpenChain(e, path)
    ensures OpenChain(CommitAll(e, now), path)
    decreases |path|
  {
    var c := CommitAll(e, now);
    var k := if |path| == 0 then |e.children| else Find(e.children, path[0]);
    if |path| > 0 {
      FindByNames(e.children, c.children, path[0]);
      CommitAllOpenChain(e.children[k].1, path[1..], now);
    }
    forall i | 0 <= i < |e.children| && i != k
      ensures AllStopped(c.children[i].1)
    {
      CommitAllStopped(e.children[i].1, now);
    }
  }

  // ---------------------------------------------------------------------------
  // Time only accumulates
  // ---------------------------------------------------------------------------

  /** Every node of `a` is still in `b`, at the same position, and the time
      accounted to it at `later` in `b` is at least what it was at `now` in `a`. */
  predicate Grows(a: Entry, b: Entry, now: int, later: int) {
    && Elapsed(a, now) <= Elapsed(b, later)
    && |a.children| <= |b.children|
    && forall i :: 0 <= i < |a.children| ==>
         b.children[i].0 == a.children[i].0 && Grows(a.children[i].1, b.children[i].1, now, later)
  }

  lemma {:induction false} GrowsTransitive(a: Entry, b: Entry, c: Entry, t0: int, t1: int, t2: int)
    requires Grows(a, b, t0, t1) && Grows(b, c, t1, t2)
    ensures Grows(a, c, t0, t2)
    decreases a
  {
    forall i | 0 <= i < |a.children|
      ensures Grows(a.children[i].1, c.children[i].1, t0, t2)
    {
      GrowsTransitive(a.children[i].1, b.children[i].1, c.children[i].1, t0, t1, t2);
    }
  }

  /** Appending children and letting time pass only adds time. */
  lemma {:induction false} ExtendsGrows(a: Entry, b: Entry, now: int, later: int)
    requires Extends(a, b) && Sane(a, now) && now <= later
    ensures Grows(a, b, now, later)
    decreases a
  {
    ElapsedMonotone(a, now, later);
    forall i | 0 <= i < |a.children|
      ensures Grows(a.children[i].1, b.children[i].1, now, later)
    {
      ExtendsGrows(a.children[i].1, b.children[i].1, now, later);
    }
  }

  /** Writing back a node with the same children and no less time only adds time. */
  lemma {:induction false} PutGrows(e: Entry, p: Path, n: Entry, now: int)
    requires Sane(e, now) && At(e, p).Some?
    requires n.children == At(e, p).value.children
    requires Elapsed(n, now) >= Elapsed(At(e, p).value, now)
    ensures Grows(e, Put(e, p, n), now, now)
    decreases |p|
  {
    var r := Put(e, p, n);
    var i := if |p| == 0 then |e.children| else Find(e.children, p[0]);
    if |p| > 0 {
      PutGrows(e.children[i].1, p[1..], n, now);
    }
    forall j | 0 <= j < |e.children| && j != i
      ensures Grows(e.children[j].1, r.children[j].1, now, now)
    {
      ExtendsReflexive(e.children[j].1);
      ExtendsGrows(e.children[j].1, r.children[j].1, now, now);
    }
  }

  /** Entering a region takes no time away from any node. */
  lemma EnterGrows(s: State, name: Name, now: int, later: int)
    requires Valid(s, now) && now <= later
    ensures Grows(s.tree, Enter(s, name, later).tree, now, later)
  {
    var p := s.path + [name];
    var (t, node) := Get(s.tree, p);
    GetExtends(s.tree, p);
    ExtendsGrows(s.tree, t, now, later);
    SaneLater(s.tree, now, later);
    GetSane(s.tree, p, later);
    GetOpenChain(s.tree, s.path, p);
    OpenChainRunning(t, s.path, p);
    PutGrows(t, p, Start(node, later), later);
    GrowsTransitive(s.tree, t, Enter(s, name, later).tree, now, later, later);
  }

  /** Leaving a region takes no time away from any node. */
  lemma ExitGrows(s: State, now: int)
    requires Valid(s, now) && |s.path| > 0
    ensures Exit(s, now).Success? && Grows(s.tree, Exit(s, now).value.tree, now, now)
  {
    ExitValid(s, now);
    OpenChainRunning(s.tree, s.path, s.path);
    GetExisting(s.tree, s.path);
    PutGrows(s.tree, s.path, Stop(At(s.tree, s.path).value, now).value, now);
  }

  /** Taking a report takes no time away from any node. */
  lemma {:induction false} CommitAllGrows(e: Entry, now: int)
    ensures Grows(e, CommitAll(e, now), now, now)
    decreases e
  {
    var c := CommitAll(e, now);
    forall i | 0 <= i < |e.children|
      ensures Grows(e.children[i].1, c.children[i].1, now, now)
    {
      CommitAllGrows(e.children[i].1, now);
    }
  }

  /** What `Grows` means for a single node: a node reachable before is reachable
      after, and its time has not gone down. */
  lemma {:induction false} GrowsAt(a: Entry, b: Entry, q: Path, now: int, later: int)
    requires Grows(a, b, now, later) && At(a, q).Some?
    ensures At(b, q).Some? && Elapsed(At(a, q).value, now) <= Elapsed(At(b, q).value, later)
    decreases |q|
  {
    if |q| > 0 {
      var j := Find(a.children, q[0]);
      FindPrefixNames(a.children, b.children, q[0]);
      GrowsAt(a.children[j].1, b.children[j].1, q[1..], now, later);
    }
  }

  // ---------------------------------------------------------------------------
  // Whole runs
  // ---------------------------------------------------------------------------

  /** What a caller does with a profiler, and the tick at which it happens. */
  datatype Op = EnterRegion(name: Name) | ExitRegion | ClearAll | TakeDict
  datatype Event = Event(op: Op, at: int)

  /** One event; `None` when an exit finds no open region or a stopped node. */
  function Step(s: State, ev: Event): Option<State> {
    match ev.op
    case EnterRegion(name) => Some(Enter(s, name, ev.at))
    case ExitRegion =>
      if |s.path| == 0 then None
      else (match Exit(s, ev.at)
            case Success(r) => Some(r)
            case Failure(_) => None)
    case ClearAll => Some(Cleared(s, ev.at))
    case TakeDict => Some(Dict(s, ev.at).0)
  }

  function Run(s: State, evs: seq<Event>): Option<State>
    decreases |evs|
  {
    if |evs| == 0 then Some(s)
    else
      match Step(s, evs[0])
      case None => None
      case Some(s') => Run(s', evs[1..])
  }

  /** Ticks never go backwards from `now` on. */
  predicate Ordered(now: int, evs: seq<Event>)
    decreases |evs|
  {
    |evs| == 0 || (now <= evs[0].at && Ordered(evs[0].at, evs[1..]))
  }

  /** No exit without an open region, starting with `depth` open. */
  predicate WellNested(depth: nat, evs: seq<Event>)
    decreases |evs|
  {
    if |evs| == 0 then true
    else
      match evs[0].op
      case EnterRegion(_) => WellNested(depth + 1, evs[1..])
      case ExitRegion => depth > 0 && WellNested(depth - 1, evs[1..])
      case _ => WellNested(depth, evs[1..])
  }

  /** The tick of the last event, or `now` when there is none. */
  function LastTick(now: int, evs: seq<Event>): int
    decreases |evs|
  {
    if |evs| == 0 then now else LastTick(evs[0].at, evs[1..])
  }

  /** Any run of nested enters and exits, clears and reports under a monotonic
      clock goes through: no exit fails, and the invariant holds at the end. */
  lemma {:induction false} RunValid(s: State, now: int, evs: seq<Event>)
    requires Valid(s, now) && Ordered(now, evs) && WellNested(|s.path|, evs)
    ensures Run(s, evs).Some? && Valid(Run(s, evs).value, LastTick(now, evs))
    decreases |evs|
  {
    if |evs| > 0 {
      var ev := evs[0];
      match ev.op
      case EnterRegion(name) =>
        EnterValid(s, name, now, ev.at);
        RunValid(Enter(s, name, ev.at), ev.at, evs[1..]);
      case ExitRegion =>
        LaterValid(s, now, ev.at);
        ExitValid(s, ev.at);
        RunValid(Exit(s, ev.at).value, ev.at, evs[1..]);
      case ClearAll =>
        ClearValid(s, ev.at, []);
        RunValid(Cleared(s, ev.at), ev.at, evs[1..]);
      case TakeDict =>
        LaterValid(s, now, ev.at);
        DictValid(s, ev.at);
        RunValid(Dict(s, ev.at).0, ev.at, evs[1..]);
    }
  }
}
