/**
 The exit path of `Profiler.__call__` as the program writes it. The context manager
 keeps the node it started in a local variable and, on the way out, stops that
 node rather than the one the tree holds for the path. When regions are left
 innermost first and nothing escapes them, the two are the same node unless
 `clear()` ran while the region was open: `clear()` builds a new tree, so the held
 node is then detached and stopping it changes nothing the profiler can still
 reach, while the region's node in the new tree keeps running. Exits out of
 nesting order are not modelled here.

 A `Session` records, for every open region, how many clears had happened when
 it was entered; the held node is the tree's node exactly when that count is
 still current.
 */
module Session {
  import opened Wrappers
  import opened TimeEntry
  import opened Profiler

  datatype Session = Session(state: State, entered: seq<nat>, clears: nat)

  /** One count per open region, none from the future. */
  predicate Tracked(s: Session) {
    && |s.entered| == |s.state.path|
    && forall i :: 0 <= i < |s.entered| ==> s.entered[i] <= s.clears
  }

  /** `Profiler()`: nothing open, no clear yet. */
  function Begin(now: int): (s: Session)
    ensures Tracked(s) && s.state == New(now) && s.clears == 0
  {
    Session(New(now), [], 0)
  }

  /** Entering as written is the model's enter; the node the region holds is the
      one the tree now holds for its path. */
  function EnterSession(s: Session, name: Name, now: int): (r: Session)
    requires Tracked(s)
    ensures Tracked(r) && r.state == Enter(s.state, name, now) && r.clears == s.clears
    ensures |r.entered| > 0 && r.entered[|r.entered| - 1] == r.clears
    ensures r.entered[..|r.entered| - 1] == s.entered
  {
    Session(Enter(s.state, name, now), s.entered + [s.clears], s.clears)
  }

  /** `clear()` as written is the model's clear, and after it the node held by
      every open region is detached from the tree. */
  function ClearSession(s: Session, now: int): (r: Session)
    requires Tracked(s)
    ensures Tracked(r) && r.state == Cleared(s.state, now) && r.entered == s.entered
    ensures forall i :: 0 <= i < |r.entered| ==> r.entered[i] < r.clears
  {
    Session(Cleared(s.state, now), s.entered, s.clears + 1)
  }

  /** Leaving the innermost region as written: stop the held node, pop the name.
      When a clear happened since the region was entered, the held node is no
      longer in the tree and the tree is left as it was. Stopping the held node
      cannot fail: it has run since this region was entered, and only this exit
      stops it. */
  function ExitAsWritten(s: Session, now: int): (r: Result<Session, TimerError>)
    requires Tracked(s) && |s.state.path| > 0
    ensures r.Success? ==> Tracked(r.value) && r.value.state.path == s.state.path[..|s.state.path| - 1]
    ensures s.entered[|s.entered| - 1] < s.clears ==> r == Success(Session(
              State(s.state.tree, s.state.path[..|s.state.path| - 1]), s.entered[..|s.entered| - 1], s.clears))
  {
    var popped := s.entered[..|s.entered| - 1];
    if s.entered[|s.entered| - 1] == s.clears then
      match Exit(s.state, now)
      case Failure(err) => Failure(err)
      case Success(t) => Success(Session(t, popped, s.clears))
    else
      Success(Session(State(s.state.tree, s.state.path[..|s.state.path| - 1]), popped, s.clears))
  }

  /** `with p("a"): p.clear()`: after the block the path is empty again, yet the
      node of "a" in the tree is still running, which the invariant forbids. */
  lemma ClearInsideRegion()
    ensures var r := ExitAsWritten(ClearSession(EnterSession(Begin(0), "a", 1), 2), 3);
            && r.Success?
            && r.value.state.path == []
            && At(r.value.state.tree, ["a"]).Some?
            && Running(At(r.value.state.tree, ["a"]).value)
            && !Valid(r.value.state, 3)
  {
    var r := ExitAsWritten(ClearSession(EnterSession(Begin(0), "a", 1), 2), 3);
    var a := r.value.state.tree.children[0].1;
    assert At(r.value.state.tree, ["a"]) == Some(a);
  }

  /** The same block with the region's node in the current tree stopped: "a" is
      stopped and holds the time since the clear. */
  lemma ClearInsideRegionCorrected()
    ensures var c := Enter(New(0), "a", 1);
            var r := Exit(Cleared(c, 2), 3);
            && r.Success?
            && r.value.path == []
            && At(r.value.tree, ["a"]).Some?
            && !Running(At(r.value.tree, ["a"]).value)
            && At(r.value.tree, ["a"]).value.sum == 1
            && Valid(r.value, 3)
  {
    var c := Enter(New(0), "a", 1);
    var s := Cleared(c, 2);
    ClearValid(c, 2, []);
    LaterValid(s, 2, 3);
    ExitValid(s, 3);
  }
}
