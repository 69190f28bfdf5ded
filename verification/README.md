# sipro time tree, in Dafny

A model of the core of `sipro`, a small call-tree timer for Python.
A `TimeEntry` is a node of a tree. It holds the time accumulated by closed intervals (`sum`). It also holds the start of the interval that is open, if any (`start_time`), and its named children in insertion order.
A `Profiler` owns one such tree and `current_path`, the names of the regions that are open.
Entering a region pushes a name, gets (creating if needed) the node at the new path and starts it. Leaving it stops that node and pops the name. `clear()` throws the history away but restarts a node for every open region.

The model is functional. The tree is an immutable datatype (`TimeEntry.Entry`), with children as an association sequence. This keeps Python's dict order, and sibling names are unique.
Every operation that reads the clock takes the tick `now: int` as a parameter instead.
`get` returns the updated tree together with the node it reached. A mutation of that node is written back with `TimeEntry.Put`, which models the program changing the node through the reference `get` returned.
A profiler is `Profiler.State(tree, path)`. Its transitions are functions.
`Profiler.Valid` is the invariant that nested use under a monotonic clock keeps:
- sibling names are unique;
- the running nodes are exactly the open regions, root included;
- no sum is negative and no timer starts in the future;
- at every node, the children account for no more time than the node itself.

Files: `wrappers.dfy` (Option, Result), `time_entry.dfy` (the node, its timer, `get`), `report.dfy` (`dict()` and the rest row of `str()`), `profiler.dfy` (the profiler), `session.dfy` (the exit path as the code writes it; see Findings).

## Model

| member | source | states |
|---|---|---|
| TimeEntry.Start | sipro/__init__.py:40-48 | the entry runs from `now`; sum and children are untouched; at `now` it accounts only its closed sum, so an interval already open is lost |
| TimeEntry.Stop | sipro/__init__.py:50-58 | fails exactly when the entry is not running (the program raises); otherwise the entry is stopped, keeps its children, and its sum becomes the time accounted at `now`, never less than before under a monotonic clock |
| TimeEntry.Commit | sipro/__init__.py:60-71 | a stopped entry is unchanged; a running one keeps running from `now` with the time so far folded into its sum; the time accounted at `now` does not change |
| TimeEntry.CommitIdempotent | sipro/__init__.py:68-71 | a second commit at the same instant adds nothing |
| TimeEntry.StartStop | sipro/__init__.py:40-58 | start at `t0` then stop at `t1` adds exactly `t1 - t0` to the sum and leaves the entry stopped |
| TimeEntry.ElapsedMonotone | sipro/__init__.py:57-58 | under a monotonic clock the time accounted to an entry never decreases; it grows with the clock exactly while the entry runs |
| TimeEntry.Find | sipro/__init__.py:35 | the dict lookup: the position of the first child with the name, or the number of children when there is none |
| TimeEntry.Get | sipro/__init__.py:17-38 | an empty path returns the node itself and changes nothing; otherwise the returned node is the one the path reaches in the returned tree, and the root's timer is untouched |
| TimeEntry.GetShape | sipro/__init__.py:32-38 | after `get(p)` a path reaches a node exactly when it did before or it is a prefix of `p`: every prefix now exists as a chain of children and nothing else is added |
| TimeEntry.GetExtends | sipro/__init__.py:35-38 | existing children are reused: every node keeps its sum, its timer and its children in order; new children are only appended |
| TimeEntry.GetCreatesFresh | sipro/__init__.py:35-36 | each node `get` creates is stopped with sum 0 |
| TimeEntry.GetExisting | sipro/__init__.py:28-38 | on a path that exists `get` leaves the tree unchanged and returns the node there |
| TimeEntry.GetWellFormed | sipro/__init__.py:35-36 | `get` keeps sibling names unique at every level |
| TimeEntry.Put | sipro/__init__.py:192-195 | writing back the node the path reaches makes it the node at that path; the root keeps its timer and its child names |
| TimeEntry.PutFrame | sipro/__init__.py:192-195 | changing one node through its reference leaves every node that is neither an ancestor of it nor below it exactly as it was |
| TimeEntry.PutAncestors | sipro/__init__.py:192-195 | every ancestor of the node written back keeps its sum, its timer and its child names |
| TimeEntry.PutBelow | sipro/__init__.py:192-195 | below the written node the tree is the written node's own subtree |
| TimeEntry.PutOthers | sipro/__init__.py:192-195 | changing a node's timer or sum through its reference, keeping its children, leaves the sum and the timer of every other node as they were |
| TimeEntry.PutShape | sipro/__init__.py:192-195 | changing a node's timer or sum through its reference, keeping its children, neither adds nor removes a node: exactly the same paths reach nodes |
| TimeEntry.ExtendsAt | sipro/__init__.py:35-38 | a node reachable before `get` is reachable after it, with its sum, its timer and its children kept |
| TimeEntry.PutBack | sipro/__init__.py:192-195 | writing back an unchanged node leaves the tree unchanged |
| Report.CommitAll | sipro/__init__.py:126-131 | the side effect of a report, at the root: the node accounts at `now` what it accounted before, with the time so far folded into its sum; if running it keeps running from `now`; child names are kept |
| Report.CommitAllAt | sipro/__init__.py:126-131 | the same at every node: exactly the same paths reach nodes; each reached node has the time so far folded into its sum, keeps running from `now` exactly when it ran, and keeps its child names |
| Report.Dict | sipro/__init__.py:118-133 | the mapping's sum is the node's time at `now`, with one entry per child under the child's name, in order |
| Report.DictMirrors | sipro/__init__.py:126-133 | the mapping mirrors the tree at every level: same child names in the same order, each sum the node's time at `now` |
| Report.DictAfterCommit | sipro/__init__.py:126-133 | a report taken right after another, at the same instant, is the same report |
| Report.CommitAllIdempotent | sipro/__init__.py:126-131 | committing the whole tree twice at one instant is committing it once |
| Report.ChildSum | sipro/__init__.py:100-108 | the children's committed sums added up: 0 without children, and, when no child's time is negative, never negative and at least each single child's time |
| Report.AccumulateChildSum | sipro/__init__.py:100-108 | the front-to-back loop over the committed children computes exactly the children's total |
| Report.Rest | sipro/__init__.py:97-110 | `rest_sum` (line 110) is defined exactly when the node has children; it is never negative, and it is the node's time minus the children's time, or 0 when that difference is negative |
| Report.RestBounded | sipro/__init__.py:100-110 | under a monotonic clock the rest lies between 0 and the node's own time |
| Report.RestExact | sipro/__init__.py:100-110 | in a balanced tree the clip at zero never applies: rest plus the children's time is the node's time |
| Profiler.Enter | sipro/__init__.py:191-193 | the path gains the name, and the node at the new path exists and runs from `now` |
| Profiler.Exit | sipro/__init__.py:194-196 | fails exactly when the node at the path is not running; otherwise the path loses its last name and the node it named is stopped, its sum now the time accounted to it at `now` |
| Profiler.Clear | sipro/__init__.py:152-156 | starting every prefix of the open path on a new tree, shortest first, builds exactly one running chain with nothing accumulated, and keeps the path |
| Profiler.New | sipro/__init__.py:139-142 | a new profiler has an empty path and a single root node, running and with no time accounted yet |
| Profiler.Dict | sipro/__init__.py:201-202 | the profiler's report mirrors its tree; the tree left behind is the tree committed at `now` (the facts of `Report.CommitAllAt`), and the path is kept |
| Profiler.ChainStep | sipro/__init__.py:154-156 | one turn of the clear loop extends the chain by the next prefix |
| Profiler.ChainShape | sipro/__init__.py:152-156 | the chain holds exactly the prefixes of the open path, each running from `now` with sum 0 |
| Profiler.OpenChainRunning | sipro/__init__.py:191-196 | when the running nodes form the open chain, every prefix of the open path reaches a running node, and every other node that exists is stopped with its whole subtree |
| Profiler.NewValid | sipro/__init__.py:139-142 | a new profiler has its root running, nothing open, and satisfies the invariant |
| Profiler.LaterValid | sipro/__init__.py:191-196 | the invariant survives the passage of time while regions are open |
| Profiler.EnterValid | sipro/__init__.py:191-193 | entering a region keeps the invariant |
| Profiler.ExitValid | sipro/__init__.py:194-196 | in a valid state with an open region, leaving it cannot fail and keeps the invariant |
| Profiler.EnterFrame | sipro/__init__.py:191-193 | entering changes no other node's time: every node that existed keeps its sum and its timer, and the entered node keeps its sum (0 when it is created) |
| Profiler.EnterShape | sipro/__init__.py:191-193 | entering adds exactly the missing nodes along the new path: afterwards a path reaches a node exactly when it did before or it is a prefix of the new path |
| Profiler.ExitFrame | sipro/__init__.py:194-196 | leaving changes no other node's time: every node but the stopped one keeps its sum and its timer |
| Profiler.ExitShape | sipro/__init__.py:194-196 | a successful exit finds its region's node already in the tree, and afterwards exactly the same paths reach nodes as before |
| Profiler.EnterExitTimes | sipro/__init__.py:191-196 | in any state, valid or not, a matched enter and exit restores the path and leaves the entered node stopped, holding its earlier sum (0 for a new node) plus the time between the two |
| Profiler.EnterExit | sipro/__init__.py:191-196 | a matched enter and exit restores the path and leaves the entered node stopped, holding its earlier sum (0 for a new node) plus the time between the two |
| Profiler.ClearValid | sipro/__init__.py:152-156 | after `clear()` the tree holds exactly the chain for the open path; every node of it, root included, runs from `now` with sum 0; the invariant holds |
| Profiler.DictValid | sipro/__init__.py:201-202 | taking a report keeps the invariant |
| Profiler.EnterGrows | sipro/__init__.py:191-193 | entering a region takes no time away from any node, and every node stays where it was |
| Profiler.ExitGrows | sipro/__init__.py:194-196 | leaving a region takes no time away from any node |
| Profiler.CommitAllGrows | sipro/__init__.py:126-131 | taking a report takes no time away from any node |
| Profiler.GrowsAt | sipro/__init__.py:191-196 | a node reachable before one of these steps is reachable after it with at least as much time |
| Profiler.RunValid | sipro/__init__.py:179-196 | any run of nested enters and exits, clears and reports under a monotonic clock never fails an exit and ends in a valid state |
| Session.Begin | sipro/__init__.py:139-142 | a session starts as a new profiler with no clear counted |
| Session.EnterSession | sipro/__init__.py:191-193 | entering as written changes the profiler exactly as the model's enter does, and the new region records the current clear count: the node it holds is the tree's node |
| Session.ClearSession | sipro/__init__.py:152-156 | a clear as written changes the profiler exactly as the model's clear does, and afterwards the node held by every open region is no longer the tree's node |
| Session.ExitAsWritten | sipro/__init__.py:191-196 | when a clear happened after the region was entered, leaving it pops the path but leaves the tree as it was |
| Session.ClearInsideRegion | sipro/__init__.py:152-196 | a clear inside region "a" leaves the new node of "a" running after the region is left, breaking the invariant |
| Session.ClearInsideRegionCorrected | sipro/__init__.py:152-196 | stopping the region's node in the current tree instead leaves "a" stopped with the time since the clear, and the invariant holds |

## Left out

- The wall clock `time()` (sipro/__init__.py:4, 48, 57, 69) is the parameter `now`. One tick stands for a whole operation. The program reads the clock again for every running node during `dict()` and `str()`, and for every node it starts during `clear()`. So the clock noise that can make children's sums exceed the parent's, which `max(0, …)` absorbs, is not modelled.
- Times are integer ticks, not floats; there is no rounding.
- The percentages and all text layout of `str()` (sipro/__init__.py:93-95, 101-102, 106-107, 111-114) are not modelled; only the quantities the rest row is computed from are. The code divides by the parent's, the total and the node's own sum without a guard. A zero denominator therefore raises `ZeroDivisionError`, and the model claims nothing about it. Showing 0% for such a row would be the friendlier behaviour, but it is not what the code does.
- Report.Rest: gives a value for a node with children whose own time is 0, but the code never reaches the rest row there. At the root, line 93 already divides by the root's own 0. Below the root, the first child's `str()` divides by `parent_time = 0` at line 93, and line 111 divides by `self.sum`. Such states do arise: a report at the same tick as `clear()` finds every sum at 0. The model states only the value `rest_sum` would have, not that `str()` gets that far.
- `wrap` and the generator mechanics of `__call__` (sipro/__init__.py:158-190). An exception in a region's body propagates out of the `yield`, so `node.stop()` and the pop never run. Scoped regions are meant to be left on every path, but the code has no `finally`. The model does not claim an exit on exceptions and does not model exceptions.
- `__str__` (sipro/__init__.py:198-199) and `toJSON` (sipro/__init__.py:204-212): text rendering and a library call.
- `default_profiler` (sipro/__init__.py:214): shared process state.
- examples.py (a demo script) and setup.py (packaging metadata) are not part of this model.
- Profiler.Exit: requires a non-empty path. The context manager only reaches its exit code after its own push, so an exit on an empty path cannot happen.
- Profiler.Exit: stops the node the tree holds for the path. The code stops the node fetched at entry (line 195) but pops whatever name is last (line 196). Under nested use the two differ only when `clear()` ran inside the region (see Findings); the code's behaviour there is `Session.ExitAsWritten`.
- Profiler.Exit: exits out of nesting order are not modelled. Two generators or coroutines each inside `with p(…)` and resumed out of order, a `contextlib.ExitStack` closed in another order, or an inner region whose exception is caught inside the outer block (the inner stop and pop are skipped) make the code stop one region's node while popping another region's name. Every exit of the model leaves the innermost region, so it does not describe those runs.

## Findings

| source | as written | input that shows it | evidently intended | confidence | as-written member | corrected member |
|---|---|---|---|---|---|---|
| sipro/__init__.py:191-196 | leaving a region stops the node object fetched on entry; after `clear()` that object is no longer in the tree | `with p("a"): p.clear()`: afterwards the path is empty, but node "a" of the new tree is still running and keeps gaining time | leaving a region stops that region's node in the current tree, so the running nodes stay exactly the open regions | medium; not executed | Session.ExitAsWritten, shown by Session.ClearInsideRegion | Profiler.Exit, with Session.ClearInsideRegionCorrected and Profiler.RunValid |
