/** What holds along every run of the step-level machine. */
module Runs {
  import opened Layout
  import opened SortedList
  import opened StoreSpec
  import opened Protocol
  import opened ListSteps
  import opened Invariant

  // ----- the invariant holds in every reachable state -----

  lemma InitLinked(st: Store)
    requires Inv(st)
    ensures var s := InitState(st); SpineAllocated(s) && Linked(s.node, s.next, s.spine, s.tick)
  {
    hide DeviceAgrees, ListAgrees, MountedNode, Before;
    var s, n := InitState(st), |st.list|;
    assert s.next.Keys == s.node.Keys + {HEAD};
    forall i | 0 <= i < n
      ensures s.spine[i] == i + 1 && s.spine[i] in s.node && s.node[s.spine[i]].born < s.tick
    {
      MountedFields(st, i + 1);
    }
    forall i, j | 0 <= i < j < n
      ensures Before(s.node[s.spine[i]], s.node[s.spine[j]])
    {
      MountedOrder(st, i + 1, j + 1);
    }
  }

  lemma MountedFields(st: Store, i: nat)
    requires Inv(st) && 1 <= i <= |st.list|
    ensures MountedNode(st, i).e == st.list[i - 1] && MountedNode(st, i).born == |st.list| - i
  {
  }

  lemma MountedOrder(st: Store, i: nat, j: nat)
    requires Inv(st) && 1 <= i < j <= |st.list|
    ensures Before(MountedNode(st, i), MountedNode(st, j))
  {
    hide DeviceAgrees, MountedNode;
    MountedFields(st, i);
    MountedFields(st, j);
    assert st.list[i - 1].nsec <= st.list[j - 1].nsec;
  }

  lemma InitContents(st: Store)
    requires Inv(st)
    ensures var s := InitState(st); Contents(s.node, s.spine, s.stale, s.dev)
  {
    hide Sorted, DistinctBlocks, Listed;
    var s := InitState(st);
    forall i: nat | 1 <= i <= |st.list|
      ensures Holding(s.dev, MountedNode(st, i))
    {
      assert Mirrors(st.arr, st.list[i - 1]);
    }
  }

  lemma InitElems(st: Store)
    requires Inv(st)
    ensures SpineAllocated(InitState(st)) && Elems(InitState(st)) == st.list
  {
    hide DeviceAgrees, ListAgrees;
    var s := InitState(st);
    assert forall i :: 0 <= i < |st.list| ==> s.spine[i] == i + 1;
  }

  lemma InitGood(st: Store)
    requires Inv(st)
    ensures Good(InitState(st))
  {
    hide DeviceAgrees, ListAgrees, Linked, Contents, Elems, MountedNode, MountedNext;
    InitLinked(st);
    InitElems(st);
    InitContents(st);
    var s := InitState(st);
    assert forall x :: x in s.node ==> s.spine[x - 1] == x;
  }

  lemma PutStepKeepsGood(s: State, a: Action)
    requires Good(s) && Ready(s, a)
    requires ByPut(a)
    ensures Safe(s, a) && Good(Step(s, a))
  {
    hide Good;
    match a
    case PutBegin(c, addr, msg, ts) => KeepPutBegin(s, c, addr, msg, ts);
    case PutAcquire(c) => KeepPutAcquire(s, c);
    case PutChoose(c) => KeepPutChoose(s, c);
    case PutRefuse(c) => KeepPutRefuse(s, c);
    case PutRelease(c) => KeepPutRelease(s, c);
    case PutDiscard(c) => KeepPutDiscard(s, c);
    case PutCopy(c, n) => KeepPutCopy(s, c, n);
    case PutFill(c) => KeepPutFill(s, c);
    case PutPublish(c) => KeepPutPublish(s, c);
    case PutRecord(c) => KeepPutRecord(s, c);
    case PutReturn(c) => KeepPutReturn(s, c);
  }

  lemma OtherStepKeepsGood(s: State, a: Action)
    requires Good(s) && Ready(s, a)
    requires !ByPut(a)
    ensures Safe(s, a) && Good(Step(s, a))
  {
    hide Good;
    match a
    case InvBegin(c, b) => KeepInvBegin(s, c, b);
    case InvAcquire(c) => KeepInvAcquire(s, c);
    case InvFind(c) => KeepInvFind(s, c);
    case InvMiss(c) => KeepInvMiss(s, c);
    case InvMissReturn(c) => KeepInvMissReturn(s, c);
    case InvDetach(c) => KeepInvDetach(s, c);
    case InvClear(c) => KeepInvClear(s, c);
    case InvCopy(c, n) => KeepInvCopy(s, c, n);
    case InvRelease(c) => KeepInvRelease(s, c);
    case InvSynchronize(c) => KeepInvSynchronize(s, c);
    case InvFree(c) => KeepInvFree(s, c);
    case ReaderEnter(want, size) => KeepEnter(s, want, size);
    case ReaderAdvance(r) => KeepAdvance(s, r);
    case ReaderCopy(r, n) => KeepCopy(s, r, n);
    case ReaderPeek(r) => KeepPeek(s, r);
    case ReaderLeave(r) => KeepLeave(s, r);
  }

  /** No step of any interleaving is ever unsafe, and every step keeps the invariant. */
  lemma StepKeepsGood(s: State, a: Action)
    requires Good(s) && Ready(s, a)
    ensures Safe(s, a) && Good(Step(s, a))
  {
    hide Good, Ready, Safe, Step;
    if ByPut(a) {
      PutStepKeepsGood(s, a);
    } else {
      OtherStepKeepsGood(s, a);
    }
  }

  lemma {:induction false} ReachableGood(run: seq<State>, i: nat)
    requires IsRun(run) && i < |run|
    ensures Good(run[i])
    decreases i
  {
    hide Good, Ready, Safe, Step;
    if i == 0 {
      var st :| Inv(st) && run[0] == InitState(st);
      InitGood(st);
    } else {
      ReachableGood(run, i - 1);
      assert Transition(run[i - 1], run[i - 1 + 1]);
      var a :| Ready(run[i - 1], a) && Safe(run[i - 1], a) && run[i] == Step(run[i - 1], a);
      StepKeepsGood(run[i - 1], a);
    }
  }

  lemma RunStep(run: seq<State>, i: nat) returns (a: Action)
    requires IsRun(run) && i + 1 < |run|
    ensures Good(run[i]) && Good(run[i + 1])
    ensures Ready(run[i], a) && Safe(run[i], a) && run[i + 1] == Step(run[i], a)
  {
    hide Good, Ready, Safe, Step;
    ReachableGood(run, i);
    ReachableGood(run, i + 1);
    assert Transition(run[i], run[i + 1]);
    a :| Ready(run[i], a) && Safe(run[i], a) && run[i + 1] == Step(run[i], a);
  }

  // ----- readers -----

  /** A step of a read section changes nothing but the sections. */
  ghost predicate OnlyReaders(s: State, s': State) {
    s' == s.(readers := s'.readers, nextReader := s'.nextReader)
  }

  lemma EnterOnly(s: State, want: Want, size: nat)
    ensures OnlyReaders(s, Step(s, ReaderEnter(want, size)))
  {
    hide Ids, Lists;
  }

  lemma AdvanceOnly(s: State, r: nat)
    requires Ready(s, ReaderAdvance(r)) && Safe(s, ReaderAdvance(r))
    ensures OnlyReaders(s, Step(s, ReaderAdvance(r)))
  {
    hide Hop;
  }

  lemma CopyOnly(s: State, r: nat, n: nat)
    requires Ready(s, ReaderCopy(r, n)) && Safe(s, ReaderCopy(r, n))
    ensures OnlyReaders(s, Step(s, ReaderCopy(r, n)))
  {
  }

  lemma PeekOnly(s: State, r: nat)
    requires Ready(s, ReaderPeek(r)) && Safe(s, ReaderPeek(r))
    ensures OnlyReaders(s, Step(s, ReaderPeek(r)))
  {
    hide Complete;
  }

  lemma LeaveOnly(s: State, r: nat)
    requires Ready(s, ReaderLeave(r))
    ensures OnlyReaders(s, Step(s, ReaderLeave(r)))
  {
    hide Complete;
  }

  lemma ReadersOnly(s: State, a: Action)
    requires Ready(s, a) && Safe(s, a) && ByReader(a)
    ensures OnlyReaders(s, Step(s, a))
  {
    hide Ready, Safe, Step, OnlyReaders;
    match a
    case ReaderEnter(want, size) => EnterOnly(s, want, size);
    case ReaderAdvance(r) => AdvanceOnly(s, r);
    case ReaderCopy(r, n) => CopyOnly(s, r, n);
    case ReaderPeek(r) => PeekOnly(s, r);
    case ReaderLeave(r) => LeaveOnly(s, r);
  }

  // ----- memory safety -----

  /** In every interleaving, whatever step a thread is about to take touches only allocated
      records, so there is no use after free, no double free and no index out of range. */
  lemma EveryStepIsSafe(run: seq<State>, i: nat, a: Action)
    requires IsRun(run) && i < |run| && Ready(run[i], a)
    ensures Safe(run[i], a)
  {
    hide Good, Ready, Safe, Step, IsRun;
    ReachableGood(run, i);
    StepKeepsGood(run[i], a);
  }

  /** At every instant, even inside a critical section, the pointers link exactly the listed nodes, from
      the head and back to it, in list order. */
  lemma PointersLinkTheList(run: seq<State>, i: nat)
    requires IsRun(run) && i < |run|
    ensures var s := run[i];
            && s.next.Keys == s.node.Keys + {HEAD} && SpineAllocated(s)
            && (forall k: nat, m: nat :: k <= |s.spine| && m == k + 1 ==> s.next[Ring(s.spine, k)] == Ring(s.spine, m))
            && forall k, m :: 0 <= k < m < |s.spine| ==> Before(s.node[s.spine[k]], s.node[s.spine[m]])
  {
    hide IsRun, Ownership, Contents, GraceOk, Refines, Sections;
    ReachableGood(run, i);
  }

  ghost predicate OnLiveNode(s: State, w: Walk) {
    w.Missed? || w.cur == HEAD || (w.cur in s.node && SafeHop(s.node, s.next, w.cur))
  }

  /** The node a reader stands on is never freed, nor is the node its pointer leads to, even if
      both have been unlinked since. */
  lemma ReadersStandOnLiveNodes(run: seq<State>, i: nat, r: nat)
    requires IsRun(run) && i < |run| && r in run[i].readers
    ensures OnLiveNode(run[i], run[i].readers[r].walk)
  {
    hide IsRun, Linked, Ownership, Contents, GraceOk, Refines, Nearer, Stop;
    ReachableGood(run, i);
    var s := run[i];
    assert SectionOk(s.node, s.next, s.spine, s.stale, s.readers[r]);
  }

  /** Every allocated node is either listed or in the care of exactly one call, so it is freed
      once and never lost. */
  lemma NodesAreConserved(run: seq<State>, i: nat, x: Id)
    requires IsRun(run) && i < |run| && x in run[i].node
    ensures x in run[i].spine <==> !exists c :: c in run[i].calls && Owns(run[i].calls[c], x)
    ensures forall c, d :: c in run[i].calls && d in run[i].calls && Owns(run[i].calls[c], x) && Owns(run[i].calls[d], x) ==> c == d
  {
    hide IsRun, Linked, Contents, GraceOk, Refines, Sections;
    ReachableGood(run, i);
  }

  lemma MutualExclusion(run: seq<State>, i: nat, c: nat, d: nat)
    requires IsRun(run) && i < |run| && c in run[i].calls && d in run[i].calls
    requires InSection(run[i].calls[c]) && InSection(run[i].calls[d])
    ensures c == d
  {
    hide IsRun, Linked, Contents, GraceOk, Refines, Sections;
    ReachableGood(run, i);
  }

  // ----- refinement of the sequential store -----

  ghost function StoreOf(s: State): Store
    requires SpineAllocated(s)
  {
    Store(s.arr, s.dev, Elems(s), s.last)
  }

  /** Whenever the lock is free, array, list and device agree, and they are what the last
      critical section left. */
  lemma LockFreeAgreement(run: seq<State>, i: nat)
    requires IsRun(run) && i < |run| && run[i].lock.None?
    ensures SpineAllocated(run[i]) && Inv(StoreOf(run[i])) && StoreOf(run[i]) == run[i].model
  {
    hide IsRun, Linked, Ownership, Contents, GraceOk, Sections;
    ReachableGood(run, i);
  }

  /** The operation a step commits, if it is the end of a critical section that changed the store. */
  ghost function Committed(s: State, a: Action): seq<Op>
    requires Ready(s, a)
  {
    match a
    case PutReturn(c) => [PutOp(s.calls[c].msg, s.calls[c].ts)]
    case InvRelease(c) => [InvalidateOp(s.calls[c].b)]
    case _ => []
  }

  lemma OnlyCommitsChangeTheModel(s: State, a: Action)
    requires Ready(s, a) && Safe(s, a) && !a.PutReturn? && !a.InvRelease?
    ensures Step(s, a).model == s.model
  {
    hide Search, IndexOf, InsertPos, ElemsOf, Lists, InsertAt, RemoveAt, Piece, BlockOf, Rewritten, Ring, Observed, Hop, Ids;
  }

  lemma StepCommits(s: State, a: Action)
    requires Ready(s, a) && Safe(s, a) && Shape(s.model)
    ensures Step(s, a).model == ApplyAll(s.model, Committed(s, a))
  {
    hide Apply, Put, Invalidate, Search;
    if a.PutReturn? || a.InvRelease? {
      var ops := Committed(s, a);
      assert ApplyAll(Apply(s.model, ops[0]), ops[1..]) == Apply(s.model, ops[0]);
    } else {
      OnlyCommitsChangeTheModel(s, a);
    }
  }

  /** Each operation succeeds on the store it meets. */
  ghost predicate AllSucceed(st: Store, ops: seq<Op>)
    requires Shape(st)
    decreases |ops|
  {
    ops == [] || (Succeeds(st, ops[0]) && AllSucceed(Apply(st, ops[0]), ops[1..]))
  }

  ghost predicate Succeeds(st: Store, op: Op)
    requires Shape(st)
  {
    match op
    case PutOp(msg, ts) => Put(st, msg, ts).1.Ok?
    case InvalidateOp(b) => Invalidate(st, b).1.Ok?
  }

  lemma {:induction false} AllSucceedAppend(st: Store, ops: seq<Op>, more: seq<Op>)
    requires Shape(st) && AllSucceed(st, ops) && AllSucceed(ApplyAll(st, ops), more)
    ensures AllSucceed(st, ops + more)
    decreases |ops|
  {
    hide Succeeds, Apply;
    if ops == [] {
      assert ops + more == more;
    } else {
      AllSucceedAppend(Apply(st, ops[0]), ops[1..], more);
      assert (ops + more)[1..] == ops[1..] + more;
    }
  }

  /** What each call reports is what the sequential call reports on the store it found. */
  lemma CallsReportTheStore(run: seq<State>, i: nat, c: nat)
    requires IsRun(run) && i < |run| && c in run[i].calls
    ensures Shape(run[i].model)
    ensures match run[i].calls[c]
            case PutUnlock(msg, ts, t) => Put(run[i].model, msg, ts).1 == Ok(t)
            case PutFull(_) => forall msg: Message, ts :: Put(run[i].model, msg, ts).1 == Err(ENOMEM)
            case InvRewrite(b, _, _) => Invalidate(run[i].model, b).1 == Ok(())
            case InvNone(b) => b < |run[i].model.arr| ==> Invalidate(run[i].model, b).1 == Err(ENODATA)
            case _ => true
  {
    hide IsRun, Linked, Contents, GraceOk, Sections, DeviceAgrees, ListAgrees, PutAt, InvalidateAt, Search, IndexOf;
    ReachableGood(run, i);
    assert InSection(run[i].calls[c]) ==> Progress(run[i], run[i].calls[c]);
  }

  lemma CommitSucceeds(run: seq<State>, i: nat, a: Action)
    requires IsRun(run) && i < |run| && Ready(run[i], a)
    ensures Shape(run[i].model) && AllSucceed(run[i].model, Committed(run[i], a))
  {
    hide IsRun, Put, Invalidate;
    if a.PutReturn? || a.InvRelease? {
      CallsReportTheStore(run, i, a.c);
    } else {
      ReachableShape(run, i);
    }
  }

  lemma ReachableShape(run: seq<State>, i: nat)
    requires IsRun(run) && i < |run|
    ensures Shape(run[i].model) && Inv(run[i].model)
  {
    hide IsRun, Linked, Ownership, Contents, GraceOk, Sections, DeviceAgrees, ListAgrees, Progress;
    ReachableGood(run, i);
  }

  // ----- the commits of a run -----

  /** `acts` are the steps that `run` takes. */
  ghost predicate Takes(run: seq<State>, acts: seq<Action>) {
    |acts| == |run| - 1 && forall k :: 0 <= k < |acts| ==> LeadsTo(run[k], acts[k], run[k + 1])
  }

  ghost predicate LeadsTo(s: State, a: Action, s': State) {
    Ready(s, a) && Safe(s, a) && s' == Step(s, a)
  }

  /** Every run takes some sequence of steps. */
  lemma RunTakesSteps(run: seq<State>) returns (acts: seq<Action>)
    requires IsRun(run)
    ensures Takes(run, acts)
  {
    hide Good, Ready, Safe, Step;
    acts := [];
    while |acts| < |run| - 1
      invariant |acts| <= |run| - 1
      invariant forall k :: 0 <= k < |acts| ==> LeadsTo(run[k], acts[k], run[k + 1])
    {
      var a := RunStep(run, |acts|);
      acts := acts + [a];
    }
  }

  lemma StepTaken(run: seq<State>, acts: seq<Action>, k: nat)
    requires Takes(run, acts) && k < |acts|
    ensures k + 1 < |run| && Ready(run[k], acts[k]) && Safe(run[k], acts[k]) && run[k + 1] == Step(run[k], acts[k])
  {
    hide Ready, Safe, Step;
    assert LeadsTo(run[k], acts[k], run[k + 1]);
  }

  /** The operations committed by the first `i` steps: one for each put that returns a block and for
      each invalidation that leaves its critical section, in that order. */
  ghost function Commits(run: seq<State>, acts: seq<Action>, i: nat): seq<Op>
    requires Takes(run, acts) && i < |run|
  {
    if i == 0 then [] else
      StepTaken(run, acts, i - 1);
      Commits(run, acts, i - 1) + Committed(run[i - 1], acts[i - 1])
  }

  /** Every run of the concurrent machine performs a run of the sequential store: the operations its
      critical sections commit take effect in commit order, as whole system calls, each of them
      succeeding; whenever the lock is free, array, list and device are what they lead to. */
  lemma {:induction false} RunRefinesStore(run: seq<State>, acts: seq<Action>, i: nat)
    requires IsRun(run) && Takes(run, acts) && i < |run|
    ensures SpineAllocated(run[0]) && Inv(StoreOf(run[0])) && AllSucceed(StoreOf(run[0]), Commits(run, acts, i))
    ensures run[i].model == ApplyAll(StoreOf(run[0]), Commits(run, acts, i))
    ensures run[i].lock.None? ==> SpineAllocated(run[i]) && StoreOf(run[i]) == run[i].model
    decreases i
  {
    hide Ready, Safe, Step, IsRun, LeadsTo, Good, DeviceAgrees, ListAgrees, Committed, StoreOf, SpineAllocated;
    StartsUnlocked(run);
    LockFreeAgreement(run, 0);
    if run[i].lock.None? {
      LockFreeAgreement(run, i);
    }
    if i > 0 {
      RunRefinesStore(run, acts, i - 1);
      StepTaken(run, acts, i - 1);
      var before, now := Commits(run, acts, i - 1), Committed(run[i - 1], acts[i - 1]);
      StepCommits(run[i - 1], acts[i - 1]);
      CommitSucceeds(run, i - 1, acts[i - 1]);
      ApplyAllAppend(StoreOf(run[0]), before, now);
      AllSucceedAppend(StoreOf(run[0]), before, now);
    }
  }

  lemma StartsUnlocked(run: seq<State>)
    requires IsRun(run)
    ensures run[0].lock.None?
  {
    hide Inv;
  }

  // ----- one success per listing -----

  /** Step `a` ends a put that took block `b`. */
  ghost predicate TakesBlock(s: State, a: Action, b: nat)
    requires Ready(s, a)
  {
    a.PutReturn? && s.calls[a.c].t == b
  }

  /** Step `a` ends the critical section of an invalidation of block `b` that will report success. */
  ghost predicate ReleasesBlock(s: State, a: Action, b: nat)
    requires Ready(s, a)
  {
    a.InvRelease? && s.calls[a.c].b == b
  }

  /** How many of the first `i` steps end a put that took block `b`. */
  ghost function Taken(run: seq<State>, acts: seq<Action>, i: nat, b: nat): nat
    requires Takes(run, acts) && i < |run|
  {
    if i == 0 then 0 else
      StepTaken(run, acts, i - 1);
      Taken(run, acts, i - 1, b) + if TakesBlock(run[i - 1], acts[i - 1], b) then 1 else 0
  }

  /** How many of the first `i` steps end a successful invalidation of block `b`. */
  ghost function Released(run: seq<State>, acts: seq<Action>, i: nat, b: nat): nat
    requires Takes(run, acts) && i < |run|
  {
    if i == 0 then 0 else
      StepTaken(run, acts, i - 1);
      Released(run, acts, i - 1, b) + if ReleasesBlock(run[i - 1], acts[i - 1], b) then 1 else 0
  }

  lemma StepBalance(run: seq<State>, i: nat, a: Action, b: nat)
    requires IsRun(run) && i < |run| && Ready(run[i], a) && Safe(run[i], a) && b < |run[i].model.arr|
    ensures b < |Step(run[i], a).model.arr|
    ensures Presence(run[i].model, b) + (if TakesBlock(run[i], a, b) then 1 else 0) ==
            Presence(Step(run[i], a).model, b) + if ReleasesBlock(run[i], a, b) then 1 else 0
  {
    hide IsRun, DeviceAgrees, ListAgrees, Search, Invalidate, PutAt, InvalidateAt, Presence;
    ReachableShape(run, i);
    if a.PutReturn? || a.InvRelease? {
      CallsReportTheStore(run, i, a.c);
      OneStepBalance(run[i].model, Committed(run[i], a)[0], b);
    } else {
      OnlyCommitsChangeTheModel(run[i], a);
    }
  }

  /** However calls interleave, whether block `b` was listed at first, plus the puts that took it,
      is whether it is listed now, plus the invalidations of it that succeeded. */
  lemma {:induction false} ConcurrentSuccessesMatchListings(run: seq<State>, acts: seq<Action>, i: nat, b: nat)
    requires IsRun(run) && Takes(run, acts) && i < |run| && b < |run[0].model.arr|
    ensures b < |run[i].model.arr|
    ensures Presence(run[0].model, b) + Taken(run, acts, i, b) == Presence(run[i].model, b) + Released(run, acts, i, b)
    ensures run[i].lock.None? ==> run[i].arr == run[i].model.arr
    decreases i
  {
    hide IsRun, LeadsTo, Ready, Safe, Step, TakesBlock, ReleasesBlock, Presence, Inv;
    if run[i].lock.None? {
      LockFreeAgreement(run, i);
    }
    if i > 0 {
      ConcurrentSuccessesMatchListings(run, acts, i - 1, b);
      StepTaken(run, acts, i - 1);
      StepBalance(run, i - 1, acts[i - 1], b);
    }
  }
}
