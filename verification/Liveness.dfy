/** Nobody is ever stuck: whatever the interleaving so far, every call can take a step of its own unless it
    waits for the lock or for the end of a grace period, and every read section can take one always. */
module Liveness {
  import opened Layout
  import opened SortedList
  import opened StoreSpec
  import opened Protocol
  import opened ListSteps
  import opened Invariant
  import opened Runs

  /** Another call holds the lock, and is inside its critical section. */
  ghost predicate WaitsForLock(s: State, c: nat)
    requires c in s.calls
  {
    && (s.calls[c].PutReady? || s.calls[c].InvReady?)
    && s.lock.Some? && s.lock.value != c && s.lock.value in s.calls && InSection(s.calls[s.lock.value])
  }

  /** A section that was active when the grace period began still is. */
  ghost predicate WaitsForReaders(s: State, c: nat)
    requires c in s.calls
  {
    s.calls[c].InvWait? && exists r :: r in s.calls[c].pending && r in s.readers
  }

  /** The step that the call takes next. */
  ghost function NextStep(s: State, c: nat): Action
    requires c in s.calls
  {
    match s.calls[c]
    case PutReady(_, _, _) => PutAcquire(c)
    case PutScan(_, _, _) => if Search(s.arr, s.last).Some? then PutChoose(c) else PutRefuse(c)
    case PutFull(_) => PutRelease(c)
    case PutGiveUp(_) => PutDiscard(c)
    case PutWrite(_, _, _, _, k) => if k < BLOCK_SIZE then PutCopy(c, BLOCK_SIZE - k) else PutFill(c)
    case PutLink(_, _, _, _) => PutPublish(c)
    case PutSwap(_, _, _) => PutRecord(c)
    case PutUnlock(_, _, _) => PutReturn(c)
    case InvReady(_) => InvAcquire(c)
    case InvScan(b) => if Lists(s, b) then InvFind(c) else InvMiss(c)
    case InvNone(_) => InvMissReturn(c)
    case InvUnlink(_, _) => InvDetach(c)
    case InvMark(_, _) => InvClear(c)
    case InvRewrite(_, _, k) => if k < METADATA_SIZE then InvCopy(c, METADATA_SIZE - k) else InvRelease(c)
    case InvSync(_) => InvSynchronize(c)
    case InvWait(_, _) => InvFree(c)
  }

  lemma HolderIsReady(s: State, c: nat)
    requires Good(s) && c in s.calls && InSection(s.calls[c])
    ensures Ready(s, NextStep(s, c))
  {
    hide Good, Ready, NextStep;
    HolderIsWithin(s, c);
    var pc := s.calls[c];
    if pc.PutScan? || pc.PutFull? || pc.PutWrite? {
      EarlyPutIsReady(s, c);
    } else if pc.PutLink? || pc.PutSwap? || pc.PutUnlock? {
      LatePutIsReady(s, c);
    } else {
      InvalidateIsReady(s, c);
    }
  }

  lemma EarlyPutIsReady(s: State, c: nat)
    requires Holds(s, c) && (s.calls[c].PutScan? || s.calls[c].PutFull? || (s.calls[c].PutWrite? && s.calls[c].k <= BLOCK_SIZE))
    ensures Ready(s, NextStep(s, c))
  {
    hide Search;
  }

  lemma LatePutIsReady(s: State, c: nat)
    requires Holds(s, c) && (s.calls[c].PutLink? || s.calls[c].PutSwap? || s.calls[c].PutUnlock?)
    ensures Ready(s, NextStep(s, c))
  {
  }

  lemma InvalidateIsReady(s: State, c: nat)
    requires Holds(s, c) && (|| s.calls[c].InvScan? || s.calls[c].InvNone? || s.calls[c].InvUnlink? || s.calls[c].InvMark?
                             || (s.calls[c].InvRewrite? && s.calls[c].k <= METADATA_SIZE))
    ensures Ready(s, NextStep(s, c))
  {
    hide Lists;
  }

  lemma HolderIsWithin(s: State, c: nat)
    requires Good(s) && c in s.calls && InSection(s.calls[c])
    ensures s.lock == Some(c)
    ensures s.calls[c].PutWrite? ==> s.calls[c].k <= BLOCK_SIZE
    ensures s.calls[c].InvRewrite? ==> s.calls[c].k <= METADATA_SIZE
  {
    hide Linked, Contents, GraceOk, Sections, Search, IndexOf, DeviceAgrees, ListAgrees, PutAt, BlockOf, Mixed, Rewritten, Insert, RemoveAt, Ring;
    assert Progress(s, s.calls[c]);
  }

  lemma OutsiderIsReady(s: State, c: nat)
    requires Good(s) && c in s.calls && !InSection(s.calls[c])
    ensures Ready(s, NextStep(s, c)) || WaitsForLock(s, c) || WaitsForReaders(s, c)
  {
    hide Linked, Contents, GraceOk, Refines, Sections;
  }

  /** After its step the call is elsewhere, or over. */
  ghost predicate HasMoved(s: State, s': State, c: nat)
    requires c in s.calls
  {
    c !in s'.calls || s'.calls[c] != s.calls[c]
  }

  lemma SearchMovesOn(s: State, a: Action)
    requires Ready(s, a) && Safe(s, a) && (a.PutAcquire? || a.PutChoose? || a.PutRefuse? || a.PutRelease?)
    ensures a.c in s.calls && HasMoved(s, Step(s, a), a.c)
  {
    hide Search;
  }

  lemma WriteMovesOn(s: State, a: Action)
    requires Ready(s, a) && Safe(s, a) && (a.PutDiscard? || (a.PutCopy? && a.n > 0) || a.PutFill?)
    ensures a.c in s.calls && HasMoved(s, Step(s, a), a.c)
  {
    hide InsertPos, ElemsOf, Piece, BlockOf, Ring;
  }

  lemma PublishMovesOn(s: State, a: Action)
    requires Ready(s, a) && Safe(s, a) && (a.PutPublish? || a.PutRecord? || a.PutReturn?)
    ensures a.c in s.calls && HasMoved(s, Step(s, a), a.c)
  {
    hide InsertPos, ElemsOf, InsertAt, Ring, Observed, Ids, Apply, Lists;
  }

  lemma ScanMovesOn(s: State, a: Action)
    requires Ready(s, a) && Safe(s, a) && (a.InvAcquire? || a.InvFind? || a.InvMiss? || a.InvMissReturn?)
    ensures a.c in s.calls && HasMoved(s, Step(s, a), a.c)
  {
    hide IndexOf, ElemsOf, Lists;
  }

  lemma DetachMovesOn(s: State, a: Action)
    requires Ready(s, a) && Safe(s, a) && (a.InvDetach? || a.InvClear? || (a.InvCopy? && a.n > 0))
    ensures a.c in s.calls && HasMoved(s, Step(s, a), a.c)
  {
    hide IndexOf, ElemsOf, RemoveAt, Piece, Rewritten, Ring, Observed, Ids, Lists;
  }

  lemma GraceMovesOn(s: State, a: Action)
    requires Ready(s, a) && Safe(s, a) && (a.InvRelease? || a.InvSynchronize? || a.InvFree?)
    ensures a.c in s.calls && HasMoved(s, Step(s, a), a.c)
  {
    hide Apply;
  }

  lemma NextMovesOn(s: State, c: nat)
    requires c in s.calls && Ready(s, NextStep(s, c)) && Safe(s, NextStep(s, c))
    ensures HasMoved(s, Step(s, NextStep(s, c)), c)
  {
    hide Ready, Safe, Step, HasMoved, Search, Lists;
    var a := NextStep(s, c);
    if a.PutAcquire? || a.PutChoose? || a.PutRefuse? || a.PutRelease? {
      SearchMovesOn(s, a);
    } else if a.PutDiscard? || a.PutCopy? || a.PutFill? {
      WriteMovesOn(s, a);
    } else if a.PutPublish? || a.PutRecord? || a.PutReturn? {
      PublishMovesOn(s, a);
    } else if a.InvAcquire? || a.InvFind? || a.InvMiss? || a.InvMissReturn? {
      ScanMovesOn(s, a);
    } else if a.InvDetach? || a.InvClear? || a.InvCopy? {
      DetachMovesOn(s, a);
    } else {
      GraceMovesOn(s, a);
    }
  }

  /** In every run, each call can move on, unless another one is in its critical section, which then
      can, or a section of its grace period is still active, which then can. */
  lemma EveryCallMovesOn(run: seq<State>, i: nat, c: nat)
    requires IsRun(run) && i < |run| && c in run[i].calls
    ensures var s := run[i];
            || WaitsForLock(s, c) || WaitsForReaders(s, c)
            || exists a :: Ready(s, a) && Safe(s, a) && HasMoved(s, Step(s, a), c)
  {
    hide IsRun, Good, Ready, Safe, Step, NextStep, WaitsForLock, WaitsForReaders, InSection, HasMoved;
    ReachableGood(run, i);
    var s, a := run[i], NextStep(run[i], c);
    if InSection(s.calls[c]) {
      HolderIsReady(s, c);
    } else {
      OutsiderIsReady(s, c);
    }
    if Ready(s, a) {
      StepKeepsGood(s, a);
      NextMovesOn(s, c);
    }
  }

  /** The step that the section takes next. */
  ghost function NextHop(s: State, r: nat): Action
    requires r in s.readers
  {
    var w := s.readers[r].walk;
    if w.At? then ReaderAdvance(r)
    else if w.Copying? && |w.got| < w.goal then ReaderCopy(r, w.goal - |w.got|)
    else if w.Copying? && s.readers[r].want.Next? && !Partial(s.node, w) then ReaderPeek(r)
    else ReaderLeave(r)
  }

  lemma SectionIsReady(s: State, r: nat)
    requires Good(s) && r in s.readers
    ensures Ready(s, NextHop(s, r))
  {
    hide Linked, Ownership, Contents, GraceOk, Refines, Nearer, Climbs, Stop, CopyGoal, CopyFrom;
    assert SectionOk(s.node, s.next, s.spine, s.stale, s.readers[r]);
  }

  /** The walk has left its node, copied more, or is over. */
  ghost predicate HasAdvanced(s: State, s': State, r: nat)
    requires r in s.readers
  {
    || r !in s'.readers
    || (s.readers[r].walk.At? && (!s'.readers[r].walk.At? || HopsTo(s, s.readers[r].walk.cur, s'.readers[r].walk.cur)))
    || (s.readers[r].walk.Copying? && (s'.readers[r].walk.Peeked? || (s'.readers[r].walk.Copying? && |s'.readers[r].walk.got| > |s.readers[r].walk.got|)))
  }

  ghost predicate HopsTo(s: State, x: Id, y: Id) {
    x in s.next && s.next[x] == y && y != HEAD
  }

  lemma AdvanceAdvances(s: State, r: nat)
    requires Ready(s, ReaderAdvance(r)) && Safe(s, ReaderAdvance(r))
    ensures HasAdvanced(s, Step(s, ReaderAdvance(r)), r)
  {
    hide Stop, CopyFrom, CopyGoal;
  }

  lemma CopyAdvances(s: State, r: nat, n: nat)
    requires Ready(s, ReaderCopy(r, n)) && Safe(s, ReaderCopy(r, n))
    ensures HasAdvanced(s, Step(s, ReaderCopy(r, n)), r)
  {
  }

  lemma PeekAdvances(s: State, r: nat)
    requires Ready(s, ReaderPeek(r)) && Safe(s, ReaderPeek(r))
    ensures HasAdvanced(s, Step(s, ReaderPeek(r)), r)
  {
  }

  lemma LeaveAdvances(s: State, r: nat)
    requires Ready(s, ReaderLeave(r))
    ensures HasAdvanced(s, Step(s, ReaderLeave(r)), r)
  {
  }

  /** In every run, each read section can move on, whatever the writers do: it needs no lock. */
  lemma EverySectionMovesOn(run: seq<State>, i: nat, r: nat)
    requires IsRun(run) && i < |run| && r in run[i].readers
    ensures var s := run[i]; exists a :: Ready(s, a) && Safe(s, a) && HasAdvanced(s, Step(s, a), r)
  {
    hide IsRun, Good, Ready, Safe, Step, HasAdvanced, Partial;
    ReachableGood(run, i);
    var s, a := run[i], NextHop(run[i], r);
    SectionIsReady(s, r);
    StepKeepsGood(s, a);
    match a
    case ReaderAdvance(_) => AdvanceAdvances(s, r);
    case ReaderCopy(_, n) => CopyAdvances(s, r, n);
    case ReaderPeek(_) => PeekAdvances(s, r);
    case ReaderLeave(_) => LeaveAdvances(s, r);
  }

  // ----- what calls begin with -----

  /** Any idle thread can begin a put with any message and a new node, an invalidation of any block of the
      device, and anyone can enter a read section with any request. */
  lemma AnyoneCanBegin(s: State, c: nat, addr: Id, msg: Message, ts: Time, b: nat, want: Want, size: nat)
    requires c !in s.calls && addr != HEAD && addr !in s.node && b < |s.arr|
    ensures Ready(s, PutBegin(c, addr, msg, ts)) && Ready(s, InvBegin(c, b)) && Ready(s, ReaderEnter(want, size))
  {
  }

  /** A call begins, and a section enters, with what it was asked for. */
  lemma BeginsAsAsked(s: State, c: nat, addr: Id, msg: Message, ts: Time, b: nat, want: Want, size: nat)
    requires c !in s.calls && addr != HEAD && addr !in s.node && b < |s.arr|
    ensures Safe(s, PutBegin(c, addr, msg, ts)) && Safe(s, InvBegin(c, b)) && Safe(s, ReaderEnter(want, size))
    ensures Arguments(Step(s, PutBegin(c, addr, msg, ts)).calls, c) == PutOf(msg, ts)
    ensures Arguments(Step(s, InvBegin(c, b)).calls, c) == InvalidateOf(b)
    ensures var s' := Step(s, ReaderEnter(want, size));
            s.nextReader in s'.readers && s'.readers[s.nextReader].want == want && s'.readers[s.nextReader].size == size
  {
    hide Ids, Lists;
  }

  /** What a call was asked for, as long as it still needs it. */
  datatype Args = NoCall | PutOf(msg: Message, ts: Time) | RefusedPut | InvalidateOf(b: nat) | Waiting

  ghost function Arguments(calls: map<nat, Call>, c: nat): Args {
    if c !in calls then NoCall
    else match calls[c]
      case PutReady(_, msg, ts) => PutOf(msg, ts)
      case PutScan(_, msg, ts) => PutOf(msg, ts)
      case PutWrite(_, msg, ts, _, _) => PutOf(msg, ts)
      case PutLink(_, msg, ts, _) => PutOf(msg, ts)
      case PutSwap(msg, ts, _) => PutOf(msg, ts)
      case PutUnlock(msg, ts, _) => PutOf(msg, ts)
      case PutFull(_) => RefusedPut
      case PutGiveUp(_) => RefusedPut
      case InvReady(b) => InvalidateOf(b)
      case InvScan(b) => InvalidateOf(b)
      case InvNone(b) => InvalidateOf(b)
      case InvUnlink(b, _) => InvalidateOf(b)
      case InvMark(b, _) => InvalidateOf(b)
      case InvRewrite(b, _, _) => InvalidateOf(b)
      case InvSync(_) => Waiting
      case InvWait(_, _) => Waiting
  }

  /** The call goes on with the same arguments, or no longer needs them, or is over. */
  ghost predicate GoesOnWith(x: Args, y: Args) {
    y == x || y.NoCall? || (x.PutOf? && y.RefusedPut?) || (x.InvalidateOf? && y.Waiting?)
  }

  lemma PutStepKeepsArguments(s: State, a: Action, c: nat)
    requires Ready(s, a) && Safe(s, a) && c in s.calls && ByPut(a)
    ensures GoesOnWith(Arguments(s.calls, c), Arguments(Step(s, a).calls, c))
  {
    hide Ready, Safe, Step, Arguments;
    if a.PutCopy? || a.PutFill? || a.PutPublish? || a.PutRecord? || a.PutReturn? {
      LatePutKeepsArguments(s, a, c);
    } else {
      EarlyPutKeepsArguments(s, a, c);
    }
  }

  lemma EarlyPutKeepsArguments(s: State, a: Action, c: nat)
    requires Ready(s, a) && Safe(s, a) && c in s.calls
    requires a.PutBegin? || a.PutAcquire? || a.PutChoose? || a.PutRefuse? || a.PutRelease? || a.PutDiscard?
    ensures GoesOnWith(Arguments(s.calls, c), Arguments(Step(s, a).calls, c))
  {
    hide Search;
  }

  lemma LatePutKeepsArguments(s: State, a: Action, c: nat)
    requires Ready(s, a) && Safe(s, a) && c in s.calls && (a.PutCopy? || a.PutFill? || a.PutPublish? || a.PutRecord? || a.PutReturn?)
    ensures GoesOnWith(Arguments(s.calls, c), Arguments(Step(s, a).calls, c))
  {
    hide InsertPos, ElemsOf, InsertAt, Piece, BlockOf, Ring, Observed, Ids, Apply, Lists;
  }

  lemma InvalidateStepKeepsArguments(s: State, a: Action, c: nat)
    requires Ready(s, a) && Safe(s, a) && c in s.calls && !ByPut(a) && !ByReader(a)
    ensures GoesOnWith(Arguments(s.calls, c), Arguments(Step(s, a).calls, c))
  {
    hide Ready, Safe, Step, Arguments;
    if a.InvBegin? || a.InvAcquire? || a.InvFind? || a.InvMiss? || a.InvMissReturn? || a.InvDetach? {
      ScanKeepsArguments(s, a, c);
    } else {
      RewriteKeepsArguments(s, a, c);
    }
  }

  lemma ScanKeepsArguments(s: State, a: Action, c: nat)
    requires Ready(s, a) && Safe(s, a) && c in s.calls
    requires a.InvBegin? || a.InvAcquire? || a.InvFind? || a.InvMiss? || a.InvMissReturn? || a.InvDetach?
    ensures GoesOnWith(Arguments(s.calls, c), Arguments(Step(s, a).calls, c))
  {
    hide IndexOf, ElemsOf, RemoveAt, Ring, Observed, Ids, Lists;
  }

  lemma RewriteKeepsArguments(s: State, a: Action, c: nat)
    requires Ready(s, a) && Safe(s, a) && c in s.calls && (a.InvClear? || a.InvCopy? || a.InvRelease? || a.InvSynchronize? || a.InvFree?)
    ensures GoesOnWith(Arguments(s.calls, c), Arguments(Step(s, a).calls, c))
  {
    hide Piece, Rewritten, Apply;
  }

  /** While a call lasts, it goes on with what it was asked for. */
  lemma {:induction false} CallsKeepTheirArguments(run: seq<State>, j: nat, i: nat, c: nat)
    requires IsRun(run) && j <= i < |run| && forall k :: j <= k <= i ==> c in run[k].calls
    ensures GoesOnWith(Arguments(run[j].calls, c), Arguments(run[i].calls, c))
    decreases i
  {
    hide IsRun, Good, Ready, Safe, Step, Arguments;
    if i > j {
      CallsKeepTheirArguments(run, j, i - 1, c);
      var a := RunStep(run, i - 1);
      if ByPut(a) {
        PutStepKeepsArguments(run[i - 1], a, c);
      } else if ByReader(a) {
        ReadersOnly(run[i - 1], a);
      } else {
        InvalidateStepKeepsArguments(run[i - 1], a, c);
      }
      StillCalled(run[i].calls, c);
    }
  }

  lemma StillCalled(calls: map<nat, Call>, c: nat)
    requires c in calls
    ensures !Arguments(calls, c).NoCall?
  {
  }

  /** What a call commits is what it was asked for when it began. */
  lemma CommitsWhatItBeganWith(run: seq<State>, j: nat, i: nat, c: nat, a: Action)
    requires IsRun(run) && j <= i < |run| && forall k :: j <= k <= i ==> c in run[k].calls
    requires Ready(run[i], a) && (a == PutReturn(c) || a == InvRelease(c))
    ensures match Arguments(run[j].calls, c)
            case PutOf(msg, ts) => Committed(run[i], a) == [PutOp(msg, ts)]
            case InvalidateOf(b) => Committed(run[i], a) == [InvalidateOp(b)]
            case _ => false
  {
    hide IsRun;
    CallsKeepTheirArguments(run, j, i, c);
    StillCalled(run[j].calls, c);
  }
}
