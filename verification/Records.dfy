/** The metadata array as the source has it: an array of pointers to records that are allocated,
    swapped and freed. The step-level machine keeps the array by value; here it runs together
    with the heap of records, and the two are proved to agree. */
module Records {
  import opened Layout
  import opened SortedList
  import opened StoreSpec
  import opened Protocol
  import opened ListSteps
  import opened Invariant
  import opened Runs

  /** `refs[b]` is the record that array entry `b` points to. A put holds the record it has made
      until the array takes it, and from its search on the record it is to replace. */
  datatype Heap = Heap(refs: seq<Id>, data: map<Id, Metadata>, made: map<nat, Id>, replaced: map<nat, Id>)

  datatype Machine = Machine(s: State, h: Heap)

  /** A step of the protocol, with the address of the record it allocates if it does; or the frees
      at the end of a put. */
  datatype Move = Do(a: Action, rec: Id) | FreeRecords(c: nat)

  ghost predicate HoldsRecord(h: Heap, c: nat) {
    c in h.made || c in h.replaced
  }

  /** A thread starts a call only after its last put has freed its records. */
  ghost predicate CanMove(m: Machine, v: Move) {
    match v
    case Do(a, rec) =>
      && Ready(m.s, a)
      && (a.PutBegin? ==> rec !in m.h.data && !HoldsRecord(m.h, a.c))
      && (a.InvBegin? ==> !HoldsRecord(m.h, a.c))
    case FreeRecords(c) => c !in m.s.calls && HoldsRecord(m.h, c)
  }

  ghost predicate LiveRef(h: Heap, b: nat) {
    b < |h.refs| && h.refs[b] in h.data
  }

  /** Every record that the move reads, writes or frees is allocated, and none is freed twice. */
  ghost predicate SafeMove(m: Machine, v: Move)
    requires CanMove(m, v)
  {
    match v
    case FreeRecords(c) =>
      && (c in m.h.made ==> m.h.made[c] in m.h.data)
      && (c in m.h.replaced ==> m.h.replaced[c] in m.h.data)
      && (c in m.h.made && c in m.h.replaced ==> m.h.made[c] != m.h.replaced[c])
    case Do(a, _) =>
      && Safe(m.s, a)
      && match a
         case PutChoose(c) =>
           LiveRef(m.h, Search(m.s.arr, m.s.last).value) && forall b :: 0 <= b < |m.s.arr| ==> LiveRef(m.h, b)
         case PutRefuse(c) => forall b :: 0 <= b < |m.s.arr| ==> LiveRef(m.h, b)
         case PutRecord(c) => m.s.calls[c].t < |m.h.refs| && c in m.h.made && m.h.made[c] in m.h.data
         case InvClear(c) => LiveRef(m.h, m.s.calls[c].b)
         case InvCopy(c, _) => LiveRef(m.h, m.s.calls[c].b)
         case _ => true
  }

  ghost function DropMade(h: Heap, c: nat): Heap {
    if c in h.made then h.(data := h.data - {h.made[c]}, made := h.made - {c}) else h
  }

  ghost function DropReplaced(h: Heap, c: nat): Heap {
    if c in h.replaced then h.(data := h.data - {h.replaced[c]}, replaced := h.replaced - {c}) else h
  }

  ghost function Swap(h: Heap, c: nat, t: nat): Heap
    requires c in h.made && t < |h.refs|
  {
    h.(refs := h.refs[t := h.made[c]], made := h.made - {c})
  }

  ghost function Cleared(h: Heap, b: nat): Heap
    requires LiveRef(h, b)
  {
    h.(data := h.data[h.refs[b] := h.data[h.refs[b]].(valid := false)])
  }

  ghost function Make(h: Heap, c: nat, rec: Id, md: Metadata): Heap {
    h.(data := h.data[rec := md], made := h.made[c := rec])
  }

  ghost function Pick(h: Heap, c: nat, t: nat): Heap
    requires t < |h.refs|
  {
    h.(replaced := h.replaced[c := h.refs[t]])
  }

  ghost function Moved(m: Machine, v: Move): Heap
    requires CanMove(m, v) && SafeMove(m, v)
  {
    var h := m.h;
    match v
    case FreeRecords(c) => DropReplaced(DropMade(h, c), c)
    case Do(a, rec) =>
      match a
      case PutBegin(c, _, msg, ts) => Make(h, c, rec, Metadata(ts, true, |msg|))
      case PutChoose(c) => Pick(h, c, Search(m.s.arr, m.s.last).value)
      case PutRecord(c) => Swap(h, c, m.s.calls[c].t)
      case InvClear(c) => Cleared(h, m.s.calls[c].b)
      case _ => h
  }

  ghost function MoveTo(m: Machine, v: Move): Machine
    requires CanMove(m, v) && SafeMove(m, v)
  {
    Machine(if v.Do? then Step(m.s, v.a) else m.s, Moved(m, v))
  }

  ghost predicate DistinctRefs(refs: seq<Id>) {
    forall i, j :: 0 <= i < j < |refs| ==> refs[i] != refs[j]
  }

  /** A mount allocates one record for each block. */
  ghost predicate Start(m: Machine) {
    && (exists st :: Inv(st) && m.s == InitState(st))
    && m.h.made == map[] && m.h.replaced == map[]
    && |m.h.refs| == |m.s.arr| && DistinctRefs(m.h.refs) && m.h.data.Keys == Ids(m.h.refs)
    && forall b :: 0 <= b < |m.s.arr| ==> m.h.data[m.h.refs[b]] == m.s.arr[b]
  }

  ghost predicate Moves(m: Machine, m': Machine) {
    exists v :: CanMove(m, v) && SafeMove(m, v) && m' == MoveTo(m, v)
  }

  ghost predicate IsMachineRun(run: seq<Machine>) {
    && |run| > 0 && Start(run[0])
    && forall i :: 0 <= i < |run| - 1 ==> Moves(run[i], run[i + 1])
  }

  // ----- the invariant -----

  /** How far a thread's put has come, as far as its records are concerned. */
  datatype Stage = Out | Prepared(md: Metadata) | Refused | Picked(md: Metadata, t: nat) | Swapped

  ghost function StageOf(calls: map<nat, Call>, c: nat): Stage {
    if c !in calls then Out
    else match calls[c]
      case PutReady(_, msg, ts) => Prepared(Metadata(ts, true, |msg|))
      case PutScan(_, msg, ts) => Prepared(Metadata(ts, true, |msg|))
      case PutFull(_) => Refused
      case PutGiveUp(_) => Refused
      case PutWrite(_, msg, ts, t, _) => Picked(Metadata(ts, true, |msg|), t)
      case PutLink(_, msg, ts, t) => Picked(Metadata(ts, true, |msg|), t)
      case PutSwap(msg, ts, t) => Picked(Metadata(ts, true, |msg|), t)
      case PutUnlock(_, _, _) => Swapped
      case _ => Out
  }

  ghost predicate StageOk(h: Heap, c: nat, stage: Stage) {
    match stage
    case Out => !(c in h.made && c in h.replaced) && (c in h.replaced ==> h.replaced[c] !in h.refs)
    case Prepared(md) => c in h.made && c !in h.replaced && h.made[c] in h.data && h.data[h.made[c]] == md
    case Refused => c in h.made && c !in h.replaced
    case Picked(md, t) =>
      && c in h.made && h.made[c] in h.data && h.data[h.made[c]] == md
      && c in h.replaced && t < |h.refs| && h.replaced[c] == h.refs[t]
    case Swapped => c !in h.made && c in h.replaced && h.replaced[c] !in h.refs
  }

  /** The records in use are those of the array, those made and not yet taken, and those replaced
      and not yet freed; no record has two roles, save that a put that has picked a block refers to
      the record the array still holds. */
  ghost predicate Roles(h: Heap) {
    && DistinctRefs(h.refs)
    && (forall i :: 0 <= i < |h.refs| ==> h.refs[i] in h.data)
    && (forall c :: c in h.made ==> h.made[c] in h.data && h.made[c] !in h.refs)
    && (forall c :: c in h.replaced ==> h.replaced[c] in h.data)
    && (forall c, d :: c in h.made && d in h.made && h.made[c] == h.made[d] ==> c == d)
    && (forall c, d :: c in h.replaced && d in h.replaced && h.replaced[c] == h.replaced[d] ==> c == d)
    && (forall c, d :: c in h.made && d in h.replaced ==> h.made[c] != h.replaced[d])
    && (forall x :: x in h.data ==> InUse(h, x))
  }

  ghost predicate InUse(h: Heap, x: Id) {
    || x in h.refs
    || (exists c :: c in h.made && h.made[c] == x)
    || (exists c :: c in h.replaced && h.replaced[c] == x)
  }

  ghost predicate Shows(h: Heap, arr: seq<Metadata>) {
    |h.refs| == |arr| && forall b :: 0 <= b < |arr| ==> h.refs[b] in h.data && h.data[h.refs[b]] == arr[b]
  }

  ghost predicate Staged(h: Heap, calls: map<nat, Call>) {
    forall c :: StageOk(h, c, StageOf(calls, c))
  }

  ghost predicate RecordsOk(m: Machine) {
    Roles(m.h) && Shows(m.h, m.s.arr) && Staged(m.h, m.s.calls)
  }

  // ----- each kind of step keeps it -----

  /** The steps that touch neither the array nor the stage of any call. */
  ghost predicate Quiet(a: Action) {
    !(a.PutBegin? || a.PutChoose? || a.PutRefuse? || a.PutDiscard? || a.PutRecord? || a.PutReturn? || a.InvClear?)
  }

  lemma QuietPutKeepsStages(s: State, a: Action, d: nat)
    requires Ready(s, a) && Safe(s, a) && Quiet(a) && ByPut(a)
    ensures Step(s, a).arr == s.arr && StageOf(Step(s, a).calls, d) == StageOf(s.calls, d)
  {
    hide Search, IndexOf, InsertPos, ElemsOf, Lists, InsertAt, RemoveAt, Piece, BlockOf, Rewritten, Ring, Observed, Hop, Ids,
      Apply, Complete, Stop, CopyFrom, CopyGoal;
  }

  lemma QuietInvalidateKeepsStages(s: State, a: Action, d: nat)
    requires Ready(s, a) && Safe(s, a) && Quiet(a) && !ByPut(a) && !ByReader(a)
    ensures Step(s, a).arr == s.arr && StageOf(Step(s, a).calls, d) == StageOf(s.calls, d)
  {
    hide Search, IndexOf, InsertPos, ElemsOf, Lists, InsertAt, RemoveAt, Piece, BlockOf, Rewritten, Ring, Observed, Hop, Ids,
      Apply, Complete, Stop, CopyFrom, CopyGoal;
  }

  lemma ReaderKeepsStages(s: State, a: Action)
    requires Ready(s, a) && Safe(s, a) && ByReader(a)
    ensures Step(s, a).arr == s.arr && Step(s, a).calls == s.calls
  {
    hide Ready, Safe, Step;
    ReadersOnly(s, a);
  }

  lemma QuietKeepsStages(s: State, a: Action, d: nat)
    requires Ready(s, a) && Safe(s, a) && Quiet(a)
    ensures Step(s, a).arr == s.arr && StageOf(Step(s, a).calls, d) == StageOf(s.calls, d)
  {
    hide Ready, Safe, Step, StageOf;
    if ByPut(a) {
      QuietPutKeepsStages(s, a, d);
    } else if ByReader(a) {
      ReaderKeepsStages(s, a);
    } else {
      QuietInvalidateKeepsStages(s, a, d);
    }
  }

  lemma KeepQuiet(m: Machine, a: Action)
    requires RecordsOk(m) && Ready(m.s, a) && Safe(m.s, a) && Quiet(a)
    ensures RecordsOk(Machine(Step(m.s, a), m.h))
  {
    hide Ready, Safe, Step, Roles, StageOf, StageOk;
    var s' := Step(m.s, a);
    QuietKeepsStages(m.s, a, 0);
    forall d
      ensures StageOk(m.h, d, StageOf(s'.calls, d))
    {
      QuietKeepsStages(m.s, a, d);
      assert StageOk(m.h, d, StageOf(m.s.calls, d));
    }
  }

  /** Only the stage of thread `c` changes. */
  ghost predicate OnlyAt(calls: map<nat, Call>, calls': map<nat, Call>, c: nat) {
    forall d :: d != c ==> StageOf(calls', d) == StageOf(calls, d)
  }

  /** A put gets its record. */
  lemma MakeKeepsRoles(h: Heap, c: nat, rec: Id, md: Metadata)
    requires Roles(h) && rec !in h.data && !HoldsRecord(h, c)
    ensures Roles(Make(h, c, rec, md))
  {
    var h' := Make(h, c, rec, md);
    forall x | x in h'.data
      ensures InUse(h', x)
    {
      if x == rec {
        assert h'.made[c] == x;
      } else {
        assert InUse(h, x);
        assert forall d :: d in h.made ==> d in h'.made && h'.made[d] == h.made[d];
      }
    }
  }

  lemma MakeKeepsStages(h: Heap, calls: map<nat, Call>, calls': map<nat, Call>, c: nat, rec: Id, md: Metadata)
    requires Staged(h, calls) && OnlyAt(calls, calls', c)
    requires rec !in h.data && !HoldsRecord(h, c) && StageOf(calls', c) == Prepared(md)
    ensures Staged(Make(h, c, rec, md), calls')
  {
    hide StageOf;
    forall d
      ensures StageOk(Make(h, c, rec, md), d, StageOf(calls', d))
    {
      assert StageOk(h, d, StageOf(calls, d));
    }
  }

  ghost predicate OthersPickedNothing(calls: map<nat, Call>, c: nat) {
    forall d :: d != c ==> !StageOf(calls, d).Picked?
  }

  /** Only one call is inside the writers' section. */
  lemma PickersAreAlone(s: State, c: nat)
    requires Good(s) && c in s.calls && InSection(s.calls[c])
    ensures OthersPickedNothing(s.calls, c)
  {
    hide Linked, Contents, GraceOk, Refines, Sections;
    forall d | d != c
      ensures !StageOf(s.calls, d).Picked?
    {
      assert d in s.calls ==> !InSection(s.calls[d]);
    }
  }

  /** The search picks block `t`: the put notes the record it is to replace. */
  lemma PickKeepsRoles(h: Heap, calls: map<nat, Call>, c: nat, t: nat)
    requires Roles(h) && Staged(h, calls) && OthersPickedNothing(calls, c) && c !in h.replaced && t < |h.refs|
    ensures Roles(Pick(h, c, t))
  {
    hide StageOf;
    var h' := Pick(h, c, t);
    forall d | d in h.replaced
      ensures h.replaced[d] != h.refs[t]
    {
      assert StageOk(h, d, StageOf(calls, d));
    }
    forall x | x in h'.data
      ensures InUse(h', x)
    {
      assert InUse(h, x);
      assert forall d :: d in h.replaced ==> d in h'.replaced && h'.replaced[d] == h.replaced[d];
    }
  }

  lemma PickKeepsStages(h: Heap, calls: map<nat, Call>, calls': map<nat, Call>, c: nat, t: nat, md: Metadata)
    requires Staged(h, calls) && OnlyAt(calls, calls', c) && t < |h.refs|
    requires StageOf(calls, c) == Prepared(md) && StageOf(calls', c) == Picked(md, t)
    ensures c !in h.replaced && Staged(Pick(h, c, t), calls')
  {
    hide StageOf;
    assert StageOk(h, c, StageOf(calls, c));
    forall d
      ensures StageOk(Pick(h, c, t), d, StageOf(calls', d))
    {
      assert StageOk(h, d, StageOf(calls, d));
    }
  }

  /** The array takes the new record; from then on nothing but the put refers to the old one. */
  lemma SwapKeepsRoles(h: Heap, c: nat, t: nat)
    requires Roles(h) && c in h.made && c in h.replaced && t < |h.refs| && h.replaced[c] == h.refs[t]
    ensures Roles(Swap(h, c, t)) && h.replaced[c] !in Swap(h, c, t).refs
  {
    var h' := Swap(h, c, t);
    assert h'.refs[t] == h.made[c];
    forall x | x in h'.data
      ensures InUse(h', x)
    {
      assert InUse(h, x);
      if x in h.refs {
        var i :| 0 <= i < |h.refs| && h.refs[i] == x;
        assert i != t ==> h'.refs[i] == x;
      } else if exists d :: d in h.made && h.made[d] == x {
        var d :| d in h.made && h.made[d] == x;
        assert d != c ==> d in h'.made && h'.made[d] == x;
      }
    }
  }

  lemma SwapKeepsStage(h: Heap, c: nat, t: nat, d: nat, stage: Stage)
    requires c in h.made && t < |h.refs| && d != c && StageOk(h, d, stage) && !stage.Picked?
    requires d in h.replaced ==> h.replaced[d] != h.made[c]
    ensures StageOk(Swap(h, c, t), d, stage)
  {
  }

  lemma SwapKeepsStages(h: Heap, calls: map<nat, Call>, calls': map<nat, Call>, c: nat, t: nat, md: Metadata)
    requires Roles(h) && Staged(h, calls) && OnlyAt(calls, calls', c) && OthersPickedNothing(calls, c)
    requires StageOf(calls, c) == Picked(md, t) && StageOf(calls', c) == Swapped
    ensures t < |h.refs| && c in h.made && Roles(Swap(h, c, t)) && Staged(Swap(h, c, t), calls')
  {
    hide StageOf, Swap;
    assert StageOk(h, c, StageOf(calls, c));
    SwapKeepsRoles(h, c, t);
    SwapTakes(h, c, t);
    var h' := Swap(h, c, t);
    forall d
      ensures StageOk(h', d, StageOf(calls', d))
    {
      assert StageOk(h, d, StageOf(calls, d));
      if d != c {
        SwapKeepsStage(h, c, t, d, StageOf(calls, d));
      }
    }
  }

  lemma SwapTakes(h: Heap, c: nat, t: nat)
    requires c in h.made && t < |h.refs|
    ensures var h' := Swap(h, c, t); c !in h'.made && h'.replaced == h.replaced && h'.data == h.data
  {
  }

  lemma SwapShows(h: Heap, arr: seq<Metadata>, c: nat, t: nat, md: Metadata)
    requires Shows(h, arr) && t < |arr| && c in h.made && h.made[c] in h.data && h.data[h.made[c]] == md
    ensures Shows(Swap(h, c, t), arr[t := md])
  {
  }

  lemma ClearKeepsRoles(h: Heap, b: nat)
    requires Roles(h) && b < |h.refs|
    ensures LiveRef(h, b) && Roles(Cleared(h, b))
  {
    var h' := Cleared(h, b);
    forall x | x in h'.data
      ensures InUse(h', x)
    {
      assert InUse(h, x);
    }
  }

  lemma ClearShows(h: Heap, arr: seq<Metadata>, b: nat)
    requires Shows(h, arr) && DistinctRefs(h.refs) && b < |arr|
    ensures LiveRef(h, b) && Shows(Cleared(h, b), arr[b := arr[b].(valid := false)])
  {
  }

  lemma ClearKeepsStages(h: Heap, calls: map<nat, Call>, calls': map<nat, Call>, b: nat)
    requires Roles(h) && Staged(h, calls) && LiveRef(h, b) && forall d :: StageOf(calls', d) == StageOf(calls, d)
    ensures Staged(Cleared(h, b), calls')
  {
    hide StageOf;
    assert forall c :: c in h.made ==> h.made[c] != h.refs[b];
    hide Roles;
    forall d
      ensures StageOk(Cleared(h, b), d, StageOf(calls', d))
    {
      assert StageOk(h, d, StageOf(calls, d));
    }
  }

  /** A stage that only lets go keeps what was required of the one before. */
  ghost predicate LetsGo(stage: Stage, stage': Stage) {
    (stage.Prepared? && stage'.Refused?) || ((stage.Refused? || stage.Swapped?) && stage'.Out?)
  }

  lemma LeaveKeepsStages(h: Heap, calls: map<nat, Call>, calls': map<nat, Call>, c: nat)
    requires Staged(h, calls) && OnlyAt(calls, calls', c) && LetsGo(StageOf(calls, c), StageOf(calls', c))
    ensures Staged(h, calls')
  {
    hide StageOf;
    forall d
      ensures StageOk(h, d, StageOf(calls', d))
    {
      assert StageOk(h, d, StageOf(calls, d));
    }
  }

  /** The end of a put: the record it still holds is freed, and nothing refers to it. */
  lemma DropMadeKeepsRoles(h: Heap, c: nat)
    requires Roles(h)
    ensures Roles(DropMade(h, c))
  {
    hide InUse;
    var h' := DropMade(h, c);
    forall x | x in h'.data
      ensures InUse(h', x)
    {
      DropMadeKeepsUse(h, c, x);
    }
  }

  lemma DropMadeKeepsUse(h: Heap, c: nat, x: Id)
    requires InUse(h, x) && x in DropMade(h, c).data
    ensures InUse(DropMade(h, c), x)
  {
    var h' := DropMade(h, c);
    if d :| d in h.made && h.made[d] == x {
      assert d in h'.made && h'.made[d] == x;
    }
  }

  lemma DropReplacedKeepsRoles(h: Heap, c: nat)
    requires Roles(h) && (c in h.replaced ==> h.replaced[c] !in h.refs)
    ensures Roles(DropReplaced(h, c))
  {
    var h' := DropReplaced(h, c);
    forall x | x in h'.data
      ensures InUse(h', x)
    {
      assert InUse(h, x);
      assert forall d :: d in h.replaced && d != c ==> d in h'.replaced && h'.replaced[d] == h.replaced[d];
    }
  }

  lemma DropKeepsStages(h: Heap, calls: map<nat, Call>, c: nat)
    requires Roles(h) && Staged(h, calls) && StageOf(calls, c) == Out
    ensures Staged(DropReplaced(DropMade(h, c), c), calls)
  {
    hide StageOf;
    forall d
      ensures StageOk(DropReplaced(DropMade(h, c), c), d, StageOf(calls, d))
    {
      assert StageOk(h, d, StageOf(calls, d));
    }
  }

  lemma DropShows(h: Heap, arr: seq<Metadata>, c: nat)
    requires Roles(h) && Shows(h, arr) && (c in h.replaced ==> h.replaced[c] !in h.refs)
    ensures Shows(DropReplaced(DropMade(h, c), c), arr)
  {
  }

  lemma KeepFree(m: Machine, c: nat)
    requires RecordsOk(m) && CanMove(m, FreeRecords(c))
    ensures SafeMove(m, FreeRecords(c)) && RecordsOk(MoveTo(m, FreeRecords(c)))
  {
    assert StageOk(m.h, c, StageOf(m.s.calls, c));
    DropMadeKeepsRoles(m.h, c);
    DropReplacedKeepsRoles(DropMade(m.h, c), c);
    DropKeepsStages(m.h, m.s.calls, c);
    DropShows(m.h, m.s.arr, c);
    hide Shows, Staged;
  }

  // ----- every move keeps the invariant -----

  lemma KeepBegin(m: Machine, c: nat, addr: Id, msg: Message, ts: Time, rec: Id)
    requires RecordsOk(m) && CanPutBegin(m.s, c, addr) && rec !in m.h.data && !HoldsRecord(m.h, c)
    ensures RecordsOk(Machine(DoPutBegin(m.s, c, addr, msg, ts), Make(m.h, c, rec, Metadata(ts, true, |msg|))))
  {
    hide Roles, Staged;
    var s' := DoPutBegin(m.s, c, addr, msg, ts);
    MakeKeepsRoles(m.h, c, rec, Metadata(ts, true, |msg|));
    MakeKeepsStages(m.h, m.s.calls, s'.calls, c, rec, Metadata(ts, true, |msg|));
  }

  lemma KeepChoose(m: Machine, c: nat)
    requires RecordsOk(m) && Good(m.s) && CanPutChoose(m.s, c)
    ensures var t := Search(m.s.arr, m.s.last).value;
            t < |m.h.refs| && RecordsOk(Machine(DoPutChoose(m.s, c), Pick(m.h, c, t)))
  {
    hide Roles, Staged, Good, Search;
    var s', t, p := DoPutChoose(m.s, c), Search(m.s.arr, m.s.last).value, m.s.calls[c];
    PickersAreAlone(m.s, c);
    PickKeepsStages(m.h, m.s.calls, s'.calls, c, t, Metadata(p.ts, true, |p.msg|));
    PickKeepsRoles(m.h, m.s.calls, c, t);
  }

  lemma KeepRecord(m: Machine, c: nat)
    requires RecordsOk(m) && Good(m.s) && CanPutRecord(m.s, c) && m.s.calls[c].t < |m.s.arr|
    ensures var t := m.s.calls[c].t;
            && t < |m.h.refs| && c in m.h.made && m.h.made[c] in m.h.data
            && RecordsOk(Machine(DoPutRecord(m.s, c), Swap(m.h, c, t)))
  {
    hide Roles, Good, Swap;
    var s', p := DoPutRecord(m.s, c), m.s.calls[c];
    var md := Metadata(p.ts, true, |p.msg|);
    assert StageOk(m.h, c, StageOf(m.s.calls, c));
    PickersAreAlone(m.s, c);
    SwapKeepsStages(m.h, m.s.calls, s'.calls, c, p.t, md);
    SwapShows(m.h, m.s.arr, c, p.t, md);
  }

  lemma KeepClear(m: Machine, c: nat)
    requires RecordsOk(m) && CanInvClear(m.s, c) && m.s.calls[c].b < |m.s.arr|
    ensures var b := m.s.calls[c].b;
            LiveRef(m.h, b) && RecordsOk(Machine(DoInvClear(m.s, c), Cleared(m.h, b)))
  {
    hide Staged, Cleared;
    var s', b := DoInvClear(m.s, c), m.s.calls[c].b;
    ClearKeepsRoles(m.h, b);
    ClearShows(m.h, m.s.arr, b);
    ClearKeepsStages(m.h, m.s.calls, s'.calls, b);
  }

  lemma KeepLeave(m: Machine, s': State, c: nat)
    requires RecordsOk(m) && s'.arr == m.s.arr && OnlyAt(m.s.calls, s'.calls, c)
    requires LetsGo(StageOf(m.s.calls, c), StageOf(s'.calls, c))
    ensures RecordsOk(Machine(s', m.h))
  {
    hide Roles, Shows, StageOf;
    LeaveKeepsStages(m.h, m.s.calls, s'.calls, c);
  }

  lemma KeepLoud(m: Machine, a: Action, rec: Id)
    requires RecordsOk(m) && Good(m.s) && CanMove(m, Do(a, rec)) && Safe(m.s, a) && !Quiet(a)
    ensures SafeMove(m, Do(a, rec)) && RecordsOk(MoveTo(m, Do(a, rec)))
  {
    hide Good, Roles, Staged, Search, Make, Pick, Swap, Cleared, Apply;
    match a
    case PutBegin(c, addr, msg, ts) => KeepBegin(m, c, addr, msg, ts, rec);
    case PutChoose(c) => KeepChoose(m, c);
    case PutRecord(c) => KeepRecord(m, c);
    case InvClear(c) => KeepClear(m, c);
    case PutRefuse(c) => KeepLeave(m, DoPutRefuse(m.s, c), c);
    case PutDiscard(c) => KeepLeave(m, DoPutDiscard(m.s, c), c);
    case PutReturn(c) => KeepLeave(m, DoPutReturn(m.s, c), c);
  }

  lemma QuietIsSafe(m: Machine, a: Action, rec: Id)
    requires RecordsOk(m) && CanMove(m, Do(a, rec)) && Safe(m.s, a) && Quiet(a)
    ensures SafeMove(m, Do(a, rec)) && Moved(m, Do(a, rec)) == m.h
  {
    hide Roles, Staged;
  }

  /** No move is unsafe, and every move keeps the invariant. */
  lemma MoveKeepsRecords(m: Machine, v: Move)
    requires RecordsOk(m) && Good(m.s) && CanMove(m, v)
    ensures SafeMove(m, v) && RecordsOk(MoveTo(m, v)) && Good(MoveTo(m, v).s)
  {
    hide Good, RecordsOk, Ready, Safe, Step, Moved, SafeMove, Quiet;
    match v
    case FreeRecords(c) => KeepFree(m, c);
    case Do(a, rec) =>
      StepKeepsGood(m.s, a);
      if Quiet(a) {
        QuietIsSafe(m, a, rec);
        KeepQuiet(m, a);
      } else {
        KeepLoud(m, a, rec);
      }
  }

  lemma StartRecords(m: Machine)
    requires Start(m)
    ensures RecordsOk(m) && Good(m.s)
  {
    hide Good, Inv, Roles;
    var st :| Inv(st) && m.s == InitState(st);
    InitGood(st);
    StartRoles(m.h);
    assert forall c :: StageOf(m.s.calls, c) == Out;
  }

  lemma StartRoles(h: Heap)
    requires h.made == map[] && h.replaced == map[] && DistinctRefs(h.refs) && h.data.Keys == Ids(h.refs)
    ensures Roles(h)
  {
  }

  lemma {:induction false} ReachableRecords(run: seq<Machine>, i: nat)
    requires IsMachineRun(run) && i < |run|
    ensures RecordsOk(run[i]) && Good(run[i].s)
    decreases i
  {
    hide Good, RecordsOk, CanMove, SafeMove, MoveTo, Start;
    if i == 0 {
      StartRecords(run[0]);
    } else {
      ReachableRecords(run, i - 1);
      assert Moves(run[i - 1], run[i - 1 + 1]);
      var v :| CanMove(run[i - 1], v) && SafeMove(run[i - 1], v) && run[i] == MoveTo(run[i - 1], v);
      MoveKeepsRecords(run[i - 1], v);
    }
  }

  // ----- what it means -----

  /** In every interleaving no metadata record is used after it was freed, and none is freed twice. */
  lemma RecordsAreSafe(run: seq<Machine>, i: nat, v: Move)
    requires IsMachineRun(run) && i < |run| && CanMove(run[i], v)
    ensures SafeMove(run[i], v)
  {
    hide Good, RecordsOk, CanMove, SafeMove, MoveTo, IsMachineRun;
    ReachableRecords(run, i);
    MoveKeepsRecords(run[i], v);
  }

  /** At every instant each array entry points to an allocated record of its own, which holds
      the entry's value. */
  lemma ArrayPointsToLiveRecords(run: seq<Machine>, i: nat, b: nat)
    requires IsMachineRun(run) && i < |run| && b < |run[i].s.arr|
    ensures LiveRef(run[i].h, b) && run[i].h.data[run[i].h.refs[b]] == run[i].s.arr[b]
    ensures forall d :: 0 <= d < |run[i].h.refs| && d != b ==> run[i].h.refs[d] != run[i].h.refs[b]
  {
    hide Good, IsMachineRun, Staged, InUse;
    ReachableRecords(run, i);
  }

  /** No record is lost: when no put is under way, the array's records are all there is. */
  lemma NoRecordIsLost(run: seq<Machine>, i: nat)
    requires IsMachineRun(run) && i < |run| && run[i].h.made == map[] && run[i].h.replaced == map[]
    ensures run[i].h.data.Keys == Ids(run[i].h.refs)
  {
    hide Good, IsMachineRun, Staged, Shows;
    ReachableRecords(run, i);
    assert forall x :: x in run[i].h.data ==> InUse(run[i].h, x);
  }
}
