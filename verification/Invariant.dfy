/** The invariant of the step-level machine, and its preservation by every step. */
module Invariant {
  import opened Layout
  import opened SortedList
  import opened StoreSpec
  import opened Protocol
  import opened ListSteps

  // ----- ownership and the lock -----

  /** The node that only this call refers to, apart from readers: not published yet, or unlinked. */
  ghost predicate Owns(pc: Call, x: Id) {
    match pc
    case PutReady(node, _, _) => x == node
    case PutScan(node, _, _) => x == node
    case PutFull(node) => x == node
    case PutGiveUp(node) => x == node
    case PutWrite(node, _, _, _, _) => x == node
    case PutLink(node, _, _, _) => x == node
    case InvMark(_, node) => x == node
    case InvRewrite(_, node, _) => x == node
    case InvSync(node) => x == node
    case InvWait(node, _) => x == node
    case _ => false
  }

  /** The call is between spin_lock and spin_unlock. */
  ghost predicate InSection(pc: Call) {
    !(pc.PutReady? || pc.PutGiveUp? || pc.InvReady? || pc.InvSync? || pc.InvWait?)
  }

  /** The lock has one holder, and no node is lost, shared or owned while listed. */
  ghost predicate Ownership(node: map<Id, Node>, spine: seq<Id>, lock: Option<nat>, calls: map<nat, Call>) {
    && (lock.Some? ==> lock.value in calls)
    && (forall c :: c in calls ==> (InSection(calls[c]) <==> lock == Some(c)))
    && (forall c, x :: c in calls && Owns(calls[c], x) ==> x in node && x !in spine)
    && (forall c, d, x :: c in calls && d in calls && Owns(calls[c], x) && Owns(calls[d], x) ==> c == d)
    && (forall x :: x in node ==> x in spine || exists c :: c in calls && Owns(calls[c], x))
  }

  /** A section can reach an owned node only if it was unlinked and the grace period still waits for it. */
  ghost predicate MayReach(pc: Call, r: nat) {
    pc.InvMark? || pc.InvRewrite? || pc.InvSync? || (pc.InvWait? && r in pc.pending)
  }

  ghost predicate GraceOk(calls: map<nat, Call>, readers: map<nat, Reader>) {
    forall c, r, x :: c in calls && r in readers && Owns(calls[c], x) && x in readers[r].ever ==> MayReach(calls[c], r)
  }

  // ----- contents of the blocks -----

  /** The block of `x` holds the message `x` was published for. */
  ghost predicate Holding(dev: seq<Block>, x: Node) {
    && x.e.ndx < |dev| && x.e.bytes == |x.msg|
    && Payload(dev[x.e.ndx], |x.msg|) == x.msg
  }

  ghost predicate Contents(node: map<Id, Node>, spine: seq<Id>, stale: set<Id>, dev: seq<Block>) {
    && (forall x :: x in node && x !in stale ==> Holding(dev, node[x]))
    && (forall i :: 0 <= i < |spine| ==> spine[i] !in stale)
  }

  /** Every node in sight of a reader names a block of the device and a length that fits in it. */
  ghost predicate InRange(node: map<Id, Node>, dev: seq<Block>, x: Id) {
    x in node && node[x].e.ndx < |dev| && node[x].e.bytes <= MAX_MESSAGE
  }

  // ----- the critical section against the sequential store -----

  ghost predicate AtRest(s: State)
    requires SpineAllocated(s)
  {
    s.arr == s.model.arr && s.dev == s.model.dev && s.last == s.model.last && Elems(s) == s.model.list
  }

  /** What the holder of the lock has done so far, relative to the store it found. */
  ghost predicate Progress(s: State, pc: Call)
    requires SpineAllocated(s) && Shape(s.model)
  {
    var m := s.model;
    match pc
    case PutWrite(node, msg, ts, t, k) =>
      && Search(m.arr, m.last) == Some(t) && k <= BLOCK_SIZE
      && s.arr == m.arr && s.last == m.last && Elems(s) == m.list
      && s.dev == m.dev[t := Mixed(BlockOf(ts, msg), m.dev[t], k)]
      && forall x :: x in s.node && s.node[x].e.ndx == t ==> x in s.stale
    case PutLink(node, msg, ts, t) =>
      && Search(m.arr, m.last) == Some(t)
      && s.arr == m.arr && s.last == m.last && Elems(s) == m.list
      && s.dev == m.dev[t := BlockOf(ts, msg)]
      && node in s.node && node in s.next && s.node[node].e == Elem(t, ts, |msg|)
      && s.node[node].born + 1 == s.tick && node !in s.stale
      && s.next[node] == Ring(s.spine, InsertPos(m.list, ts) + 1)
      && forall i :: 0 <= i < |s.spine| ==> s.node[s.spine[i]].born < s.node[node].born
    case PutSwap(msg, ts, t) =>
      && Search(m.arr, m.last) == Some(t)
      && s.arr == m.arr && s.last == m.last
      && Elems(s) == Insert(m.list, Elem(t, ts, |msg|))
      && s.dev == m.dev[t := BlockOf(ts, msg)]
    case PutUnlock(msg, ts, t) =>
      && Search(m.arr, m.last) == Some(t)
      && Store(s.arr, s.dev, Elems(s), s.last) == PutAt(m, t, msg, ts)
    case PutFull(node) => AtRest(s) && Search(m.arr, m.last).None?
    case InvUnlink(b, node) =>
      && AtRest(s) && IndexOf(m.list, b).Some? && s.spine[IndexOf(m.list, b).value] == node
    case InvMark(b, node) =>
      && IndexOf(m.list, b).Some? && b < |m.arr|
      && s.arr == m.arr && s.last == m.last && s.dev == m.dev
      && Elems(s) == RemoveAt(m.list, IndexOf(m.list, b).value)
    case InvRewrite(b, node, k) =>
      && IndexOf(m.list, b).Some? && b < |m.arr| && k <= METADATA_SIZE
      && s.last == m.last && s.arr == m.arr[b := m.arr[b].(valid := false)]
      && Elems(s) == RemoveAt(m.list, IndexOf(m.list, b).value)
      && s.dev == m.dev[b := Mixed(Rewritten(m.dev[b], s.arr[b]), m.dev[b], k)]
    case InvNone(b) => AtRest(s) && IndexOf(m.list, b).None?
    case PutScan(_, _, _) => AtRest(s)
    case InvScan(_) => AtRest(s)
    case _ => true
  }

  ghost predicate Refines(s: State)
    requires SpineAllocated(s)
  {
    && Inv(s.model)
    && (s.lock.None? ==> AtRest(s))
    && (s.lock.Some? && s.lock.value in s.calls ==> Progress(s, s.calls[s.lock.value]))
    && |s.arr| == |s.model.arr| && |s.dev| == |s.model.dev|
  }

  ghost predicate Sections(s: State) {
    && (forall r :: r in s.readers ==> r < s.nextReader && SectionOk(s.node, s.next, s.spine, s.stale, s.readers[r]))
    && (forall r, x :: r in s.readers && x in s.readers[r].ever ==> InRange(s.node, s.dev, x))
  }

  ghost predicate Good(s: State) {
    && SpineAllocated(s)
    && Linked(s.node, s.next, s.spine, s.tick)
    && Ownership(s.node, s.spine, s.lock, s.calls)
    && Contents(s.node, s.spine, s.stale, s.dev)
    && Sections(s)
    && GraceOk(s.calls, s.readers)
    && Refines(s)
  }

  // ----- calls that only move on -----

  /** A call moves to a program point with the same node in its care. */
  lemma MoveKeepsOwnership(node: map<Id, Node>, spine: seq<Id>, lock: Option<nat>, lock': Option<nat>,
                           calls: map<nat, Call>, c: nat, pc: Call)
    requires Ownership(node, spine, lock, calls) && c in calls
    requires forall x :: Owns(pc, x) <==> Owns(calls[c], x)
    requires InSection(pc) <==> lock' == Some(c)
    requires lock' == lock || (lock.None? && lock' == Some(c)) || (lock == Some(c) && lock'.None?)
    ensures Ownership(node, spine, lock', calls[c := pc])
  {
    var calls' := calls[c := pc];
    forall x | x in node && x !in spine
      ensures exists d :: d in calls' && Owns(calls'[d], x)
    {
      var d :| d in calls && Owns(calls[d], x);
      assert Owns(calls'[d], x);
    }
  }

  /** A call without a node in its care returns. */
  lemma ReturnKeepsOwnership(node: map<Id, Node>, spine: seq<Id>, lock: Option<nat>, calls: map<nat, Call>, c: nat)
    requires Ownership(node, spine, lock, calls) && lock == Some(c) && c in calls
    requires forall x :: !Owns(calls[c], x)
    ensures Ownership(node, spine, None, calls - {c})
  {
    var calls' := calls - {c};
    forall x | x in node && x !in spine
      ensures exists d :: d in calls' && Owns(calls'[d], x)
    {
      var d :| d in calls && Owns(calls[d], x);
      assert d in calls' && Owns(calls'[d], x);
    }
  }

  /** A call that has no node yet begins. */
  lemma BeginKeepsOwnership(node: map<Id, Node>, spine: seq<Id>, lock: Option<nat>, calls: map<nat, Call>, c: nat, pc: Call)
    requires Ownership(node, spine, lock, calls) && c !in calls
    requires !InSection(pc) && forall x :: !Owns(pc, x)
    ensures Ownership(node, spine, lock, calls[c := pc])
  {
    var calls' := calls[c := pc];
    forall x | x in node && x !in spine
      ensures exists d :: d in calls' && Owns(calls'[d], x)
    {
      var d :| d in calls && Owns(calls[d], x);
      assert Owns(calls'[d], x);
    }
  }

  lemma MoveKeepsGrace(calls: map<nat, Call>, readers: map<nat, Reader>, c: nat, pc: Call)
    requires GraceOk(calls, readers)
    requires forall x :: Owns(pc, x) ==> c in calls && Owns(calls[c], x)
    requires c in calls ==> forall r :: r in readers && MayReach(calls[c], r) ==> MayReach(pc, r)
    ensures GraceOk(calls[c := pc], readers)
  {
  }

  /** The lists, the readers and the device are the same: only the calls and the array moved. */
  ghost predicate SameMemory(s: State, s': State) {
    && s'.node == s.node && s'.next == s.next && s'.spine == s.spine && s'.stale == s.stale && s'.tick == s.tick
    && s'.dev == s.dev && s'.readers == s.readers && s'.nextReader == s.nextReader
  }

  lemma GoodBySameMemory(s: State, s': State)
    requires Good(s) && SameMemory(s, s')
    requires Ownership(s'.node, s'.spine, s'.lock, s'.calls)
    requires GraceOk(s'.calls, s'.readers)
    requires Refines(s')
    ensures Good(s')
  {
    hide Linked, Ownership, Contents, SectionOk, GraceOk;
  }

  /** A step outside every critical section does not disturb the one in progress. */
  lemma HolderUndisturbed(s: State, s': State)
    requires SpineAllocated(s) && Refines(s) && SpineAllocated(s')
    requires s'.model == s.model && s'.arr == s.arr && s'.dev == s.dev && s'.last == s.last
    requires s'.spine == s.spine && s'.tick == s.tick && s'.lock == s.lock
    requires s.lock.Some? ==> s.lock.value in s.calls && s.lock.value in s'.calls && s'.calls[s.lock.value] == s.calls[s.lock.value]
    requires forall i :: 0 <= i < |s.spine| ==> s'.node[s.spine[i]] == s.node[s.spine[i]]
    requires forall x :: x in s'.node && x !in s'.stale ==> x in s.node && s'.node[x] == s.node[x] && x !in s.stale
    requires s.lock.Some? ==> forall x :: Owns(s.calls[s.lock.value], x) && x in s.node && x in s.next ==>
               x in s'.node && s'.node[x] == s.node[x] && x in s'.next && s'.next[x] == s.next[x] && (x in s'.stale ==> x in s.stale)
    ensures Refines(s')
  {
    hide DeviceAgrees, ListAgrees, Search, IndexOf, BlockOf, Mixed, Rewritten, InsertPos, Ring, PutAt, Insert, RemoveAt;
    assert ElemsOf(s'.node, s'.spine) == ElemsOf(s.node, s.spine);
    if s.lock.Some? {
      var pc := s.calls[s.lock.value];
      if pc.PutLink? {
        assert Owns(pc, pc.node);
      }
    }
  }

  /** A call without the lock moves on, and nothing else changes. */
  lemma KeepMove(s: State, c: nat, pc: Call)
    requires Good(s) && c in s.calls && s.lock != Some(c)
    requires !InSection(pc) && forall x :: Owns(pc, x) <==> Owns(s.calls[c], x)
    requires forall r :: r in s.readers && MayReach(s.calls[c], r) ==> MayReach(pc, r)
    ensures Good(Goto(s, c, pc))
  {
    hide Linked, Contents, Sections, Progress, DeviceAgrees, ListAgrees, GraceOk, Owns, MayReach;
    var s' := Goto(s, c, pc);
    MoveKeepsOwnership(s.node, s.spine, s.lock, s.lock, s.calls, c, pc);
    MoveKeepsGrace(s.calls, s.readers, c, pc);
    assert SpineAllocated(s);
    HolderUndisturbed(s, s');
    GoodBySameMemory(s, s');
  }

  lemma KeepPutAcquire(s: State, c: nat)
    requires Good(s) && CanPutAcquire(s, c)
    ensures Good(DoPutAcquire(s, c))
  {
    hide Linked, Contents, Sections, DeviceAgrees, ListAgrees, GraceOk;
    var p, s' := s.calls[c], DoPutAcquire(s, c);
    MoveKeepsOwnership(s.node, s.spine, s.lock, Some(c), s.calls, c, s'.calls[c]);
    MoveKeepsGrace(s.calls, s.readers, c, s'.calls[c]);
    GoodBySameMemory(s, s');
  }

  lemma KeepPutRefuse(s: State, c: nat)
    requires Good(s) && CanPutRefuse(s, c)
    ensures Good(DoPutRefuse(s, c))
  {
    hide Linked, Contents, Sections, DeviceAgrees, ListAgrees, GraceOk, Search;
    var s' := DoPutRefuse(s, c);
    MoveKeepsOwnership(s.node, s.spine, s.lock, s.lock, s.calls, c, s'.calls[c]);
    MoveKeepsGrace(s.calls, s.readers, c, s'.calls[c]);
    GoodBySameMemory(s, s');
  }

  lemma KeepPutRelease(s: State, c: nat)
    requires Good(s) && CanPutRelease(s, c)
    ensures Good(DoPutRelease(s, c))
  {
    hide Linked, Contents, Sections, DeviceAgrees, ListAgrees, GraceOk, Search;
    var s' := DoPutRelease(s, c);
    MoveKeepsOwnership(s.node, s.spine, s.lock, None, s.calls, c, s'.calls[c]);
    MoveKeepsGrace(s.calls, s.readers, c, s'.calls[c]);
    GoodBySameMemory(s, s');
  }

  lemma KeepInvBegin(s: State, c: nat, b: nat)
    requires Good(s) && CanInvBegin(s, c, b)
    ensures Good(DoInvBegin(s, c, b))
  {
    hide Linked, Contents, Sections, Progress, DeviceAgrees, ListAgrees, GraceOk;
    var s' := DoInvBegin(s, c, b);
    BeginKeepsOwnership(s.node, s.spine, s.lock, s.calls, c, InvReady(b));
    MoveKeepsGrace(s.calls, s.readers, c, InvReady(b));
    HolderUndisturbed(s, s');
    GoodBySameMemory(s, s');
  }

  lemma KeepInvAcquire(s: State, c: nat)
    requires Good(s) && CanInvAcquire(s, c)
    ensures Good(DoInvAcquire(s, c))
  {
    hide Linked, Contents, Sections, DeviceAgrees, ListAgrees, GraceOk;
    var s' := DoInvAcquire(s, c);
    MoveKeepsOwnership(s.node, s.spine, s.lock, Some(c), s.calls, c, s'.calls[c]);
    MoveKeepsGrace(s.calls, s.readers, c, s'.calls[c]);
    GoodBySameMemory(s, s');
  }

  lemma ListsIsListed(s: State, b: int)
    requires SpineAllocated(s)
    ensures Lists(s, b) <==> Listed(Elems(s), b)
  {
    if Lists(s, b) {
      var i :| 0 <= i < |s.spine| && s.spine[i] in s.node && s.node[s.spine[i]].e.ndx == b;
      assert Elems(s)[i].ndx == b;
    }
    if Listed(Elems(s), b) {
      var i :| 0 <= i < |Elems(s)| && Elems(s)[i].ndx == b;
      assert s.spine[i] in s.node;
    }
  }

  /** The holder moves to another point of its critical section, and memory does not change. */
  lemma KeepHolderMove(s: State, s': State, c: nat, pc: Call)
    requires Good(s) && Holds(s, c) && SameMemory(s, s')
    requires s'.lock == s.lock && s'.calls == s.calls[c := pc]
    requires InSection(pc) && forall x :: Owns(pc, x) <==> Owns(s.calls[c], x)
    requires forall r :: r in s.readers && MayReach(s.calls[c], r) ==> MayReach(pc, r)
    requires Refines(s')
    ensures Good(s')
  {
    hide Linked, Contents, Sections, Progress, Refines, GraceOk, Owns, MayReach;
    MoveKeepsOwnership(s.node, s.spine, s.lock, s.lock, s.calls, c, pc);
    MoveKeepsGrace(s.calls, s.readers, c, pc);
    GoodBySameMemory(s, s');
  }

  lemma KeepInvFind(s: State, c: nat)
    requires Good(s) && CanInvFind(s, c)
    ensures SpineAllocated(s) && Good(DoInvFind(s, c))
  {
    hide Linked, Contents, Sections, DeviceAgrees, ListAgrees, GraceOk, Ownership;
    var b, s' := s.calls[c].b, DoInvFind(s, c);
    ListsIsListed(s, b);
    assert Progress(s, s.calls[c]);
    KeepHolderMove(s, s', c, s'.calls[c]);
  }

  lemma KeepInvMiss(s: State, c: nat)
    requires Good(s) && CanInvMiss(s, c)
    ensures SpineAllocated(s) && Good(DoInvMiss(s, c))
  {
    hide Linked, Contents, Sections, DeviceAgrees, ListAgrees, GraceOk, Ownership;
    var b, s' := s.calls[c].b, DoInvMiss(s, c);
    ListsIsListed(s, b);
    assert Progress(s, s.calls[c]);
    KeepHolderMove(s, s', c, s'.calls[c]);
  }

  lemma KeepInvMissReturn(s: State, c: nat)
    requires Good(s) && CanInvMissReturn(s, c)
    ensures Good(DoInvMissReturn(s, c))
  {
    hide Linked, Contents, Sections, DeviceAgrees, ListAgrees;
    ReturnKeepsOwnership(s.node, s.spine, s.lock, s.calls, c);
    GoodBySameMemory(s, DoInvMissReturn(s, c));
  }

  lemma KeepInvSynchronize(s: State, c: nat)
    requires Good(s) && CanInvSynchronize(s, c)
    ensures Good(DoInvSynchronize(s, c))
  {
    hide Linked, Contents, Sections, Refines, DeviceAgrees, ListAgrees, GraceOk;
    KeepMove(s, c, InvWait(s.calls[c].node, s.readers.Keys));
  }

  // ----- writing the block -----

  lemma PieceAdvances(src: Block, dst: Block, k: nat, n: nat)
    requires k + n <= BLOCK_SIZE
    ensures Piece(src, Mixed(src, dst, k), k, n) == Mixed(src, dst, k + n)
  {
  }

  /** Selecting a block makes the nodes that still name it stale; none of them is listed. */
  lemma KeepPutChoose(s: State, c: nat)
    requires Good(s) && CanPutChoose(s, c)
    ensures Good(DoPutChoose(s, c))
  {
    hide Linked, DeviceAgrees, ListAgrees, GraceOk, Ownership, SectionOk, Search, Holding, BlockOf;
    var s' := DoPutChoose(s, c);
    var p, t := s.calls[c], Search(s.arr, s.last).value;
    MoveKeepsOwnership(s.node, s.spine, s.lock, s.lock, s.calls, c, s'.calls[c]);
    MoveKeepsGrace(s.calls, s.readers, c, s'.calls[c]);
    FreeIsUnlisted(s, t);
    StaleKeepsSections(s, s');
    assert s.dev == s.dev[t := s.dev[t]];
    assert Progress(s', s'.calls[c]);
  }

  lemma FreeIsUnlisted(s: State, t: nat)
    requires SpineAllocated(s) && Inv(s.model) && Elems(s) == s.model.list
    requires Search(s.model.arr, s.model.last) == Some(t)
    ensures forall i :: 0 <= i < |s.spine| ==> s.node[s.spine[i]].e.ndx != t
    ensures t < |s.model.arr| && !s.model.arr[t].valid
  {
    SearchCorrect(s.model.arr, s.model.last);
    assert FirstFree(s.model.arr, s.model.last, t);
    NotListed(s.model.arr, s.model.list, t);
    assert forall i :: 0 <= i < |s.spine| ==> s.model.list[i] == s.node[s.spine[i]].e;
  }

  lemma StaleKeepsSections(s: State, s': State)
    requires Sections(s) && s'.readers == s.readers && s'.nextReader == s.nextReader && |s'.dev| == |s.dev|
    requires s'.node == s.node && s'.next == s.next && s'.spine == s.spine && s.stale <= s'.stale
    ensures Sections(s')
  {
    forall r | r in s.readers
      ensures SectionOk(s'.node, s'.next, s'.spine, s'.stale, s'.readers[r])
    {
      WalkSurvives(s.node, s.node, s.stale, s'.stale, s.readers[r], s.readers[r]);
    }
    forall r, x | r in s'.readers && x in s'.readers[r].ever
      ensures InRange(s'.node, s'.dev, x)
    {
      assert InRange(s.node, s.dev, x);
    }
  }

  lemma KeepPutCopy(s: State, c: nat, n: nat)
    requires Good(s) && CanPutCopy(s, c, n)
    ensures s.calls[c].t < |s.dev| && Good(DoPutCopy(s, c, n))
  {
    hide Linked, DeviceAgrees, ListAgrees, GraceOk, Ownership, SectionOk, Search, BlockOf, Mixed, Piece;
    var p := s.calls[c];
    assert Progress(s, p);
    var s' := DoPutCopy(s, c, n);
    PieceAdvances(BlockOf(p.ts, p.msg), s.model.dev[p.t], p.k, n);
    MoveKeepsOwnership(s.node, s.spine, s.lock, s.lock, s.calls, c, s'.calls[c]);
    MoveKeepsGrace(s.calls, s.readers, c, s'.calls[c]);
    StaleKeepsSections(s, s');
    forall x | x in s'.node && x !in s'.stale
      ensures Holding(s'.dev, s'.node[x])
    {
      assert Holding(s.dev, s.node[x]);
    }
  }

  // ----- allocating, filling and freeing a node -----

  ghost predicate SameAt(s: State, s': State, y: Id) {
    && (y in s'.node <==> y in s.node) && (y in s.node ==> s'.node[y] == s.node[y])
    && (y in s'.next <==> y in s.next) && (y in s.next ==> s'.next[y] == s.next[y])
    && (y in s'.stale <==> y in s.stale)
  }

  /** Memory changes at one address that no section can reach and that is not listed. */
  ghost predicate ChangedAt(s: State, s': State, x: Id) {
    && s'.spine == s.spine && s'.readers == s.readers && s'.nextReader == s.nextReader && s'.dev == s.dev
    && x != HEAD && x !in s.spine && s.tick <= s'.tick
    && (forall y :: y != x ==> SameAt(s, s', y))
    && (x in s'.node <==> x in s'.next)
    && forall r :: r in s.readers ==> x !in s.readers[r].ever
  }

  lemma ChangedAtKeepsLinked(s: State, s': State, x: Id)
    requires Linked(s.node, s.next, s.spine, s.tick) && ChangedAt(s, s', x)
    ensures SpineAllocated(s') && Linked(s'.node, s'.next, s'.spine, s'.tick)
  {
    assert SameAt(s, s', HEAD);
    forall y
      ensures y in s'.next <==> y in s'.node || y == HEAD
    {
      assert y != x ==> SameAt(s, s', y);
      assert y in s.next <==> y in s.node || y == HEAD;
    }
    forall i | 0 <= i < |s.spine|
      ensures s.spine[i] in s'.node && s'.node[s.spine[i]] == s.node[s.spine[i]] && s'.next[s.spine[i]] == s.next[s.spine[i]]
    {
      assert SameAt(s, s', s.spine[i]);
    }
    OutsideList(s.node, s.next, s'.node, s'.next, s.spine, s.tick, s'.tick);
  }

  lemma ChangedAtKeepsSections(s: State, s': State, x: Id)
    requires Linked(s.node, s.next, s.spine, s.tick) && Sections(s) && ChangedAt(s, s', x)
    ensures Sections(s')
  {
    hide Linked, SectionOk;
    ChangedAtKeepsLinked(s, s', x);
    forall r | r in s.readers
      ensures SectionOk(s'.node, s'.next, s'.spine, s'.stale, s'.readers[r])
    {
      ChangedAtKeepsSection(s, s', x, r);
    }
    forall r, y | r in s'.readers && y in s'.readers[r].ever
      ensures InRange(s'.node, s'.dev, y)
    {
      assert InRange(s.node, s.dev, y);
      assert SameAt(s, s', y);
    }
  }

  lemma ChangedAtKeepsSection(s: State, s': State, x: Id, r: nat)
    requires r in s.readers && SectionOk(s.node, s.next, s.spine, s.stale, s.readers[r])
    requires Linked(s'.node, s'.next, s'.spine, s'.tick) && ChangedAt(s, s', x)
    ensures SectionOk(s'.node, s'.next, s'.spine, s'.stale, s'.readers[r])
  {
    hide Linked, WalkOk, Nearer;
    var rd := s.readers[r];
    forall y | y in rd.ever
      ensures SameAt(s, s', y) && y in s.next
    {
    }
    SectionSurvives(s.node, s.next, s.spine, s'.node, s'.next, s'.spine, s'.tick, s.stale, s'.stale, rd, true);
    assert Observed(rd, s.spine, true) == rd;
  }

  /** Neither a listed node nor the node of the call in its critical section is at `x`. */
  lemma ChangedAtKeepsRefines(s: State, s': State, x: Id)
    requires SpineAllocated(s) && Refines(s) && ChangedAt(s, s', x) && SpineAllocated(s')
    requires s'.model == s.model && s'.arr == s.arr && s'.last == s.last && s'.tick == s.tick && s'.lock == s.lock
    requires s.lock.Some? ==> s.lock.value in s.calls && s.lock.value in s'.calls && s'.calls[s.lock.value] == s.calls[s.lock.value]
    requires s.lock.Some? ==> !Owns(s.calls[s.lock.value], x)
    requires x in s'.node ==> x in s'.stale
    ensures Refines(s')
  {
    hide Refines, Owns;
    forall i | 0 <= i < |s.spine|
      ensures s'.node[s.spine[i]] == s.node[s.spine[i]]
    {
      assert SameAt(s, s', s.spine[i]);
    }
    forall y | y in s'.node && y !in s'.stale
      ensures y in s.node && s'.node[y] == s.node[y] && y !in s.stale
    {
      assert SameAt(s, s', y);
    }
    if s.lock.Some? {
      forall y | Owns(s.calls[s.lock.value], y) && y in s.node && y in s.next
        ensures y in s'.node && s'.node[y] == s.node[y] && y in s'.next && s'.next[y] == s.next[y] && (y in s'.stale ==> y in s.stale)
      {
        assert SameAt(s, s', y);
      }
    }
    HolderUndisturbed(s, s');
  }

  lemma ChangedAtKeepsContents(s: State, s': State, x: Id)
    requires SpineAllocated(s) && Contents(s.node, s.spine, s.stale, s.dev) && ChangedAt(s, s', x)
    requires x in s'.node ==> x in s'.stale || Holding(s'.dev, s'.node[x])
    ensures Contents(s'.node, s'.spine, s'.stale, s'.dev)
  {
    hide Holding;
    forall y | y in s'.node && y !in s'.stale
      ensures Holding(s'.dev, s'.node[y])
    {
      assert y != x ==> SameAt(s, s', y);
    }
    forall i | 0 <= i < |s.spine|
      ensures s.spine[i] !in s'.stale
    {
      assert SameAt(s, s', s.spine[i]);
    }
  }

  lemma KeepPutBegin(s: State, c: nat, addr: Id, msg: Message, ts: Time)
    requires Good(s) && CanPutBegin(s, c, addr)
    ensures Good(DoPutBegin(s, c, addr, msg, ts))
  {
    hide Linked, Contents, Refines, SectionOk, SameAt;
    var s' := DoPutBegin(s, c, addr, msg, ts);
    PutBeginChanges(s, c, addr, msg, ts);
    ChangedAtKeepsLinked(s, s', addr);
    ChangedAtKeepsSections(s, s', addr);
    BeginAllocatedKeepsOwnership(s.node, s.spine, s.lock, s.calls, c, s'.calls[c], addr, s'.node);
    ChangedAtKeepsRefines(s, s', addr);
    ChangedAtKeepsContents(s, s', addr);
  }

  lemma PutBeginChanges(s: State, c: nat, addr: Id, msg: Message, ts: Time)
    requires SpineAllocated(s) && Linked(s.node, s.next, s.spine, s.tick) && Sections(s) && CanPutBegin(s, c, addr)
    ensures ChangedAt(s, DoPutBegin(s, c, addr, msg, ts), addr)
  {
    hide SectionOk;
    var s' := DoPutBegin(s, c, addr, msg, ts);
    forall r | r in s.readers
      ensures addr !in s.readers[r].ever
    {
      assert addr in s.readers[r].ever ==> InRange(s.node, s.dev, addr);
    }
  }

  lemma BeginAllocatedKeepsOwnership(node: map<Id, Node>, spine: seq<Id>, lock: Option<nat>, calls: map<nat, Call>,
                                     c: nat, pc: Call, x: Id, node': map<Id, Node>)
    requires Ownership(node, spine, lock, calls) && Allocated(node, spine) && c !in calls
    requires x !in node && node'.Keys == node.Keys + {x}
    requires !InSection(pc) && forall y :: Owns(pc, y) <==> y == x
    ensures Ownership(node', spine, lock, calls[c := pc])
  {
    hide Owns, InSection;
    var calls' := calls[c := pc];
    assert Owns(calls'[c], x);
    forall y | y in node' && y !in spine
      ensures exists d :: d in calls' && Owns(calls'[d], y)
    {
      if y != x {
        var d :| d in calls && Owns(calls[d], y);
        assert Owns(calls'[d], y);
      }
    }
  }

  lemma EndFreedKeepsOwnership(node: map<Id, Node>, spine: seq<Id>, lock: Option<nat>, calls: map<nat, Call>, c: nat, x: Id)
    requires Ownership(node, spine, lock, calls) && c in calls && Owns(calls[c], x) && !InSection(calls[c])
    ensures Ownership(node - {x}, spine, lock, calls - {c})
  {
    var calls' := calls - {c};
    forall y | y in node - {x} && y !in spine
      ensures exists d :: d in calls' && Owns(calls'[d], y)
    {
      var d :| d in calls && Owns(calls[d], y);
      assert d in calls' && Owns(calls'[d], y);
    }
  }

  lemma FreeChanges(s: State, c: nat, x: Id)
    requires SpineAllocated(s) && Linked(s.node, s.next, s.spine, s.tick) && Ownership(s.node, s.spine, s.lock, s.calls)
    requires GraceOk(s.calls, s.readers) && c in s.calls && Owns(s.calls[c], x)
    requires forall r :: r in s.readers ==> !MayReach(s.calls[c], r)
    ensures SafeFree(s, x) && ChangedAt(s, Exit(Free(s, x), c), x)
  {
  }

  lemma EndKeepsGrace(calls: map<nat, Call>, readers: map<nat, Reader>, c: nat)
    requires GraceOk(calls, readers)
    ensures GraceOk(calls - {c}, readers)
  {
  }

  /** Freeing an owned node that no section can reach: what `kfree` needs, and what it leaves. */
  lemma KeepFree(s: State, c: nat, x: Id)
    requires Good(s) && c in s.calls && Owns(s.calls[c], x) && !InSection(s.calls[c])
    requires forall r :: r in s.readers ==> !MayReach(s.calls[c], r)
    ensures SafeFree(s, x) && Good(Exit(Free(s, x), c))
  {
    hide Linked, Contents, Refines, Sections, ChangedAt, GraceOk, Owns, InSection;
    FreeChanges(s, c, x);
    var s' := Exit(Free(s, x), c);
    ChangedAtKeepsLinked(s, s', x);
    ChangedAtKeepsSections(s, s', x);
    EndFreedKeepsOwnership(s.node, s.spine, s.lock, s.calls, c, x);
    EndKeepsGrace(s.calls, s.readers, c);
    ChangedAtKeepsRefines(s, s', x);
    ChangedAtKeepsContents(s, s', x);
  }

  lemma KeepPutDiscard(s: State, c: nat)
    requires Good(s) && CanPutDiscard(s, c)
    ensures SafeFree(s, s.calls[c].node) && Good(DoPutDiscard(s, c))
  {
    hide Linked, Ownership, Contents, Sections, GraceOk, Refines;
    KeepFree(s, c, s.calls[c].node);
  }

  lemma KeepInvFree(s: State, c: nat)
    requires Good(s) && CanInvFree(s, c)
    ensures SafeFree(s, s.calls[c].node) && Good(DoInvFree(s, c))
  {
    hide Linked, Ownership, Contents, Sections, GraceOk, Refines;
    KeepFree(s, c, s.calls[c].node);
  }

  // ----- publishing and removing a node -----

  lemma FillChanges(s: State, c: nat)
    requires Good(s) && CanPutFill(s, c)
    ensures SafeInsert(s, s.calls[c].node) && ChangedAt(s, DoPutFill(s, c), s.calls[c].node)
  {
    hide Contents, Refines, Sections, InsertPos, ElemsOf;
    assert Owns(s.calls[c], s.calls[c].node);
  }

  lemma KeepPutFill(s: State, c: nat)
    requires Good(s) && CanPutFill(s, c)
    ensures SafeInsert(s, s.calls[c].node) && Good(DoPutFill(s, c))
  {
    hide Linked, Contents, Sections, ChangedAt, GraceOk, Refines, Ownership, Holding, InsertPos, Elems, Ring;
    FillChanges(s, c);
    FillHolding(s, c);
    OwnedIsUnlisted(s, c, s.calls[c].node);
    var p, s' := s.calls[c], DoPutFill(s, c);
    ChangedAtKeepsLinked(s, s', p.node);
    ChangedAtKeepsSections(s, s', p.node);
    MoveKeepsGrace(s.calls, s.readers, c, s'.calls[c]);
    assert s'.node.Keys == s.node.Keys;
    FillKeepsOwnership(s.node, s'.node, s.spine, s.lock, s.calls, c, s'.calls[c]);
    ChangedAtKeepsContents(s, s', p.node);
    FillRefines(s, c);
  }

  lemma FillKeepsOwnership(node: map<Id, Node>, node': map<Id, Node>, spine: seq<Id>, lock: Option<nat>,
                           calls: map<nat, Call>, c: nat, pc: Call)
    requires Ownership(node, spine, lock, calls) && c in calls && node'.Keys == node.Keys
    requires InSection(pc) && InSection(calls[c]) && forall x :: Owns(pc, x) <==> Owns(calls[c], x)
    ensures Ownership(node', spine, lock, calls[c := pc])
  {
    hide Owns, InSection;
    MoveKeepsOwnership(node, spine, lock, lock, calls, c, pc);
  }

  lemma FillHolding(s: State, c: nat)
    requires Good(s) && CanPutFill(s, c) && SafeInsert(s, s.calls[c].node)
    ensures Holding(s.dev, DoPutFill(s, c).node[s.calls[c].node])
  {
    hide Linked, Contents, Sections, GraceOk, DeviceAgrees, ListAgrees, Ownership, BlockOf, Search, InsertPos, Mixed;
    assert Progress(s, s.calls[c]);
  }

  lemma FillRefines(s: State, c: nat)
    requires Good(s) && CanPutFill(s, c)
    requires SafeInsert(s, s.calls[c].node) && SpineAllocated(DoPutFill(s, c)) && s.calls[c].node !in s.spine
    ensures Refines(DoPutFill(s, c))
  {
    hide Contents, Sections, GraceOk, DeviceAgrees, ListAgrees, Ownership, BlockOf, Search, InsertPos;
    var s' := DoPutFill(s, c);
    assert ElemsOf(s'.node, s'.spine) == ElemsOf(s.node, s.spine);
  }

  lemma ElemsOfInsert(node: map<Id, Node>, spine: seq<Id>, pos: nat, x: Id)
    requires Allocated(node, spine) && pos <= |spine| && x in node
    ensures Allocated(node, InsertAt(spine, pos, x))
    ensures ElemsOf(node, InsertAt(spine, pos, x)) == InsertAt(ElemsOf(node, spine), pos, node[x].e)
  {
  }

  lemma ElemsOfRemove(node: map<Id, Node>, spine: seq<Id>, pos: nat)
    requires Allocated(node, spine) && pos < |spine|
    ensures Allocated(node, RemoveAt(spine, pos))
    ensures ElemsOf(node, RemoveAt(spine, pos)) == RemoveAt(ElemsOf(node, spine), pos)
  {
  }

  /** The place found by the scan from the tail is right for the list order, ties included. */
  lemma PublishPlace(s: State, c: nat)
    requires SpineAllocated(s) && Linked(s.node, s.next, s.spine, s.tick) && Refines(s) && CanPutPublish(s, c)
    ensures var p := s.calls[c]; var pos := InsertPos(Elems(s), p.ts);
            && p.node in s.node && p.node in s.next && s.node[p.node].born < s.tick
            && s.next[p.node] == Ring(s.spine, pos + 1)
            && (forall i :: 0 <= i < pos ==> Before(s.node[s.spine[i]], s.node[p.node]))
            && (forall i :: pos <= i < |s.spine| ==> Before(s.node[p.node], s.node[s.spine[i]]))
  {
    hide DeviceAgrees, Search, BlockOf, Mirrors, DistinctBlocks;
    var p := s.calls[c];
    assert Progress(s, p);
    var l := Elems(s);
    var pos := InsertPos(l, p.ts);
    assert IsInsertPos(l, p.ts, pos);
    assert forall i :: 0 <= i < pos ==> l[i].nsec <= l[pos - 1].nsec;
    assert forall i :: 0 <= i < |l| ==> l[i] == s.node[s.spine[i]].e;
  }

  lemma KeepPutPublish(s: State, c: nat)
    requires Good(s) && CanPutPublish(s, c)
    ensures SafeInsert(s, s.calls[c].node) && Good(DoPutPublish(s, c))
  {
    hide Linked, Contents, SectionOk, GraceOk, DeviceAgrees, ListAgrees, BlockOf, Search, Before, Ownership;
    PublishPlace(s, c);
    var p, s' := s.calls[c], DoPutPublish(s, c);
    assert Owns(p, p.node);
    OwnedIsUnlisted(s, c, p.node);
    var pos := InsertPos(Elems(s), p.ts);
    PublishKeepsLinked(s.node, s.next, s.spine, s.tick, pos, p.node);
    ElemsOfInsert(s.node, s.spine, pos, p.node);
    PublishKeepsOwnership(s.node, s.spine, s.lock, s.calls, c, s'.calls[c], pos, p.node);
    PublishKeepsContents(s, c, pos);
    PublishKeepsGrace(s, c, pos);
    PublishKeepsSections(s, c, pos);
  }

  lemma OwnedIsUnlisted(s: State, c: nat, x: Id)
    requires Ownership(s.node, s.spine, s.lock, s.calls) && c in s.calls && Owns(s.calls[c], x)
    ensures x in s.node && x !in s.spine
  {
  }

  lemma PublishKeepsOwnership(node: map<Id, Node>, spine: seq<Id>, lock: Option<nat>, calls: map<nat, Call>,
                              c: nat, pc: Call, pos: nat, x: Id)
    requires Ownership(node, spine, lock, calls) && lock == Some(c) && c in calls && pos <= |spine|
    requires forall y :: Owns(calls[c], y) <==> y == x
    requires InSection(pc) && forall y :: !Owns(pc, y)
    ensures Ownership(node, InsertAt(spine, pos, x), lock, calls[c := pc])
  {
    var calls', spine' := calls[c := pc], InsertAt(spine, pos, x);
    assert forall y :: y in spine' <==> y == x || y in spine by {
      assert spine == spine[..pos] + spine[pos..];
    }
    assert Owns(calls[c], x);
    forall y | y in node && y !in spine'
      ensures exists d :: d in calls' && Owns(calls'[d], y)
    {
      var d :| d in calls && Owns(calls[d], y);
      assert d != c && Owns(calls'[d], y);
    }
  }

  lemma PublishKeepsContents(s: State, c: nat, pos: nat)
    requires SpineAllocated(s) && Contents(s.node, s.spine, s.stale, s.dev) && Refines(s) && CanPutPublish(s, c) && pos <= |s.spine|
    ensures Contents(s.node, InsertAt(s.spine, pos, s.calls[c].node), s.stale, s.dev)
  {
    hide Holding, DeviceAgrees, ListAgrees, BlockOf, Search;
    assert Progress(s, s.calls[c]);
  }

  /** What a section has seen grows only by listed nodes, and no call owns a listed node. */
  lemma PublishKeepsGrace(s: State, c: nat, pos: nat)
    requires Ownership(s.node, s.spine, s.lock, s.calls) && GraceOk(s.calls, s.readers)
    requires SpineAllocated(s) && CanPutPublish(s, c) && SafeInsert(s, s.calls[c].node) && pos == InsertPos(Elems(s), s.calls[c].ts)
    ensures GraceOk(DoPutPublish(s, c).calls, DoPutPublish(s, c).readers)
  {
    hide InsertPos, Elems;
    var s' := DoPutPublish(s, c);
    var x := s.calls[c].node;
    assert Owns(s.calls[c], x);
    forall d, r, y | d in s'.calls && r in s'.readers && Owns(s'.calls[d], y) && y in s'.readers[r].ever
      ensures MayReach(s'.calls[d], r)
    {
      assert d != c && Owns(s.calls[d], y);
      assert y != x && y !in s.spine;
      assert y in s.readers[r].ever;
    }
  }

  /** Sections that have seen only listed or formerly listed nodes see only well-formed ones. */
  lemma ObservedInRange(s: State, s': State)
    requires Sections(s) && Contents(s'.node, s'.spine, s'.stale, s'.dev) && SpineAllocated(s')
    requires s'.node == s.node && |s'.dev| == |s.dev|
    requires forall r, y :: r in s'.readers && y in s'.readers[r].ever ==> (r in s.readers && y in s.readers[r].ever) || y in s'.spine
    ensures forall r, y :: r in s'.readers && y in s'.readers[r].ever ==> InRange(s'.node, s'.dev, y)
  {
    hide SectionOk;
    forall r, y | r in s'.readers && y in s'.readers[r].ever
      ensures InRange(s'.node, s'.dev, y)
    {
      if r in s.readers && y in s.readers[r].ever {
        assert InRange(s.node, s.dev, y);
      } else {
        assert y in s'.spine;
        assert Holding(s'.dev, s'.node[y]);
      }
    }
  }

  lemma PublishKeepsSections(s: State, c: nat, pos: nat)
    requires Good(s) && CanPutPublish(s, c) && SafeInsert(s, s.calls[c].node) && pos == InsertPos(Elems(s), s.calls[c].ts)
    requires Linked(s.node, DoPutPublish(s, c).next, DoPutPublish(s, c).spine, s.tick)
    requires SpineAllocated(DoPutPublish(s, c)) && Contents(s.node, DoPutPublish(s, c).spine, s.stale, s.dev)
    ensures Sections(DoPutPublish(s, c))
  {
    hide Linked, SectionOk, GraceOk, Refines, Ownership, InsertPos, Contents, InsertAt, Ring, InRange;
    var s' := DoPutPublish(s, c);
    forall r | r in s'.readers
      ensures SectionOk(s'.node, s'.next, s'.spine, s'.stale, s'.readers[r])
    {
      PublishKeepsSection(s, s', pos, s.calls[c].node, r);
    }
    ObservedInRange(s, s');
  }

  lemma PublishKeepsSection(s: State, s': State, pos: nat, x: Id, r: nat)
    requires r in s.readers && SectionOk(s.node, s.next, s.spine, s.stale, s.readers[r]) && pos <= |s.spine|
    requires Linked(s.node, s'.next, s'.spine, s.tick)
    requires s'.next == s.next[Ring(s.spine, pos) := x] && s'.spine == InsertAt(s.spine, pos, x)
    ensures SectionOk(s.node, s'.next, s'.spine, s.stale, Observed(s.readers[r], s'.spine, Lists(s', s.readers[r].want.b)))
  {
    hide WalkOk, Nearer;
    var rd := s.readers[r];
    assert forall i :: 0 <= i < |s.spine| ==> s.spine[i] == s'.spine[if i < pos then i else i + 1];
    assert forall n :: n in rd.always ==> n in s.spine;
    assert Ring(s.spine, pos) == HEAD || Ring(s.spine, pos) in s'.spine;
    SectionSurvives(s.node, s.next, s.spine, s.node, s'.next, s'.spine, s.tick, s.stale, s.stale, rd, Lists(s', rd.want.b));
  }

  lemma KeepPutRecord(s: State, c: nat)
    requires Good(s) && CanPutRecord(s, c)
    ensures s.calls[c].t < |s.arr| && Good(DoPutRecord(s, c))
  {
    hide Linked, Contents, Sections, GraceOk, DeviceAgrees, ListAgrees, Ownership, Search, BlockOf;
    assert Progress(s, s.calls[c]);
    var s' := DoPutRecord(s, c);
    assert Progress(s', s'.calls[c]);
    KeepHolderMove(s, s', c, s'.calls[c]);
  }

  /** At the end of the critical section the machine holds what the sequential put produces. */
  lemma KeepPutReturn(s: State, c: nat)
    requires Good(s) && CanPutReturn(s, c)
    ensures Shape(s.model) && Good(DoPutReturn(s, c))
  {
    hide Linked, Contents, Sections, GraceOk, DeviceAgrees, ListAgrees, Ownership, Search, PutAt;
    var p := s.calls[c];
    assert Progress(s, p);
    var s' := DoPutReturn(s, c);
    ApplyKeepsInv(s.model, PutOp(p.msg, p.ts));
    ReturnKeepsOwnership(s.node, s.spine, s.lock, s.calls, c);
    EndKeepsGrace(s.calls, s.readers, c);
    assert Refines(s');
    GoodBySameMemory(s, s');
  }

  // ----- invalidation -----

  lemma DetachIsSafe(s: State, c: nat)
    requires Good(s) && CanInvDetach(s, c)
    ensures SafeDetach(s, s.calls[c].b, s.calls[c].node)
    ensures s.calls[c].node in s.node && s.node[s.calls[c].node].e.ndx == s.calls[c].b < |s.model.arr|
  {
    hide Contents, Sections, GraceOk, DeviceAgrees, Ownership;
    assert Progress(s, s.calls[c]);
    var i := IndexOf(Elems(s), s.calls[c].b).value;
    assert Mirrors(s.model.arr, s.model.list[i]);
    assert Elems(s)[i] == s.node[s.spine[i]].e;
  }

  lemma RemoveMembers(spine: seq<Id>, pos: nat)
    requires pos < |spine| && forall i :: 0 <= i < |spine| && spine[i] == spine[pos] ==> i == pos
    ensures forall y :: y in RemoveAt(spine, pos) <==> y in spine && y != spine[pos]
  {
    var spine' := RemoveAt(spine, pos);
    forall y | y in spine && y != spine[pos]
      ensures y in spine'
    {
      var i :| 0 <= i < |spine| && spine[i] == y;
      assert spine'[if i < pos then i else i - 1] == y;
    }
    forall y | y in spine'
      ensures y in spine && y != spine[pos]
    {
      var i :| 0 <= i < |spine'| && spine'[i] == y;
      assert spine[if i < pos then i else i + 1] == y;
    }
  }

  lemma DetachKeepsOwnership(node: map<Id, Node>, spine: seq<Id>, lock: Option<nat>, calls: map<nat, Call>,
                             c: nat, pc: Call, pos: nat)
    requires Ownership(node, spine, lock, calls) && Allocated(node, spine) && lock == Some(c) && c in calls && pos < |spine|
    requires forall i :: 0 <= i < |spine| && spine[i] == spine[pos] ==> i == pos
    requires forall y :: !Owns(calls[c], y)
    requires InSection(pc) && forall y :: Owns(pc, y) <==> y == spine[pos]
    ensures Ownership(node, RemoveAt(spine, pos), lock, calls[c := pc])
  {
    hide RemoveAt;
    var calls', spine', x := calls[c := pc], RemoveAt(spine, pos), spine[pos];
    RemoveMembers(spine, pos);
    assert Owns(calls'[c], x);
    forall y | y in node && y !in spine'
      ensures exists d :: d in calls' && Owns(calls'[d], y)
    {
      if y != x {
        var d :| d in calls && Owns(calls[d], y);
        assert Owns(calls'[d], y);
      }
    }
  }

  lemma KeepInvDetach(s: State, c: nat)
    requires Good(s) && CanInvDetach(s, c)
    ensures SafeDetach(s, s.calls[c].b, s.calls[c].node) && Good(DoInvDetach(s, c))
  {
    hide Linked, Contents, SectionOk, GraceOk, DeviceAgrees, Mirrors, Listed, Before, Ownership, IndexOf;
    DetachIsSafe(s, c);
    assert Progress(s, s.calls[c]);
    var p, s' := s.calls[c], DoInvDetach(s, c);
    var pos := IndexOf(Elems(s), p.b).value;
    SpineDistinct(s.node, s.next, s.spine, s.tick);
    DetachKeepsLinked(s.node, s.next, s.spine, s.tick, pos);
    ElemsOfRemove(s.node, s.spine, pos);
    DetachKeepsOwnership(s.node, s.spine, s.lock, s.calls, c, s'.calls[c], pos);
    DetachKeepsContents(s.node, s.spine, s.stale, s.dev, pos);
    DetachKeepsGrace(s, c);
    DetachKeepsSections(s, c, pos);
  }

  lemma DetachKeepsContents(node: map<Id, Node>, spine: seq<Id>, stale: set<Id>, dev: seq<Block>, pos: nat)
    requires Contents(node, spine, stale, dev) && pos < |spine|
    ensures Contents(node, RemoveAt(spine, pos), stale, dev)
  {
    hide Holding;
  }

  lemma DetachKeepsGrace(s: State, c: nat)
    requires Ownership(s.node, s.spine, s.lock, s.calls) && GraceOk(s.calls, s.readers)
    requires CanInvDetach(s, c) && SafeDetach(s, s.calls[c].b, s.calls[c].node)
    ensures GraceOk(DoInvDetach(s, c).calls, DoInvDetach(s, c).readers)
  {
    hide IndexOf;
    var s' := DoInvDetach(s, c);
    var pos := IndexOf(Elems(s), s.calls[c].b).value;
    assert forall i :: 0 <= i < |s'.spine| ==> s'.spine[i] == s.spine[if i < pos then i else i + 1];
    forall d, r, y | d in s'.calls && r in s'.readers && Owns(s'.calls[d], y) && y in s'.readers[r].ever
      ensures MayReach(s'.calls[d], r)
    {
      if d != c {
        assert Owns(s.calls[d], y);
        assert y !in s.spine;
        assert y in s.readers[r].ever;
      }
    }
  }

  lemma DetachKeepsSections(s: State, c: nat, pos: nat)
    requires Good(s) && CanInvDetach(s, c) && SafeDetach(s, s.calls[c].b, s.calls[c].node)
    requires pos == IndexOf(Elems(s), s.calls[c].b).value
    requires Linked(s.node, DoInvDetach(s, c).next, DoInvDetach(s, c).spine, s.tick)
    requires SpineAllocated(DoInvDetach(s, c)) && Contents(s.node, DoInvDetach(s, c).spine, s.stale, s.dev)
    requires DistinctBlocks(Elems(s))
    ensures Sections(DoInvDetach(s, c))
  {
    hide Linked, SectionOk, GraceOk, Refines, Ownership, IndexOf, Contents, RemoveAt, Ring, InRange;
    var s' := DoInvDetach(s, c);
    forall r | r in s'.readers
      ensures SectionOk(s'.node, s'.next, s'.spine, s'.stale, s'.readers[r])
    {
      DetachKeepsSection(s, s', pos, r);
    }
    ObservedInRange(s, s');
  }

  lemma DetachKeepsSection(s: State, s': State, pos: nat, r: nat)
    requires r in s.readers && SectionOk(s.node, s.next, s.spine, s.stale, s.readers[r]) && pos < |s.spine|
    requires Linked(s.node, s.next, s.spine, s.tick) && SpineAllocated(s) && DistinctBlocks(Elems(s))
    requires s.spine[pos] in s.next && s'.node == s.node
    requires s'.next == s.next[Ring(s.spine, pos) := s.next[s.spine[pos]]] && s'.spine == RemoveAt(s.spine, pos)
    requires Linked(s.node, s'.next, s'.spine, s.tick)
    ensures SectionOk(s.node, s'.next, s'.spine, s.stale, Observed(s.readers[r], s'.spine, Lists(s', s.readers[r].want.b)))
  {
    assert HEAD !in s.node;
    hide WalkOk, Nearer, Linked, Lists, RemoveAt, Elems, DistinctBlocks;
    var rd, x := s.readers[r], s.spine[pos];
    SpineDistinct(s.node, s.next, s.spine, s.tick);
    RemoveMembers(s.spine, pos);
    assert Ring(s.spine, pos) == HEAD || (Ring(s.spine, pos) == s.spine[pos - 1] && s.spine[pos - 1] in s'.spine);
    if rd.present && Lists(s', rd.want.b) {
      DetachPresent(s, s', pos, rd);
    }
    SectionSurvives(s.node, s.next, s.spine, s.node, s'.next, s'.spine, s.tick, s.stale, s.stale, rd, Lists(s', rd.want.b));
  }

  /** If the block is still listed after the removal, the node removed was not its node. */
  lemma DetachPresent(s: State, s': State, pos: nat, rd: Reader)
    requires SpineAllocated(s) && DistinctBlocks(Elems(s)) && pos < |s.spine|
    requires s'.spine == RemoveAt(s.spine, pos) && s'.node == s.node
    requires rd.always <= Ids(s.spine) && Lists(s', rd.want.b)
    requires exists n :: n in rd.always && s.node[n].e.ndx == rd.want.b
    ensures exists n :: n in rd.always && n in s'.spine && s.node[n].e.ndx == rd.want.b
  {
    var n :| n in rd.always && s.node[n].e.ndx == rd.want.b;
    var k :| 0 <= k < |s.spine| && s.spine[k] == n;
    var i :| 0 <= i < |s'.spine| && s'.spine[i] in s'.node && s'.node[s'.spine[i]].e.ndx == rd.want.b;
    var j := if i < pos then i else i + 1;
    assert s.spine[j] == s'.spine[i];
    assert Elems(s)[k].ndx == Elems(s)[j].ndx;
    assert k == j;
  }

  lemma KeepInvClear(s: State, c: nat)
    requires Good(s) && CanInvClear(s, c)
    ensures s.calls[c].b < |s.arr| && Good(DoInvClear(s, c))
  {
    hide Linked, Contents, Sections, GraceOk, DeviceAgrees, ListAgrees, Ownership, IndexOf, Rewritten, Mixed;
    var p := s.calls[c];
    assert Progress(s, p);
    var s' := DoInvClear(s, c);
    assert s.dev == s.dev[p.b := s.dev[p.b]];
    assert Progress(s', s'.calls[c]);
    KeepHolderMove(s, s', c, s'.calls[c]);
  }

  /** Rewriting the metadata in pieces, from a block whose payload never changes. */
  lemma RewriteAdvances(blk: Block, m: Metadata, k: nat, n: nat)
    requires k + n <= METADATA_SIZE
    ensures var cur := Mixed(Rewritten(blk, m), blk, k);
            Piece(Rewritten(cur, m), cur, k, n) == Mixed(Rewritten(blk, m), blk, k + n)
  {
    var cur := Mixed(Rewritten(blk, m), blk, k);
    assert cur[METADATA_SIZE..] == blk[METADATA_SIZE..];
    assert Rewritten(cur, m) == Rewritten(blk, m);
    PieceAdvances(Rewritten(blk, m), blk, k, n);
  }

  lemma RewriteKeepsPayload(blk: Block, m: Metadata, k: nat, n: nat)
    requires k <= METADATA_SIZE && n <= MAX_MESSAGE
    ensures Payload(Mixed(Rewritten(blk, m), blk, k), n) == Payload(blk, n)
    ensures Mixed(Rewritten(blk, m), blk, METADATA_SIZE) == Rewritten(blk, m)
  {
  }

  lemma KeepInvCopy(s: State, c: nat, n: nat)
    requires Good(s) && CanInvCopy(s, c, n)
    ensures s.calls[c].b < |s.arr| && s.calls[c].b < |s.dev| && Good(DoInvCopy(s, c, n))
  {
    hide Linked, SectionOk, GraceOk, DeviceAgrees, ListAgrees, Ownership, IndexOf, Rewritten, Mixed, Piece, Payload;
    var p := s.calls[c];
    assert Progress(s, p);
    var s' := DoInvCopy(s, c, n);
    RewriteAdvances(s.model.dev[p.b], s.arr[p.b], p.k, n);
    MoveKeepsOwnership(s.node, s.spine, s.lock, s.lock, s.calls, c, s'.calls[c]);
    MoveKeepsGrace(s.calls, s.readers, c, s'.calls[c]);
    StaleKeepsSections(s, s');
    assert Progress(s', s'.calls[c]);
    forall x | x in s'.node && x !in s'.stale
      ensures Holding(s'.dev, s'.node[x])
    {
      assert Holding(s.dev, s.node[x]);
      RewriteKeepsPayload(s.model.dev[p.b], s.arr[p.b], p.k, |s.node[x].msg|);
      RewriteKeepsPayload(s.model.dev[p.b], s.arr[p.b], p.k + n, |s.node[x].msg|);
    }
  }

  /** At the end of the critical section the machine holds what the sequential invalidation produces. */
  lemma KeepInvRelease(s: State, c: nat)
    requires Good(s) && CanInvRelease(s, c)
    ensures Shape(s.model) && Good(DoInvRelease(s, c))
  {
    hide Linked, Contents, Sections, GraceOk, DeviceAgrees, ListAgrees, Ownership, IndexOf, Rewritten, Mixed;
    var p := s.calls[c];
    assert Progress(s, p);
    var s' := DoInvRelease(s, c);
    ApplyKeepsInv(s.model, InvalidateOp(p.b));
    RewriteKeepsPayload(s.model.dev[p.b], s.arr[p.b], 0, 0);
    MoveKeepsOwnership(s.node, s.spine, s.lock, None, s.calls, c, s'.calls[c]);
    MoveKeepsGrace(s.calls, s.readers, c, s'.calls[c]);
    assert Refines(s');
    GoodBySameMemory(s, s');
  }

  // ----- read sections -----

  lemma CursorIsSeen(node: map<Id, Node>, next: map<Id, Id>, spine: seq<Id>, stale: set<Id>, rd: Reader)
    requires SectionOk(node, next, spine, stale, rd) && rd.walk.Copying?
    ensures rd.walk.cur in rd.ever
  {
  }

  /** Readers are no part of the refinement. */
  lemma ReadersDoNotRefine(s: State, s': State)
    requires SpineAllocated(s) && Refines(s)
    requires s' == s.(readers := s'.readers, nextReader := s'.nextReader)
    ensures Refines(s')
  {
    hide Inv, Search, IndexOf, BlockOf, Mixed, Rewritten, InsertPos, Ring, PutAt, Insert, RemoveAt;
  }

  /** A step of one section: only its own walk changes. */
  lemma GoodByWalk(s: State, r: nat, w: Walk)
    requires Good(s) && r in s.readers
    requires SectionOk(s.node, s.next, s.spine, s.stale, s.readers[r].(walk := w))
    ensures Good(Walks(s, r, w))
  {
    hide Linked, Ownership, Contents, SectionOk, Refines, InRange, GraceOk;
    var s' := Walks(s, r, w);
    WalkKeepsGrace(s, s');
    ReadersDoNotRefine(s, s');
    forall q, x | q in s'.readers && x in s'.readers[q].ever
      ensures InRange(s'.node, s'.dev, x)
    {
      assert x in s.readers[q].ever;
    }
  }

  lemma WalkKeepsGrace(s: State, s': State)
    requires GraceOk(s.calls, s.readers) && s'.calls == s.calls
    requires forall r :: r in s'.readers ==> r in s.readers && s'.readers[r].ever == s.readers[r].ever
    ensures GraceOk(s'.calls, s'.readers)
  {
    hide Owns, MayReach;
  }

  lemma KeepAdvance(s: State, r: nat)
    requires Good(s) && CanAdvance(s, r)
    ensures SafeHop(s.node, s.next, s.readers[r].walk.cur) && Good(DoAdvance(s, r))
  {
    hide Linked, Ownership, Contents, SectionOk, GraceOk, Refines, Hop;
    AdvanceKeepsSection(s.node, s.next, s.spine, s.tick, s.stale, s.readers[r]);
    GoodByWalk(s, r, Hop(s.node, s.next, s.readers[r], s.readers[r].walk.cur));
  }

  lemma KeepCopy(s: State, r: nat, n: nat)
    requires Good(s) && CanCopy(s, r, n)
    ensures SafeCopy(s, s.readers[r].walk, n) && Good(DoCopy(s, r, n))
  {
    hide Linked, Ownership, GraceOk, Refines, WalkOk, Nearer, Stop, Contents;
    var rd := s.readers[r];
    CursorIsSeen(s.node, s.next, s.spine, s.stale, rd);
    var w := rd.walk;
    CopyKeepsWalk(s.node, s.spine, s.stale, s.dev, rd, n);
    var first := METADATA_SIZE + w.from + |w.got|;
    GoodByWalk(s, r, Copying(w.cur, w.from, w.goal, w.got + s.dev[s.node[w.cur].e.ndx][first..first + n]));
  }

  /** As long as its block is not selected again, what is copied from it is the node's own message. */
  lemma CopyKeepsWalk(node: map<Id, Node>, spine: seq<Id>, stale: set<Id>, dev: seq<Block>, rd: Reader, n: nat)
    requires Contents(node, spine, stale, dev) && rd.ever <= node.Keys && rd.always <= node.Keys && WalkOk(node, stale, rd)
    requires rd.walk.Copying? && InRange(node, dev, rd.walk.cur) && n > 0 && |rd.walk.got| + n <= rd.walk.goal
    ensures var w := rd.walk; var first := METADATA_SIZE + w.from + |w.got|;
            && first + n <= BLOCK_SIZE
            && WalkOk(node, stale, rd.(walk := Copying(w.cur, w.from, w.goal, w.got + dev[node[w.cur].e.ndx][first..first + n])))
  {
    hide Stop;
    var w := rd.walk;
    var x := node[w.cur];
    if w.cur !in stale {
      assert Holding(dev, x);
      CopyExtends(dev[x.e.ndx], x.msg, w.from, w.got, n);
    }
  }

  lemma SliceOfSlice<T>(s: seq<T>, a: nat, b: nat, c: nat, d: nat)
    requires a <= b <= |s| && c <= d <= b - a
    ensures s[a..b][c..d] == s[a + c..a + d]
  {
    forall i | 0 <= i < d - c
      ensures s[a..b][c..d][i] == s[a + c..a + d][i]
    {
    }
  }

  lemma CopyExtends(blk: Block, msg: Message, from: nat, got: seq<Byte>, n: nat)
    requires Payload(blk, |msg|) == msg && from + |got| + n <= |msg|
    requires |got| > 0 ==> got == msg[from..from + |got|]
    ensures var first := METADATA_SIZE + from + |got|;
            got + blk[first..first + n] == msg[from..from + |got| + n]
  {
    var first := METADATA_SIZE + from + |got|;
    SliceOfSlice(blk, METADATA_SIZE, METADATA_SIZE + |msg|, from + |got|, from + |got| + n);
  }

  lemma KeepPeek(s: State, r: nat)
    requires Good(s) && CanPeek(s, r)
    ensures SafeHop(s.node, s.next, s.readers[r].walk.cur) && Good(DoPeek(s, r))
  {
    hide Linked, Ownership, Contents, GraceOk, Refines, SectionOk, Stop;
    var cur := s.readers[r].walk.cur;
    HeadIsNoNode(s.node, s.next, s.spine, s.tick);
    CursorIsSeen(s.node, s.next, s.spine, s.stale, s.readers[r]);
    PeekKeepsSection(s.node, s.next, s.spine, s.stale, s.readers[r]);
    GoodByWalk(s, r, Peeked(cur, if s.next[cur] == HEAD then None else Some(s.node[s.next[cur]].e)));
  }

  lemma HeadIsNoNode(node: map<Id, Node>, next: map<Id, Id>, spine: seq<Id>, tick: nat)
    requires Linked(node, next, spine, tick)
    ensures HEAD !in node
  {
  }

  lemma KeepEnter(s: State, want: Want, size: nat)
    requires Good(s)
    ensures Good(DoEnter(s, want, size))
  {
    hide Linked, Ownership, Contents, SectionOk, GraceOk, Refines, InRange, Lists;
    var s' := DoEnter(s, want, size);
    EnterSection(s, s'.readers[s.nextReader]);
    EnterGrace(s, s');
    ReadersDoNotRefine(s, s');
    ObservedInRange(s, s');
  }

  lemma EnterSection(s: State, rd: Reader)
    requires SpineAllocated(s) && Linked(s.node, s.next, s.spine, s.tick)
    requires rd.walk == At(HEAD) && rd.ever == rd.always == Ids(s.spine) && rd.present == Lists(s, rd.want.b)
    ensures SectionOk(s.node, s.next, s.spine, s.stale, rd)
  {
    forall x | x in rd.ever
      ensures x in s.next && (s.next[x] == HEAD || s.next[x] in rd.ever) && Climbs(s.node, s.next, x)
    {
      ClosedOnSpine(s.node, s.next, s.spine, s.tick, x);
    }
    forall x, n | x in rd.ever && n in rd.always && Before(s.node[x], s.node[n])
      ensures Nearer(s.node, s.next, rd.ever, x, n)
    {
      NearerOnSpine(s.node, s.next, s.spine, s.tick, rd.ever, x, n);
    }
  }

  lemma EnterGrace(s: State, s': State)
    requires Ownership(s.node, s.spine, s.lock, s.calls) && GraceOk(s.calls, s.readers) && s'.calls == s.calls
    requires forall r :: r in s'.readers ==> (r in s.readers && s'.readers[r] == s.readers[r]) || s'.readers[r].ever == Ids(s.spine)
    ensures GraceOk(s'.calls, s'.readers)
  {
    hide Owns, MayReach;
  }

  lemma KeepLeave(s: State, r: nat)
    requires Good(s) && CanLeave(s, r)
    ensures Good(DoLeave(s, r))
  {
    hide Linked, Ownership, Contents, SectionOk, GraceOk, Refines, InRange;
    var s' := DoLeave(s, r);
    WalkKeepsGrace(s, s');
    ReadersDoNotRefine(s, s');
    ObservedInRange(s, s');
  }
}
