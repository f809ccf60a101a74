/** The step-level machine: any number of writers (`put_data`, `invalidate_data`) and of read
    sections (`get_data`, the file `read`) interleaved at the granularity of one pointer access,
    one array update or one piece of a memory copy (syscalls.c, rcu.c, file_ops.c).

    List nodes live in a heap of records with `next` pointers; freeing removes a record from the
    heap, and an address may be handed out again afterwards. */
module Protocol {
  import opened Layout
  import opened SortedList
  import opened StoreSpec

  type Id = nat

  /** The address of the list head. */
  const HEAD: Id := 0

  /** A list element, with the message it was published for and the moment of its insertion. */
  datatype Node = Node(e: Elem, msg: Message, born: nat)

  /** Where a writer stands. */
  datatype Call =
    | PutReady(node: Id, msg: Message, ts: Time)
    | PutScan(node: Id, msg: Message, ts: Time)
    | PutFull(node: Id)
    | PutGiveUp(node: Id)
    | PutWrite(node: Id, msg: Message, ts: Time, t: nat, k: nat)
    | PutLink(node: Id, msg: Message, ts: Time, t: nat)
    | PutSwap(msg: Message, ts: Time, t: nat)
    | PutUnlock(msg: Message, ts: Time, t: nat)
    | InvReady(b: nat)
    | InvScan(b: nat)
    | InvNone(b: nat)
    | InvUnlink(b: nat, node: Id)
    | InvMark(b: nat, node: Id)
    | InvRewrite(b: nat, node: Id, k: nat)
    | InvSync(node: Id)
    | InvWait(node: Id, pending: set<nat>)

  /** What a read section looks for: `get_data` a block; `read` a block or else the first
      element after a timestamp, `skip` bytes of the block having been read already. */
  datatype Want = Get(b: int) | Next(b: int, after: Time, skip: nat)

  datatype Walk =
    | At(cur: Id)
    | Copying(cur: Id, from: nat, goal: nat, got: seq<Byte>)
    | Peeked(cur: Id, succ: Option<Elem>)
    | Missed

  /** A read section. The last three fields are history: the nodes listed at some instant of the
      section, the nodes listed at every instant of it, and whether the wanted block was listed
      at every instant of it. */
  datatype Reader = Reader(want: Want, size: nat, walk: Walk, ever: set<Id>, always: set<Id>, present: bool)

  /** `model` is the store as the last critical section left it. `spine` is the sequence of nodes
      that the `next` pointers link, and `stale` the nodes whose block a later put has selected
      (or whose fields are not filled in yet). */
  datatype State = State(
    model: Store,
    arr: seq<Metadata>, dev: seq<Block>, last: nat,
    node: map<Id, Node>, next: map<Id, Id>, spine: seq<Id>, stale: set<Id>,
    lock: Option<nat>, calls: map<nat, Call>,
    readers: map<nat, Reader>, nextReader: nat, tick: nat)

  datatype Action =
    | PutBegin(c: nat, addr: Id, msg: Message, ts: Time)
    | PutAcquire(c: nat)
    | PutChoose(c: nat)
    | PutRefuse(c: nat)
    | PutRelease(c: nat)
    | PutDiscard(c: nat)
    | PutCopy(c: nat, n: nat)
    | PutFill(c: nat)
    | PutPublish(c: nat)
    | PutRecord(c: nat)
    | PutReturn(c: nat)
    | InvBegin(c: nat, b: nat)
    | InvAcquire(c: nat)
    | InvFind(c: nat)
    | InvMiss(c: nat)
    | InvMissReturn(c: nat)
    | InvDetach(c: nat)
    | InvClear(c: nat)
    | InvCopy(c: nat, n: nat)
    | InvRelease(c: nat)
    | InvSynchronize(c: nat)
    | InvFree(c: nat)
    | ReaderEnter(want: Want, size: nat)
    | ReaderAdvance(r: nat)
    | ReaderCopy(r: nat, n: nat)
    | ReaderPeek(r: nat)
    | ReaderLeave(r: nat)

  /** The step belongs to `put_data`. */
  ghost predicate ByPut(a: Action) {
    || a.PutBegin? || a.PutAcquire? || a.PutChoose? || a.PutRefuse? || a.PutRelease? || a.PutDiscard?
    || a.PutCopy? || a.PutFill? || a.PutPublish? || a.PutRecord? || a.PutReturn?
  }

  /** The step belongs to a read section. */
  ghost predicate ByReader(a: Action) {
    a.ReaderEnter? || a.ReaderAdvance? || a.ReaderCopy? || a.ReaderPeek? || a.ReaderLeave?
  }

  // ----- views of the state -----

  ghost predicate Allocated(node: map<Id, Node>, spine: seq<Id>) {
    forall i :: 0 <= i < |spine| ==> spine[i] in node
  }

  ghost predicate SpineAllocated(s: State) {
    Allocated(s.node, s.spine)
  }

  /** The elements along a spine. */
  ghost function ElemsOf(node: map<Id, Node>, spine: seq<Id>): (l: seq<Elem>)
    requires Allocated(node, spine)
    ensures |l| == |spine|
    ensures forall i :: 0 <= i < |l| ==> l[i] == node[spine[i]].e
  {
    seq(|spine|, i requires 0 <= i < |spine| => node[spine[i]].e)
  }

  ghost function Elems(s: State): (l: seq<Elem>)
    requires SpineAllocated(s)
  {
    ElemsOf(s.node, s.spine)
  }

  /** Block `b` is listed. */
  ghost predicate Lists(s: State, b: int) {
    exists i :: 0 <= i < |s.spine| && s.spine[i] in s.node && s.node[s.spine[i]].e.ndx == b
  }

  ghost function Ids(spine: seq<Id>): set<Id> {
    set x | x in spine
  }

  /** The ring of the list: the head at both ends, the spine between. */
  ghost function Ring(spine: seq<Id>, i: nat): Id {
    if 1 <= i <= |spine| then spine[i - 1] else HEAD
  }

  /** The order of the list: increasing timestamps, and among equal ones the latest insertion first. */
  ghost predicate Before(x: Node, y: Node) {
    x.e.nsec < y.e.nsec || (x.e.nsec == y.e.nsec && x.born > y.born)
  }

  /** The element at which a section stops walking. */
  ghost predicate Stop(want: Want, e: Elem) {
    e.ndx == want.b || (want.Next? && e.nsec > want.after)
  }

  ghost function CopyFrom(want: Want, e: Elem): nat {
    if want.Next? && e.ndx == want.b then want.skip else 0
  }

  ghost function CopyGoal(want: Want, size: nat, e: Elem): nat {
    if CopyFrom(want, e) > e.bytes then 0 else Min(size, e.bytes - CopyFrom(want, e))
  }

  ghost predicate Complete(w: Walk) {
    w.Missed? || w.Peeked? || (w.Copying? && |w.got| == w.goal)
  }

  // ----- steps of put_data -----

  ghost predicate Holds(s: State, c: nat) {
    c in s.calls && s.lock == Some(c)
  }

  ghost function Goto(s: State, c: nat, pc: Call): State {
    s.(calls := s.calls[c := pc])
  }

  ghost function Exit(s: State, c: nat): State {
    s.(calls := s.calls - {c})
  }

  /** One piece of a memory copy: bytes `k` to `k + n` of `src` land in `dst`. */
  ghost function Piece(src: Block, dst: Block, k: nat, n: nat): (b: Block)
    requires k + n <= BLOCK_SIZE
  {
    dst[..k] + src[k..k + n] + dst[k + n..]
  }

  /** Every active section notes what is listed now. */
  ghost function Observe(s: State): State {
    s.(readers := map r | r in s.readers :: Observed(s.readers[r], s.spine, Lists(s, s.readers[r].want.b)))
  }

  ghost function Observed(rd: Reader, spine: seq<Id>, listed: bool): Reader {
    rd.(ever := rd.ever + Ids(spine), always := rd.always * Ids(spine), present := rd.present && listed)
  }

  /** Allocations and the timestamp come before the lock is taken. */
  ghost predicate CanPutBegin(s: State, c: nat, addr: Id) {
    c !in s.calls && addr != HEAD && addr !in s.node
  }

  ghost function DoPutBegin(s: State, c: nat, addr: Id, msg: Message, ts: Time): State {
    Goto(s, c, PutReady(addr, msg, ts)).(node := s.node[addr := Node(Elem(0, 0, 0), [], 0)],
                                         next := s.next[addr := HEAD],
                                         stale := s.stale + {addr})
  }

  ghost predicate CanPutAcquire(s: State, c: nat) {
    c in s.calls && s.calls[c].PutReady? && s.lock.None?
  }

  ghost function DoPutAcquire(s: State, c: nat): State
    requires CanPutAcquire(s, c)
  {
    var p := s.calls[c];
    Goto(s, c, PutScan(p.node, p.msg, p.ts)).(lock := Some(c))
  }

  ghost predicate CanPutChoose(s: State, c: nat) {
    Holds(s, c) && s.calls[c].PutScan? && Search(s.arr, s.last).Some?
  }

  ghost function DoPutChoose(s: State, c: nat): State
    requires CanPutChoose(s, c)
  {
    var p, t := s.calls[c], Search(s.arr, s.last).value;
    Goto(s, c, PutWrite(p.node, p.msg, p.ts, t, 0)).(stale := s.stale + set x | x in s.node && s.node[x].e.ndx == t)
  }

  ghost predicate CanPutRefuse(s: State, c: nat) {
    Holds(s, c) && s.calls[c].PutScan? && Search(s.arr, s.last).None?
  }

  ghost function DoPutRefuse(s: State, c: nat): State
    requires CanPutRefuse(s, c)
  {
    Goto(s, c, PutFull(s.calls[c].node))
  }

  ghost predicate CanPutRelease(s: State, c: nat) {
    Holds(s, c) && s.calls[c].PutFull?
  }

  ghost function DoPutRelease(s: State, c: nat): State
    requires CanPutRelease(s, c)
  {
    Goto(s, c, PutGiveUp(s.calls[c].node)).(lock := None)
  }

  ghost predicate CanPutDiscard(s: State, c: nat) {
    c in s.calls && s.calls[c].PutGiveUp?
  }

  ghost predicate SafeFree(s: State, x: Id) {
    x in s.node && x in s.next
  }

  ghost function Free(s: State, x: Id): State
    requires SafeFree(s, x)
  {
    s.(node := s.node - {x}, next := s.next - {x})
  }

  ghost function DoPutDiscard(s: State, c: nat): State
    requires CanPutDiscard(s, c) && SafeFree(s, s.calls[c].node)
  {
    Exit(Free(s, s.calls[c].node), c)
  }

  ghost predicate CanPutCopy(s: State, c: nat, n: nat) {
    Holds(s, c) && s.calls[c].PutWrite? && s.calls[c].k + n <= BLOCK_SIZE
  }

  ghost function DoPutCopy(s: State, c: nat, n: nat): State
    requires CanPutCopy(s, c, n) && s.calls[c].t < |s.dev|
  {
    var p := s.calls[c];
    Goto(s, c, PutWrite(p.node, p.msg, p.ts, p.t, p.k + n)).(
      dev := s.dev[p.t := Piece(BlockOf(p.ts, p.msg), s.dev[p.t], p.k, n)])
  }

  ghost predicate CanPutFill(s: State, c: nat) {
    Holds(s, c) && s.calls[c].PutWrite? && s.calls[c].k == BLOCK_SIZE
  }

  /** The writer's own node and the whole list are allocated. */
  ghost predicate SafeInsert(s: State, x: Id) {
    x in s.node && SpineAllocated(s)
  }

  ghost function DoPutFill(s: State, c: nat): State
    requires CanPutFill(s, c) && SafeInsert(s, s.calls[c].node)
  {
    var p := s.calls[c];
    var pos := InsertPos(Elems(s), p.ts);
    Goto(s, c, PutLink(p.node, p.msg, p.ts, p.t)).(
      node := s.node[p.node := Node(Elem(p.t, p.ts, |p.msg|), p.msg, s.tick)],
      next := s.next[p.node := Ring(s.spine, pos + 1)],
      stale := s.stale - {p.node},
      tick := s.tick + 1)
  }

  ghost predicate CanPutPublish(s: State, c: nat) {
    Holds(s, c) && s.calls[c].PutLink?
  }

  ghost function DoPutPublish(s: State, c: nat): State
    requires CanPutPublish(s, c) && SafeInsert(s, s.calls[c].node)
  {
    var p := s.calls[c];
    var pos := InsertPos(Elems(s), p.ts);
    Observe(Goto(s, c, PutSwap(p.msg, p.ts, p.t)).(
      next := s.next[Ring(s.spine, pos) := p.node],
      spine := InsertAt(s.spine, pos, p.node)))
  }

  ghost predicate CanPutRecord(s: State, c: nat) {
    Holds(s, c) && s.calls[c].PutSwap?
  }

  ghost function DoPutRecord(s: State, c: nat): State
    requires CanPutRecord(s, c) && s.calls[c].t < |s.arr|
  {
    var p := s.calls[c];
    Goto(s, c, PutUnlock(p.msg, p.ts, p.t)).(arr := s.arr[p.t := Metadata(p.ts, true, |p.msg|)], last := p.t)
  }

  ghost predicate CanPutReturn(s: State, c: nat) {
    Holds(s, c) && s.calls[c].PutUnlock?
  }

  ghost function DoPutReturn(s: State, c: nat): State
    requires CanPutReturn(s, c) && Shape(s.model)
  {
    Exit(s, c).(lock := None, model := Apply(s.model, PutOp(s.calls[c].msg, s.calls[c].ts)))
  }

  // ----- steps of invalidate_data -----

  ghost predicate CanInvBegin(s: State, c: nat, b: nat) {
    c !in s.calls && b < |s.arr|
  }

  ghost function DoInvBegin(s: State, c: nat, b: nat): State {
    Goto(s, c, InvReady(b))
  }

  ghost predicate CanInvAcquire(s: State, c: nat) {
    c in s.calls && s.calls[c].InvReady? && s.lock.None?
  }

  ghost function DoInvAcquire(s: State, c: nat): State
    requires CanInvAcquire(s, c)
  {
    Goto(s, c, InvScan(s.calls[c].b)).(lock := Some(c))
  }

  ghost predicate CanInvFind(s: State, c: nat) {
    Holds(s, c) && s.calls[c].InvScan? && Lists(s, s.calls[c].b)
  }

  ghost function DoInvFind(s: State, c: nat): State
    requires CanInvFind(s, c) && SpineAllocated(s)
  {
    var b := s.calls[c].b;
    assert forall i :: 0 <= i < |s.spine| ==> Elems(s)[i] == s.node[s.spine[i]].e;
    Goto(s, c, InvUnlink(b, s.spine[IndexOf(Elems(s), b).value]))
  }

  ghost predicate CanInvMiss(s: State, c: nat) {
    Holds(s, c) && s.calls[c].InvScan? && !Lists(s, s.calls[c].b)
  }

  ghost function DoInvMiss(s: State, c: nat): State
    requires CanInvMiss(s, c)
  {
    Goto(s, c, InvNone(s.calls[c].b))
  }

  ghost predicate CanInvMissReturn(s: State, c: nat) {
    Holds(s, c) && s.calls[c].InvNone?
  }

  ghost function DoInvMissReturn(s: State, c: nat): State {
    Exit(s, c).(lock := None)
  }

  ghost predicate CanInvDetach(s: State, c: nat) {
    Holds(s, c) && s.calls[c].InvUnlink?
  }

  /** The list is allocated and the node to remove is still where the search found it. */
  ghost predicate SafeDetach(s: State, b: nat, x: Id) {
    && SpineAllocated(s) && x in s.next
    && IndexOf(Elems(s), b).Some? && s.spine[IndexOf(Elems(s), b).value] == x
  }

  /** `list_del_rcu`: the removed node keeps its own `next`. */
  ghost function DoInvDetach(s: State, c: nat): State
    requires CanInvDetach(s, c) && SafeDetach(s, s.calls[c].b, s.calls[c].node)
  {
    var p := s.calls[c];
    var pos := IndexOf(Elems(s), p.b).value;
    Observe(Goto(s, c, InvMark(p.b, p.node)).(
      next := s.next[Ring(s.spine, pos) := s.next[p.node]],
      spine := RemoveAt(s.spine, pos)))
  }

  ghost predicate CanInvClear(s: State, c: nat) {
    Holds(s, c) && s.calls[c].InvMark?
  }

  ghost function DoInvClear(s: State, c: nat): State
    requires CanInvClear(s, c) && s.calls[c].b < |s.arr|
  {
    var p := s.calls[c];
    Goto(s, c, InvRewrite(p.b, p.node, 0)).(arr := s.arr[p.b := s.arr[p.b].(valid := false)])
  }

  ghost predicate CanInvCopy(s: State, c: nat, n: nat) {
    Holds(s, c) && s.calls[c].InvRewrite? && s.calls[c].k + n <= METADATA_SIZE
  }

  ghost function DoInvCopy(s: State, c: nat, n: nat): State
    requires CanInvCopy(s, c, n) && s.calls[c].b < |s.arr| && s.calls[c].b < |s.dev|
  {
    var p := s.calls[c];
    Goto(s, c, InvRewrite(p.b, p.node, p.k + n)).(
      dev := s.dev[p.b := Piece(Rewritten(s.dev[p.b], s.arr[p.b]), s.dev[p.b], p.k, n)])
  }

  ghost predicate CanInvRelease(s: State, c: nat) {
    Holds(s, c) && s.calls[c].InvRewrite? && s.calls[c].k == METADATA_SIZE
  }

  ghost function DoInvRelease(s: State, c: nat): State
    requires CanInvRelease(s, c) && Shape(s.model)
  {
    Goto(s, c, InvSync(s.calls[c].node)).(lock := None, model := Apply(s.model, InvalidateOp(s.calls[c].b)))
  }

  ghost predicate CanInvSynchronize(s: State, c: nat) {
    c in s.calls && s.calls[c].InvSync?
  }

  /** `synchronize_rcu` waits for the sections that are active when it is called. */
  ghost function DoInvSynchronize(s: State, c: nat): State
    requires CanInvSynchronize(s, c)
  {
    Goto(s, c, InvWait(s.calls[c].node, s.readers.Keys))
  }

  ghost predicate CanInvFree(s: State, c: nat) {
    c in s.calls && s.calls[c].InvWait? && s.calls[c].pending !! s.readers.Keys
  }

  ghost function DoInvFree(s: State, c: nat): State
    requires CanInvFree(s, c) && SafeFree(s, s.calls[c].node)
  {
    Exit(Free(s, s.calls[c].node), c)
  }

  // ----- steps of a read section -----

  ghost function DoEnter(s: State, want: Want, size: nat): State {
    s.(readers := s.readers[s.nextReader := Reader(want, size, At(HEAD), Ids(s.spine), Ids(s.spine), Lists(s, want.b))],
       nextReader := s.nextReader + 1)
  }

  ghost function Walks(s: State, r: nat, w: Walk): State
    requires r in s.readers
  {
    s.(readers := s.readers[r := s.readers[r].(walk := w)])
  }

  ghost predicate CanAdvance(s: State, r: nat) {
    r in s.readers && s.readers[r].walk.At?
  }

  /** The pointer followed and the node it leads to are both allocated. */
  ghost predicate SafeHop(node: map<Id, Node>, next: map<Id, Id>, x: Id) {
    x in next && (next[x] == HEAD || next[x] in node)
  }

  /** Where the walk stands after one more hop from `cur`. */
  ghost function Hop(node: map<Id, Node>, next: map<Id, Id>, rd: Reader, cur: Id): Walk
    requires SafeHop(node, next, cur)
  {
    var x := next[cur];
    if x == HEAD then Missed
    else if Stop(rd.want, node[x].e) then
      Copying(x, CopyFrom(rd.want, node[x].e), CopyGoal(rd.want, rd.size, node[x].e), [])
    else At(x)
  }

  ghost function DoAdvance(s: State, r: nat): State
    requires CanAdvance(s, r) && SafeHop(s.node, s.next, s.readers[r].walk.cur)
  {
    Walks(s, r, Hop(s.node, s.next, s.readers[r], s.readers[r].walk.cur))
  }

  ghost predicate CanCopy(s: State, r: nat, n: nat) {
    n > 0 && r in s.readers && s.readers[r].walk.Copying? && |s.readers[r].walk.got| + n <= s.readers[r].walk.goal
  }

  ghost predicate SafeCopy(s: State, w: Walk, n: nat)
    requires w.Copying?
  {
    w.cur in s.node && s.node[w.cur].e.ndx < |s.dev| && METADATA_SIZE + w.from + |w.got| + n <= BLOCK_SIZE
  }

  ghost function DoCopy(s: State, r: nat, n: nat): State
    requires CanCopy(s, r, n) && SafeCopy(s, s.readers[r].walk, n)
  {
    var w := s.readers[r].walk;
    var first := METADATA_SIZE + w.from + |w.got|;
    Walks(s, r, Copying(w.cur, w.from, w.goal, w.got + s.dev[s.node[w.cur].e.ndx][first..first + n]))
  }

  /** The request ends before the message does: `read` then leaves without looking up a successor. */
  ghost predicate Partial(node: map<Id, Node>, w: Walk) {
    w.Copying? && w.cur in node && w.from + w.goal < node[w.cur].e.bytes
  }

  ghost predicate CanPeek(s: State, r: nat) {
    && r in s.readers && s.readers[r].walk.Copying? && Complete(s.readers[r].walk)
    && s.readers[r].want.Next? && !Partial(s.node, s.readers[r].walk)
  }

  ghost function DoPeek(s: State, r: nat): State
    requires CanPeek(s, r) && SafeHop(s.node, s.next, s.readers[r].walk.cur)
  {
    var cur := s.readers[r].walk.cur;
    Walks(s, r, Peeked(cur, if s.next[cur] == HEAD then None else Some(s.node[s.next[cur]].e)))
  }

  ghost predicate CanLeave(s: State, r: nat) {
    && r in s.readers && Complete(s.readers[r].walk)
    && (s.readers[r].walk.Copying? && s.readers[r].want.Next? ==> Partial(s.node, s.readers[r].walk))
  }

  ghost function DoLeave(s: State, r: nat): State {
    s.(readers := s.readers - {r})
  }

  // ----- all steps -----

  /** The control state and the lock let the step happen. */
  ghost predicate Ready(s: State, a: Action) {
    match a
    case PutBegin(c, addr, msg, ts) => CanPutBegin(s, c, addr)
    case PutAcquire(c) => CanPutAcquire(s, c)
    case PutChoose(c) => CanPutChoose(s, c)
    case PutRefuse(c) => CanPutRefuse(s, c)
    case PutRelease(c) => CanPutRelease(s, c)
    case PutDiscard(c) => CanPutDiscard(s, c)
    case PutCopy(c, n) => CanPutCopy(s, c, n)
    case PutFill(c) => CanPutFill(s, c)
    case PutPublish(c) => CanPutPublish(s, c)
    case PutRecord(c) => CanPutRecord(s, c)
    case PutReturn(c) => CanPutReturn(s, c)
    case InvBegin(c, b) => CanInvBegin(s, c, b)
    case InvAcquire(c) => CanInvAcquire(s, c)
    case InvFind(c) => CanInvFind(s, c)
    case InvMiss(c) => CanInvMiss(s, c)
    case InvMissReturn(c) => CanInvMissReturn(s, c)
    case InvDetach(c) => CanInvDetach(s, c)
    case InvClear(c) => CanInvClear(s, c)
    case InvCopy(c, n) => CanInvCopy(s, c, n)
    case InvRelease(c) => CanInvRelease(s, c)
    case InvSynchronize(c) => CanInvSynchronize(s, c)
    case InvFree(c) => CanInvFree(s, c)
    case ReaderEnter(want, size) => true
    case ReaderAdvance(r) => CanAdvance(s, r)
    case ReaderCopy(r, n) => CanCopy(s, r, n)
    case ReaderPeek(r) => CanPeek(s, r)
    case ReaderLeave(r) => CanLeave(s, r)
  }

  /** Every record the step touches is allocated and every index it uses is in range. */
  ghost predicate Safe(s: State, a: Action)
    requires Ready(s, a)
  {
    match a
    case PutDiscard(c) => SafeFree(s, s.calls[c].node)
    case PutCopy(c, n) => s.calls[c].t < |s.dev|
    case PutFill(c) => SafeInsert(s, s.calls[c].node)
    case PutPublish(c) => SafeInsert(s, s.calls[c].node)
    case PutRecord(c) => s.calls[c].t < |s.arr|
    case PutReturn(c) => Shape(s.model)
    case InvFind(c) => SpineAllocated(s)
    case InvMiss(c) => SpineAllocated(s)
    case InvDetach(c) => SafeDetach(s, s.calls[c].b, s.calls[c].node)
    case InvClear(c) => s.calls[c].b < |s.arr|
    case InvCopy(c, n) => s.calls[c].b < |s.arr| && s.calls[c].b < |s.dev|
    case InvRelease(c) => Shape(s.model)
    case InvFree(c) => SafeFree(s, s.calls[c].node)
    case ReaderAdvance(r) => SafeHop(s.node, s.next, s.readers[r].walk.cur)
    case ReaderCopy(r, n) => SafeCopy(s, s.readers[r].walk, n)
    case ReaderPeek(r) => SafeHop(s.node, s.next, s.readers[r].walk.cur)
    case _ => true
  }

  ghost function Step(s: State, a: Action): State
    requires Ready(s, a) && Safe(s, a)
  {
    match a
    case PutBegin(c, addr, msg, ts) => DoPutBegin(s, c, addr, msg, ts)
    case PutAcquire(c) => DoPutAcquire(s, c)
    case PutChoose(c) => DoPutChoose(s, c)
    case PutRefuse(c) => DoPutRefuse(s, c)
    case PutRelease(c) => DoPutRelease(s, c)
    case PutDiscard(c) => DoPutDiscard(s, c)
    case PutCopy(c, n) => DoPutCopy(s, c, n)
    case PutFill(c) => DoPutFill(s, c)
    case PutPublish(c) => DoPutPublish(s, c)
    case PutRecord(c) => DoPutRecord(s, c)
    case PutReturn(c) => DoPutReturn(s, c)
    case InvBegin(c, b) => DoInvBegin(s, c, b)
    case InvAcquire(c) => DoInvAcquire(s, c)
    case InvFind(c) => DoInvFind(s, c)
    case InvMiss(c) => DoInvMiss(s, c)
    case InvMissReturn(c) => DoInvMissReturn(s, c)
    case InvDetach(c) => DoInvDetach(s, c)
    case InvClear(c) => DoInvClear(s, c)
    case InvCopy(c, n) => DoInvCopy(s, c, n)
    case InvRelease(c) => DoInvRelease(s, c)
    case InvSynchronize(c) => DoInvSynchronize(s, c)
    case InvFree(c) => DoInvFree(s, c)
    case ReaderEnter(want, size) => DoEnter(s, want, size)
    case ReaderAdvance(r) => DoAdvance(s, r)
    case ReaderCopy(r, n) => DoCopy(s, r, n)
    case ReaderPeek(r) => DoPeek(s, r)
    case ReaderLeave(r) => DoLeave(s, r)
  }

  // ----- initial states and runs -----

  ghost function MountedNode(st: Store, i: nat): Node
    requires Inv(st) && 1 <= i <= |st.list|
  {
    var e := st.list[i - 1];
    assert Mirrors(st.arr, e);
    Node(e, Payload(st.dev[e.ndx], e.bytes), |st.list| - i)
  }

  ghost function MountedNext(n: nat, i: nat): Id {
    if i < n then i + 1 else HEAD
  }

  /** The machine right after a mount that left store `st`. */
  ghost function InitState(st: Store): (s: State)
    requires Inv(st)
  {
    var n := |st.list|;
    State(st, st.arr, st.dev, st.last,
          map i: nat | 1 <= i <= n :: MountedNode(st, i),
          map i: nat | 0 <= i <= n :: MountedNext(n, i),
          seq(n, i => i + 1), {},
          None, map[], map[], 0, n)
  }

  ghost predicate Transition(s: State, s': State) {
    exists a :: Ready(s, a) && Safe(s, a) && s' == Step(s, a)
  }

  ghost predicate IsRun(run: seq<State>) {
    && |run| > 0
    && (exists st :: Inv(st) && run[0] == InitState(st))
    && forall i :: 0 <= i < |run| - 1 ==> Transition(run[i], run[i + 1])
  }
}
