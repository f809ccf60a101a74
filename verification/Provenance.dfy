/** Where the bytes that a read section copies come from, whatever puts do to the block meanwhile. */
module Provenance {
  import opened Layout
  import opened SortedList
  import opened StoreSpec
  import opened Protocol
  import opened ListSteps
  import opened Invariant
  import opened Runs
  import opened Linearizability
  import opened Walks

  /** Between two instants a put into block `b` writes its byte `p`, which is `v`. */
  ghost predicate Writes(s: State, s': State, b: nat, p: nat, v: Byte) {
    exists c :: c in s.calls && c in s'.calls && WritesBy(s.calls[c], s'.calls[c], b, p, v)
  }

  ghost predicate WritesBy(pc: Call, pc': Call, b: nat, p: nat, v: Byte) {
    pc.PutWrite? && pc'.PutWrite? && pc.t == b && pc.k <= p < pc'.k <= BLOCK_SIZE && v == BlockOf(pc.ts, pc.msg)[p]
  }

  /** What byte `p` of block `b` is at instant `m` if it was `v` at instant `j`: what the last put that
      wrote it since has written, or still `v`. */
  ghost function LastWritten(run: seq<State>, j: nat, m: nat, b: nat, p: nat, v: Byte): Byte
    requires j <= m < |run|
    decreases m
  {
    if m == j then v
    else
      var s, s' := run[m - 1], run[m];
      if exists w: Byte :: Writes(s, s', b, p, w) then
        var w: Byte :| Writes(s, s', b, p, w);
        w
      else LastWritten(run, j, m - 1, b, p, v)
  }

  // ----- what a step does to a byte of the device -----

  /** The byte is what the step writes to it, if it does, and otherwise stays. */
  ghost predicate Follow(s: State, s': State, b: nat, p: nat)
    requires b < |s.dev| && p < BLOCK_SIZE
  {
    && |s'.dev| == |s.dev|
    && (s'.dev[b][p] == s.dev[b][p] || Writes(s, s', b, p, s'.dev[b][p]))
    && forall v :: Writes(s, s', b, p, v) ==> s'.dev[b][p] == v
  }

  ghost predicate NoProgress(s: State, s': State) {
    forall c :: c in s.calls && c in s'.calls && s.calls[c].PutWrite? && s'.calls[c].PutWrite? ==> s'.calls[c] == s.calls[c]
  }

  lemma NoProgressWritesNothing(s: State, s': State, b: nat, p: nat)
    requires NoProgress(s, s') && b < |s.dev| && p < BLOCK_SIZE && |s'.dev| == |s.dev| && s'.dev[b][p] == s.dev[b][p]
    ensures Follow(s, s', b, p)
  {
  }

  lemma PieceAt(src: Block, dst: Block, k: nat, n: nat, p: nat)
    requires k + n <= BLOCK_SIZE && p < BLOCK_SIZE
    ensures Piece(src, dst, k, n)[p] == if k <= p < k + n then src[p] else dst[p]
  {
  }

  lemma PutCopyWrites(s: State, c: nat, n: nat, b: nat, p: nat)
    requires Ready(s, PutCopy(c, n)) && Safe(s, PutCopy(c, n)) && b < |s.dev| && p < BLOCK_SIZE
    ensures Follow(s, Step(s, PutCopy(c, n)), b, p)
  {
    hide BlockOf, Piece;
    var s', pc := DoPutCopy(s, c, n), s.calls[c];
    PieceAt(BlockOf(pc.ts, pc.msg), s.dev[pc.t], pc.k, n, p);
    if s'.dev[b][p] != s.dev[b][p] {
      assert WritesBy(s.calls[c], s'.calls[c], b, p, s'.dev[b][p]);
    }
  }

  lemma InvCopyKeepsPayload(s: State, c: nat, n: nat, b: nat, p: nat)
    requires Ready(s, InvCopy(c, n)) && Safe(s, InvCopy(c, n)) && b < |s.dev| && METADATA_SIZE <= p < BLOCK_SIZE
    ensures Follow(s, Step(s, InvCopy(c, n)), b, p)
  {
    hide Rewritten, BlockOf, Piece;
    var pc := s.calls[c];
    PieceAt(Rewritten(s.dev[pc.b], s.arr[pc.b]), s.dev[pc.b], pc.k, n, p);
    NoProgressWritesNothing(s, DoInvCopy(s, c, n), b, p);
  }

  lemma OtherPutsWriteNothing(s: State, a: Action)
    requires Ready(s, a) && Safe(s, a) && ByPut(a) && !a.PutCopy?
    ensures Step(s, a).dev == s.dev && NoProgress(s, Step(s, a))
  {
    hide Search, InsertPos, ElemsOf, InsertAt, Piece, BlockOf, Ring, Observed, Ids, Apply, Lists;
  }

  lemma InvalidatesWriteNothing(s: State, a: Action)
    requires Ready(s, a) && Safe(s, a) && !ByPut(a) && !ByReader(a) && !a.InvCopy?
    ensures Step(s, a).dev == s.dev && NoProgress(s, Step(s, a))
  {
    hide IndexOf, ElemsOf, RemoveAt, Piece, Rewritten, Ring, Observed, Ids, Apply, Lists;
  }

  lemma ReadersWriteNothing(s: State, a: Action)
    requires Ready(s, a) && Safe(s, a) && ByReader(a)
    ensures Step(s, a).dev == s.dev && NoProgress(s, Step(s, a))
  {
    hide Ready, Safe, Step;
    ReadersOnly(s, a);
  }

  /** A payload byte of the device changes only by a put that writes it. */
  lemma ByteStep(s: State, a: Action, b: nat, p: nat)
    requires Ready(s, a) && Safe(s, a) && b < |s.dev| && METADATA_SIZE <= p < BLOCK_SIZE
    ensures Follow(s, Step(s, a), b, p)
  {
    hide Ready, Safe, Step, Follow, NoProgress;
    if a.PutCopy? {
      PutCopyWrites(s, a.c, a.n, b, p);
    } else if a.InvCopy? {
      InvCopyKeepsPayload(s, a.c, a.n, b, p);
    } else {
      if ByPut(a) {
        OtherPutsWriteNothing(s, a);
      } else if ByReader(a) {
        ReadersWriteNothing(s, a);
      } else {
        InvalidatesWriteNothing(s, a);
      }
      NoProgressWritesNothing(s, Step(s, a), b, p);
    }
  }

  /** In every run, a payload byte of the device is what the last put to write it has written. */
  lemma {:induction false} DeviceOrigin(run: seq<State>, j: nat, i: nat, b: nat, p: nat)
    requires IsRun(run) && j <= i < |run| && b < |run[j].dev| && METADATA_SIZE <= p < BLOCK_SIZE
    ensures b < |run[i].dev| && run[i].dev[b][p] == LastWritten(run, j, i, b, p, run[j].dev[b][p])
    decreases i
  {
    hide IsRun, Good, Ready, Safe, Step, Writes;
    if i > j {
      DeviceOrigin(run, j, i - 1, b, p);
      var a := RunStep(run, i - 1);
      ByteStep(run[i - 1], a, b, p);
    }
  }

  // ----- the origin of each byte -----

  /** The section copied byte `q` right after instant `m`, or had copied it by instant `j`. */
  ghost predicate CopiedAt(run: seq<State>, j: nat, i: nat, r: nat, q: nat, m: nat)
    requires i < |run|
  {
    && j <= m <= i && r in run[m].readers && run[m].readers[r].walk.Copying?
    && (if q < |run[m].readers[r].walk.got| then m == j
        else m < i && r in run[m + 1].readers && run[m + 1].readers[r].walk.Copying? && q < |run[m + 1].readers[r].walk.got|)
  }

  /** Byte `q` of what a section copied from node `x`, listed at instant `j`, is what the last put that
      wrote at its place between `j` and the copy has written, and the message's byte if none did. */
  ghost predicate HasOrigin(run: seq<State>, j: nat, i: nat, r: nat, w: Walk, x: Node, q: nat)
    requires i < |run| && w.Copying? && q < |w.got|
  {
    && w.from + q < |x.msg|
    && exists m :: CopiedAt(run, j, i, r, q, m) && w.got[q] == LastWritten(run, j, m, x.e.ndx, METADATA_SIZE + w.from + q, x.msg[w.from + q])
  }

  lemma ListedNode(run: seq<State>, j: nat, r: nat, x: Id)
    requires IsRun(run) && j < |run| && x in run[j].spine && r in run[j].readers
    ensures x in run[j].readers[r].ever && x in run[j].node
    ensures var n := run[j].node[x];
            && n.e.bytes == |n.msg| && n.e.ndx < |run[j].dev|
            && forall m :: 0 <= m < |n.msg| ==> METADATA_SIZE + m < BLOCK_SIZE && run[j].dev[n.e.ndx][METADATA_SIZE + m] == n.msg[m]
  {
    hide IsRun, EncodeMetadata;
    ListedIsFresh(run, j, r, x);
    var k :| 0 <= k < |run[j].spine| && run[j].spine[k] == x;
    ListedIsOnDevice(run, j, k);
    var n := run[j].node[x];
    forall m | 0 <= m < |n.msg|
      ensures METADATA_SIZE + m < BLOCK_SIZE && run[j].dev[n.e.ndx][METADATA_SIZE + m] == n.msg[m]
    {
      assert Payload(run[j].dev[n.e.ndx], |n.msg|)[m] == n.msg[m];
    }
  }

  /** What has been copied lies within the message. */
  lemma CopyWithin(run: seq<State>, i: nat, r: nat, q: nat)
    requires IsRun(run) && i < |run| && r in run[i].readers && run[i].readers[r].walk.Copying? && q < |run[i].readers[r].walk.got|
    ensures var w := run[i].readers[r].walk; w.cur in run[i].node && w.from + q < run[i].node[w.cur].e.bytes
  {
    hide IsRun, Stop, CopyFrom, Nearer;
    ReachableSection(run, i, r);
  }

  lemma ExactWhileListed(run: seq<State>, j: nat, r: nat, q: nat)
    requires IsRun(run) && j < |run| && r in run[j].readers && run[j].readers[r].walk.Copying? && q < |run[j].readers[r].walk.got|
    requires run[j].readers[r].walk.cur in run[j].spine
    ensures var w := run[j].readers[r].walk;
            w.cur in run[j].node && w.from + q < |run[j].node[w.cur].msg| && w.got[q] == run[j].node[w.cur].msg[w.from + q]
  {
    hide IsRun, Stop, CopyFrom, CopyGoal, Nearer;
    ReachableSection(run, j, r);
    ListedIsFresh(run, j, r, run[j].readers[r].walk.cur);
  }

  /** A byte that was not there before the step comes from the device. */
  lemma NewByte(s: State, rd: Reader, w: Walk, q: nat)
    requires Moves(s, rd, w) && w.Copying? && q < |w.got|
    ensures rd.walk.Copying? && w.cur == rd.walk.cur && w.from == rd.walk.from
    ensures if q < |rd.walk.got| then w.got[q] == rd.walk.got[q] else CopiedFrom(s, rd.walk, q, w.got[q])
  {
    hide Stop, CopyFrom, CopyGoal, CopiedFrom;
    if rd.walk.Copying? && q < |rd.walk.got| {
      assert w.got[..|rd.walk.got|][q] == w.got[q];
    }
  }

  lemma {:induction false} ByteOrigin(run: seq<State>, j: nat, i: nat, r: nat, q: nat)
    requires IsRun(run) && j <= i < |run| && forall k :: j <= k <= i ==> r in run[k].readers
    requires run[i].readers[r].walk.Copying? && q < |run[i].readers[r].walk.got|
    requires run[i].readers[r].walk.cur in run[j].spine && run[i].readers[r].walk.cur in run[j].node
    ensures HasOrigin(run, j, i, r, run[i].readers[r].walk, run[j].node[run[i].readers[r].walk.cur], q)
    decreases i
  {
    hide IsRun, Good, Ready, Safe, Step, Moves, LastWritten;
    var w := run[i].readers[r].walk;
    var n := run[j].node[w.cur];
    if i == j {
      ExactWhileListed(run, j, r, q);
      NothingWritten(run, j, n.e.ndx, METADATA_SIZE + w.from + q, w.got[q]);
      assert CopiedAt(run, j, i, r, q, j);
    } else {
      var a := RunStep(run, i - 1);
      WalkStep(run[i - 1], a, r);
      var m, w0 := i - 1, run[i - 1].readers[r].walk;
      NewByte(run[m], run[m].readers[r], w, q);
      if q < |w0.got| {
        ByteOrigin(run, j, m, r, q);
        EarlierCopy(run, j, i, r, w0, w, n, q);
      } else {
        ListedNode(run, j, r, w.cur);
        SeenStaysFixed(run, j, m, r, w.cur);
        SeenStaysFixed(run, j, i, r, w.cur);
        CopyWithin(run, i, r, q);
        DeviceOrigin(run, j, m, n.e.ndx, METADATA_SIZE + w.from + q);
        assert CopiedAt(run, j, i, r, q, m);
      }
    }
  }

  lemma NothingWritten(run: seq<State>, j: nat, b: nat, p: nat, v: Byte)
    requires j < |run|
    ensures LastWritten(run, j, j, b, p, v) == v
  {
  }

  lemma EarlierCopy(run: seq<State>, j: nat, i: nat, r: nat, w0: Walk, w: Walk, x: Node, q: nat)
    requires 0 < i < |run| && w0.Copying? && w.Copying? && q < |w0.got| && q < |w.got| && w.got[q] == w0.got[q] && w.from == w0.from
    requires HasOrigin(run, j, i - 1, r, w0, x, q)
    ensures HasOrigin(run, j, i, r, w, x, q)
  {
    hide LastWritten;
    var m :| CopiedAt(run, j, i - 1, r, q, m) && w0.got[q] == LastWritten(run, j, m, x.e.ndx, METADATA_SIZE + w0.from + q, x.msg[w0.from + q]);
    assert CopiedAt(run, j, i, r, q, m);
  }

  /** Without any condition on the puts: each byte a section has copied is what the last put that wrote
      at its place, between any instant of the section at which the node was listed and the copy, has
      written there; and if no put did, it is the byte of the message that the section found. */
  lemma EveryByteHasAnOrigin(run: seq<State>, i: nat, r: nat, q: nat, j: nat)
    requires IsRun(run) && i < |run| && r in run[i].readers
    requires run[i].readers[r].walk.Copying? && q < |run[i].readers[r].walk.got|
    requires j < |run| && InWindow(run, i, r, j) && run[i].readers[r].walk.cur in run[j].spine
    ensures run[i].readers[r].walk.cur in run[j].node
    ensures HasOrigin(run, j, i, r, run[i].readers[r].walk, run[j].node[run[i].readers[r].walk.cur], q)
  {
    hide IsRun, Writes, Stop, HasOrigin;
    HistoryIsTheWindow(run, i, r);
    WindowIsConvex(run, i, r, j);
    ListedNode(run, j, r, run[i].readers[r].walk.cur);
    ByteOrigin(run, j, i, r, q);
  }
}
