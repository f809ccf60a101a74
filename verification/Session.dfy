/** The file `read`: one call at a time against a store, as a function of the session state
    (file_ops.c). */
module Session {
  import opened Layout
  import opened SortedList
  import opened StoreSpec

  const HEADER := 8192  // NUM_METADATA_BLKS * BLOCK_SIZE

  /** What an open file remembers: the file offset and the timestamp of the expected message. */
  datatype Cursor = Cursor(off: nat, ts: Time)

  const FRESH: Cursor := Cursor(0, 0)

  /** `Unset` is the branch that returns a variable nothing was assigned to. */
  datatype Outcome = Bytes(data: seq<Byte>) | Unset

  /** The store `st` is mounted from a device whose file size is `fsz`. */
  ghost predicate Mounted(st: Store, fsz: nat) {
    Inv(st) && |st.arr| == fsz / BLOCK_SIZE
  }

  /** The first element that is the wanted block or, failing that, is newer than expected. */
  function Locate(l: seq<Elem>, blk: nat, ts: Time): (r: Option<nat>)
    ensures r.Some? ==> r.value < |l| && (l[r.value].ndx == blk || l[r.value].nsec > ts)
    ensures r.Some? ==> forall i :: 0 <= i < r.value ==> l[i].ndx != blk && l[i].nsec <= ts
    ensures r.None? ==> forall i :: 0 <= i < |l| ==> l[i].ndx != blk && l[i].nsec <= ts
  {
    if l == [] then None
    else if l[0].ndx == blk || l[0].nsec > ts then Some(0)
    else match Locate(l[1..], blk, ts)
      case None =>
        assert forall i :: 0 <= i < |l| ==> i == 0 || l[i] == l[1..][i - 1];
        None
      case Some(i) =>
        assert forall k :: 0 <= k < i + 1 ==> k == 0 || l[k] == l[1..][k - 1];
        Some(i + 1)
  }

  /** The request after the end-of-file clamp, the skip of the metadata and the single-block clamp. */
  datatype Request = Request(off: nat, o: nat, len: nat)

  function Prepare(fsz: nat, off: nat, len: nat): (q: Request)
    requires off + HEADER < fsz
    ensures METADATA_SIZE <= q.o < BLOCK_SIZE && q.o == q.off % BLOCK_SIZE && q.off / BLOCK_SIZE == off / BLOCK_SIZE
    ensures q.o + q.len <= BLOCK_SIZE
  {
    var len1 := if off + HEADER + len > fsz then fsz - off else len;
    var o := off % BLOCK_SIZE;
    var off1 := if o < METADATA_SIZE then off + (METADATA_SIZE - o) else off;
    var o1 := if o < METADATA_SIZE then METADATA_SIZE else o;
    Request(off1, o1, if o1 + len1 > BLOCK_SIZE then BLOCK_SIZE - o1 else len1)
  }

  /** The session moves on to the successor of element `i`. */
  function Expect(l: seq<Elem>, fsz: nat, i: nat, ts: Time): (c: Cursor)
    requires i < |l|
  {
    if i + 1 == |l| then Cursor(fsz, ts)
    else Cursor(l[i + 1].ndx * BLOCK_SIZE + METADATA_SIZE, l[i + 1].nsec)
  }

  /** Copy out of element `i`, from byte `q.o` of its block. */
  function Deliver(st: Store, fsz: nat, i: nat, q: Request, ts: Time): (r: (Cursor, Outcome))
    requires Inv(st) && i < |st.list| && METADATA_SIZE <= q.o
  {
    var e := st.list[i];
    assert Mirrors(st.arr, e);
    if q.o - METADATA_SIZE > e.bytes then (Expect(st.list, fsz, i, ts), Unset)
    else
      var n := if q.len + q.o - METADATA_SIZE > e.bytes then e.bytes - (q.o - METADATA_SIZE) else q.len;
      var data := st.dev[e.ndx][q.o..q.o + n];
      if q.o + n < e.bytes + METADATA_SIZE then (Cursor(q.off + n, ts), Bytes(data))
      else (Expect(st.list, fsz, i, ts), Bytes(data))
  }

  function Read(st: Store, fsz: nat, c: Cursor, len: nat): (r: (Cursor, Outcome))
    requires Inv(st)
  {
    if c.off + HEADER >= fsz then (c, Bytes([]))
    else
      var q := Prepare(fsz, c.off, len);
      match Locate(st.list, q.off / BLOCK_SIZE, c.ts)
      case None => (Cursor(fsz, c.ts), Bytes([]))
      case Some(i) =>
        var e := st.list[i];
        if e.ndx == q.off / BLOCK_SIZE then Deliver(st, fsz, i, q, c.ts)
        else Deliver(st, fsz, i, Request(e.ndx * BLOCK_SIZE + METADATA_SIZE, METADATA_SIZE, Min(e.bytes, q.len)), c.ts)
  }

  /** The exact condition under which the return value is unset: the block is found by its index, and
      the session is already past the end of the message that is in it now. */
  lemma UnsetIff(st: Store, fsz: nat, c: Cursor, len: nat)
    requires Inv(st)
    ensures Read(st, fsz, c, len).1.Unset? <==>
            && c.off + HEADER < fsz
            && var r := Locate(st.list, c.off / BLOCK_SIZE, c.ts);
               r.Some? && st.list[r.value].ndx == c.off / BLOCK_SIZE && c.off % BLOCK_SIZE > METADATA_SIZE + st.list[r.value].bytes
  {
    hide DeviceAgrees, ListAgrees;
  }

  // ----- never more than asked for -----

  /** On a file that is a whole number of blocks, or one byte short of it, raising the request at
      the end of the file is always undone by the single-block clamp. */
  lemma PrepareBounded(fsz: nat, off: nat, len: nat)
    requires off + HEADER < fsz && (fsz % BLOCK_SIZE == 0 || fsz % BLOCK_SIZE == BLOCK_SIZE - 1)
    ensures Prepare(fsz, off, len).len <= len
  {
    if off + HEADER + len > fsz {
      var d := fsz - off - HEADER;
      if d < BLOCK_SIZE {
        assert (off + d) % BLOCK_SIZE == fsz % BLOCK_SIZE;
      }
    }
  }

  ghost predicate Fits(out: Outcome, len: nat) {
    out.Bytes? ==> |out.data| <= len
  }

  lemma NeverMoreThanAsked(st: Store, fsz: nat, c: Cursor, len: nat)
    requires Inv(st) && (fsz % BLOCK_SIZE == 0 || fsz % BLOCK_SIZE == BLOCK_SIZE - 1)
    ensures Fits(Read(st, fsz, c, len).1, len)
  {
    hide Inv, Prepare, Read;
    if c.off + HEADER < fsz {
      PrepareBounded(fsz, c.off, len);
    }
    NoMoreThanPrepared(st, fsz, c, len);
  }

  /** A call copies no more than its prepared request covers. */
  lemma NoMoreThanPrepared(st: Store, fsz: nat, c: Cursor, len: nat)
    requires Inv(st)
    ensures Fits(Read(st, fsz, c, len).1, if c.off + HEADER < fsz then Prepare(fsz, c.off, len).len else 0)
  {
    hide Prepare, Deliver, Inv;
    if c.off + HEADER < fsz {
      var q := Prepare(fsz, c.off, len);
      var r := Locate(st.list, q.off / BLOCK_SIZE, c.ts);
      if r.Some? {
        var e := st.list[r.value];
        DeliverBounded(st, fsz, r.value, q, c.ts);
        DeliverBounded(st, fsz, r.value, Request(e.ndx * BLOCK_SIZE + METADATA_SIZE, METADATA_SIZE, Min(e.bytes, q.len)), c.ts);
      }
    }
  }

  lemma ListedFits(st: Store, i: nat)
    requires Inv(st) && i < |st.list|
    ensures Mirrors(st.arr, st.list[i]) && |st.dev| == |st.arr| && st.list[i].bytes <= MAX_MESSAGE
  {
    hide EncodeMetadata;
  }

  lemma DeliverBounded(st: Store, fsz: nat, i: nat, q: Request, ts: Time)
    requires Inv(st) && i < |st.list| && METADATA_SIZE <= q.o
    ensures Fits(Deliver(st, fsz, i, q, ts).1, q.len)
  {
    hide Inv, Expect;
    ListedFits(st, i);
  }

  /** No request on a device of this size copies more than the caller asked for. */
  ghost predicate StaysWithinRequests(fsz: nat) {
    forall st, c, len :: Mounted(st, fsz) ==> Fits(Read(st, fsz, c, len).1, len)
  }

  lemma LongMessageNearTheEnd(fsz: nat) returns (st: Store)
    requires fsz > HEADER
    ensures Mounted(st, fsz) && |st.arr| >= 2
    ensures st.list == [Elem(|st.arr| - 2, 1, MAX_MESSAGE)]
  {
    var n := fsz / BLOCK_SIZE;
    EmptyStoreInv(n);
    var msg := Zeros(MAX_MESSAGE);
    PutKeepsInv(EmptyStore(n), n - 2, msg, 1);
    st := PutAt(EmptyStore(n), n - 2, msg, 1);
  }

  lemma ShortRequestOverruns(st: Store, fsz: nat, c: Cursor)
    requires Mounted(st, fsz) && |st.arr| >= 2 && st.list == [Elem(|st.arr| - 2, 1, MAX_MESSAGE)]
    requires fsz > HEADER && fsz % BLOCK_SIZE != 0 && fsz % BLOCK_SIZE != BLOCK_SIZE - 1 && c == Cursor(fsz - HEADER - 1, 1)
    ensures Read(st, fsz, c, 2).1.Bytes? && |Read(st, fsz, c, 2).1.data| > 2
  {
    hide DeviceAgrees, Sorted, DistinctBlocks;
    assert c.off / BLOCK_SIZE == |st.arr| - 2;
    var q := Prepare(fsz, c.off, 2);
    assert q.len == BLOCK_SIZE - q.o > 2;
    assert Locate(st.list, q.off / BLOCK_SIZE, c.ts) == Some(0);
    assert Mirrors(st.arr, st.list[0]);
  }

  /** The exact condition, in terms of the file size alone. */
  lemma StaysWithinRequestsIff(fsz: nat)
    ensures StaysWithinRequests(fsz) <==>
            fsz <= HEADER || fsz % BLOCK_SIZE == 0 || fsz % BLOCK_SIZE == BLOCK_SIZE - 1
  {
    hide Inv;
    if fsz <= HEADER || fsz % BLOCK_SIZE == 0 || fsz % BLOCK_SIZE == BLOCK_SIZE - 1 {
      forall st, c, len | Mounted(st, fsz)
        ensures Fits(Read(st, fsz, c, len).1, len)
      {
        if fsz > HEADER {
          NeverMoreThanAsked(st, fsz, c, len);
        }
      }
    } else {
      var st := LongMessageNearTheEnd(fsz);
      var c := Cursor(fsz - HEADER - 1, 1);
      assert c.off / BLOCK_SIZE == |st.arr| - 2;
      ShortRequestOverruns(st, fsz, c);
      assert !Fits(Read(st, fsz, c, 2).1, 2);
    }
  }

  // ----- offsets that a session can stand at -----

  /** The start of the file, a place in the payload of a block, or beyond the bound. */
  ghost predicate Standable(fsz: nat, off: nat) {
    off == 0 || off % BLOCK_SIZE >= METADATA_SIZE || off + HEADER >= fsz
  }

  /** No call leaves a session elsewhere; other offsets take a `pread`. */
  lemma ReadLeavesStandable(st: Store, fsz: nat, c: Cursor, len: nat)
    requires Inv(st)
    ensures Standable(fsz, Read(st, fsz, c, len).0.off)
  {
    hide Prepare, Inv, Deliver;
    if c.off + HEADER < fsz {
      var q := Prepare(fsz, c.off, len);
      var r := Locate(st.list, q.off / BLOCK_SIZE, c.ts);
      if r.Some? {
        var e := st.list[r.value];
        DeliverLeavesStandable(st, fsz, r.value, q, c.ts);
        DeliverLeavesStandable(st, fsz, r.value, Request(e.ndx * BLOCK_SIZE + METADATA_SIZE, METADATA_SIZE, Min(e.bytes, q.len)), c.ts);
      }
    }
  }

  lemma DeliverLeavesStandable(st: Store, fsz: nat, i: nat, q: Request, ts: Time)
    requires Inv(st) && i < |st.list| && METADATA_SIZE <= q.o < BLOCK_SIZE && q.o == q.off % BLOCK_SIZE
    ensures Standable(fsz, Deliver(st, fsz, i, q, ts).0.off)
  {
    hide Inv, Standable, Expect, Mirrors;
    ListedFits(st, i);
    ExpectStandable(st.list, fsz, i, ts);
    var bytes := st.list[i].bytes;
    if q.o - METADATA_SIZE <= bytes {
      var n := if q.len + q.o - METADATA_SIZE > bytes then bytes - (q.o - METADATA_SIZE) else q.len;
      if q.o + n < bytes + METADATA_SIZE {
        FurtherInBlock(fsz, q.off, n);
      }
    }
  }

  lemma ExpectStandable(l: seq<Elem>, fsz: nat, i: nat, ts: Time)
    requires i < |l|
    ensures Standable(fsz, Expect(l, fsz, i, ts).off)
  {
  }

  lemma FurtherInBlock(fsz: nat, off: nat, n: nat)
    requires METADATA_SIZE <= off % BLOCK_SIZE && off % BLOCK_SIZE + n < BLOCK_SIZE
    ensures Standable(fsz, off + n)
  {
    assert (off + n) % BLOCK_SIZE == off % BLOCK_SIZE + n;
  }

  /** No request of a session on a device of this size copies more than the caller asked for. */
  ghost predicate SessionsStayWithinRequests(fsz: nat) {
    forall st, c: Cursor, len :: Mounted(st, fsz) && Standable(fsz, c.off) ==> Fits(Read(st, fsz, c, len).1, len)
  }

  ghost predicate GoodSize(fsz: nat) {
    || fsz <= HEADER || fsz % BLOCK_SIZE == 0 || fsz % BLOCK_SIZE == BLOCK_SIZE - 1
    || (fsz >= 3 * BLOCK_SIZE && fsz % BLOCK_SIZE <= METADATA_SIZE)
  }

  lemma StandableBounded(fsz: nat, off: nat, len: nat)
    requires off + HEADER < fsz && Standable(fsz, off) && GoodSize(fsz)
    ensures Prepare(fsz, off, len).len <= len
  {
    if fsz % BLOCK_SIZE == 0 || fsz % BLOCK_SIZE == BLOCK_SIZE - 1 {
      PrepareBounded(fsz, off, len);
    } else if off + HEADER + len > fsz && off > 0 {
      var d := fsz - off - HEADER;
      if d < BLOCK_SIZE {
        assert (off + d) % BLOCK_SIZE == fsz % BLOCK_SIZE;
      }
    }
  }

  lemma FreshRequestOverruns(st: Store, fsz: nat)
    requires Mounted(st, fsz) && HEADER < fsz < 3 * BLOCK_SIZE && fsz % BLOCK_SIZE <= METADATA_SIZE && st.list == [Elem(0, 1, MAX_MESSAGE)]
    ensures !Fits(Read(st, fsz, FRESH, fsz % BLOCK_SIZE + 1).1, fsz % BLOCK_SIZE + 1)
  {
    hide Inv;
    ListedFits(st, 0);
    assert Locate(st.list, 0, 0) == Some(0);
  }

  /** The exact condition for sessions, in terms of the file size alone. */
  lemma SessionsStayWithinRequestsIff(fsz: nat)
    ensures SessionsStayWithinRequests(fsz) <==> GoodSize(fsz)
  {
    hide Inv, Read, Prepare;
    if GoodSize(fsz) {
      forall st, c: Cursor, len | Mounted(st, fsz) && Standable(fsz, c.off)
        ensures Fits(Read(st, fsz, c, len).1, len)
      {
        NoMoreThanPrepared(st, fsz, c, len);
        if c.off + HEADER < fsz {
          StandableBounded(fsz, c.off, len);
        }
      }
    } else {
      var st := LongMessageNearTheEnd(fsz);
      if fsz % BLOCK_SIZE <= METADATA_SIZE {
        FreshRequestOverruns(st, fsz);
        assert Standable(fsz, FRESH.off);
      } else {
        var c := Cursor(fsz - HEADER - 1, 1);
        ShortRequestOverruns(st, fsz, c);
        assert Standable(fsz, c.off) && !Fits(Read(st, fsz, c, 2).1, 2);
      }
    }
  }

  // ----- a session on a store that does not change -----

  function MessageAt(st: Store, i: nat): (m: seq<Byte>)
    requires Inv(st) && i < |st.list|
    ensures |m| == st.list[i].bytes
  {
    assert Mirrors(st.arr, st.list[i]);
    Payload(st.dev[st.list[i].ndx], st.list[i].bytes)
  }

  /** The element a call reads from. */
  ghost function Found(st: Store, fsz: nat, c: Cursor): (h: Option<nat>)
    ensures h.Some? ==> h.value < |st.list|
  {
    if c.off + HEADER >= fsz then None else Locate(st.list, c.off / BLOCK_SIZE, c.ts)
  }

  /** Where in the message the call starts: where the session stands, if the block is the one it
      stands in, and at the first byte otherwise. */
  ghost function StartIn(e: Elem, off: nat): (j: nat) {
    if e.ndx == off / BLOCK_SIZE && off % BLOCK_SIZE > METADATA_SIZE then off % BLOCK_SIZE - METADATA_SIZE else 0
  }

  /** What any call delivers, whatever the session and the buffer: nothing if it finds no element; else
      a piece of the message of the element it finds, from where the session stands in it; and it is
      unset exactly if the session stands past its end. */
  lemma DeliversAPiece(st: Store, fsz: nat, c: Cursor, len: nat)
    requires Inv(st)
    ensures var out := Read(st, fsz, c, len).1;
            match Found(st, fsz, c)
            case None => out == Bytes([])
            case Some(i) =>
              var j := StartIn(st.list[i], c.off);
              if j > st.list[i].bytes then out == Unset
              else out.Bytes? && j + |out.data| <= st.list[i].bytes && out.data == MessageAt(st, i)[j..j + |out.data|]
  {
    hide Inv, Deliver, MessageAt, Prepare;
    if Found(st, fsz, c).Some? {
      var i := Found(st, fsz, c).value;
      var e, q := st.list[i], Prepare(fsz, c.off, len);
      PreparedStart(fsz, c.off, len);
      if e.ndx == c.off / BLOCK_SIZE {
        DeliverPiece(st, fsz, i, q, c.ts);
      } else {
        DeliverPiece(st, fsz, i, Request(e.ndx * BLOCK_SIZE + METADATA_SIZE, METADATA_SIZE, Min(e.bytes, q.len)), c.ts);
      }
    }
  }

  lemma PreparedStart(fsz: nat, off: nat, len: nat)
    requires off + HEADER < fsz
    ensures Prepare(fsz, off, len).o == METADATA_SIZE + if off % BLOCK_SIZE > METADATA_SIZE then off % BLOCK_SIZE - METADATA_SIZE else 0
  {
  }

  lemma DeliverPiece(st: Store, fsz: nat, i: nat, q: Request, ts: Time)
    requires Inv(st) && i < |st.list| && METADATA_SIZE <= q.o
    ensures var out, j := Deliver(st, fsz, i, q, ts).1, q.o - METADATA_SIZE;
            if j > st.list[i].bytes then out == Unset
            else out.Bytes? && j + |out.data| <= st.list[i].bytes && out.data == MessageAt(st, i)[j..j + |out.data|]
  {
    hide Inv, Expect, Payload;
    ListedFits(st, i);
    var j := q.o - METADATA_SIZE;
    if j <= st.list[i].bytes {
      PieceOfPayload(st.dev[st.list[i].ndx], st.list[i].bytes, j, |Deliver(st, fsz, i, q, ts).1.data|);
    }
  }

  /** All the bytes from byte `j` of message `i` on, in list order. */
  function Rest(st: Store, i: nat, j: nat): (s: seq<Byte>)
    requires Inv(st) && i <= |st.list| && (i < |st.list| ==> j <= st.list[i].bytes)
    decreases |st.list| - i
  {
    if i == |st.list| then [] else MessageAt(st, i)[j..] + Rest(st, i + 1, 0)
  }

  /** The session has delivered everything before byte `j` of message `i`. */
  ghost predicate At(st: Store, fsz: nat, c: Cursor, i: nat, j: nat) {
    && i <= |st.list|
    && (i == |st.list| ==> j == 0 && (c.off + HEADER >= fsz || (c == FRESH && i == 0)))
    && (i < |st.list| ==> Stands(st.list, c, i, j) && (i == 0 && st.list[0].bytes == 0 ==> c == FRESH))
  }

  /** The next call starts at byte `j` of message `i`. */
  ghost predicate Stands(l: seq<Elem>, c: Cursor, i: nat, j: nat)
    requires i < |l|
  {
    IsPosition(l[i], j) && (StandsAt(l, c, i, j) || (c == FRESH && i == 0 && j == 0))
  }

  ghost predicate StandsAt(l: seq<Elem>, c: Cursor, i: nat, j: nat)
    requires i < |l|
  {
    c.off == l[i].ndx * BLOCK_SIZE + METADATA_SIZE + j && forall k :: 0 <= k < i ==> l[k].nsec <= c.ts
  }

  /** The bound check of `read` lets a call through that starts at byte `j` of the message. */
  ghost predicate InBound(e: Elem, fsz: nat, j: nat) {
    e.ndx * BLOCK_SIZE + METADATA_SIZE + j + HEADER < fsz
  }

  /** A call may start at byte `j` of the message; one call is made even if the message is empty. */
  ghost predicate IsPosition(e: Elem, j: int) {
    0 <= j < e.bytes || j == 0
  }

  ghost predicate Positive(l: seq<Elem>) {
    forall i :: 0 <= i < |l| ==> l[i].nsec > 0
  }

  lemma LocateExpected(st: Store, c: Cursor, i: nat, j: nat)
    requires Inv(st) && i < |st.list| && IsPosition(st.list[i], j) && StandsAt(st.list, c, i, j)
    ensures c.off / BLOCK_SIZE == st.list[i].ndx && c.off % BLOCK_SIZE == METADATA_SIZE + j
    ensures Locate(st.list, st.list[i].ndx, c.ts) == Some(i)
  {
    assert Mirrors(st.arr, st.list[i]);
    assert st.list[i].bytes <= MAX_MESSAGE;
    var r := Locate(st.list, st.list[i].ndx, c.ts);
    assert r.Some?;
    assert r.value <= i;
    assert forall k :: 0 <= k < i ==> st.list[k].ndx != st.list[i].ndx && st.list[k].nsec <= c.ts;
  }

  /** What is copied at a position: as much as the request covers of what is left of the message. */
  lemma DeliverAt(st: Store, fsz: nat, i: nat, j: nat, q: Request, n: nat, ts: Time)
    requires Inv(st) && i < |st.list| && IsPosition(st.list[i], j)
    requires q.o == METADATA_SIZE + j && n == Min(q.len, st.list[i].bytes - j)
    ensures var (c, out) := Deliver(st, fsz, i, q, ts);
            && out == Bytes(MessageAt(st, i)[j..j + n])
            && c == if j + n < st.list[i].bytes then Cursor(q.off + n, ts) else Expect(st.list, fsz, i, ts)
  {
    hide Inv, Expect, Payload;
    ListedFits(st, i);
    PieceOfPayload(st.dev[st.list[i].ndx], st.list[i].bytes, j, n);
  }

  lemma PieceOfPayload(b: Block, bytes: nat, j: nat, n: nat)
    requires j + n <= bytes <= MAX_MESSAGE
    ensures b[METADATA_SIZE + j..METADATA_SIZE + j + n] == Payload(b, bytes)[j..j + n]
  {
    var x, y := b[METADATA_SIZE + j..METADATA_SIZE + j + n], Payload(b, bytes)[j..j + n];
    forall k | 0 <= k < n
      ensures x[k] == y[k]
    {
      assert y[k] == Payload(b, bytes)[j + k] == b[METADATA_SIZE + (j + k)];
    }
  }

  /** How much a call at offset `off` gets of the `left` bytes left of the message. */
  ghost function Granted(fsz: nat, off: nat, len: nat, left: nat): (n: nat)
    requires off + HEADER < fsz
    ensures n <= left
  {
    Min(Prepare(fsz, off, len).len, left)
  }

  /** A call gets at least what it may still get of what it asked for, and no more than that on the
      files of `NeverMoreThanAsked`, or if the request ends within the bound or fills the block. */
  lemma GrantedCovers(fsz: nat, off: nat, j: nat, bytes: nat, len: nat)
    requires (off % BLOCK_SIZE == METADATA_SIZE + j || (off == 0 && j == 0)) && j <= bytes <= MAX_MESSAGE && off + HEADER < fsz
    ensures Prepare(fsz, off, len).o == METADATA_SIZE + j && (off > 0 ==> Prepare(fsz, off, len).off == off)
    ensures Granted(fsz, off, len, bytes - j) >= Min(len, bytes - j)
    ensures (|| fsz % BLOCK_SIZE == 0 || fsz % BLOCK_SIZE == BLOCK_SIZE - 1
             || off + HEADER + len <= fsz || METADATA_SIZE + j + len >= BLOCK_SIZE) ==>
              Granted(fsz, off, len, bytes - j) == Min(len, bytes - j)
  {
    if fsz % BLOCK_SIZE == 0 || fsz % BLOCK_SIZE == BLOCK_SIZE - 1 {
      PrepareBounded(fsz, off, len);
    }
  }

  /** The cursor after message `i` is at message `i + 1`, or at the end. */
  lemma ExpectedNext(st: Store, fsz: nat, i: nat, ts: Time)
    requires Inv(st) && i < |st.list|
    ensures At(st, fsz, Expect(st.list, fsz, i, ts), i + 1, 0)
    ensures fsz > 0 ==> Expect(st.list, fsz, i, ts).off > 0
  {
  }

  /** Where a call that gets `n` bytes leads from position (i, j). */
  ghost function Next(l: seq<Elem>, i: nat, j: nat, n: nat): (nat, nat)
    requires i < |l|
  {
    if j + n < l[i].bytes then (i, j + n) else (i + 1, 0)
  }

  /** One `read` at position (i, j): the outcome is set, it is the next piece of message `i`, and
      what was delivered together with what remains is what remained before. */
  lemma ReadAdvances(st: Store, fsz: nat, c: Cursor, i: nat, j: nat, len: nat) returns (i': nat, j': nat)
    requires Mounted(st, fsz) && Positive(st.list) && At(st, fsz, c, i, j) && (i < |st.list| ==> c.off + HEADER < fsz)
    ensures var (c', out) := Read(st, fsz, c, len);
            && out.Bytes? && At(st, fsz, c', i', j')
            && (i' < |st.list| ==> j' <= st.list[i'].bytes)
            && out.data + Rest(st, i', j') == Rest(st, i, j)
            && (i == |st.list| ==> i' == i)
            && (i < |st.list| ==>
                var n := Granted(fsz, c.off, len, st.list[i].bytes - j);
                && out.data == MessageAt(st, i)[j..j + n] && (i', j') == Next(st.list, i, j, n) && c'.off > 0
                && n >= Min(len, st.list[i].bytes - j)
                && (c.off + HEADER + len <= fsz || fsz % BLOCK_SIZE == 0 ==> n == Min(len, st.list[i].bytes - j)))
  {
    hide Inv, Read, Expect, Payload, Granted, Prepare, StandsAt, MessageAt, Rest;
    if i == |st.list| {
      i', j' := i, 0;
      ReadAtEnd(st, fsz, c, len);
    } else {
      var e := st.list[i];
      ListedFits(st, i);
      ReadAt(st, fsz, c, i, j, len);
      PositionOf(st, c, i, j);
      GrantedCovers(fsz, c.off, j, e.bytes, len);
      var n := Granted(fsz, c.off, len, e.bytes - j);
      ExpectedNext(st, fsz, i, c.ts);
      RestAdvances(st, i, j, n);
      i', j' := Next(st.list, i, j, n).0, Next(st.list, i, j, n).1;
    }
  }

  lemma RestAdvances(st: Store, i: nat, j: nat, n: nat)
    requires Inv(st) && i < |st.list| && j + n <= st.list[i].bytes
    ensures var (i', j') := Next(st.list, i, j, n);
            i' <= |st.list| && (i' < |st.list| ==> j' <= st.list[i'].bytes) && MessageAt(st, i)[j..j + n] + Rest(st, i', j') == Rest(st, i, j)
  {
    hide Inv, MessageAt;
    if j + n < st.list[i].bytes {
      assert MessageAt(st, i)[j..] == MessageAt(st, i)[j..j + n] + MessageAt(st, i)[j + n..];
    } else {
      assert MessageAt(st, i)[j..] == MessageAt(st, i)[j..j + n];
    }
  }

  lemma PositionOf(st: Store, c: Cursor, i: nat, j: nat)
    requires Inv(st) && i < |st.list| && Stands(st.list, c, i, j)
    ensures c.off % BLOCK_SIZE == METADATA_SIZE + j || (c.off == 0 && j == 0)
    ensures StandsAt(st.list, c, i, j) ==> c.off > 0
  {
    hide Inv;
    ListedFits(st, i);
  }

  lemma ReadAtEnd(st: Store, fsz: nat, c: Cursor, len: nat)
    requires Mounted(st, fsz) && At(st, fsz, c, |st.list|, 0)
    ensures var (c', out) := Read(st, fsz, c, len); out == Bytes([]) && At(st, fsz, c', |st.list|, 0)
  {
  }

  lemma ReadAt(st: Store, fsz: nat, c: Cursor, i: nat, j: nat, len: nat)
    requires Mounted(st, fsz) && Positive(st.list) && i < |st.list| && Stands(st.list, c, i, j) && c.off + HEADER < fsz
    ensures var n := Granted(fsz, c.off, len, st.list[i].bytes - j); var (c', out) := Read(st, fsz, c, len);
            && out == Bytes(MessageAt(st, i)[j..j + n])
            && if j + n < st.list[i].bytes then StandsAt(st.list, c', i, j + n) && c'.off > 0 else c' == Expect(st.list, fsz, i, c.ts)
  {
    hide Inv, Prepare, Deliver, MessageAt, Expect;
    var e, q := st.list[i], Prepare(fsz, c.off, len);
    var n := Granted(fsz, c.off, len, e.bytes - j);
    ListedFits(st, i);
    PositionOf(st, c, i, j);
    GrantedCovers(fsz, c.off, j, e.bytes, len);
    if StandsAt(st.list, c, i, j) {
      LocateExpected(st, c, i, j);
      DeliverAt(st, fsz, i, j, q, n, c.ts);
    } else {
      assert Locate(st.list, 0, 0) == Some(0);
      if e.ndx == 0 {
        DeliverAt(st, fsz, 0, 0, q, n, 0);
      } else {
        DeliverAt(st, fsz, 0, 0, Request(e.ndx * BLOCK_SIZE + METADATA_SIZE, METADATA_SIZE, Min(e.bytes, q.len)), n, 0);
      }
    }
  }

  /** The outcomes of a series of reads with the given buffer sizes, and where they leave the session. */
  function ReadSeries(st: Store, fsz: nat, c: Cursor, sizes: seq<nat>): (r: (Cursor, seq<Outcome>))
    requires Inv(st)
    ensures |r.1| == |sizes|
    decreases |sizes|
  {
    if sizes == [] then (c, [])
    else
      var (c', out) := Read(st, fsz, c, sizes[0]);
      var rest := ReadSeries(st, fsz, c', sizes[1..]);
      (rest.0, [out] + rest.1)
  }

  ghost function Concat(outs: seq<Outcome>): seq<Byte> {
    if outs == [] then [] else (if outs[0].Bytes? then outs[0].data else []) + Concat(outs[1..])
  }

  ghost predicate AllSet(outs: seq<Outcome>) {
    forall k :: 0 <= k < |outs| ==> outs[k].Bytes?
  }

  /** A series is its first call and then the rest. */
  lemma FirstOfSeries(st: Store, fsz: nat, c: Cursor, sizes: seq<nat>)
    requires Inv(st) && sizes != []
    ensures var (c1, out) := Read(st, fsz, c, sizes[0]);
            var all, rest := ReadSeries(st, fsz, c, sizes), ReadSeries(st, fsz, c1, sizes[1..]);
            && all.0 == rest.0 && (out.Bytes? && AllSet(rest.1) ==> AllSet(all.1))
            && (out.Bytes? ==> Concat(all.1) == out.data + Concat(rest.1))
  {
    hide Inv, Read;
    var (c1, out) := Read(st, fsz, c, sizes[0]);
    var rest := ReadSeries(st, fsz, c1, sizes[1..]).1;
    assert ReadSeries(st, fsz, c, sizes).1 == [out] + rest && ([out] + rest)[1..] == rest;
  }

  /** Any series of reads, whatever the buffer sizes and wherever the bound lies, splits what remains
      into what it delivers and what still remains: nothing is lost, repeated or reordered, and the
      branch that leaves the outcome unset is never reached. */
  lemma {:induction false} SeriesConserves(st: Store, fsz: nat, c: Cursor, i: nat, j: nat, sizes: seq<nat>)
    returns (i': nat, j': nat)
    requires Mounted(st, fsz) && Positive(st.list) && At(st, fsz, c, i, j)
    ensures var (c', outs) := ReadSeries(st, fsz, c, sizes);
            && AllSet(outs) && At(st, fsz, c', i', j')
            && (i' < |st.list| ==> j' <= st.list[i'].bytes)
            && Concat(outs) + Rest(st, i', j') == Rest(st, i, j)
    decreases |sizes|
  {
    hide Inv, Read, StandsAt, Rest, Positive, Granted, MessageAt, Next, ReadSeries, Concat, AllSet;
    i', j' := i, j;
    if sizes == [] {
      NothingRead(st, fsz, c);
    } else {
      var i1, j1 := i, j;
      var (c1, out) := Read(st, fsz, c, sizes[0]);
      if c.off + HEADER >= fsz {
        ReadBeyond(st, fsz, c, sizes[0]);
      } else {
        i1, j1 := ReadAdvances(st, fsz, c, i, j, sizes[0]);
      }
      i', j' := SeriesConserves(st, fsz, c1, i1, j1, sizes[1..]);
      FirstOfSeries(st, fsz, c, sizes);
      var rest := ReadSeries(st, fsz, c1, sizes[1..]);
      assert out.data + Concat(rest.1) + Rest(st, i', j') == out.data + (Concat(rest.1) + Rest(st, i', j'));
    }
  }

  /** Beyond the bound a call delivers nothing and leaves the session where it is. */
  lemma ReadBeyond(st: Store, fsz: nat, c: Cursor, len: nat)
    requires Inv(st) && c.off + HEADER >= fsz
    ensures Read(st, fsz, c, len) == (c, Bytes([]))
  {
  }

  lemma NothingRead(st: Store, fsz: nat, c: Cursor)
    requires Inv(st)
    ensures var r := ReadSeries(st, fsz, c, []); r.0 == c && AllSet(r.1) && Concat(r.1) == []
  {
  }

  /** Something is left exactly if a message that is not empty is. */
  lemma {:induction false} RestIsEmptyIff(st: Store, i: nat, j: nat)
    requires Inv(st) && i <= |st.list| && (i < |st.list| ==> IsPosition(st.list[i], j))
    ensures Rest(st, i, j) == [] <==> !SomeFrom(st.list, i)
    decreases |st.list| - i
  {
    hide Inv, MessageAt;
    if i < |st.list| {
      RestIsEmptyIff(st, i + 1, 0);
      assert SomeFrom(st.list, i) <==> st.list[i].bytes > 0 || SomeFrom(st.list, i + 1);
    }
  }

  /** Message `i` or a later one is not empty. */
  ghost predicate SomeFrom(l: seq<Elem>, i: nat) {
    exists m :: i <= m < |l| && l[m].bytes > 0
  }

  /** The bound lets every call through that a session has to make to get all there is: the first one,
      at offset 0, and one at each byte of each message, one also at an empty message, up to the last
      message that is not empty. An empty first message is passed by the first call. */
  ghost predicate Passable(l: seq<Elem>, fsz: nat) {
    && (SomeFrom(l, 0) ==> HEADER < fsz)
    && forall i, j :: 0 <= i < |l| && IsPosition(l[i], j) && SomeFrom(l, i) && (i > 0 || l[0].bytes > 0) ==> InBound(l[i], fsz, j)
  }

  lemma PassableAt(st: Store, fsz: nat, c: Cursor, i: nat, j: nat)
    requires Passable(st.list, fsz) && At(st, fsz, c, i, j) && SomeFrom(st.list, i)
    ensures i < |st.list| && c.off + HEADER < fsz
  {
    assert SomeFrom(st.list, 0);
    assert c != FRESH ==> InBound(st.list[i], fsz, j);
  }

  /** How many of the buffers are not empty. */
  ghost function Positives(sizes: seq<nat>): (n: nat)
    ensures n <= |sizes|
  {
    if sizes == [] then 0 else (if sizes[0] > 0 then 1 else 0) + Positives(sizes[1..])
  }

  /** As many reads with non-empty buffers as there are bytes and messages left always suffice: each of
      them uses up a byte or a message. The chunks then concatenate to exactly the messages in list
      order, and every later read reports the end of the file. */
  lemma {:induction false} SeriesDeliversAll(st: Store, fsz: nat, c: Cursor, i: nat, j: nat, sizes: seq<nat>)
    requires Mounted(st, fsz) && Passable(st.list, fsz) && Positive(st.list) && At(st, fsz, c, i, j)
    requires Positives(sizes) >= |Rest(st, i, j)| + |st.list| - i
    ensures var (c', outs) := ReadSeries(st, fsz, c, sizes);
            Concat(outs) == Rest(st, i, j) && forall len :: Read(st, fsz, c', len).1 == Bytes([])
    decreases |sizes|
  {
    hide Inv, Read, StandsAt, Rest, Passable, Granted, SomeFrom, Positive, MessageAt;
    RestIsEmptyIff(st, i, j);
    if Rest(st, i, j) == [] {
      var _, _ := SeriesConserves(st, fsz, c, i, j, sizes);
    } else {
      PassableAt(st, fsz, c, i, j);
      assert sizes != [];
      var i1, j1 := ReadAdvances(st, fsz, c, i, j, sizes[0]);
      var (c1, out) := Read(st, fsz, c, sizes[0]);
      assert |Rest(st, i, j)| == |out.data| + |Rest(st, i1, j1)|;
      SeriesDeliversAll(st, fsz, c1, i1, j1, sizes[1..]);
      FirstOfSeries(st, fsz, c, sizes);
    }
    ThenNothing(st, fsz, c, i, j, sizes);
  }

  /** A series that has delivered all that remained leaves nothing to later reads. */
  lemma ThenNothing(st: Store, fsz: nat, c: Cursor, i: nat, j: nat, sizes: seq<nat>)
    requires Mounted(st, fsz) && Positive(st.list) && At(st, fsz, c, i, j)
    requires Concat(ReadSeries(st, fsz, c, sizes).1) == Rest(st, i, j)
    ensures forall len :: Read(st, fsz, ReadSeries(st, fsz, c, sizes).0, len).1 == Bytes([])
  {
    hide Inv, Rest, Read, ReadSeries, Positive, MessageAt, StandsAt, Concat;
    var i', j' := SeriesConserves(st, fsz, c, i, j, sizes);
    var c' := ReadSeries(st, fsz, c, sizes).0;
    forall len
      ensures Read(st, fsz, c', len).1 == Bytes([])
    {
      ReadNothingLeft(st, fsz, c', i', j', len);
    }
  }

  /** A fresh session, and one that `llseek` has rewound, starts before the first message. */
  lemma FreshSessionDeliversAll(st: Store, fsz: nat, sizes: seq<nat>)
    requires Mounted(st, fsz) && Passable(st.list, fsz) && Positive(st.list)
    requires Positives(sizes) >= |Rest(st, 0, 0)| + |st.list|
    ensures var (c', outs) := ReadSeries(st, fsz, FRESH, sizes);
            Concat(outs) == Rest(st, 0, 0) && forall len :: Read(st, fsz, c', len).1 == Bytes([])
  {
    hide Inv, Rest, Read, ReadSeries, Passable, Positive;
    SeriesDeliversAll(st, fsz, FRESH, 0, 0, sizes);
  }

  lemma ReadNothingLeft(st: Store, fsz: nat, c: Cursor, i: nat, j: nat, len: nat)
    requires Mounted(st, fsz) && Positive(st.list) && At(st, fsz, c, i, j) && Rest(st, i, j) == []
    ensures Read(st, fsz, c, len).1 == Bytes([])
  {
    hide Inv, Rest, Read, Positive, MessageAt, StandsAt;
    if c.off + HEADER >= fsz {
      ReadBeyond(st, fsz, c, len);
    } else {
      var _, _ := ReadAdvances(st, fsz, c, i, j, len);
    }
  }

  // ----- how far the bound check lets a session get -----

  /** A session stuck behind the bound delivers nothing more. */
  lemma {:induction false} StuckSeries(st: Store, fsz: nat, c: Cursor, sizes: seq<nat>)
    requires Inv(st) && c.off + HEADER >= fsz
    ensures forall k :: 0 <= k < |sizes| ==> ReadSeries(st, fsz, c, sizes).1[k] == Bytes([])
    ensures Concat(ReadSeries(st, fsz, c, sizes).1) == []
    decreases |sizes|
  {
    hide Inv;
    if sizes != [] {
      StuckSeries(st, fsz, c, sizes[1..]);
      var rest := ReadSeries(st, fsz, c, sizes[1..]).1;
      assert ([Bytes([])] + rest)[1..] == rest;
    }
  }

  ghost predicate Ones(sizes: seq<nat>) {
    forall k :: 0 <= k < |sizes| ==> sizes[k] == 1
  }

  /** Read byte by byte, a session that has a position beyond the bound ahead of it falls short. */
  lemma {:induction false} FallsShort(st: Store, fsz: nat, c: Cursor, i: nat, j: nat, sizes: seq<nat>, p: nat, q: nat)
    requires Mounted(st, fsz) && Positive(st.list) && At(st, fsz, c, i, j) && c.off > 0 && Ones(sizes)
    requires p < |st.list| && IsPosition(st.list[p], q) && SomeFrom(st.list, p) && !InBound(st.list[p], fsz, q)
    requires i < p || (i == p && j <= q)
    ensures |Concat(ReadSeries(st, fsz, c, sizes).1)| < |Rest(st, i, j)|
    decreases |sizes|
  {
    hide Inv, Read, Rest, Positive, Granted, MessageAt;
    RestIsEmptyIff(st, i, j);
    assert SomeFrom(st.list, i);
    if c.off + HEADER >= fsz {
      StuckSeries(st, fsz, c, sizes);
    } else if sizes == [] {
      NothingRead(st, fsz, c);
    } else {
      var i1, j1 := ReadAdvances(st, fsz, c, i, j, 1);
      assert Ones(sizes[1..]);
      FallsShort(st, fsz, Read(st, fsz, c, 1).0, i1, j1, sizes[1..], p, q);
      FirstOfSeries(st, fsz, c, sizes);
    }
  }

  lemma {:induction false} OnesArePositive(sizes: seq<nat>)
    requires Ones(sizes)
    ensures Positives(sizes) == |sizes|
  {
    if sizes != [] {
      OnesArePositive(sizes[1..]);
    }
  }

  /** Every series with enough non-empty buffers, one for each byte and each message, delivers all. */
  ghost predicate EverySeriesDeliversAll(st: Store, fsz: nat)
    requires Inv(st)
  {
    forall sizes :: Positives(sizes) >= |Rest(st, 0, 0)| + |st.list| ==> Concat(ReadSeries(st, fsz, FRESH, sizes).1) == Rest(st, 0, 0)
  }

  /** An empty read, then byte by byte: the series that meets every position. */
  lemma ByteByByteFallsShort(st: Store, fsz: nat, sizes: seq<nat>)
    requires Mounted(st, fsz) && Positive(st.list) && !Passable(st.list, fsz)
    requires sizes != [] && sizes[0] == 0 && Ones(sizes[1..])
    ensures |Concat(ReadSeries(st, fsz, FRESH, sizes).1)| < |Rest(st, 0, 0)|
  {
    hide Inv, Read, Rest, Positive, Granted, MessageAt;
    RestIsEmptyIff(st, 0, 0);
    assert SomeFrom(st.list, 0);
    if fsz <= HEADER {
      StuckSeries(st, fsz, FRESH, sizes);
    } else {
      var p, q :| 0 <= p < |st.list| && IsPosition(st.list[p], q) && SomeFrom(st.list, p) && (p > 0 || st.list[0].bytes > 0) && !InBound(st.list[p], fsz, q);
      var i1, j1 := ReadAdvances(st, fsz, FRESH, 0, 0, 0);
      FallsShort(st, fsz, Read(st, fsz, FRESH, 0).0, i1, j1, sizes[1..], p, q);
      FirstOfSeries(st, fsz, FRESH, sizes);
    }
  }

  /** The exact condition, for every store and every file size. */
  lemma EverySeriesDeliversAllIff(st: Store, fsz: nat)
    requires Mounted(st, fsz) && Positive(st.list)
    ensures EverySeriesDeliversAll(st, fsz) <==> Passable(st.list, fsz)
  {
    hide Inv, Rest, Read, ReadSeries, Positive, Passable;
    if Passable(st.list, fsz) {
      forall sizes | Positives(sizes) >= |Rest(st, 0, 0)| + |st.list|
        ensures Concat(ReadSeries(st, fsz, FRESH, sizes).1) == Rest(st, 0, 0)
      {
        FreshSessionDeliversAll(st, fsz, sizes);
      }
    } else {
      var ones := seq(|Rest(st, 0, 0)| + |st.list|, k => 1);
      var sizes := [0] + ones;
      assert sizes[1..] == ones;
      OnesArePositive(ones);
      ByteByByteFallsShort(st, fsz, sizes);
      assert Positives(sizes) >= |Rest(st, 0, 0)| + |st.list|;
    }
  }

  // ----- whole messages -----

  /** How many messages of the list, from `i` on, a session reaches: it stops at the first later
      message that starts beyond the bound. */
  function Reached(l: seq<Elem>, fsz: nat, i: nat): (k: nat)
    requires i < |l|
    ensures 1 <= k <= |l| - i
    decreases |l| - i
  {
    if i + 1 < |l| && l[i + 1].ndx * BLOCK_SIZE + METADATA_SIZE + HEADER < fsz then 1 + Reached(l, fsz, i + 1) else 1
  }

  lemma {:induction false} ReachedIsLongestPrefix(l: seq<Elem>, fsz: nat, i: nat)
    requires i < |l|
    ensures forall m :: i < m < i + Reached(l, fsz, i) ==> InBound(l[m], fsz, 0)
    ensures i + Reached(l, fsz, i) < |l| ==> !InBound(l[i + Reached(l, fsz, i)], fsz, 0)
    decreases |l| - i
  {
    if i + 1 < |l| && InBound(l[i + 1], fsz, 0) {
      ReachedIsLongestPrefix(l, fsz, i + 1);
    }
  }

  /** The session will deliver message `i` next: it is fresh, or expects a message within the bound. */
  ghost predicate Expecting(l: seq<Elem>, fsz: nat, c: Cursor, i: nat) {
    i < |l| && c.off + HEADER < fsz && ((c == FRESH && i == 0) || StandsAt(l, c, i, 0))
  }

  lemma WholeMessage(st: Store, fsz: nat, c: Cursor, i: nat, len: nat)
    requires Mounted(st, fsz) && Positive(st.list) && Expecting(st.list, fsz, c, i) && len >= MAX_MESSAGE
    ensures Read(st, fsz, c, len) == (Expect(st.list, fsz, i, c.ts), Bytes(MessageAt(st, i)))
  {
    hide Inv, Read, MessageAt, Expect, StandsAt, Positive;
    ListedFits(st, i);
    ReadAt(st, fsz, c, i, 0, len);
    PositionOf(st, c, i, 0);
    GrantedCovers(fsz, c.off, 0, st.list[i].bytes, len);
    assert MessageAt(st, i)[0..st.list[i].bytes] == MessageAt(st, i);
  }

  ghost predicate AtLeast(sizes: seq<nat>, n: nat) {
    forall k :: 0 <= k < |sizes| ==> sizes[k] >= n
  }

  lemma {:induction false} SeriesOfWholeMessages(st: Store, fsz: nat, c: Cursor, i: nat, sizes: seq<nat>)
    requires Mounted(st, fsz) && Positive(st.list) && Expecting(st.list, fsz, c, i) && AtLeast(sizes, MAX_MESSAGE)
    ensures forall k :: 0 <= k < |sizes| ==>
              ReadSeries(st, fsz, c, sizes).1[k] ==
              if k < Reached(st.list, fsz, i) then Bytes(MessageAt(st, i + k)) else Bytes([])
    decreases |sizes|
  {
    hide Inv, Read, Locate, MessageAt, Positive;
    if sizes != [] {
      WholeMessage(st, fsz, c, i, sizes[0]);
      var c' := Expect(st.list, fsz, i, c.ts);
      assert AtLeast(sizes[1..], MAX_MESSAGE);
      if i + 1 < |st.list| && InBound(st.list[i + 1], fsz, 0) {
        SuccessorExpected(st, fsz, i, c.ts);
        SeriesOfWholeMessages(st, fsz, c', i + 1, sizes[1..]);
      } else {
        StuckSeries(st, fsz, c', sizes[1..]);
      }
    }
  }

  lemma SuccessorExpected(st: Store, fsz: nat, i: nat, ts: Time)
    requires Inv(st) && i + 1 < |st.list| && InBound(st.list[i + 1], fsz, 0)
    ensures Expecting(st.list, fsz, Expect(st.list, fsz, i, ts), i + 1)
  {
    hide DeviceAgrees;
  }

  /** With buffers that hold any message, the k-th read of a fresh session returns message k whole,
      up to the first later message that starts beyond the bound; from there on, and at the end of
      the list, it returns nothing. */
  lemma FreshSessionWholeMessages(st: Store, fsz: nat, sizes: seq<nat>)
    requires Mounted(st, fsz) && Positive(st.list) && AtLeast(sizes, MAX_MESSAGE)
    ensures forall k :: 0 <= k < |sizes| ==>
              ReadSeries(st, fsz, FRESH, sizes).1[k] ==
              if st.list != [] && HEADER < fsz && k < Reached(st.list, fsz, 0) then Bytes(MessageAt(st, k)) else Bytes([])
  {
    hide Inv, Read, ReadSeries, Reached, MessageAt;
    if fsz <= HEADER {
      StuckSeries(st, fsz, FRESH, sizes);
    } else if st.list == [] {
      EmptySeries(st, fsz, sizes);
    } else {
      SeriesOfWholeMessages(st, fsz, FRESH, 0, sizes);
    }
  }

  lemma EmptySeries(st: Store, fsz: nat, sizes: seq<nat>)
    requires Inv(st) && st.list == [] && HEADER < fsz
    ensures forall k :: 0 <= k < |sizes| ==> ReadSeries(st, fsz, FRESH, sizes).1[k] == Bytes([])
  {
    hide Inv;
    if sizes != [] {
      StuckSeries(st, fsz, Cursor(fsz, 0), sizes[1..]);
    }
  }

  /** So, whatever the file size, a fresh session delivers every message exactly if each message that
      is not empty, and each message before it but the first, starts within the bound. */
  lemma DeliversEveryMessageIff(st: Store, fsz: nat, sizes: seq<nat>)
    requires Mounted(st, fsz) && Positive(st.list) && AtLeast(sizes, MAX_MESSAGE) && |sizes| >= |st.list|
    ensures (forall k :: 0 <= k < |st.list| ==> ReadSeries(st, fsz, FRESH, sizes).1[k] == Bytes(MessageAt(st, k))) <==>
            forall k :: 0 <= k < |st.list| && st.list[k].bytes > 0 ==>
              HEADER < fsz && forall i :: 1 <= i <= k ==> InBound(st.list[i], fsz, 0)
  {
    hide Inv, Read, ReadSeries, Reached;
    FreshSessionWholeMessages(st, fsz, sizes);
    if st.list != [] {
      ReachedIsLongestPrefix(st.list, fsz, 0);
      var p := Reached(st.list, fsz, 0);
      forall k | 0 <= k < |st.list|
        ensures |MessageAt(st, k)| == st.list[k].bytes
        ensures k >= p ==> !InBound(st.list[p], fsz, 0)
      {
      }
    }
  }

  // ----- a reader that stops at the first empty result -----

  /** What a reader gets that calls `read` until it returns nothing. */
  ghost function UntilNothing(outs: seq<Outcome>): seq<Byte> {
    if outs == [] || outs[0].Unset? || outs[0].data == [] then [] else outs[0].data + UntilNothing(outs[1..])
  }

  /** From message `i` on, every message that is followed by one that is not empty is not empty itself,
      and its successor starts within the bound. */
  ghost predicate Unbroken(l: seq<Elem>, fsz: nat, i: nat) {
    forall k: nat :: i <= k < |l| ==> Joined(l, fsz, k)
  }

  ghost predicate Joined(l: seq<Elem>, fsz: nat, k: nat)
    requires k < |l|
  {
    SomeFrom(l, k + 1) ==> l[k].bytes > 0 && InBound(l[k + 1], fsz, 0)
  }

  lemma UnbrokenFrom(l: seq<Elem>, fsz: nat, i: nat)
    requires i < |l|
    ensures Unbroken(l, fsz, i) <==> Joined(l, fsz, i) && Unbroken(l, fsz, i + 1)
  {
    hide Joined;
  }

  /** Nothing follows, nothing is broken. */
  lemma UnbrokenAtEnd(l: seq<Elem>, fsz: nat, i: nat)
    requires !SomeFrom(l, i)
    ensures Unbroken(l, fsz, i) && !SomeFrom(l, i + 1)
  {
  }

  lemma UntilNothingFirst(st: Store, fsz: nat, c: Cursor, sizes: seq<nat>)
    requires Inv(st) && sizes != []
    ensures var (c1, out) := Read(st, fsz, c, sizes[0]);
            UntilNothing(ReadSeries(st, fsz, c, sizes).1) ==
            if out.Unset? || out.data == [] then [] else out.data + UntilNothing(ReadSeries(st, fsz, c1, sizes[1..]).1)
  {
    hide Inv, Read;
    var (c1, out) := Read(st, fsz, c, sizes[0]);
    var rest := ReadSeries(st, fsz, c1, sizes[1..]).1;
    assert ReadSeries(st, fsz, c, sizes).1 == [out] + rest && ([out] + rest)[1..] == rest;
  }

  lemma UntilNothingStuck(st: Store, fsz: nat, c: Cursor, sizes: seq<nat>)
    requires Inv(st) && c.off + HEADER >= fsz
    ensures UntilNothing(ReadSeries(st, fsz, c, sizes).1) == []
  {
    hide Inv;
    if sizes != [] {
      UntilNothingFirst(st, fsz, c, sizes);
    }
  }

  lemma {:induction false} LoopFrom(st: Store, fsz: nat, c: Cursor, i: nat, sizes: seq<nat>)
    requires Mounted(st, fsz) && Positive(st.list) && Expecting(st.list, fsz, c, i)
    requires AtLeast(sizes, MAX_MESSAGE) && |sizes| >= |st.list| - i
    ensures UntilNothing(ReadSeries(st, fsz, c, sizes).1) == Rest(st, i, 0) <==> Unbroken(st.list, fsz, i)
    decreases |sizes|
  {
    hide Inv, Read, ReadSeries, UntilNothing, MessageAt, Rest, Positive, SomeFrom, Unbroken, StandsAt, Expect;
    var l := st.list;
    RestFrom(st, i);
    WholeMessage(st, fsz, c, i, sizes[0]);
    UntilNothingFirst(st, fsz, c, sizes);
    UnbrokenFrom(l, fsz, i);
    RestIsEmptyIff(st, i + 1, 0);
    assert AtLeast(sizes[1..], MAX_MESSAGE);
    var c' := Expect(l, fsz, i, c.ts);
    if !SomeFrom(l, i + 1) {
      UnbrokenAtEnd(l, fsz, i + 1);
    }
    if i + 1 < |l| && InBound(l[i + 1], fsz, 0) {
      SuccessorExpected(st, fsz, i, c.ts);
      LoopFrom(st, fsz, c', i + 1, sizes[1..]);
      SameTails(MessageAt(st, i), UntilNothing(ReadSeries(st, fsz, c', sizes[1..]).1), Rest(st, i + 1, 0));
    } else {
      BeyondAfter(l, fsz, i, c.ts);
      UntilNothingStuck(st, fsz, c', sizes[1..]);
    }
  }

  lemma RestFrom(st: Store, i: nat)
    requires Inv(st) && i < |st.list|
    ensures Rest(st, i, 0) == MessageAt(st, i) + Rest(st, i + 1, 0)
  {
    hide Inv, MessageAt;
    assert MessageAt(st, i)[0..] == MessageAt(st, i);
  }

  lemma SameTails(a: seq<Byte>, b: seq<Byte>, c: seq<Byte>)
    ensures a + b == a + c <==> b == c
  {
    assert (a + b)[|a|..] == b && (a + c)[|a|..] == c;
  }

  lemma BeyondAfter(l: seq<Elem>, fsz: nat, i: nat, ts: Time)
    requires i < |l| && !(i + 1 < |l| && InBound(l[i + 1], fsz, 0))
    ensures Expect(l, fsz, i, ts).off + HEADER >= fsz && (i + 1 == |l| ==> !SomeFrom(l, i + 1))
  {
  }

  /** A reader with buffers for any message that stops at the first empty result gets all messages if and
      only if nothing is broken: an empty message, or one that starts beyond the bound, cuts off all
      that follow it. */
  lemma LoopDeliversAllIff(st: Store, fsz: nat, sizes: seq<nat>)
    requires Mounted(st, fsz) && Positive(st.list) && AtLeast(sizes, MAX_MESSAGE) && |sizes| >= |st.list|
    ensures UntilNothing(ReadSeries(st, fsz, FRESH, sizes).1) == Rest(st, 0, 0) <==>
            (SomeFrom(st.list, 0) ==> HEADER < fsz) && Unbroken(st.list, fsz, 0)
  {
    hide Inv, Read, ReadSeries, UntilNothing, Rest, MessageAt, Positive, SomeFrom, Unbroken;
    RestIsEmptyIff(st, 0, 0);
    if !SomeFrom(st.list, 0) {
      UnbrokenAtEnd(st.list, fsz, 0);
    }
    if fsz <= HEADER {
      UntilNothingStuck(st, fsz, FRESH, sizes);
    } else if st.list == [] {
      NothingListed(st, fsz, sizes);
    } else {
      LoopFrom(st, fsz, FRESH, 0, sizes);
    }
  }

  lemma NothingListed(st: Store, fsz: nat, sizes: seq<nat>)
    requires Inv(st) && st.list == [] && HEADER < fsz
    ensures UntilNothing(ReadSeries(st, fsz, FRESH, sizes).1) == [] && !SomeFrom(st.list, 0)
  {
    hide Inv;
    EmptySeries(st, fsz, sizes);
  }

  /** On a file of whole blocks the bound hides exactly the last two. */
  lemma BoundInBlocks(fsz: nat, e: Elem)
    requires fsz % BLOCK_SIZE == 0
    ensures InBound(e, fsz, 0) <==> e.ndx + 2 < fsz / BLOCK_SIZE
  {
  }
}
