/** A reading session while puts and invalidations happen between its calls. */
module Interleaved {
  import opened Layout
  import opened SortedList
  import opened StoreSpec
  import opened Session

  // ----- how the store ages -----

  /** Block by block, the later store holds the same record, the same record invalidated, or a newer one. */
  ghost predicate Ages(st: Store, st': Store) {
    && |st.arr| == |st'.arr|
    && forall b :: 0 <= b < |st.arr| ==> AgesAt(st.arr[b], st'.arr[b])
  }

  ghost predicate AgesAt(m: Metadata, m': Metadata) {
    m.nsec < m'.nsec || (m.nsec == m'.nsec && m.bytes == m'.bytes && (m'.valid ==> m.valid))
  }

  /** Every put of the run gives the block it reuses a newer timestamp. */
  ghost predicate NewerPuts(st: Store, ops: seq<Op>)
    requires Shape(st)
    decreases |ops|
  {
    ops == [] || (NewerPut(st, ops[0]) && NewerPuts(Apply(st, ops[0]), ops[1..]))
  }

  ghost predicate NewerPut(st: Store, op: Op)
    requires Shape(st)
  {
    Chosen(st, op).Some? ==> op.ts > st.arr[Chosen(st, op).value].nsec
  }

  lemma ApplyAges(st: Store, op: Op)
    requires Inv(st) && NewerPut(st, op)
    ensures Ages(st, Apply(st, op))
  {
    hide DeviceAgrees, ListAgrees, Search;
  }

  /** Any run of puts and invalidations in which reused blocks get newer timestamps ages the store. */
  lemma {:induction false} RunAges(st: Store, ops: seq<Op>)
    requires Inv(st) && NewerPuts(st, ops)
    ensures Ages(st, ApplyAll(st, ops))
    decreases |ops|
  {
    hide DeviceAgrees, ListAgrees, Apply, NewerPut;
    if ops != [] {
      ApplyAges(st, ops[0]);
      ApplyKeepsInv(st, ops[0]);
      RunAges(Apply(st, ops[0]), ops[1..]);
      AgesTransitive(st, Apply(st, ops[0]), ApplyAll(st, ops));
    }
  }

  lemma AgesTransitive(a: Store, b: Store, c: Store)
    requires Ages(a, b) && Ages(b, c)
    ensures Ages(a, c)
  {
    forall k | 0 <= k < |a.arr|
      ensures AgesAt(a.arr[k], c.arr[k])
    {
      assert AgesAt(a.arr[k], b.arr[k]) && AgesAt(b.arr[k], c.arr[k]);
    }
  }

  /** The element that now occupies a block is the one that was there, or a newer one. */
  lemma SameBlockNotOlder(st: Store, st': Store, x: Elem, y: Elem)
    requires Inv(st) && Inv(st') && Ages(st, st') && x in st.list && y in st'.list && x.ndx == y.ndx
    ensures y == x || y.nsec > x.nsec
  {
    hide DeviceAgrees, Sorted, DistinctBlocks;
    var i :| 0 <= i < |st.list| && st.list[i] == x;
    var j :| 0 <= j < |st'.list| && st'.list[j] == y;
    assert Mirrors(st.arr, st.list[i]) && Mirrors(st'.arr, st'.list[j]);
    assert AgesAt(st.arr[x.ndx], st'.arr[x.ndx]);
  }

  // ----- the session -----

  /** The stores met by the calls of a session: each call sees one of them, and between two calls
      the store ages. */
  ghost predicate History(stores: seq<Store>, fsz: nat) {
    AllRegular(stores, fsz) && AllAge(stores)
  }

  ghost predicate AllRegular(stores: seq<Store>, fsz: nat) {
    forall k :: 0 <= k < |stores| ==> Regular(stores[k], fsz)
  }

  ghost predicate AllAge(stores: seq<Store>) {
    forall k, m :: 0 <= k && m == k + 1 && m < |stores| ==> Ages(stores[k], stores[m])
  }

  ghost predicate Regular(st: Store, fsz: nat) {
    Mounted(st, fsz) && HEADER < fsz && Tidy(st.list, fsz)
  }

  /** Timestamps are distinct and positive, and every message starts within the bound. */
  ghost predicate Tidy(l: seq<Elem>, fsz: nat) {
    StrictlySorted(l) && Positive(l) && StartsInBound(l, fsz)
  }

  ghost predicate StartsInBound(l: seq<Elem>, fsz: nat) {
    forall i :: 0 <= i < |l| ==> InBound(l[i], fsz, 0)
  }

  /** The session before its call number `k`, each call with a buffer that holds any message. */
  ghost function CursorAt(stores: seq<Store>, fsz: nat, sizes: seq<nat>, k: nat): Cursor
    requires AllRegular(stores, fsz) && k <= |stores| && |sizes| == |stores|
  {
    if k == 0 then FRESH else
      assert Regular(stores[k - 1], fsz);
      Read(stores[k - 1], fsz, CursorAt(stores, fsz, sizes, k - 1), sizes[k - 1]).0
  }

  /** The element a call delivers. */
  ghost function Hit(st: Store, fsz: nat, c: Cursor): Option<Elem> {
    if c.off + HEADER >= fsz then None
    else match Locate(st.list, c.off / BLOCK_SIZE, c.ts)
      case None => None
      case Some(i) => Some(st.list[i])
  }

  ghost function HitAt(stores: seq<Store>, fsz: nat, sizes: seq<nat>, k: nat): Option<Elem>
    requires AllRegular(stores, fsz) && k < |stores| && |sizes| == |stores|
  {
    Hit(stores[k], fsz, CursorAt(stores, fsz, sizes, k))
  }

  /** The session stands at the start of a block's data, or at the very beginning of the file. */
  ghost predicate AtStart(c: Cursor) {
    c == FRESH || c.off % BLOCK_SIZE == METADATA_SIZE
  }

  /** What one call does with a buffer that holds any message. */
  lemma OneCall(st: Store, fsz: nat, c: Cursor, len: nat)
    requires Mounted(st, fsz) && AtStart(c) && len >= MAX_MESSAGE && c.off + HEADER < fsz
    ensures var (c', out) := Read(st, fsz, c, len);
            match Locate(st.list, c.off / BLOCK_SIZE, c.ts)
            case None => c'.off == fsz && out == Bytes([])
            case Some(i) => c' == Expect(st.list, fsz, i, c.ts) && out == Bytes(MessageAt(st, i))
  {
    hide ListAgrees, DeviceAgrees, Deliver, MessageAt, Expect;
    var q := Prepare(fsz, c.off, len);
    assert q.o == METADATA_SIZE && q.len == MAX_MESSAGE;
    match Locate(st.list, c.off / BLOCK_SIZE, c.ts)
    case None =>
    case Some(i) =>
      var e := st.list[i];
      ListedFits(st, i);
      assert MessageAt(st, i)[0..e.bytes] == MessageAt(st, i);
      DeliverAt(st, fsz, i, 0, q, e.bytes, c.ts);
      DeliverAt(st, fsz, i, 0, Request(e.ndx * BLOCK_SIZE + METADATA_SIZE, METADATA_SIZE, Min(e.bytes, q.len)), e.bytes, c.ts);
  }

  /** `m` is valid at each of the first `k` calls. */
  ghost predicate Throughout(stores: seq<Store>, k: nat, m: Elem)
    requires k <= |stores|
  {
    forall q :: 0 <= q < k ==> m in stores[q].list
  }

  ghost predicate HitBefore(stores: seq<Store>, fsz: nat, sizes: seq<nat>, k: nat, m: Elem)
    requires AllRegular(stores, fsz) && k <= |stores| && |sizes| == |stores|
  {
    exists q :: 0 <= q < k && HitAt(stores, fsz, sizes, q) == Some(m)
  }

  /** After `k` calls: everything valid throughout has been delivered and the file is at its end. */
  ghost predicate Finished(stores: seq<Store>, fsz: nat, sizes: seq<nat>, k: nat)
    requires AllRegular(stores, fsz) && k <= |stores| && |sizes| == |stores|
  {
    && CursorAt(stores, fsz, sizes, k).off == fsz
    && forall m :: Throughout(stores, k, m) ==> HitBefore(stores, fsz, sizes, k, m)
  }

  /** After `k` calls: the session expects `x`, everything delivered is older than `x`, and
      everything older than `x` and valid throughout has been delivered. */
  ghost predicate Waiting(stores: seq<Store>, fsz: nat, sizes: seq<nat>, k: nat, x: Elem)
    requires AllRegular(stores, fsz) && k <= |stores| && |sizes| == |stores|
  {
    && k > 0 && x in stores[k - 1].list
    && CursorAt(stores, fsz, sizes, k) == Cursor(x.ndx * BLOCK_SIZE + METADATA_SIZE, x.nsec)
    && (forall q :: 0 <= q < k && HitAt(stores, fsz, sizes, q).Some? ==> HitAt(stores, fsz, sizes, q).value.nsec < x.nsec)
    && (forall m :: Throughout(stores, k, m) && m.nsec < x.nsec ==> HitBefore(stores, fsz, sizes, k, m))
  }

  /** The element expected is in bounds, so the call looks for it; what it finds is not older, and
      everything listed before that is older than expected and was not the expected block. */
  lemma SearchFromExpected(prev: Store, st: Store, fsz: nat, x: Elem)
    requires Regular(prev, fsz) && Regular(st, fsz) && Ages(prev, st) && x in prev.list
    ensures var c := Cursor(x.ndx * BLOCK_SIZE + METADATA_SIZE, x.nsec);
            && c.off + HEADER < fsz && c.off / BLOCK_SIZE == x.ndx && AtStart(c)
            && match Locate(st.list, x.ndx, x.nsec)
               case None => forall m :: m in st.list && m in prev.list ==> m.nsec < x.nsec
               case Some(i) =>
                 && st.list[i].nsec >= x.nsec
                 && forall j :: 0 <= j < i && st.list[j] in prev.list ==> st.list[j].nsec < x.nsec
  {
    hide Inv, Positive, AgesAt;
    var i0 :| 0 <= i0 < |prev.list| && prev.list[i0] == x;
    assert InBound(prev.list[i0], fsz, 0);
    forall m | m in prev.list && m.ndx != x.ndx
      ensures m.nsec != x.nsec
    {
      DistinctStamps(prev.list, m, x);
    }
    match Locate(st.list, x.ndx, x.nsec)
    case None =>
    case Some(i) =>
      if st.list[i].ndx == x.ndx {
        SameBlockNotOlder(prev, st, x, st.list[i]);
      }
  }

  lemma DistinctStamps(l: seq<Elem>, a: Elem, b: Elem)
    requires StrictlySorted(l) && a in l && b in l
    ensures a.nsec == b.nsec ==> a == b
  {
    var i :| 0 <= i < |l| && l[i] == a;
    var j :| 0 <= j < |l| && l[j] == b;
    assert i < j ==> l[i].nsec < l[j].nsec;
    assert j < i ==> l[j].nsec < l[i].nsec;
  }

  lemma HitsGrow(stores: seq<Store>, fsz: nat, sizes: seq<nat>, k: nat, m: Elem)
    requires History(stores, fsz) && k < |stores| && |sizes| == |stores|
    ensures HitBefore(stores, fsz, sizes, k + 1, m) <==>
            HitBefore(stores, fsz, sizes, k, m) || HitAt(stores, fsz, sizes, k) == Some(m)
  {
    hide AllRegular, AllAge, HitAt;
    if HitBefore(stores, fsz, sizes, k, m) {
      var q :| 0 <= q < k && HitAt(stores, fsz, sizes, q) == Some(m);
      assert 0 <= q < k + 1;
    }
  }

  lemma RegularAt(stores: seq<Store>, fsz: nat, k: nat)
    requires AllRegular(stores, fsz) && k < |stores|
    ensures Regular(stores[k], fsz)
  {
    hide Regular;
  }

  /** In a strictly sorted list, being older than the successor of `i` means being at `i` or before. */
  lemma NotAfter(l: seq<Elem>, i: nat, j: nat)
    requires StrictlySorted(l) && i < |l| && j < |l|
    ensures i + 1 < |l| ==> l[i].nsec < l[i + 1].nsec
    ensures i + 1 < |l| && l[j].nsec < l[i + 1].nsec ==> j <= i
  {
  }

  lemma DeliveredUpTo(stores: seq<Store>, fsz: nat, sizes: seq<nat>, k: nat, i: nat, m: Elem)
    requires History(stores, fsz) && k < |stores| && |sizes| == |stores| && i < |stores[k].list|
    requires HitAt(stores, fsz, sizes, k) == Some(stores[k].list[i])
    requires forall j :: 0 <= j < i && Throughout(stores, k + 1, stores[k].list[j]) ==> HitBefore(stores, fsz, sizes, k, stores[k].list[j])
    requires Throughout(stores, k + 1, m) && (i + 1 < |stores[k].list| ==> m.nsec < stores[k].list[i + 1].nsec)
    ensures HitBefore(stores, fsz, sizes, k + 1, m)
  {
    hide AllRegular, AllAge, HitAt, HitBefore, Mounted, Positive, StartsInBound, StrictlySorted;
    var l := stores[k].list;
    RegularAt(stores, fsz, k);
    assert m in stores[k].list;
    var j :| 0 <= j < |l| && l[j] == m;
    NotAfter(l, i, j);
    HitsGrow(stores, fsz, sizes, k, m);
  }

  /** If everything valid so far was delivered up to index `i`, the session goes on to the successor
      of `i`, or is finished. */
  lemma AfterHit(stores: seq<Store>, fsz: nat, sizes: seq<nat>, k: nat, i: nat, ts: Time)
    requires History(stores, fsz) && k < |stores| && |sizes| == |stores| && i < |stores[k].list|
    requires HitAt(stores, fsz, sizes, k) == Some(stores[k].list[i])
    requires CursorAt(stores, fsz, sizes, k + 1) == Expect(stores[k].list, fsz, i, ts)
    requires forall q :: 0 <= q < k && HitAt(stores, fsz, sizes, q).Some? ==> HitAt(stores, fsz, sizes, q).value.nsec < stores[k].list[i].nsec
    requires forall j :: 0 <= j < i && Throughout(stores, k + 1, stores[k].list[j]) ==> HitBefore(stores, fsz, sizes, k, stores[k].list[j])
    ensures if i + 1 == |stores[k].list| then Finished(stores, fsz, sizes, k + 1)
            else Waiting(stores, fsz, sizes, k + 1, stores[k].list[i + 1])
  {
    hide AllRegular, AllAge, Mounted, Positive, StartsInBound, HitAt, CursorAt, HitBefore, Throughout, StrictlySorted;
    var l := stores[k].list;
    RegularAt(stores, fsz, k);
    NotAfter(l, i, i);
    var n := k + 1;
    forall m | Throughout(stores, n, m) && (i + 1 < |l| ==> m.nsec < l[i + 1].nsec)
      ensures HitBefore(stores, fsz, sizes, n, m)
    {
      DeliveredUpTo(stores, fsz, sizes, k, i, m);
    }
  }

  lemma HistoryStep(stores: seq<Store>, fsz: nat, k: nat)
    requires History(stores, fsz) && 0 < k < |stores|
    ensures Regular(stores[k - 1], fsz) && Regular(stores[k], fsz) && Ages(stores[k - 1], stores[k])
  {
    hide Regular, Ages;
  }

  lemma CallFromExpected(stores: seq<Store>, fsz: nat, sizes: seq<nat>, k: nat, x: Elem)
    requires History(stores, fsz) && k < |stores| && |sizes| == |stores| && AtLeast(sizes, MAX_MESSAGE)
    requires Waiting(stores, fsz, sizes, k, x)
    ensures match Locate(stores[k].list, x.ndx, x.nsec)
            case None => Finished(stores, fsz, sizes, k + 1)
            case Some(i) => if i + 1 == |stores[k].list| then Finished(stores, fsz, sizes, k + 1)
                            else Waiting(stores, fsz, sizes, k + 1, stores[k].list[i + 1])
  {
    hide AllRegular, AllAge, Ages, Inv, StrictlySorted, Positive, StartsInBound, Read, HitBefore, Locate;
    var st := stores[k];
    HistoryStep(stores, fsz, k);
    SearchFromExpected(stores[k - 1], st, fsz, x);
    var c := CursorAt(stores, fsz, sizes, k);
    OneCall(st, fsz, c, sizes[k]);
    match Locate(st.list, x.ndx, x.nsec)
    case None =>
      var n := k + 1;
      forall m | Throughout(stores, n, m)
        ensures HitBefore(stores, fsz, sizes, n, m)
      {
        EarlierDelivered(stores, fsz, sizes, k, x, m);
      }
    case Some(i) =>
      forall j | 0 <= j < i && Throughout(stores, k + 1, st.list[j])
        ensures HitBefore(stores, fsz, sizes, k, st.list[j])
      {
        assert st.list[j] in stores[k - 1].list;
        assert Throughout(stores, k, st.list[j]);
      }
      AfterHit(stores, fsz, sizes, k, i, c.ts);
  }

  lemma EarlierDelivered(stores: seq<Store>, fsz: nat, sizes: seq<nat>, k: nat, x: Elem, m: Elem)
    requires History(stores, fsz) && k < |stores| && |sizes| == |stores| && Waiting(stores, fsz, sizes, k, x)
    requires Throughout(stores, k + 1, m) && (m in stores[k].list && m in stores[k - 1].list ==> m.nsec < x.nsec)
    ensures HitBefore(stores, fsz, sizes, k + 1, m)
  {
    hide AllRegular, AllAge, HitAt, HitBefore, CursorAt;
    assert Throughout(stores, k, m);
    HitsGrow(stores, fsz, sizes, k, m);
  }

  lemma FirstCall(stores: seq<Store>, fsz: nat, sizes: seq<nat>)
    requires History(stores, fsz) && 0 < |stores| && |sizes| == |stores| && AtLeast(sizes, MAX_MESSAGE)
    ensures if |stores[0].list| <= 1 then Finished(stores, fsz, sizes, 1) else Waiting(stores, fsz, sizes, 1, stores[0].list[1])
  {
    hide AllRegular, AllAge, Inv, StrictlySorted, StartsInBound, Read, HitBefore;
    var st := stores[0];
    RegularAt(stores, fsz, 0);
    OneCall(st, fsz, FRESH, sizes[0]);
    assert CursorAt(stores, fsz, sizes, 1) == Read(st, fsz, FRESH, sizes[0]).0;
    if st.list == [] {
      assert stores[0].list == [];
    } else {
      assert Locate(st.list, 0, 0) == Some(0);
      assert HitAt(stores, fsz, sizes, 0) == Some(st.list[0]);
      AfterHit(stores, fsz, sizes, 0, 0, 0);
    }
  }

  /** After any number of calls the session is fresh, waiting or finished. */
  lemma {:induction false} SessionProgress(stores: seq<Store>, fsz: nat, sizes: seq<nat>, k: nat) returns (x: Option<Elem>)
    requires History(stores, fsz) && k <= |stores| && |sizes| == |stores| && AtLeast(sizes, MAX_MESSAGE)
    ensures k > 0 ==> if x.Some? then Waiting(stores, fsz, sizes, k, x.value) else Finished(stores, fsz, sizes, k)
    decreases k
  {
    hide AllRegular, AllAge, Waiting, Finished, Locate, AtLeast;
    x := None;
    if k == 1 {
      FirstCall(stores, fsz, sizes);
      x := if |stores[0].list| <= 1 then None else Some(stores[0].list[1]);
    } else if k > 1 {
      var y := SessionProgress(stores, fsz, sizes, k - 1);
      if y.Some? {
        CallFromExpected(stores, fsz, sizes, k - 1, y.value);
        var l := stores[k - 1].list;
        var r := Locate(l, y.value.ndx, y.value.nsec);
        x := if r.None? || r.value + 1 == |l| then None else Some(l[r.value + 1]);
      } else {
        StaysFinished(stores, fsz, sizes, k - 1);
      }
    }
  }

  lemma StaysFinished(stores: seq<Store>, fsz: nat, sizes: seq<nat>, k: nat)
    requires History(stores, fsz) && k < |stores| && |sizes| == |stores| && Finished(stores, fsz, sizes, k)
    ensures Finished(stores, fsz, sizes, k + 1) && HitAt(stores, fsz, sizes, k) == None
  {
    hide AllRegular, AllAge, HitBefore, Inv, Tidy;
    RegularAt(stores, fsz, k);
    var n := k + 1;
    forall m | Throughout(stores, n, m)
      ensures HitBefore(stores, fsz, sizes, n, m)
    {
      assert Throughout(stores, k, m);
      HitsGrow(stores, fsz, sizes, k, m);
    }
  }

  /** What the session delivers, call by call: nothing, or exactly the message of an element that
      is valid at that call. */
  lemma CallDelivers(stores: seq<Store>, fsz: nat, sizes: seq<nat>, k: nat)
    requires AllRegular(stores, fsz) && k < |stores| && |sizes| == |stores| && AtLeast(sizes, MAX_MESSAGE)
    ensures Regular(stores[k], fsz)
    ensures var out := Read(stores[k], fsz, CursorAt(stores, fsz, sizes, k), sizes[k]).1;
            match HitAt(stores, fsz, sizes, k)
            case None => out == Bytes([])
            case Some(e) => exists i :: 0 <= i < |stores[k].list| && stores[k].list[i] == e && out == Bytes(MessageAt(stores[k], i))
  {
    hide AllRegular, AllAge, StrictlySorted, Positive, StartsInBound, MessageAt, CursorAt, Prepare, Deliver, AtStart, Inv;
    RegularAt(stores, fsz, k);
    var c := CursorAt(stores, fsz, sizes, k);
    if c.off + HEADER < fsz {
      var _ := SessionShape(stores, fsz, sizes, k);
      OneCall(stores[k], fsz, c, sizes[k]);
    }
  }

  /** Timestamps strictly increase from one delivered message to the next. */
  lemma DeliveredInOrder(stores: seq<Store>, fsz: nat, sizes: seq<nat>, q: nat, k: nat)
    requires History(stores, fsz) && q < k < |stores| && |sizes| == |stores| && AtLeast(sizes, MAX_MESSAGE)
    requires HitAt(stores, fsz, sizes, q).Some? && HitAt(stores, fsz, sizes, k).Some?
    ensures HitAt(stores, fsz, sizes, q).value.nsec < HitAt(stores, fsz, sizes, k).value.nsec
  {
    hide AllRegular, AllAge, Regular, Ages, HitBefore, Throughout, CursorAt;
    var x := SessionProgress(stores, fsz, sizes, k);
    if x.None? {
      StaysFinished(stores, fsz, sizes, k);
    } else {
      HistoryStep(stores, fsz, k);
      SearchFromExpected(stores[k - 1], stores[k], fsz, x.value);
    }
  }

  /** When the session reports the end of the file, every message that was valid at each of its
      calls so far has been delivered. */
  lemma NothingSkipped(stores: seq<Store>, fsz: nat, sizes: seq<nat>, k: nat, m: Elem)
    requires History(stores, fsz) && k < |stores| && |sizes| == |stores| && AtLeast(sizes, MAX_MESSAGE)
    requires HitAt(stores, fsz, sizes, k).None? && Throughout(stores, k + 1, m)
    ensures HitBefore(stores, fsz, sizes, k, m)
  {
    var x := SessionProgress(stores, fsz, sizes, k + 1);
    var y := SessionProgress(stores, fsz, sizes, k);
    hide HitBefore, Regular, Ages;
    HitsGrow(stores, fsz, sizes, k, m);
    if k == 0 {
      FirstCallHits(stores, fsz, sizes, m);
    } else if y.Some? {
      ExpectedMissHits(stores, fsz, sizes, k, y.value, m);
    } else {
      assert Throughout(stores, k, m);
    }
  }

  lemma FirstCallHits(stores: seq<Store>, fsz: nat, sizes: seq<nat>, m: Elem)
    requires History(stores, fsz) && 0 < |stores| && |sizes| == |stores|
    requires HitAt(stores, fsz, sizes, 0).None?
    ensures !Throughout(stores, 1, m)
  {
    hide AllRegular, AllAge, Inv, StrictlySorted, StartsInBound, Positive, Locate;
    RegularAt(stores, fsz, 0);
    FreshFindsFirst(stores[0].list);
  }

  lemma FreshFindsFirst(l: seq<Elem>)
    requires Positive(l)
    ensures Locate(l, 0, 0).None? ==> l == []
  {
    if l != [] {
      assert l[0].nsec > 0;
    }
  }

  lemma ExpectedMissHits(stores: seq<Store>, fsz: nat, sizes: seq<nat>, k: nat, x: Elem, m: Elem)
    requires History(stores, fsz) && 0 < k < |stores| && |sizes| == |stores| && Waiting(stores, fsz, sizes, k, x)
    requires HitAt(stores, fsz, sizes, k).None? && Throughout(stores, k + 1, m)
    ensures HitBefore(stores, fsz, sizes, k, m)
  {
    hide AllRegular, AllAge, Inv, StrictlySorted, StartsInBound, HitBefore, Ages, Regular;
    HistoryStep(stores, fsz, k);
    SearchFromExpected(stores[k - 1], stores[k], fsz, x);
    assert m in stores[k].list && m in stores[k - 1].list;
    assert Throughout(stores, k, m);
  }

  // ----- exactly when the order is kept -----

  /** Every message in block `b` is newer than `d`. */
  ghost predicate NewerIn(l: seq<Elem>, b: nat, d: Time) {
    forall i :: 0 <= i < |l| && l[i].ndx == b ==> l[i].nsec > d
  }

  /** The call that expects `x`, after a message with timestamp `d`, delivers something newer than
      `d` if and only if what is now in the block of `x` is newer than `d`. */
  lemma NextIsNewerIff(st: Store, fsz: nat, x: Elem, d: Time)
    requires Regular(st, fsz) && InBound(x, fsz, 0) && d < x.nsec
    ensures var h := Hit(st, fsz, Cursor(x.ndx * BLOCK_SIZE + METADATA_SIZE, x.nsec));
            (h.Some? ==> h.value.nsec > d) <==> NewerIn(st.list, x.ndx, d)
  {
    hide Inv, Positive, StartsInBound;
    var c := Cursor(x.ndx * BLOCK_SIZE + METADATA_SIZE, x.nsec);
    assert c.off / BLOCK_SIZE == x.ndx && c.off + HEADER < fsz;
    var h := Locate(st.list, x.ndx, x.nsec);
    if j :| 0 <= j < |st.list| && st.list[j].ndx == x.ndx && st.list[j].nsec <= d {
      assert h.Some? && h.value <= j;
      assert st.list[h.value].nsec <= st.list[j].nsec;
    }
  }

  /** After call `k` - 1 delivered element `i`, the session expects the successor of `i`. */
  ghost predicate Awaits(stores: seq<Store>, fsz: nat, sizes: seq<nat>, k: nat, i: nat)
    requires AllRegular(stores, fsz) && k <= |stores| && |sizes| == |stores|
  {
    && k > 0 && i + 1 < |stores[k - 1].list|
    && HitAt(stores, fsz, sizes, k - 1) == Some(stores[k - 1].list[i])
    && CursorAt(stores, fsz, sizes, k) ==
       Cursor(stores[k - 1].list[i + 1].ndx * BLOCK_SIZE + METADATA_SIZE, stores[k - 1].list[i + 1].nsec)
  }

  /** On whatever stores, a session is fresh, or expects a successor, or stands at the end. */
  lemma {:induction false} SessionShape(stores: seq<Store>, fsz: nat, sizes: seq<nat>, k: nat) returns (i: Option<nat>)
    requires AllRegular(stores, fsz) && k <= |stores| && |sizes| == |stores| && AtLeast(sizes, MAX_MESSAGE)
    ensures k > 0 ==> if i.Some? then Awaits(stores, fsz, sizes, k, i.value) else CursorAt(stores, fsz, sizes, k).off + HEADER >= fsz
    ensures AtStart(CursorAt(stores, fsz, sizes, k)) || CursorAt(stores, fsz, sizes, k).off + HEADER >= fsz
    decreases k
  {
    hide AllRegular, Inv, Tidy, Read, Locate;
    i := None;
    if k > 0 {
      var before := SessionShape(stores, fsz, sizes, k - 1);
      RegularAt(stores, fsz, k - 1);
      var st, c := stores[k - 1], CursorAt(stores, fsz, sizes, k - 1);
      if c.off + HEADER < fsz {
        OneCall(st, fsz, c, sizes[k - 1]);
        i := Locate(st.list, c.off / BLOCK_SIZE, c.ts);
        i := if i.Some? && i.value + 1 < |st.list| then i else None;
      } else {
        ReadBeyond(st, fsz, c, sizes[k - 1]);
      }
    }
  }

  /** Among the first `n` calls, delivered timestamps strictly increase. */
  ghost predicate InOrder(stores: seq<Store>, fsz: nat, sizes: seq<nat>, n: nat)
    requires AllRegular(stores, fsz) && n <= |stores| && |sizes| == |stores|
  {
    forall q, k :: 0 <= q < k < n && HitAt(stores, fsz, sizes, q).Some? && HitAt(stores, fsz, sizes, k).Some? ==>
      HitAt(stores, fsz, sizes, q).value.nsec < HitAt(stores, fsz, sizes, k).value.nsec
  }

  /** At call `k`, what is in the block the session stands at is newer than what call `k` - 1 delivered. */
  ghost predicate BlockIsNewer(stores: seq<Store>, fsz: nat, sizes: seq<nat>, k: nat)
    requires AllRegular(stores, fsz) && 0 < k < |stores| && |sizes| == |stores|
  {
    HitAt(stores, fsz, sizes, k - 1).Some? && CursorAt(stores, fsz, sizes, k).off + HEADER < fsz ==>
      NewerIn(stores[k].list, CursorAt(stores, fsz, sizes, k).off / BLOCK_SIZE, HitAt(stores, fsz, sizes, k - 1).value.nsec)
  }

  lemma NextCallIff(stores: seq<Store>, fsz: nat, sizes: seq<nat>, k: nat)
    requires AllRegular(stores, fsz) && 0 < k < |stores| && |sizes| == |stores| && AtLeast(sizes, MAX_MESSAGE)
    ensures var d, h := HitAt(stores, fsz, sizes, k - 1), HitAt(stores, fsz, sizes, k);
            && (h.Some? ==> d.Some?)
            && (BlockIsNewer(stores, fsz, sizes, k) <==> (h.Some? ==> h.value.nsec > d.value.nsec))
  {
    hide AllRegular, Inv, Read, Locate, CursorAt, AtStart, NewerIn, Positive;
    var i := SessionShape(stores, fsz, sizes, k);
    if i.Some? {
      RegularAt(stores, fsz, k - 1);
      RegularAt(stores, fsz, k);
      var l := stores[k - 1].list;
      var x := l[i.value + 1];
      assert InBound(x, fsz, 0) && l[i.value].nsec < x.nsec;
      NextIsNewerIff(stores[k], fsz, x, l[i.value].nsec);
      assert CursorAt(stores, fsz, sizes, k).off / BLOCK_SIZE == x.ndx;
    }
  }

  lemma {:induction false} StepwiseIsInOrder(stores: seq<Store>, fsz: nat, sizes: seq<nat>, q: nat, k: nat)
    requires AllRegular(stores, fsz) && q < k < |stores| && |sizes| == |stores| && AtLeast(sizes, MAX_MESSAGE)
    requires forall m :: q < m <= k ==> BlockIsNewer(stores, fsz, sizes, m)
    requires HitAt(stores, fsz, sizes, q).Some? && HitAt(stores, fsz, sizes, k).Some?
    ensures HitAt(stores, fsz, sizes, q).value.nsec < HitAt(stores, fsz, sizes, k).value.nsec
    decreases k
  {
    hide AllRegular, HitAt, BlockIsNewer;
    assert BlockIsNewer(stores, fsz, sizes, k);
    NextCallIff(stores, fsz, sizes, k);
    if q < k - 1 {
      StepwiseIsInOrder(stores, fsz, sizes, q, k - 1);
    }
  }

  /** Whatever happens between its calls, a session delivers in strictly increasing order if and only
      if, at each call, the block it stands at holds nothing as old as what it delivered last. */
  lemma InOrderIff(stores: seq<Store>, fsz: nat, sizes: seq<nat>, n: nat)
    requires AllRegular(stores, fsz) && n <= |stores| && |sizes| == |stores| && AtLeast(sizes, MAX_MESSAGE)
    ensures InOrder(stores, fsz, sizes, n) <==> forall k :: 0 < k < n ==> BlockIsNewer(stores, fsz, sizes, k)
  {
    hide AllRegular, HitAt, BlockIsNewer;
    if InOrder(stores, fsz, sizes, n) {
      forall k | 0 < k < n
        ensures BlockIsNewer(stores, fsz, sizes, k)
      {
        NextCallIff(stores, fsz, sizes, k);
      }
    }
    if forall k :: 0 < k < n ==> BlockIsNewer(stores, fsz, sizes, k) {
      forall q, k | 0 <= q < k < n && HitAt(stores, fsz, sizes, q).Some? && HitAt(stores, fsz, sizes, k).Some?
        ensures HitAt(stores, fsz, sizes, q).value.nsec < HitAt(stores, fsz, sizes, k).value.nsec
      {
        StepwiseIsInOrder(stores, fsz, sizes, q, k);
      }
    }
  }

  /** The stores after each batch of operations, starting with `st`. */
  ghost function AfterBatches(st: Store, batches: seq<seq<Op>>): (r: seq<Store>)
    requires Shape(st)
    ensures |r| == |batches| + 1 && r[0] == st
    decreases |batches|
  {
    if batches == [] then [st] else [st] + AfterBatches(ApplyAll(st, batches[0]), batches[1..])
  }

  ghost predicate NewerBatches(st: Store, batches: seq<seq<Op>>)
    requires Shape(st)
    decreases |batches|
  {
    batches == [] || (NewerPuts(st, batches[0]) && NewerBatches(ApplyAll(st, batches[0]), batches[1..]))
  }

  /** Runs of puts and invalidations between the calls of a session produce such a history. */
  lemma {:induction false} BatchesMakeHistory(st: Store, fsz: nat, batches: seq<seq<Op>>)
    requires Mounted(st, fsz) && HEADER < fsz && NewerBatches(st, batches)
    requires forall k :: 0 <= k <= |batches| ==> Tidy(AfterBatches(st, batches)[k].list, fsz)
    ensures History(AfterBatches(st, batches), fsz)
    decreases |batches|
  {
    hide DeviceAgrees, ListAgrees, Tidy, NewerPuts, Ages;
    var all := AfterBatches(st, batches);
    assert Tidy(all[0].list, fsz);
    if batches != [] {
      var st' := ApplyAll(st, batches[0]);
      RunKeepsInv(st, batches[0]);
      RunAges(st, batches[0]);
      var rest := AfterBatches(st', batches[1..]);
      assert forall k :: 0 <= k < |rest| ==> rest[k] == all[k + 1];
      BatchesMakeHistory(st', fsz, batches[1..]);
      assert forall k :: 0 < k < |all| ==> all[k] == rest[k - 1];
    }
  }
}
