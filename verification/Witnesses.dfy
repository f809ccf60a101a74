/** Runs from a freshly formatted device that show where a promise of the code fails: the conditions
    proved elsewhere (`InOrderIff`, `UnsetIff`, `DeliversEveryMessageIff`, `EverySeriesDeliversAllIff`,
    `RemountRestores`) are not met by every run. */
module Witnesses {
  import opened Layout
  import opened SortedList
  import opened StoreSpec
  import opened Session
  import opened ReadEffects
  import opened Interleaved
  import opened Image

  // ----- small runs -----

  lemma ApplyTwo(st: Store, a: Op, b: Op)
    requires Shape(st)
    ensures ApplyAll(st, [a, b]) == Apply(Apply(st, a), b)
  {
    hide Apply;
    var st' := Apply(st, a);
    assert ApplyAll(st, [a, b]) == ApplyAll(st', [b]) by {
      assert [a, b][1..] == [b];
    }
    assert ApplyAll(st', [b]) == ApplyAll(Apply(st', b), []) by {
      assert [b][1..] == [];
    }
  }

  lemma ApplyFour(st: Store, a: Op, b: Op, c: Op, d: Op)
    requires Shape(st)
    ensures ApplyAll(st, [a, b, c, d]) == Apply(Apply(Apply(Apply(st, a), b), c), d)
  {
    hide Apply, ApplyAll;
    ApplyTwo(st, a, b);
    ApplyTwo(ApplyAll(st, [a, b]), c, d);
    ApplyAllAppend(st, [a, b], [c, d]);
    assert [a, b] + [c, d] == [a, b, c, d];
  }

  lemma PutLands(st: Store, msg: Message, ts: Time, t: nat)
    requires Inv(st) && Search(st.arr, st.last) == Some(t)
    ensures var r := Apply(st, PutOp(msg, ts));
            && Inv(r) && r.arr == st.arr[t := Metadata(ts, true, |msg|)] && r.last == t
            && r.list == Insert(st.list, Elem(t, ts, |msg|))
  {
    hide Inv, BlockOf, Insert, Search;
    ApplyKeepsInv(st, PutOp(msg, ts));
  }

  lemma InvalidateLands(st: Store, b: nat, i: nat)
    requires Inv(st) && b < |st.arr| && IndexOf(st.list, b) == Some(i)
    ensures var r := Apply(st, InvalidateOp(b));
            && Inv(r) && r.arr == st.arr[b := st.arr[b].(valid := false)] && r.last == st.last
            && r.list == RemoveAt(st.list, i)
  {
    hide Inv, Rewritten, RemoveAt, IndexOf;
    ApplyKeepsInv(st, InvalidateOp(b));
  }

  /** A put and an invalidation of the block it took leave the list as it was. */
  lemma PutInvalidated(st: Store, msg: Message, ts: Time, t: nat)
    requires Inv(st) && Search(st.arr, st.last) == Some(t)
    ensures var r := Apply(Apply(st, PutOp(msg, ts)), InvalidateOp(t));
            Inv(r) && r.list == st.list && r.last == t && r.arr == st.arr[t := Metadata(ts, false, |msg|)]
  {
    hide DeviceAgrees, ListAgrees, Search, Insert, InsertPos, RemoveAt, IndexOf, Apply;
    PutLands(st, msg, ts, t);
    FoundWhereInserted(st, t, ts, |msg|);
    var mid := Apply(st, PutOp(msg, ts));
    InvalidateLands(mid, t, InsertPos(st.list, ts));
  }

  lemma FoundWhereInserted(st: Store, t: nat, ts: Time, n: Length15)
    requires Inv(st) && Search(st.arr, st.last) == Some(t)
    ensures var p, l := InsertPos(st.list, ts), Insert(st.list, Elem(t, ts, n));
            p < |l| && IndexOf(l, t) == Some(p) && RemoveAt(l, p) == st.list
  {
    hide DeviceAgrees, ListAgrees, IndexOf, Search, InsertPos, InsertAt, RemoveAt;
    SearchCorrect(st.arr, st.last);
    assert FirstFree(st.arr, st.last, t);
    NotListed(st.arr, st.list, t);
    RemoveInsert(st.list, InsertPos(st.list, ts), Elem(t, ts, n));
    IndexOfInserted(st.list, InsertPos(st.list, ts), Elem(t, ts, n));
  }

  lemma IndexOfInserted(l: seq<Elem>, p: nat, e: Elem)
    requires p <= |l| && !Listed(l, e.ndx)
    ensures IndexOf(InsertAt(l, p, e), e.ndx) == Some(p)
  {
    hide IndexOf;
    var r := InsertAt(l, p, e);
    assert r[p] == e;
    assert forall i :: 0 <= i < p ==> r[i] == l[i];
  }

  // ----- a device of four blocks -----

  const FOUR := 4 * BLOCK_SIZE

  /** Messages in blocks 0 and 1. */
  ghost predicate TwoStored(st: Store, t0: Time, n0: Length15, t1: Time, n1: Length15) {
    && Inv(st) && |st.arr| == 4 && st.last == 1
    && st.arr[0].valid && st.arr[1].valid && !st.arr[2].valid && !st.arr[3].valid
    && st.list == if t0 < t1 then [Elem(0, t0, n0), Elem(1, t1, n1)] else [Elem(1, t1, n1), Elem(0, t0, n0)]
  }

  /** Two puts on an empty device. */
  function Fill(m0: Message, t0: Time, m1: Message, t1: Time): seq<Op> {
    [PutOp(m0, t0), PutOp(m1, t1)]
  }

  lemma AfterFill(m0: Message, t0: Time, m1: Message, t1: Time)
    requires t0 < t1
    ensures TwoStored(ApplyAll(EmptyStore(4), Fill(m0, t0, m1, t1)), t0, |m0|, t1, |m1|)
  {
    hide Inv, Apply, EmptyBlock;
    var s0 := EmptyStore(4);
    EmptyStoreInv(4);
    var a, b := PutOp(m0, t0), PutOp(m1, t1);
    ApplyTwo(s0, a, b);
    PutLands(s0, m0, t0, 0);
    PutLands(Apply(s0, a), m1, t1, 1);
  }

  /** Block 1 is invalidated, the search is led past blocks 2 and 3, and block 1 is taken again. */
  function Replace(msg: Message, ts: Time): seq<Op> {
    [InvalidateOp(1), PutOp([], 1), InvalidateOp(2), PutOp([], 1), InvalidateOp(3), PutOp(msg, ts)]
  }

  lemma AfterReplace(st: Store, t0: Time, n0: Length15, t1: Time, n1: Length15, msg: Message, ts: Time)
    requires TwoStored(st, t0, n0, t1, n1) && t0 < t1 && ts != t0
    ensures var r := ApplyAll(st, Replace(msg, ts));
            Inv(r) && |r.arr| == 4 && r.list == if ts > t0 then [Elem(0, t0, n0), Elem(1, ts, |msg|)] else [Elem(1, ts, |msg|), Elem(0, t0, n0)]
  {
    hide DeviceAgrees, ListAgrees, Apply, ApplyAll, Search;
    var ops := Replace(msg, ts);
    var s1 := Apply(st, ops[0]);
    InvalidateLands(st, 1, 1);
    assert s1.list == [Elem(0, t0, n0)];
    SearchNext(s1.arr, 1);
    PutInvalidated(s1, [], 1, 2);
    var s3 := Apply(Apply(s1, ops[1]), ops[2]);
    SearchNext(s3.arr, 2);
    PutInvalidated(s3, [], 1, 3);
    var s5 := Apply(Apply(s3, ops[3]), ops[4]);
    SearchWraps(s5.arr);
    PutLands(s5, msg, ts, 1);
    ApplyFour(st, ops[0], ops[1], ops[2], ops[3]);
    ApplyTwo(ApplyAll(st, ops[..4]), ops[4], ops[5]);
    ApplyAllAppend(st, ops[..4], ops[4..]);
    assert ops[..4] == [ops[0], ops[1], ops[2], ops[3]] && ops[4..] == [ops[4], ops[5]] && ops == ops[..4] + ops[4..];
  }

  lemma SearchNext(arr: seq<Metadata>, last: nat)
    requires |arr| == 4 && last < 3 && !arr[last + 1].valid
    ensures Search(arr, last) == Some(last + 1)
  {
  }

  lemma SearchWraps(arr: seq<Metadata>)
    requires |arr| == 4 && arr[0].valid && !arr[1].valid
    ensures Search(arr, 3) == Some(1)
  {
    assert SearchFrom(arr, 3, 1) == SearchFrom(arr, 3, 2);
  }

  // ----- out of order -----

  /** A session delivers the message with timestamp 5, expects the one with timestamp 10 in block 1,
      and then delivers the message with timestamp 3 that has taken its block. */
  lemma DeliveredOutOfOrder() returns (stores: seq<Store>, sizes: seq<nat>)
    ensures |stores| == 2 && |sizes| == 2 && AllRegular(stores, FOUR) && AtLeast(sizes, MAX_MESSAGE)
    ensures stores[0] == ApplyAll(EmptyStore(4), Fill([65], 5, [66], 10)) && stores[1] == ApplyAll(stores[0], Replace([67], 3))
    ensures HitAt(stores, FOUR, sizes, 0) == Some(Elem(0, 5, 1)) && HitAt(stores, FOUR, sizes, 1) == Some(Elem(1, 3, 1))
    ensures !InOrder(stores, FOUR, sizes, 2)
  {
    hide DeviceAgrees, ListAgrees, ApplyAll, EmptyStore, Read, MessageAt;
    var a := ApplyAll(EmptyStore(4), Fill([65], 5, [66], 10));
    AfterFill([65], 5, [66], 10);
    AfterReplace(a, 5, 1, 10, 1, [67], 3);
    stores, sizes := [a, ApplyAll(a, Replace([67], 3))], [MAX_MESSAGE, MAX_MESSAGE];
    assert Regular(stores[0], FOUR) && Regular(stores[1], FOUR);
    OneCall(a, FOUR, FRESH, MAX_MESSAGE);
    assert Locate(a.list, 0, 0) == Some(0);
    assert CursorAt(stores, FOUR, sizes, 1) == Cursor(BLOCK_SIZE + METADATA_SIZE, 10);
  }

  // ----- an unset return value -----

  /** A session reads the message in block 0 and five bytes of the six in block 1; then block 1 is
      taken by a message of one byte, and the next call returns an unset value. That message is passed
      over: the call leaves the session at the end of the file, and every later one delivers nothing. */
  lemma ReturnsUnset(len: nat, len': nat) returns (a: Store, b: Store, c1: Cursor, c2: Cursor)
    ensures a == ApplyAll(EmptyStore(4), Fill([65], 1, [66, 66, 66, 66, 66, 66], 2)) && b == ApplyAll(a, Replace([67], 5))
    ensures Inv(a) && Inv(b) && c1 == Read(a, FOUR, FRESH, MAX_MESSAGE).0 && c2 == Read(a, FOUR, c1, 5).0
    ensures Read(b, FOUR, c2, len) == (Cursor(FOUR, 2), Unset)
    ensures Read(b, FOUR, Read(b, FOUR, c2, len).0, len') == (Cursor(FOUR, 2), Bytes([]))
  {
    hide DeviceAgrees, ListAgrees, ApplyAll, EmptyStore, Read, MessageAt;
    var m: Message := [66, 66, 66, 66, 66, 66];
    a := ApplyAll(EmptyStore(4), Fill([65], 1, m, 2));
    AfterFill([65], 1, m, 2);
    b := ApplyAll(a, Replace([67], 5));
    AfterReplace(a, 1, 1, 2, 6, [67], 5);
    c1 := Read(a, FOUR, FRESH, MAX_MESSAGE).0;
    c2 := Read(a, FOUR, c1, 5).0;
    WholeMessage(a, FOUR, FRESH, 0, MAX_MESSAGE);
    assert c1 == Cursor(BLOCK_SIZE + METADATA_SIZE, 2);
    KeepsStamp(a, c1);
    assert FirstSought(b.list, c2, 1);
    AfterUnset(b, FOUR, c2, len, 1, len');
  }

  lemma KeepsStamp(a: Store, c: Cursor)
    requires Inv(a) && a.list == [Elem(0, 1, 1), Elem(1, 2, 6)] && c == Cursor(BLOCK_SIZE + METADATA_SIZE, 2)
    ensures Read(a, FOUR, c, 5).0 == Cursor(BLOCK_SIZE + METADATA_SIZE + 5, 2)
  {
    hide Inv, Read;
    assert FirstSought(a.list, c, 1);
    ReadsExactly(a, FOUR, c, 5, 1);
  }

  // ----- messages that are never delivered -----

  lemma AfterThree(m0: Message, t0: Time, m1: Message, t1: Time, m2: Message, t2: Time)
    requires t0 < t1
    ensures var r := ApplyAll(EmptyStore(4), Fill(m0, t0, m1, t1) + [PutOp(m2, t2)]);
            Inv(r) && |r.arr| == 4 && r.list == Insert([Elem(0, t0, |m0|), Elem(1, t1, |m1|)], Elem(2, t2, |m2|))
  {
    hide DeviceAgrees, ListAgrees, Apply, ApplyAll, EmptyStore, Search, Insert;
    var st, c := ApplyAll(EmptyStore(4), Fill(m0, t0, m1, t1)), PutOp(m2, t2);
    AfterFill(m0, t0, m1, t1);
    SearchNext(st.arr, 1);
    PutLands(st, m2, t2, 2);
    ApplyAllAppend(EmptyStore(4), Fill(m0, t0, m1, t1), [c]);
    ApplyOne(st, c);
  }

  lemma ApplyOne(st: Store, a: Op)
    requires Shape(st)
    ensures ApplyAll(st, [a]) == Apply(st, a)
  {
    hide Apply;
    assert ApplyAll(st, [a]) == ApplyAll(Apply(st, a), []) by {
      assert [a][1..] == [];
    }
  }

  /** The third of three messages on a device of four blocks lies in block 2 and is never delivered,
      however often a session with large buffers calls. */
  lemma HiddenByTheBound(sizes: seq<nat>) returns (st: Store)
    requires AtLeast(sizes, MAX_MESSAGE)
    ensures st == ApplyAll(EmptyStore(4), Fill([65], 1, [66], 2) + [PutOp([67], 3)]) && Inv(st)
    ensures st.list == [Elem(0, 1, 1), Elem(1, 2, 1), Elem(2, 3, 1)]
    ensures forall k :: 0 <= k < |sizes| ==> ReadSeries(st, FOUR, FRESH, sizes).1[k] == if k < 2 then Bytes(MessageAt(st, k)) else Bytes([])
  {
    hide DeviceAgrees, ListAgrees, ApplyAll, EmptyStore, ReadSeries, MessageAt;
    st := ApplyAll(EmptyStore(4), Fill([65], 1, [66], 2) + [PutOp([67], 3)]);
    AfterThree([65], 1, [66], 2, [67], 3);
    assert Reached(st.list, FOUR, 1) == 1 && Reached(st.list, FOUR, 0) == 2;
    FreshSessionWholeMessages(st, FOUR, sizes);
  }

  /** Every byte of every message lies within the bound, and still the message in block 1 is never
      delivered: an empty message in block 2, which has the timestamp between, cuts it off. */
  lemma CutOffByAnEmptyMessage(sizes: seq<nat>) returns (st: Store)
    requires AtLeast(sizes, MAX_MESSAGE)
    ensures st == ApplyAll(EmptyStore(4), Fill([65], 1, [66], 3) + [PutOp([], 2)]) && Inv(st)
    ensures st.list == [Elem(0, 1, 1), Elem(2, 2, 0), Elem(1, 3, 1)]
    ensures forall i, j :: 0 <= i < |st.list| && 0 <= j < st.list[i].bytes ==> InBound(st.list[i], FOUR, j)
    ensures forall k :: 0 <= k < |sizes| ==> ReadSeries(st, FOUR, FRESH, sizes).1[k] == if k < 1 then Bytes(MessageAt(st, k)) else Bytes([])
    ensures !EverySeriesDeliversAll(st, FOUR)
  {
    hide DeviceAgrees, ListAgrees, ApplyAll, EmptyStore, ReadSeries, MessageAt, EverySeriesDeliversAll;
    st := ApplyAll(EmptyStore(4), Fill([65], 1, [66], 3) + [PutOp([], 2)]);
    AfterThree([65], 1, [66], 3, [], 2);
    assert Reached(st.list, FOUR, 0) == 1;
    FreshSessionWholeMessages(st, FOUR, sizes);
    assert st.list[2].bytes > 0 && SomeFrom(st.list, 1) && IsPosition(st.list[1], 0) && !InBound(st.list[1], FOUR, 0);
    EverySeriesDeliversAllIff(st, FOUR);
  }

  // ----- a remount that reorders -----

  /** Two messages with the same timestamp, in blocks 1 and 0 in this order, change places. */
  lemma RemountReorders() returns (st: Store)
    ensures st == ApplyAll(EmptyStore(2), [PutOp([65], 1), InvalidateOp(0), PutOp([66], 5), PutOp([67], 5)])
    ensures Inv(st) && st.list == [Elem(0, 5, 1), Elem(1, 5, 1)]
    ensures MountBlocks(st.dev).list == [Elem(1, 5, 1), Elem(0, 5, 1)]
  {
    hide DeviceAgrees, ListAgrees, Apply, EmptyBlock, MountBlocks;
    var s0 := EmptyStore(2);
    EmptyStoreInv(2);
    var ops := [PutOp([65], 1), InvalidateOp(0), PutOp([66], 5), PutOp([67], 5)];
    PutInvalidated(s0, [65], 1, 0);
    var s2 := Apply(Apply(s0, ops[0]), ops[1]);
    PutLands(s2, [66], 5, 1);
    var s3 := Apply(s2, ops[2]);
    PutLands(s3, [67], 5, 0);
    st := Apply(s3, ops[3]);
    ApplyFour(s0, ops[0], ops[1], ops[2], ops[3]);
    RemountRestores(st);
    var l := [Elem(1, 5, 1), Elem(0, 5, 1)];
    MountedInKeyOrder(st.dev);
    KeySortedUnique(MountBlocks(st.dev).list, l);
  }

  lemma MountedInKeyOrder(dev: seq<Block>)
    ensures KeySorted(MountBlocks(dev).list)
  {
    hide ListFrom, ArrayFrom;
    ListFromCorrect(ArrayFrom(dev), |dev|);
  }
}
