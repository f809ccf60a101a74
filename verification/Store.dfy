/** The message store between two critical sections: the metadata array, the device blocks,
    the list of valid blocks and the last written block, with the three system calls as
    transitions (syscalls.c). */
module StoreSpec {
  import opened Layout
  import opened SortedList

  datatype Errno = E2BIG | ENOMEM | ENODATA | ENODEV | EBADF | EIO | EBUSY | EINVAL

  datatype Result<+T> = Ok(value: T) | Err(errno: Errno)

  datatype Store = Store(arr: seq<Metadata>, dev: seq<Block>, list: seq<Elem>, last: nat)

  function Min(a: nat, b: nat): nat {
    if a < b then a else b
  }

  ghost predicate Shape(st: Store) {
    |st.arr| == |st.dev| && (|st.arr| > 0 ==> st.last < |st.arr|)
  }

  /** Element `e` carries the fields of the valid array entry of its block. */
  ghost predicate Mirrors(arr: seq<Metadata>, e: Elem) {
    e.ndx < |arr| && arr[e.ndx].valid && arr[e.ndx].nsec == e.nsec && arr[e.ndx].bytes == e.bytes
  }

  /** Each device block starts with the metadata of its array entry. */
  ghost predicate DeviceAgrees(arr: seq<Metadata>, dev: seq<Block>) {
    && |arr| == |dev|
    && forall b :: 0 <= b < |arr| ==> (arr[b].valid ==> arr[b].bytes <= MAX_MESSAGE) && dev[b][..METADATA_SIZE] == EncodeMetadata(arr[b])
  }

  /** The list is sorted, names each block once, and holds exactly the valid array entries. */
  ghost predicate ListAgrees(arr: seq<Metadata>, list: seq<Elem>) {
    && Sorted(list)
    && DistinctBlocks(list)
    && (forall i :: 0 <= i < |list| ==> Mirrors(arr, list[i]))
    && (forall b :: 0 <= b < |arr| && arr[b].valid ==> Listed(list, b))
  }

  /** What the three views must agree on whenever the writers' lock is free. */
  ghost predicate Inv(st: Store) {
    Shape(st) && DeviceAgrees(st.arr, st.dev) && ListAgrees(st.arr, st.list)
  }

  // ----- the circular search -----

  /** How many blocks the search probes before it reaches `b`. */
  function Distance(last: nat, b: nat, n: nat): (d: nat)
    requires last < n && b < n
    ensures d < n
  {
    if b > last then b - last - 1 else b + n - last - 1
  }

  function SearchFrom(arr: seq<Metadata>, last: nat, i: nat): (r: Option<nat>)
    requires |arr| > 0
    ensures r.Some? ==> r.value < |arr|
    decreases |arr| + 1 - i
  {
    if i > |arr| then None
    else if !arr[(last + i) % |arr|].valid then Some((last + i) % |arr|)
    else SearchFrom(arr, last, i + 1)
  }

  function Search(arr: seq<Metadata>, last: nat): (r: Option<nat>)
    ensures r.Some? ==> r.value < |arr|
  {
    if |arr| == 0 then None else SearchFrom(arr, last, 1)
  }

  /** `b` is free and every block met before it on the way round from `last` is taken. */
  ghost predicate FirstFree(arr: seq<Metadata>, last: nat, b: nat)
    requires last < |arr|
  {
    && b < |arr|
    && !arr[b].valid
    && forall c :: 0 <= c < |arr| && Distance(last, c, |arr|) < Distance(last, b, |arr|) ==> arr[c].valid
  }

  lemma ProbeDistance(last: nat, i: nat, n: nat)
    requires last < n && 1 <= i <= n
    ensures (last + i) % n < n
    ensures Distance(last, (last + i) % n, n) == i - 1
  {
    if last + i < n {
      assert (last + i) % n == last + i;
    } else {
      assert (last + i) % n == last + i - n;
    }
  }

  lemma DistanceInjective(last: nat, b: nat, c: nat, n: nat)
    requires last < n && b < n && c < n
    ensures Distance(last, b, n) == Distance(last, c, n) ==> b == c
  {
  }

  lemma {:induction false} SearchFromCorrect(arr: seq<Metadata>, last: nat, i: nat)
    requires last < |arr| && 1 <= i <= |arr| + 1
    requires forall c :: 0 <= c < |arr| && Distance(last, c, |arr|) < i - 1 ==> arr[c].valid
    ensures match SearchFrom(arr, last, i)
            case Some(b) => FirstFree(arr, last, b)
            case None => forall c :: 0 <= c < |arr| ==> arr[c].valid
    decreases |arr| + 1 - i
  {
    if i <= |arr| {
      ProbeDistance(last, i, |arr|);
      var b := (last + i) % |arr|;
      if arr[b].valid {
        forall c | 0 <= c < |arr| && Distance(last, c, |arr|) < i
          ensures arr[c].valid
        {
          if Distance(last, c, |arr|) == i - 1 {
            DistanceInjective(last, b, c, |arr|);
          }
        }
        SearchFromCorrect(arr, last, i + 1);
      }
    } else {
      forall c | 0 <= c < |arr|
        ensures arr[c].valid
      {
        assert Distance(last, c, |arr|) < i - 1;
      }
    }
  }

  /** The search finds the first free block after `last`, and fails exactly on a full device. */
  lemma SearchCorrect(arr: seq<Metadata>, last: nat)
    requires |arr| > 0 ==> last < |arr|
    ensures Search(arr, last).None? <==> forall c :: 0 <= c < |arr| ==> arr[c].valid
    ensures forall b: nat :: |arr| > 0 ==> (Search(arr, last) == Some(b) <==> FirstFree(arr, last, b))
  {
    if |arr| > 0 {
      SearchFromCorrect(arr, last, 1);
      forall b: nat | FirstFree(arr, last, b)
        ensures Search(arr, last) == Some(b)
      {
        var c := Search(arr, last).value;
        assert FirstFree(arr, last, c);
        assert Distance(last, b, |arr|) == Distance(last, c, |arr|);
        DistanceInjective(last, b, c, |arr|);
      }
    }
  }

  // ----- the system calls -----

  /** `put_data` on block `t`, which the search selected. */
  function PutAt(st: Store, t: nat, msg: Message, ts: Time): (r: Store)
    requires Shape(st) && t < |st.arr|
    ensures Shape(r)
  {
    Store(st.arr[t := Metadata(ts, true, |msg|)],
          st.dev[t := BlockOf(ts, msg)],
          Insert(st.list, Elem(t, ts, |msg|)),
          t)
  }

  function Put(st: Store, msg: seq<Byte>, ts: Time): (r: (Store, Result<nat>))
    requires Shape(st)
    ensures Shape(r.0)
  {
    if |msg| > MAX_MESSAGE then (st, Err(E2BIG))
    else match Search(st.arr, st.last)
      case None => (st, Err(ENOMEM))
      case Some(t) => (PutAt(st, t, msg, ts), Ok(t))
  }

  function InvalidateAt(st: Store, i: nat): (r: Store)
    requires Shape(st) && i < |st.list| && st.list[i].ndx < |st.arr|
    ensures Shape(r)
  {
    var b := st.list[i].ndx;
    var m := st.arr[b].(valid := false);
    Store(st.arr[b := m], st.dev[b := Rewritten(st.dev[b], m)], RemoveAt(st.list, i), st.last)
  }

  /** `offset` is a C `int` compared with an unsigned size: a negative one is too big. */
  function Invalidate(st: Store, offset: int): (r: (Store, Result<()>))
    requires Shape(st)
    ensures Shape(r.0)
  {
    if offset < 0 || offset >= |st.arr| then (st, Err(E2BIG))
    else match IndexOf(st.list, offset)
      case None => (st, Err(ENODATA))
      case Some(i) => (InvalidateAt(st, i), Ok(()))
  }

  function Get(st: Store, offset: int, size: nat): (r: Result<seq<Byte>>)
    requires Inv(st)
  {
    if offset < 0 || offset >= |st.arr| then Err(E2BIG)
    else match IndexOf(st.list, offset)
      case None => Err(ENODATA)
      case Some(i) =>
        assert Mirrors(st.arr, st.list[i]);
        Ok(Payload(st.dev[offset], Min(size, st.list[i].bytes)))
  }

  // ----- every call keeps the invariant -----

  lemma InsertListed(l: seq<Elem>, e: Elem, b: nat)
    ensures Listed(Insert(l, e), b) <==> b == e.ndx || Listed(l, b)
  {
    var r, p := Insert(l, e), InsertPos(l, e.nsec);
    assert r[p].ndx == e.ndx;
    if Listed(l, b) {
      var i :| 0 <= i < |l| && l[i].ndx == b;
      assert r[if i < p then i else i + 1].ndx == b;
    }
    if Listed(r, b) {
      var i :| 0 <= i < |r| && r[i].ndx == b;
      assert i != p ==> l[if i < p then i else i - 1].ndx == b;
    }
  }

  lemma InsertDistinct(l: seq<Elem>, e: Elem)
    requires DistinctBlocks(l) && !Listed(l, e.ndx)
    ensures DistinctBlocks(Insert(l, e))
  {
    var r, p := Insert(l, e), InsertPos(l, e.nsec);
    assert forall i :: 0 <= i < |r| && i != p ==> r[i] == l[if i < p then i else i - 1];
  }

  lemma NotListed(arr: seq<Metadata>, list: seq<Elem>, b: nat)
    requires ListAgrees(arr, list) && b < |arr| && !arr[b].valid
    ensures !Listed(list, b)
  {
    forall i | 0 <= i < |list|
      ensures list[i].ndx != b
    {
      assert Mirrors(arr, list[i]);
    }
  }

  lemma PutKeepsList(arr: seq<Metadata>, list: seq<Elem>, t: nat, ts: Time, n: Length15)
    requires ListAgrees(arr, list) && t < |arr| && !arr[t].valid
    ensures ListAgrees(arr[t := Metadata(ts, true, n)], Insert(list, Elem(t, ts, n)))
  {
    var e := Elem(t, ts, n);
    var list', arr' := Insert(list, e), arr[t := Metadata(ts, true, n)];
    NotListed(arr, list, t);
    InsertSorted(list, e);
    InsertDistinct(list, e);
    forall i | 0 <= i < |list'|
      ensures Mirrors(arr', list'[i])
    {
      InsertMembers(list, e);
      if list'[i] != e {
        var k :| 0 <= k < |list| && list[k] == list'[i];
        assert Mirrors(arr, list[k]);
      }
    }
    forall b | 0 <= b < |arr'| && arr'[b].valid
      ensures Listed(list', b)
    {
      InsertListed(list, e, b);
    }
  }

  lemma PutKeepsInv(st: Store, t: nat, msg: Message, ts: Time)
    requires Inv(st) && t < |st.arr| && !st.arr[t].valid
    ensures Inv(PutAt(st, t, msg, ts))
  {
    PutKeepsList(st.arr, st.list, t, ts, |msg|);
  }

  lemma InvalidateKeepsList(arr: seq<Metadata>, list: seq<Elem>, i: nat)
    requires ListAgrees(arr, list) && i < |list|
    ensures var b := list[i].ndx; b < |arr| && ListAgrees(arr[b := arr[b].(valid := false)], RemoveAt(list, i))
  {
    hide Sorted, DistinctBlocks, Listed, RemoveAt;
    assert Mirrors(arr, list[i]);
    var arr', list' := arr[list[i].ndx := arr[list[i].ndx].(valid := false)], RemoveAt(list, i);
    RemoveKeepsOrder(list, i);
    forall k | 0 <= k < |list'|
      ensures Mirrors(arr', list'[k])
    {
      assert Mirrors(arr, list[if k < i then k else k + 1]);
    }
    forall b | 0 <= b < |arr'| && arr'[b].valid
      ensures Listed(list', b)
    {
      RemoveListed(list, i, b);
    }
  }

  lemma RemoveKeepsOrder(l: seq<Elem>, i: nat)
    requires i < |l| && Sorted(l) && DistinctBlocks(l)
    ensures var r := RemoveAt(l, i);
            && Sorted(r) && DistinctBlocks(r) && |r| == |l| - 1
            && forall k :: 0 <= k < |r| ==> r[k] == l[if k < i then k else k + 1] && r[k].ndx != l[i].ndx
  {
  }

  lemma RemoveListed(l: seq<Elem>, i: nat, b: nat)
    requires i < |l| && Listed(l, b) && l[i].ndx != b
    ensures Listed(RemoveAt(l, i), b)
  {
    var k :| 0 <= k < |l| && l[k].ndx == b;
    assert RemoveAt(l, i)[if k < i then k else k - 1].ndx == b;
  }

  lemma InvalidateKeepsInv(st: Store, i: nat)
    requires Inv(st) && i < |st.list|
    ensures st.list[i].ndx < |st.arr| && Inv(InvalidateAt(st, i))
  {
    hide ListAgrees, EncodeMetadata, DecodeMetadata, RemoveAt;
    InvalidateKeepsList(st.arr, st.list, i);
  }

  /** Looking a block up in the list, as readers do, agrees with the array, which they may not touch. */
  lemma GetByArray(st: Store, b: nat, size: nat)
    requires Inv(st) && b < |st.arr|
    ensures Get(st, b, size) ==
            if st.arr[b].valid then Ok(Payload(st.dev[b], Min(size, st.arr[b].bytes))) else Err(ENODATA)
  {
    match IndexOf(st.list, b)
    case None =>
      assert !Listed(st.list, b);
    case Some(i) =>
      assert Mirrors(st.arr, st.list[i]);
  }

  // ----- runs -----

  datatype Op = PutOp(msg: seq<Byte>, ts: Time) | InvalidateOp(offset: int)

  function Apply(st: Store, op: Op): (r: Store)
    requires Shape(st)
    ensures Shape(r) && |r.arr| == |st.arr|
  {
    match op
    case PutOp(msg, ts) => Put(st, msg, ts).0
    case InvalidateOp(offset) => Invalidate(st, offset).0
  }

  /** The block a successful put takes. */
  function Chosen(st: Store, op: Op): (r: Option<nat>)
    requires Shape(st)
  {
    if op.PutOp? && |op.msg| <= MAX_MESSAGE then Search(st.arr, st.last) else None
  }

  function ApplyAll(st: Store, ops: seq<Op>): (r: Store)
    requires Shape(st)
    ensures Shape(r) && |r.arr| == |st.arr|
    decreases |ops|
  {
    if ops == [] then st else ApplyAll(Apply(st, ops[0]), ops[1..])
  }

  // ----- one success per listing -----

  /** How often block `b` gets listed: the puts that take it. */
  function Listings(st: Store, ops: seq<Op>, b: nat): (n: nat)
    requires Shape(st)
    decreases |ops|
  {
    if ops == [] then 0
    else (if Chosen(st, ops[0]) == Some(b) then 1 else 0) + Listings(Apply(st, ops[0]), ops[1..], b)
  }

  /** How often an invalidation of block `b` succeeds. */
  function Removals(st: Store, ops: seq<Op>, b: nat): (n: nat)
    requires Shape(st)
    decreases |ops|
  {
    if ops == [] then 0
    else (if ops[0] == InvalidateOp(b) && Invalidate(st, b).1.Ok? then 1 else 0) + Removals(Apply(st, ops[0]), ops[1..], b)
  }

  function Presence(st: Store, b: nat): (n: nat)
    requires b < |st.arr|
  {
    if st.arr[b].valid then 1 else 0
  }

  lemma OneStepBalance(st: Store, op: Op, b: nat)
    requires Inv(st) && b < |st.arr|
    ensures Presence(st, b) + (if Chosen(st, op) == Some(b) then 1 else 0) ==
            Presence(Apply(st, op), b) + if op == InvalidateOp(b) && Invalidate(st, b).1.Ok? then 1 else 0
  {
    hide DeviceAgrees, Sorted, DistinctBlocks, Insert, RemoveAt, BlockOf, Rewritten, Search;
    match op
    case PutOp(msg, ts) =>
      if |st.arr| > 0 {
        SearchCorrect(st.arr, st.last);
      }
    case InvalidateOp(offset) =>
      if 0 <= offset < |st.arr| && IndexOf(st.list, offset).Some? {
        assert Mirrors(st.arr, st.list[IndexOf(st.list, offset).value]);
      }
  }

  /** Over any run, invalidations of a block succeed exactly once for each time it was listed,
      except for the listing that is still there. */
  lemma {:induction false} OneSuccessPerListing(st: Store, ops: seq<Op>, b: nat)
    requires Inv(st) && b < |st.arr|
    ensures Presence(st, b) + Listings(st, ops, b) == Presence(ApplyAll(st, ops), b) + Removals(st, ops, b)
    decreases |ops|
  {
    hide DeviceAgrees, ListAgrees, Apply, Invalidate, Chosen, Presence;
    if ops != [] {
      OneStepBalance(st, ops[0], b);
      ApplyKeepsInv(st, ops[0]);
      OneSuccessPerListing(Apply(st, ops[0]), ops[1..], b);
    }
  }

  ghost predicate NeverChosen(st: Store, ops: seq<Op>, b: nat)
    requires Shape(st)
    decreases |ops|
  {
    ops == [] || (Chosen(st, ops[0]) != Some(b) && NeverChosen(Apply(st, ops[0]), ops[1..], b))
  }

  function SuccessfulPuts(st: Store, ops: seq<Op>): nat
    requires Shape(st)
    decreases |ops|
  {
    if ops == [] then 0
    else (if Chosen(st, ops[0]).Some? then 1 else 0) + SuccessfulPuts(Apply(st, ops[0]), ops[1..])
  }

  lemma ApplyKeepsInv(st: Store, op: Op)
    requires Inv(st)
    ensures Inv(Apply(st, op))
  {
    SearchCorrect(st.arr, st.last);
    match op
    case PutOp(msg, ts) =>
      if |msg| <= MAX_MESSAGE && Search(st.arr, st.last).Some? {
        assert FirstFree(st.arr, st.last, Search(st.arr, st.last).value);
        PutKeepsInv(st, Search(st.arr, st.last).value, msg, ts);
      }
    case InvalidateOp(offset) =>
      if 0 <= offset < |st.arr| && IndexOf(st.list, offset).Some? {
        InvalidateKeepsInv(st, IndexOf(st.list, offset).value);
      }
  }

  /** The coupling of array, list and device survives every run of puts and invalidations. */
  lemma {:induction false} RunKeepsInv(st: Store, ops: seq<Op>)
    requires Inv(st)
    ensures Inv(ApplyAll(st, ops))
    decreases |ops|
  {
    if ops != [] {
      ApplyKeepsInv(st, ops[0]);
      RunKeepsInv(Apply(st, ops[0]), ops[1..]);
    }
  }

  lemma {:induction false} ApplyAllAppend(st: Store, ops: seq<Op>, more: seq<Op>)
    requires Shape(st)
    ensures ApplyAll(st, ops + more) == ApplyAll(ApplyAll(st, ops), more)
    decreases |ops|
  {
    if ops == [] {
      assert ops + more == more;
    } else {
      ApplyAllAppend(Apply(st, ops[0]), ops[1..], more);
      assert (ops + more)[1..] == ops[1..] + more;
    }
  }

  /** One call leaves a block alone unless it selects or invalidates it. */
  lemma Untouched(st: Store, op: Op, b: nat)
    requires Inv(st) && b < |st.arr|
    requires Chosen(st, op) != Some(b)
    requires op.InvalidateOp? ==> op.offset != b || !st.arr[b].valid
    ensures var r := Apply(st, op); r.arr[b] == st.arr[b] && r.dev[b] == st.dev[b]
  {
    if op.InvalidateOp? && 0 <= op.offset < |st.arr| && IndexOf(st.list, op.offset).Some? {
      assert Mirrors(st.arr, st.list[IndexOf(st.list, op.offset).value]);
    }
  }

  /** A stored message is returned unchanged after any run that does not invalidate its block:
      in particular no put, whatever it stores, ever selects a block that is in use. */
  lemma {:induction false} StoredMessageSurvives(st: Store, ops: seq<Op>, b: nat, size: nat)
    requires Inv(st) && b < |st.arr| && st.arr[b].valid
    requires forall i :: 0 <= i < |ops| && ops[i].InvalidateOp? ==> ops[i].offset != b
    ensures Inv(ApplyAll(st, ops)) && Get(ApplyAll(st, ops), b, size) == Get(st, b, size)
    ensures ApplyAll(st, ops).arr[b] == st.arr[b]
    decreases |ops|
  {
    RunKeepsInv(st, ops);
    if ops != [] {
      SearchCorrect(st.arr, st.last);
      assert Chosen(st, ops[0]) != Some(b);
      Untouched(st, ops[0], b);
      ApplyKeepsInv(st, ops[0]);
      forall i | 0 <= i < |ops[1..]| && ops[1..][i].InvalidateOp?
        ensures ops[1..][i].offset != b
      {
        assert ops[1..][i] == ops[i + 1];
      }
      StoredMessageSurvives(Apply(st, ops[0]), ops[1..], b, size);
      GetByArray(st, b, size);
      GetByArray(Apply(st, ops[0]), b, size);
    }
  }

  lemma PutContent(st: Store, t: nat, msg: Message, ts: Time, size: nat)
    requires Inv(st) && t < |st.arr| && !st.arr[t].valid
    ensures Inv(PutAt(st, t, msg, ts))
    ensures Get(PutAt(st, t, msg, ts), t, size) == Ok(msg[..Min(size, |msg|)])
  {
    PutKeepsInv(st, t, msg, ts);
    GetByArray(PutAt(st, t, msg, ts), t, size);
    var blk := BlockOf(ts, msg);
    assert Payload(blk, Min(size, |msg|)) == Payload(blk, |msg|)[..Min(size, |msg|)];
  }

  /** put, then anything but an invalidation of the chosen block, then get: the message comes back. */
  lemma PutThenGet(st: Store, msg: Message, ts: Time, ops: seq<Op>, size: nat)
    requires Inv(st) && Put(st, msg, ts).1.Ok?
    requires forall i :: 0 <= i < |ops| && ops[i].InvalidateOp? ==> ops[i].offset != Put(st, msg, ts).1.value
    ensures var (st', r) := Put(st, msg, ts);
            Inv(ApplyAll(st', ops)) && Get(ApplyAll(st', ops), r.value, size) == Ok(msg[..Min(size, |msg|)])
  {
    var b := Put(st, msg, ts).1.value;
    SearchCorrect(st.arr, st.last);
    assert FirstFree(st.arr, st.last, b);
    PutContent(st, b, msg, ts, size);
    StoredMessageSurvives(PutAt(st, b, msg, ts), ops, b, size);
  }

  /** Once invalidated, a block answers ENODATA until a put selects it again. */
  lemma {:induction false} InvalidatedStaysAbsent(st: Store, ops: seq<Op>, b: nat, size: nat)
    requires Inv(st) && b < |st.arr| && !st.arr[b].valid
    requires NeverChosen(st, ops, b)
    ensures Inv(ApplyAll(st, ops)) && Get(ApplyAll(st, ops), b, size) == Err(ENODATA)
    ensures Invalidate(ApplyAll(st, ops), b).1 == Err(ENODATA)
    decreases |ops|
  {
    RunKeepsInv(st, ops);
    if ops != [] {
      Untouched(st, ops[0], b);
      ApplyKeepsInv(st, ops[0]);
      InvalidatedStaysAbsent(Apply(st, ops[0]), ops[1..], b, size);
    } else {
      GetByArray(st, b, size);
    }
  }

  lemma InvalidateThenGet(st: Store, b: nat, ops: seq<Op>, size: nat)
    requires Inv(st) && Invalidate(st, b).1.Ok?
    requires NeverChosen(Invalidate(st, b).0, ops, b)
    ensures var st' := Invalidate(st, b).0;
            Inv(ApplyAll(st', ops)) && Get(ApplyAll(st', ops), b, size) == Err(ENODATA)
  {
    ApplyKeepsInv(st, InvalidateOp(b));
    var st' := Invalidate(st, b).0;
    assert Apply(st, InvalidateOp(b)) == st';
    InvalidatedStaysAbsent(st', ops, b, size);
  }

  /** An invalidation succeeds exactly on the blocks that hold a message. */
  lemma InvalidateSucceedsIffValid(st: Store, b: int)
    requires Inv(st)
    ensures Invalidate(st, b).1.Ok? <==> 0 <= b < |st.arr| && st.arr[b].valid
  {
    if 0 <= b < |st.arr| {
      GetByArray(st, b, 0);
    }
  }

  /** Invalidation touches one bit of one block of the device. */
  lemma InvalidateTouchesOneBit(st: Store, b: nat)
    requires Inv(st) && Invalidate(st, b).1.Ok?
    ensures var d, d' := st.dev, Invalidate(st, b).0.dev;
            && b < |d| && d' == d[b := d'[b]]
            && d[b][8] % 2 == 1 && d'[b] == d[b][8 := d[b][8] - 1]
  {
    InvalidateSucceedsIffValid(st, b);
    InvalidateOneBit(st.arr[b]);
    var d, d' := st.dev[b], Invalidate(st, b).0.dev[b];
    assert d == d[..10] + d[10..];
    assert d'[..10] == d[..10][8 := d[8] - 1];
    assert d' == d'[..10] + d'[10..];
  }

  /** A free block is taken within as many successful puts as there are blocks, whatever else happens:
      each put that misses it brings the search strictly closer. */
  lemma {:induction false} FreeBlockIsReused(st: Store, ops: seq<Op>, b: nat)
    requires Inv(st) && b < |st.arr| && !st.arr[b].valid
    requires NeverChosen(st, ops, b)
    ensures SuccessfulPuts(st, ops) <= Distance(st.last, b, |st.arr|) < |st.arr|
    decreases |ops|
  {
    if ops != [] {
      SearchCorrect(st.arr, st.last);
      Untouched(st, ops[0], b);
      ApplyKeepsInv(st, ops[0]);
      var r := Apply(st, ops[0]);
      FreeBlockIsReused(r, ops[1..], b);
      match Chosen(st, ops[0])
      case None =>
        assert r.last == st.last;
      case Some(t) =>
        assert FirstFree(st.arr, st.last, t);
        assert Distance(st.last, t, |st.arr|) <= Distance(st.last, b, |st.arr|);
        assert r.last == t;
        DistanceInjective(st.last, t, b, |st.arr|);
        assert Distance(t, b, |st.arr|) < Distance(st.last, b, |st.arr|);
    }
  }

  // ----- the empty device -----

  const NO_MESSAGE: Metadata := Metadata(0, false, 0)

  function EmptyBlock(): (b: Block)
    ensures b[..METADATA_SIZE] == EncodeMetadata(NO_MESSAGE)
  {
    EncodeMetadata(NO_MESSAGE) + Zeros(MAX_MESSAGE)
  }

  /** `n` free blocks. With none, the last written block is the 32-bit value of -1. */
  function EmptyStore(n: nat): (st: Store)
    ensures Shape(st) && |st.arr| == n
  {
    Store(seq(n, _ => NO_MESSAGE), seq(n, _ => EmptyBlock()), [], if n == 0 then 0xFFFF_FFFF else n - 1)
  }

  lemma EmptyStoreInv(n: nat)
    ensures Inv(EmptyStore(n))
  {
    hide EncodeMetadata, EmptyBlock;
  }

  // ----- filling an empty device -----

  /** The results of a series of puts with no invalidation between them. */
  function PutResults(st: Store, puts: seq<(Message, Time)>): (r: seq<Result<nat>>)
    requires Shape(st)
    ensures |r| == |puts|
    decreases |puts|
  {
    if puts == [] then []
    else var (st', x) := Put(st, puts[0].0, puts[0].1); [x] + PutResults(st', puts[1..])
  }

  /** The first `k` blocks are taken, in order, and the next search starts after them. */
  ghost predicate FilledUpTo(st: Store, k: nat) {
    && Shape(st) && k <= |st.arr|
    && (forall b :: 0 <= b < |st.arr| ==> (st.arr[b].valid <==> b < k))
    && (|st.arr| > 0 ==> st.last == if k == 0 then |st.arr| - 1 else k - 1)
  }

  lemma {:induction false} FillsInOrder(st: Store, puts: seq<(Message, Time)>, k: nat)
    requires FilledUpTo(st, k)
    ensures forall i :: 0 <= i < |puts| ==>
              PutResults(st, puts)[i] == if k + i < |st.arr| then Ok(k + i) else Err(ENOMEM)
    decreases |puts|
  {
    hide FilledUpTo, Put;
    if puts != [] {
      PutFillsNext(st, k, puts[0].0, puts[0].1);
      FillsInOrder(Put(st, puts[0].0, puts[0].1).0, puts[1..], if k < |st.arr| then k + 1 else k);
    }
  }

  lemma PutFillsNext(st: Store, k: nat, msg: Message, ts: Time)
    requires FilledUpTo(st, k)
    ensures var (st', x) := Put(st, msg, ts);
            && Shape(st) && |st'.arr| == |st.arr| && k <= |st.arr|
            && x == (if k < |st.arr| then Ok(k) else Err(ENOMEM))
            && FilledUpTo(st', if k < |st.arr| then k + 1 else k)
  {
    hide Search, Insert, BlockOf;
    SearchCorrect(st.arr, st.last);
    if k < |st.arr| {
      assert FirstFree(st.arr, st.last, k);
    }
  }
}
