/** What each call does to the store and what it answers, told by array entries, list positions and bytes
    of the device alone. */
module Effects {
  import opened Layout
  import opened SortedList
  import opened StoreSpec

  // ----- put_data -----

  /** The list gets the new element right after the last one with a smaller timestamp. */
  ghost predicate IsInserted(l: seq<Elem>, e: Elem, l': seq<Elem>) {
    exists p: nat :: IsInsertPos(l, e.nsec, p) && l' == l[..p] + [e] + l[p..]
  }

  lemma InsertedOnce(l: seq<Elem>, e: Elem)
    ensures IsInserted(l, e, Insert(l, e))
  {
    hide InsertPos;
    var p := InsertPos(l, e.nsec);
    assert Insert(l, e) == l[..p] + [e] + l[p..];
  }

  /** A put takes block `b`: probing the blocks after the last written one in turn, round the end of the
      device and the last written one last, it is the first that is free. */
  ghost predicate IsTaken(arr: seq<Metadata>, last: nat, b: nat) {
    exists i: nat :: 1 <= i <= |arr| && b == (last + i) % |arr| && !arr[b].valid && TakenBefore(arr, last, i)
  }

  ghost predicate TakenBefore(arr: seq<Metadata>, last: nat, i: nat)
    requires |arr| > 0
  {
    forall k: nat :: 1 <= k < i ==> arr[Probe(last, k, |arr|)].valid
  }

  ghost function Probe(last: nat, k: nat, n: nat): (b: nat)
    requires n > 0
    ensures b < n
  {
    (last + k) % n
  }

  lemma {:induction false} SearchTakes(arr: seq<Metadata>, last: nat, i: nat)
    requires 1 <= i <= |arr| + 1 && |arr| > 0 && TakenBefore(arr, last, i)
    ensures forall b: nat :: SearchFrom(arr, last, i) == Some(b) ==> IsTaken(arr, last, b)
    ensures SearchFrom(arr, last, i).None? ==> TakenBefore(arr, last, |arr| + 1)
    decreases |arr| + 1 - i
  {
    if i <= |arr| && arr[(last + i) % |arr|].valid {
      assert arr[Probe(last, i, |arr|)].valid;
      SearchTakes(arr, last, i + 1);
    }
  }

  lemma OneTaken(arr: seq<Metadata>, last: nat, b: nat, d: nat)
    requires IsTaken(arr, last, b) && IsTaken(arr, last, d)
    ensures b == d
  {
    var i: nat :| 1 <= i <= |arr| && b == (last + i) % |arr| && !arr[b].valid && TakenBefore(arr, last, i);
    var j: nat :| 1 <= j <= |arr| && d == (last + j) % |arr| && !arr[d].valid && TakenBefore(arr, last, j);
    assert Probe(last, i, |arr|) == b && Probe(last, j, |arr|) == d;
  }

  /** The search takes block `b` if and only if it is the one described. */
  lemma SearchIff(arr: seq<Metadata>, last: nat)
    requires |arr| > 0 ==> last < |arr|
    ensures forall b: nat :: Search(arr, last) == Some(b) <==> IsTaken(arr, last, b)
  {
    hide IsTaken;
    if |arr| > 0 {
      SearchTakes(arr, last, 1);
      forall b: nat | IsTaken(arr, last, b)
        ensures Search(arr, last) == Some(b)
      {
        TakenIsFound(arr, last, b);
        OneTaken(arr, last, b, Search(arr, last).value);
      }
    } else {
      NoneTaken(arr, last);
    }
  }

  lemma NoneTaken(arr: seq<Metadata>, last: nat)
    requires |arr| == 0
    ensures forall b: nat :: !IsTaken(arr, last, b)
  {
  }

  lemma TakenIsFound(arr: seq<Metadata>, last: nat, b: nat)
    requires |arr| > 0 && last < |arr| && IsTaken(arr, last, b)
    ensures Search(arr, last).Some?
  {
    hide Search;
    SearchCorrect(arr, last);
    var i: nat :| 1 <= i <= |arr| && b == (last + i) % |arr| && !arr[b].valid && TakenBefore(arr, last, i);
    assert !arr[Probe(last, i, |arr|)].valid;
  }

  /** What `put_data` answers, in every case. */
  lemma PutAnswers(st: Store, msg: seq<Byte>, ts: Time)
    requires Inv(st)
    ensures var r := Put(st, msg, ts).1;
            && (r == Err(E2BIG) <==> |msg| > 4086)
            && (r == Err(ENOMEM) <==> |msg| <= 4086 && forall b :: 0 <= b < |st.arr| ==> st.arr[b].valid)
            && (forall b: nat :: r == Ok(b) <==> |msg| <= 4086 && IsTaken(st.arr, st.last, b))
  {
    hide DeviceAgrees, ListAgrees, PutAt, Search, IsTaken;
    SearchCorrect(st.arr, st.last);
    SearchIff(st.arr, st.last);
  }

  /** A put that fails leaves everything as it was. */
  lemma FailedPutChangesNothing(st: Store, msg: seq<Byte>, ts: Time)
    requires Inv(st) && Put(st, msg, ts).1.Err?
    ensures Put(st, msg, ts).0 == st
  {
    hide DeviceAgrees, ListAgrees, PutAt, Search;
  }

  /** A put that succeeds changes the entry, the block and the last written block it reports, adds one
      element to the list, and changes nothing else. */
  lemma PutChanges(st: Store, msg: seq<Byte>, ts: Time)
    requires Inv(st) && Put(st, msg, ts).1.Ok?
    ensures |msg| <= 4086
    ensures var (st', r) := Put(st, msg, ts); var t := r.value;
            && t < |st.arr| == |st'.arr| == |st.dev| == |st'.dev| && st'.last == t
            && (forall b :: 0 <= b < |st.arr| ==> st'.arr[b] == if b == t then Metadata(ts, true, |msg|) else st.arr[b])
            && (forall b :: 0 <= b < |st.dev| && b != t ==> st'.dev[b] == st.dev[b])
            && IsWritten(st'.dev[t], ts, msg)
            && IsInserted(st.list, Elem(t, ts, |msg|), st'.list)
  {
    hide DeviceAgrees, ListAgrees, BlockOf, Insert, Search, IsWritten, IsInserted;
    var t := Put(st, msg, ts).1.value;
    assert Search(st.arr, st.last) == Some(t);
    SameSize(st);
    WrittenBlock(ts, msg);
    InsertedOnce(st.list, Elem(t, ts, |msg|));
  }

  lemma SameSize(st: Store)
    requires Inv(st)
    ensures |st.dev| == |st.arr|
  {
  }

  // ----- invalidate_data -----

  /** What `invalidate_data` answers, in every case. */
  lemma InvalidateAnswers(st: Store, b: int)
    requires Inv(st)
    ensures var r := Invalidate(st, b).1;
            && (r == Err(E2BIG) <==> b < 0 || b >= |st.arr|)
            && (r == Err(ENODATA) <==> 0 <= b < |st.arr| && !st.arr[b].valid)
            && (r == Ok(()) <==> 0 <= b < |st.arr| && st.arr[b].valid)
  {
    hide DeviceAgrees, InvalidateAt;
    InvalidateSucceedsIffValid(st, b);
  }

  lemma FailedInvalidateChangesNothing(st: Store, b: int)
    requires Inv(st) && Invalidate(st, b).1.Err?
    ensures Invalidate(st, b).0 == st
  {
    hide DeviceAgrees, ListAgrees, InvalidateAt, IndexOf;
  }

  /** The list loses its one element for the block. */
  ghost predicate IsRemoved(l: seq<Elem>, b: int, l': seq<Elem>) {
    exists i :: 0 <= i < |l| && l[i].ndx == b && l' == l[..i] + l[i + 1..]
  }

  /** An invalidation that succeeds clears the validity in the entry and in the block, takes the element
      out of the list, and changes nothing else: the last written block stays. */
  lemma InvalidateChanges(st: Store, b: nat)
    requires Inv(st) && Invalidate(st, b).1.Ok?
    ensures var st' := Invalidate(st, b).0;
            && b < |st.arr| == |st'.arr| == |st.dev| == |st'.dev| && st'.last == st.last
            && (forall d :: 0 <= d < |st.arr| && d != b ==> st'.arr[d] == st.arr[d] && st'.dev[d] == st.dev[d])
            && st.arr[b].valid && st'.arr[b] == st.arr[b].(valid := false)
            && st.dev[b][8] % 2 == 1 && st'.dev[b] == st.dev[b][8 := st.dev[b][8] - 1]
            && IsRemoved(st.list, b, st'.list)
  {
    hide DeviceAgrees, ListAgrees, Rewritten, IndexOf, IsRemoved;
    InvalidateTouchesOneBit(st, b);
    InvalidateSucceedsIffValid(st, b);
    SameSize(st);
    var i := IndexOf(st.list, b).value;
    RemovedOnce(st.list, i);
  }

  lemma RemovedOnce(l: seq<Elem>, i: nat)
    requires i < |l|
    ensures IsRemoved(l, l[i].ndx, RemoveAt(l, i))
  {
    assert RemoveAt(l, i) == l[..i] + l[i + 1..];
  }

  // ----- get_data -----

  /** What `get_data` answers, in every case: an error, or the first bytes after the record. */
  lemma GetAnswersExactly(st: Store, b: int, size: nat)
    requires Inv(st)
    ensures var r := Get(st, b, size);
            && (r == Err(E2BIG) <==> b < 0 || b >= |st.arr|)
            && (r == Err(ENODATA) <==> 0 <= b < |st.arr| && !st.arr[b].valid)
            && (0 <= b < |st.arr| && st.arr[b].valid ==>
                && st.arr[b].bytes <= 4086 && |st.dev| == |st.arr|
                && r == Ok(st.dev[b][10..10 + if size < st.arr[b].bytes then size else st.arr[b].bytes]))
  {
    SameSize(st);
    if 0 <= b < |st.arr| {
      GetByArray(st, b, size);
      if st.arr[b].valid {
        ValidFits(st, b);
      }
    }
  }

  lemma ValidFits(st: Store, b: nat)
    requires Inv(st) && b < |st.arr| && st.arr[b].valid
    ensures st.arr[b].bytes <= 4086
  {
    hide ListAgrees, EncodeMetadata;
  }
}
