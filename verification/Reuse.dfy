/** Why the condition of `SectionCopiesStoredMessage` is needed: the array entry is free again
    before the grace period ends, so a put may overwrite a block that a reader has found. */
module Reuse {
  import opened Layout
  import opened SortedList
  import opened StoreSpec
  import opened Protocol
  import opened Invariant
  import opened Runs

  ghost predicate Reachable(s: State) {
    exists run :: IsRun(run) && run[|run| - 1] == s
  }

  lemma StartIsReachable(st: Store)
    requires Inv(st)
    ensures Reachable(InitState(st))
  {
    hide Inv;
    var run := [InitState(st)];
    assert IsRun(run) && run[|run| - 1] == InitState(st);
  }

  lemma StepIsReachable(s: State, a: Action)
    requires Reachable(s) && Ready(s, a)
    ensures Safe(s, a) && Reachable(Step(s, a))
  {
    hide Good, Ready, Safe, Step;
    var run :| IsRun(run) && run[|run| - 1] == s;
    ReachableGood(run, |run| - 1);
    StepKeepsGood(s, a);
    var longer := run + [Step(s, a)];
    forall i | 0 <= i < |longer| - 1
      ensures Transition(longer[i], longer[i + 1])
    {
      if i < |run| - 1 {
        assert Transition(run[i], run[i + 1]);
      }
    }
    assert IsRun(longer) && longer[|longer| - 1] == Step(s, a);
  }

  // ----- whole calls as sequences of steps -----

  /** The sections are where they were; only their histories may have grown. */
  ghost predicate SameWalks(s: State, s': State) {
    && s'.readers.Keys == s.readers.Keys
    && forall r :: r in s.readers ==>
         s'.readers[r].want == s.readers[r].want && s'.readers[r].size == s.readers[r].size && s'.readers[r].walk == s.readers[r].walk
  }

  lemma ReachInvFind(s0: State, c: nat, b: nat, pos: nat) returns (s: State)
    requires Reachable(s0) && s0.lock.None? && c !in s0.calls && b < |s0.arr|
    requires SpineAllocated(s0) && IndexOf(Elems(s0), b) == Some(pos)
    ensures Reachable(s) && s == s0.(lock := Some(c), calls := s0.calls[c := InvUnlink(b, s0.spine[pos])])
  {
    hide Reachable, IndexOf;
    StepIsReachable(s0, InvBegin(c, b));
    s := DoInvBegin(s0, c, b);
    StepIsReachable(s, InvAcquire(c));
    s := DoInvAcquire(s, c);
    assert s.node[s.spine[pos]].e.ndx == b;
    StepIsReachable(s, InvFind(c));
    s := DoInvFind(s, c);
  }

  lemma ReachInvDetach(s0: State, c: nat, b: nat, pos: nat) returns (s: State)
    requires Reachable(s0) && s0.lock == Some(c) && SpineAllocated(s0) && IndexOf(Elems(s0), b) == Some(pos)
    requires c in s0.calls && s0.calls[c] == InvUnlink(b, s0.spine[pos])
    ensures Reachable(s) && s0.spine[pos] in s0.next && SameWalks(s0, s)
    ensures s == s0.(calls := s0.calls[c := InvMark(b, s0.spine[pos])], spine := RemoveAt(s0.spine, pos),
                     next := s0.next[Ring(s0.spine, pos) := s0.next[s0.spine[pos]]], readers := s.readers)
  {
    hide Reachable, IndexOf, RemoveAt, Ring, Lists;
    StepIsReachable(s0, InvDetach(c));
    s := DoInvDetach(s0, c);
  }

  lemma ReachInvClear(s0: State, c: nat, b: nat, x: Id) returns (s: State)
    requires Reachable(s0) && s0.lock == Some(c) && c in s0.calls && s0.calls[c] == InvMark(b, x)
    ensures Reachable(s) && b < |s0.arr|
    ensures s == s0.(calls := s0.calls[c := InvRewrite(b, x, 0)], arr := s0.arr[b := s0.arr[b].(valid := false)])
  {
    hide Reachable;
    StepIsReachable(s0, InvClear(c));
    s := DoInvClear(s0, c);
  }

  lemma ReachInvCopy(s0: State, c: nat, b: nat, x: Id) returns (s: State)
    requires Reachable(s0) && s0.lock == Some(c) && c in s0.calls && s0.calls[c] == InvRewrite(b, x, 0)
    ensures Reachable(s) && |s.dev| == |s0.dev|
    ensures s == s0.(calls := s0.calls[c := InvRewrite(b, x, METADATA_SIZE)], dev := s.dev)
  {
    hide Reachable, Piece, Rewritten;
    StepIsReachable(s0, InvCopy(c, METADATA_SIZE));
    s := DoInvCopy(s0, c, METADATA_SIZE);
  }

  lemma ReachInvUnlock(s0: State, c: nat, b: nat, x: Id) returns (s: State)
    requires Reachable(s0) && s0.lock == Some(c) && c in s0.calls && s0.calls[c] == InvRewrite(b, x, METADATA_SIZE)
    ensures Reachable(s)
    ensures s == s0.(lock := None, calls := s0.calls[c := InvSync(x)], model := s.model)
  {
    hide Reachable, Apply;
    StepIsReachable(s0, InvRelease(c));
    s := DoInvRelease(s0, c);
  }

  lemma ReachInvRelease(s0: State, c: nat, b: nat, x: Id) returns (s: State)
    requires Reachable(s0) && s0.lock == Some(c) && c in s0.calls && s0.calls[c] == InvMark(b, x)
    ensures Reachable(s) && b < |s0.arr| && |s.dev| == |s0.dev|
    ensures s == s0.(lock := None, calls := s0.calls[c := InvSync(x)], arr := s0.arr[b := s0.arr[b].(valid := false)],
                     dev := s.dev, model := s.model)
  {
    hide Reachable;
    s := ReachInvClear(s0, c, b, x);
    s := ReachInvCopy(s, c, b, x);
    s := ReachInvUnlock(s, c, b, x);
  }

  /** A whole `invalidate_data` up to the point where it starts waiting for readers. */
  lemma ReachInvalidation(s0: State, c: nat, b: nat, pos: nat) returns (s: State)
    requires Reachable(s0) && s0.lock.None? && c !in s0.calls && b < |s0.arr|
    requires SpineAllocated(s0) && IndexOf(Elems(s0), b) == Some(pos)
    ensures Reachable(s) && s.lock.None? && s.calls.Keys == s0.calls.Keys + {c} && SameWalks(s0, s)
    ensures s.node == s0.node && s.last == s0.last && |s.dev| == |s0.dev| && s.spine == RemoveAt(s0.spine, pos)
    ensures s0.spine[pos] in s0.next && s.next == s0.next[Ring(s0.spine, pos) := s0.next[s0.spine[pos]]]
    ensures s.arr == s0.arr[b := s0.arr[b].(valid := false)]
  {
    hide Reachable, IndexOf, RemoveAt, Ring, ElemsOf;
    s := ReachInvFind(s0, c, b, pos);
    s := ReachInvDetach(s, c, b, pos);
    s := ReachInvRelease(s, c, b, s0.spine[pos]);
  }

  lemma ReachPutBegin(s0: State, c: nat, addr: Id, msg: Message, ts: Time) returns (s: State)
    requires Reachable(s0) && c !in s0.calls && addr != HEAD && addr !in s0.node
    ensures Reachable(s) && s.node.Keys == s0.node.Keys + {addr} && s.next == s0.next[addr := HEAD]
    ensures forall x :: x in s0.node ==> s.node[x] == s0.node[x]
    ensures s == s0.(calls := s0.calls[c := PutReady(addr, msg, ts)], node := s.node, next := s.next, stale := s.stale)
  {
    hide Reachable;
    StepIsReachable(s0, PutBegin(c, addr, msg, ts));
    s := DoPutBegin(s0, c, addr, msg, ts);
  }

  lemma ReachPutLock(s0: State, c: nat, addr: Id, msg: Message, ts: Time) returns (s: State)
    requires Reachable(s0) && s0.lock.None? && c in s0.calls && s0.calls[c] == PutReady(addr, msg, ts)
    ensures Reachable(s) && s == s0.(lock := Some(c), calls := s0.calls[c := PutScan(addr, msg, ts)])
  {
    hide Reachable;
    StepIsReachable(s0, PutAcquire(c));
    s := DoPutAcquire(s0, c);
  }

  lemma ReachPutChoose(s0: State, c: nat, addr: Id, msg: Message, ts: Time, t: nat) returns (s: State)
    requires Reachable(s0) && s0.lock == Some(c) && c in s0.calls && s0.calls[c] == PutScan(addr, msg, ts)
    requires Search(s0.arr, s0.last) == Some(t)
    ensures Reachable(s) && s == s0.(calls := s0.calls[c := PutWrite(addr, msg, ts, t, 0)], stale := s.stale)
  {
    hide Reachable, Search;
    StepIsReachable(s0, PutChoose(c));
    s := DoPutChoose(s0, c);
  }

  lemma ReachPutCopy(s0: State, c: nat, addr: Id, msg: Message, ts: Time, t: nat) returns (s: State)
    requires Reachable(s0) && s0.lock == Some(c) && c in s0.calls && s0.calls[c] == PutWrite(addr, msg, ts, t, 0)
    ensures Reachable(s) && t < |s0.dev|
    ensures s == s0.(calls := s0.calls[c := PutWrite(addr, msg, ts, t, BLOCK_SIZE)], dev := s0.dev[t := BlockOf(ts, msg)])
  {
    hide Reachable, BlockOf;
    StepIsReachable(s0, PutCopy(c, BLOCK_SIZE));
    s := DoPutCopy(s0, c, BLOCK_SIZE);
    assert Piece(BlockOf(ts, msg), s0.dev[t], 0, BLOCK_SIZE) == BlockOf(ts, msg);
  }

  /** A `put_data` up to the point where it has written its block. */
  lemma ReachOverwrite(s0: State, c: nat, addr: Id, msg: Message, ts: Time, t: nat) returns (s: State)
    requires Reachable(s0) && s0.lock.None? && c !in s0.calls && addr != HEAD && addr !in s0.node
    requires Search(s0.arr, s0.last) == Some(t)
    ensures Reachable(s) && s.readers == s0.readers && t < |s.dev| && s.dev[t] == BlockOf(ts, msg)
    ensures s.node.Keys == s0.node.Keys + {addr} && s.next == s0.next[addr := HEAD]
    ensures forall x :: x in s0.node ==> s.node[x] == s0.node[x]
  {
    hide Reachable, Search, BlockOf;
    s := ReachPutBegin(s0, c, addr, msg, ts);
    s := ReachPutLock(s, c, addr, msg, ts);
    s := ReachPutChoose(s, c, addr, msg, ts, t);
    s := ReachPutCopy(s, c, addr, msg, ts, t);
  }

  // ----- a device with two messages -----

  /** Blocks 0 and 1 hold `[65]` and `[66]`, in that order, and the next search starts at block 1. */
  function TwoMessages(): (st: Store) {
    Store([Metadata(1, true, 1), Metadata(2, true, 1)], [BlockOf(1, [65]), BlockOf(2, [66])],
          [Elem(0, 1, 1), Elem(1, 2, 1)], 0)
  }

  lemma TwoMessagesInv()
    ensures Inv(TwoMessages())
  {
    hide EncodeMetadata, BlockOf;
    var st := TwoMessages();
    assert st.list[0].ndx == 0 && st.list[1].ndx == 1;
    assert Mirrors(st.arr, st.list[0]) && Mirrors(st.arr, st.list[1]);
  }

  /** `get_data(1)` has just entered its section. */
  ghost predicate Entered(s: State) {
    && 0 in s.readers && s.readers[0].want == Get(1) && s.readers[0].size == 1 && s.readers[0].walk == At(HEAD)
    && s.node.Keys == {1, 2} && s.node[1].e == Elem(0, 1, 1) && s.node[2].e == Elem(1, 2, 1) && s.node[2].msg == [66]
    && s.spine == [1, 2] && s.next == map[0 := 1, 1 := 2, 2 := 0]
    && s.lock.None? && s.calls == map[] && s.last == 0 && s.arr == TwoMessages().arr
  }

  lemma ReaderEnters() returns (s: State)
    ensures Reachable(s) && Entered(s)
  {
    TwoMessagesInv();
    hide Reachable, Inv;
    var st := TwoMessages();
    s := InitState(st);
    StartIsReachable(st);
    assert s.node[1] == MountedNode(st, 1) && s.node[2] == MountedNode(st, 2);
    assert MountedNode(st, 2).msg == [66];
    assert s.spine == [1, 2];
    StepIsReachable(s, ReaderEnter(Get(1), 1));
    s := DoEnter(s, Get(1), 1);
  }

  lemma ReachAdvance(s0: State, r: nat, cur: Id) returns (s: State)
    requires Reachable(s0) && r in s0.readers && s0.readers[r].walk == At(cur)
    ensures Reachable(s) && SafeHop(s0.node, s0.next, cur)
    ensures s == s0.(readers := s0.readers[r := s0.readers[r].(walk := Hop(s0.node, s0.next, s0.readers[r], cur))])
    ensures Ready(s0, ReaderAdvance(r)) && Safe(s0, ReaderAdvance(r)) && s == Step(s0, ReaderAdvance(r))
  {
    hide Reachable, Hop;
    StepIsReachable(s0, ReaderAdvance(r));
    s := DoAdvance(s0, r);
  }

  /** A section that found a one-byte message copies the byte its block holds now. */
  lemma ReachTake(s0: State, r: nat, x: Id, ts: Time, byte: Byte) returns (s: State)
    requires Reachable(s0) && r in s0.readers && s0.readers[r].walk == Copying(x, 0, 1, [])
    requires x in s0.node && s0.node[x].e.ndx < |s0.dev| && s0.dev[s0.node[x].e.ndx] == BlockOf(ts, [byte])
    ensures Reachable(s) && s.node == s0.node && r in s.readers && s.readers[r].walk == Copying(x, 0, 1, [byte])
    ensures Ready(s0, ReaderCopy(r, 1)) && Safe(s0, ReaderCopy(r, 1)) && s == Step(s0, ReaderCopy(r, 1))
  {
    ByteOfBlock(ts, byte);
    hide Reachable, BlockOf;
    StepIsReachable(s0, ReaderCopy(r, 1));
    s := DoCopy(s0, r, 1);
  }

  lemma ByteOfBlock(ts: Time, byte: Byte)
    ensures BlockOf(ts, [byte])[METADATA_SIZE..METADATA_SIZE + 1] == [byte]
  {
  }

  lemma ListedAt(s: State, b: nat, pos: nat)
    requires SpineAllocated(s) && pos < |s.spine| && s.node[s.spine[pos]].e.ndx == b
    requires forall i :: 0 <= i < pos ==> s.node[s.spine[i]].e.ndx != b
    ensures IndexOf(Elems(s), b) == Some(pos)
  {
    hide IndexOf, ElemsOf;
    var l := Elems(s);
    assert l[pos].ndx == b;
  }

  lemma SecondIsFree(arr: seq<Metadata>)
    requires |arr| == 2 && !arr[1].valid
    ensures Search(arr, 0) == Some(1)
  {
  }

  /** A `get_data(1)` that has found the listed message `[66]` returns the byte of the message
      `[67]`: block 1 is invalidated and selected again between the match and the copy. */
  lemma ReuseCanReplaceTheMessage() returns (found: State, copied: State)
    ensures Reachable(found) && 0 in found.readers && found.readers[0].walk == Copying(2, 0, 1, [])
    ensures found.spine == [1, 2] && 2 in found.node && found.node[2].e.ndx == 1 && found.node[2].msg == [66]
    ensures Reachable(copied) && 0 in copied.readers && copied.readers[0].walk == Copying(2, 0, 1, [67])
    ensures 2 in copied.node && copied.node[2] == found.node[2]
  {
    hide Reachable, IndexOf, BlockOf, ElemsOf, Ready, Safe, Step, Search, Ring, RemoveAt;
    var s := ReaderEnters();
    s := ReachAdvance(s, 0, HEAD);
    found := ReachAdvance(s, 0, 1);
    ListedAt(found, 1, 1);
    s := ReachInvalidation(found, 0, 1, 1);
    SecondIsFree(s.arr);
    s := ReachOverwrite(s, 1, 3, [67], 3, 1);
    copied := ReachTake(s, 0, 2, 3, 67);
  }

  /** Both blocks have been invalidated under a section that stands on node 1, and block 1 has
      been written again: the pointer of node 1 still leads to node 2. */
  lemma ReachFrozenWalk() returns (s: State)
    ensures Reachable(s) && 0 in s.readers && s.readers[0].walk == At(1)
    ensures s.readers[0].want == Get(1) && s.readers[0].size == 1
    ensures 2 in s.node && s.node[2].e == Elem(1, 2, 1) && s.node[2].msg == [66]
    ensures 1 in s.next && s.next[1] == 2 && |s.dev| > 1 && s.dev[1] == BlockOf(3, [67])
  {
    hide Reachable, IndexOf, BlockOf, ElemsOf, Ready, Safe, Step, Search;
    s := ReaderEnters();
    s := ReachAdvance(s, 0, HEAD);
    ListedAt(s, 0, 0);
    s := ReachInvalidation(s, 0, 0, 0);
    ListedAt(s, 1, 0);
    s := ReachInvalidation(s, 1, 1, 0);
    SecondIsFree(s.arr);
    s := ReachOverwrite(s, 2, 3, [67], 3, 1);
  }

  /** That no put selects the block between the match and the copy is not enough: here the copy is
      the very next step after the match, and still delivers the byte of another message. */
  lemma AdjacentCopyCanReplaceTheMessage() returns (s: State, found: State, copied: State)
    ensures Reachable(s) && Ready(s, ReaderAdvance(0)) && Safe(s, ReaderAdvance(0)) && found == Step(s, ReaderAdvance(0))
    ensures Ready(found, ReaderCopy(0, 1)) && Safe(found, ReaderCopy(0, 1)) && copied == Step(found, ReaderCopy(0, 1))
    ensures 0 in found.readers && found.readers[0].walk == Copying(2, 0, 1, [])
    ensures 0 in copied.readers && copied.readers[0].walk == Copying(2, 0, 1, [67])
    ensures 2 in copied.node && copied.node[2].e.ndx == 1 && copied.node[2].msg == [66]
  {
    hide Reachable, BlockOf, Ready, Safe, Step;
    s := ReachFrozenWalk();
    found := ReachAdvance(s, 0, 1);
    copied := ReachTake(found, 0, 2, 3, 67);
  }
}
