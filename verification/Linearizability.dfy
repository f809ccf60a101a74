/** Lock-free lookups against the history of the list: what a read section finds, and what it
    may conclude from not finding anything. */
module Linearizability {
  import opened Layout
  import opened SortedList
  import opened StoreSpec
  import opened Protocol
  import opened ListSteps
  import opened Invariant
  import opened Runs

  /** The instant at which the section active at `i` entered. */
  ghost function EnteredAt(run: seq<State>, i: nat, r: nat): (e: nat)
    requires i < |run| && r in run[i].readers
    ensures e <= i
    decreases i
  {
    if i == 0 || r !in run[i - 1].readers then i else EnteredAt(run, i - 1, r)
  }

  /** The history a section carries after a step that leads to `s'`. */
  ghost predicate Recorded(rd: Reader, rd': Reader, s': State) {
    && rd'.want == rd.want && rd'.size == rd.size
    && rd'.ever == rd.ever + Ids(s'.spine)
    && rd'.always == rd.always * Ids(s'.spine)
    && rd'.present == (rd.present && Lists(s', rd.want.b))
  }

  lemma QuietPutKeepsHistory(s: State, a: Action, r: nat)
    requires Ready(s, a) && Safe(s, a) && ByPut(a) && !a.PutPublish?
    requires r in s.readers && r in Step(s, a).readers
    ensures var rd, rd' := s.readers[r], Step(s, a).readers[r]; rd' == rd.(walk := rd'.walk)
  {
    hide Search, IndexOf, InsertPos, ElemsOf, Lists, InsertAt, RemoveAt, Piece, BlockOf, Rewritten, Ring, Observed, Hop, Ids,
      Apply, Complete, Stop, CopyFrom, CopyGoal, Observe;
  }

  lemma QuietKeepsHistory(s: State, a: Action, r: nat)
    requires Ready(s, a) && Safe(s, a) && !ByPut(a) && !a.InvDetach?
    requires r in s.readers && r in Step(s, a).readers && r < s.nextReader
    ensures var rd, rd' := s.readers[r], Step(s, a).readers[r]; rd' == rd.(walk := rd'.walk)
  {
    hide Search, IndexOf, InsertPos, ElemsOf, Lists, InsertAt, RemoveAt, Piece, BlockOf, Rewritten, Ring, Observed, Hop, Ids,
      Apply, Complete, Stop, CopyFrom, CopyGoal, Observe;
  }

  lemma SectionRecords(s: State, rd: Reader)
    requires SectionOk(s.node, s.next, s.spine, s.stale, rd)
    ensures Recorded(rd, rd, s)
  {
    hide WalkOk, Nearer;
    if rd.present {
      var n :| n in rd.always && s.node[n].e.ndx == rd.want.b;
      var i :| 0 <= i < |s.spine| && s.spine[i] == n;
      assert Lists(s, rd.want.b);
    }
  }

  lemma PublishRecords(s: State, c: nat, r: nat)
    requires CanPutPublish(s, c) && SafeInsert(s, s.calls[c].node) && r in s.readers
    ensures var s' := DoPutPublish(s, c); r in s'.readers && Recorded(s.readers[r], s'.readers[r], s')
  {
  }

  lemma DetachRecords(s: State, c: nat, r: nat)
    requires CanInvDetach(s, c) && SafeDetach(s, s.calls[c].b, s.calls[c].node) && r in s.readers
    ensures var s' := DoInvDetach(s, c); r in s'.readers && Recorded(s.readers[r], s'.readers[r], s')
  {
  }

  /** Each step of the machine adds one instant to the history of every active section. */
  lemma StepRecords(s: State, a: Action, r: nat)
    requires Good(s) && Ready(s, a) && Safe(s, a) && Good(Step(s, a))
    requires r in s.readers && r in Step(s, a).readers
    ensures Recorded(s.readers[r], Step(s, a).readers[r], Step(s, a))
  {
    hide Linked, Ownership, Contents, GraceOk, Refines, SectionOk, Recorded, SafeInsert, SafeDetach;
    if a.PutPublish? {
      PublishRecords(s, a.c, r);
    } else if a.InvDetach? {
      DetachRecords(s, a.c, r);
    } else {
      QuietRecords(s, a, r);
    }
  }

  lemma QuietRecords(s: State, a: Action, r: nat)
    requires Good(s) && Ready(s, a) && Safe(s, a) && Good(Step(s, a)) && !a.PutPublish? && !a.InvDetach?
    requires r in s.readers && r in Step(s, a).readers
    ensures Recorded(s.readers[r], Step(s, a).readers[r], Step(s, a))
  {
    hide Linked, Ownership, Contents, GraceOk, Refines, SectionOk, Ready, Safe, Step, InRange;
    var s' := Step(s, a);
    if ByPut(a) {
      QuietPutKeepsHistory(s, a, r);
    } else {
      QuietKeepsHistory(s, a, r);
    }
    SectionRecords(s', s'.readers[r]);
  }

  /** A section that was not active before starts its history with what is listed at that instant. */
  lemma EntryRecords(s: State, a: Action, r: nat)
    requires Ready(s, a) && Safe(s, a) && r !in s.readers && r in Step(s, a).readers
    ensures var s' := Step(s, a); var rd := s'.readers[r];
            rd.ever == Ids(s'.spine) && rd.always == Ids(s'.spine) && rd.present == Lists(s', rd.want.b)
  {
    hide Step, Ready, Safe, Ids, Lists;
    OnlyEnterAdds(s, a, r);
    EnterRecords(s, a.want, a.size);
  }

  lemma EnterRecords(s: State, want: Want, size: nat)
    ensures var s', rd := DoEnter(s, want, size), Reader(want, size, At(HEAD), Ids(s.spine), Ids(s.spine), Lists(s, want.b));
            s'.readers == s.readers[s.nextReader := rd] && s'.spine == s.spine && (forall b :: Lists(s', b) <==> Lists(s, b))
  {
  }

  lemma OnlyEnterAdds(s: State, a: Action, r: nat)
    requires Ready(s, a) && Safe(s, a) && r !in s.readers && r in Step(s, a).readers
    ensures a.ReaderEnter? && Step(s, a) == DoEnter(s, a.want, a.size)
  {
    hide Ready, Safe, Step;
    if ByPut(a) {
      PutsAddNoSection(s, a, r);
    } else if ByReader(a) {
      SectionsAddNoOther(s, a, r);
    } else {
      InvalidatesAddNoSection(s, a, r);
    }
  }

  lemma PutsAddNoSection(s: State, a: Action, r: nat)
    requires Ready(s, a) && Safe(s, a) && ByPut(a)
    ensures r in Step(s, a).readers ==> r in s.readers
  {
    hide Search, InsertPos, ElemsOf, InsertAt, Piece, BlockOf, Ring, Observed, Ids, Apply, Lists;
  }

  lemma InvalidatesAddNoSection(s: State, a: Action, r: nat)
    requires Ready(s, a) && Safe(s, a) && !ByPut(a) && !ByReader(a)
    ensures r in Step(s, a).readers ==> r in s.readers
  {
    hide IndexOf, ElemsOf, RemoveAt, Piece, Rewritten, Ring, Observed, Ids, Apply, Lists;
  }

  lemma SectionsAddNoOther(s: State, a: Action, r: nat)
    requires Ready(s, a) && Safe(s, a) && ByReader(a) && r !in s.readers && r in Step(s, a).readers
    ensures a.ReaderEnter? && Step(s, a) == DoEnter(s, a.want, a.size)
  {
    hide Hop, Ids, Complete, Stop, CopyFrom, CopyGoal, Lists;
  }

  ghost predicate InWindow(run: seq<State>, i: nat, r: nat, j: int)
    requires i < |run| && r in run[i].readers
  {
    EnteredAt(run, i, r) <= j <= i
  }

  /** The history fields are exactly what they stand for: `ever` is the union of the lists at the
      instants of the section, `always` their intersection, and `present` says that the wanted
      block was listed at each of them. */
  lemma {:induction false} HistoryIsTheWindow(run: seq<State>, i: nat, r: nat)
    requires IsRun(run) && i < |run| && r in run[i].readers
    ensures forall j :: InWindow(run, i, r, j) ==> r in run[j].readers && run[j].readers[r].want == run[i].readers[r].want
    ensures forall x :: x in run[i].readers[r].ever <==> exists j :: InWindow(run, i, r, j) && x in run[j].spine
    ensures forall x :: x in run[i].readers[r].always <==> forall j :: InWindow(run, i, r, j) ==> x in run[j].spine
    ensures run[i].readers[r].present <==> forall j :: InWindow(run, i, r, j) ==> Lists(run[j], run[i].readers[r].want.b)
    decreases i
  {
    hide IsRun, Ready, Safe, Step, Good, Lists;
    if i == 0 {
      NoSectionAtStart(run, r);
    } else {
      var a := RunStep(run, i - 1);
      assert EnteredAt(run, i, r) == if r !in run[i - 1].readers then i else EnteredAt(run, i - 1, r);
      if r in run[i - 1].readers {
        StepRecords(run[i - 1], a, r);
        HistoryIsTheWindow(run, i - 1, r);
        WindowGrows(run, i, r);
      } else {
        EntryRecords(run[i - 1], a, r);
        assert InWindow(run, i, r, i);
      }
    }
  }

  lemma NoSectionAtStart(run: seq<State>, r: nat)
    requires IsRun(run)
    ensures r !in run[0].readers
  {
    hide Inv, MountedNode, MountedNext;
    var st :| Inv(st) && run[0] == InitState(st);
  }

  lemma WindowGrows(run: seq<State>, i: nat, r: nat)
    requires 0 < i < |run| && r in run[i].readers && r in run[i - 1].readers
    ensures forall j :: InWindow(run, i, r, j) <==> InWindow(run, i - 1, r, j) || j == i
  {
  }

  // ----- lookups -----

  lemma ReachableSection(run: seq<State>, i: nat, r: nat)
    requires IsRun(run) && i < |run| && r in run[i].readers
    ensures SpineAllocated(run[i])
    ensures var s := run[i]; SectionOk(s.node, s.next, s.spine, s.stale, s.readers[r])
  {
    hide IsRun, Linked, Ownership, Contents, GraceOk, Refines, SectionOk;
    ReachableGood(run, i);
  }

  /** What a section found was in the list at some instant of the section. */
  lemma FoundWasListed(run: seq<State>, i: nat, r: nat)
    requires IsRun(run) && i < |run| && r in run[i].readers && run[i].readers[r].walk.Copying?
    ensures var rd := run[i].readers[r];
            && rd.walk.cur in run[i].node && Stop(rd.want, run[i].node[rd.walk.cur].e)
            && exists j :: InWindow(run, i, r, j) && rd.walk.cur in run[j].spine
  {
    hide IsRun, InWindow;
    ReachableSection(run, i, r);
    HistoryIsTheWindow(run, i, r);
  }

  /** `get_data` answers ENODATA only if, at some instant of its section, the block was absent. */
  lemma MissedWasAbsent(run: seq<State>, i: nat, r: nat)
    requires IsRun(run) && i < |run| && r in run[i].readers && run[i].readers[r].walk.Missed?
    ensures exists j :: InWindow(run, i, r, j) && !Lists(run[j], run[i].readers[r].want.b)
  {
    hide IsRun, InWindow, Lists;
    ReachableSection(run, i, r);
    HistoryIsTheWindow(run, i, r);
    var rd := run[i].readers[r];
    assert !rd.present by {
      assert forall n :: n in rd.always ==> run[i].node[n].e.ndx != rd.want.b;
    }
  }

  /** A node that stays listed for the whole section is not missed, whatever is inserted or
      removed around it meanwhile. */
  lemma ListedThroughoutIsNotMissed(run: seq<State>, i: nat, r: nat, x: Id)
    requires IsRun(run) && i < |run| && r in run[i].readers && run[i].readers[r].walk.Missed?
    requires forall j :: InWindow(run, i, r, j) ==> x in run[j].spine
    ensures x in run[i].node && !Stop(run[i].readers[r].want, run[i].node[x].e)
  {
    hide IsRun, InWindow, Stop;
    ReachableSection(run, i, r);
    HistoryIsTheWindow(run, i, r);
    assert x in run[i].readers[r].always;
  }

  // ----- contents -----

  /** At every instant of every run, even inside a critical section, the device block of a listed
      node starts with that node's metadata and holds its message: it was written before the node
      was published, and is not touched while the node is listed. */
  lemma ListedIsOnDevice(run: seq<State>, i: nat, k: nat)
    requires IsRun(run) && i < |run| && k < |run[i].spine|
    ensures run[i].spine[k] in run[i].node
    ensures var s := run[i]; var x := s.node[s.spine[k]];
            && x.e.ndx < |s.dev| && x.e.bytes == |x.msg|
            && s.dev[x.e.ndx][..METADATA_SIZE] == EncodeMetadata(Metadata(x.e.nsec, true, |x.msg|))
            && Payload(s.dev[x.e.ndx], |x.msg|) == x.msg
  {
    hide IsRun, Linked, Ownership, GraceOk, Sections, Refines, Payload;
    ReachableGood(run, i);
    var s := run[i];
    assert Holding(s.dev, s.node[s.spine[k]]);
    ListedMetadata(s, k);
  }

  lemma ListedMetadata(s: State, k: nat)
    requires Good(s) && k < |s.spine|
    ensures var e := s.node[s.spine[k]].e;
            e.ndx < |s.dev| && e.bytes <= MAX_MESSAGE && s.dev[e.ndx][..METADATA_SIZE] == EncodeMetadata(Metadata(e.nsec, true, e.bytes))
  {
    hide Linked, Ownership, GraceOk, Sections, Refines, Contents;
    var l := Elems(s);
    assert l[k] == s.node[s.spine[k]].e;
    ListedBlockIntact(s, k);
  }

  ghost predicate DescribedBy(dev: seq<Block>, e: Elem) {
    && e.ndx < |dev| && e.bytes <= MAX_MESSAGE
    && dev[e.ndx][..METADATA_SIZE] == EncodeMetadata(Metadata(e.nsec, true, e.bytes))
  }

  lemma ModelDescribes(m: Store, e: Elem)
    requires Inv(m) && e in m.list
    ensures DescribedBy(m.dev, e)
  {
    hide EncodeMetadata, Listed;
    var j :| 0 <= j < |m.list| && m.list[j] == e;
    assert Mirrors(m.arr, m.list[j]);
  }

  lemma FreeIsNotListed(m: Store, t: nat, e: Elem)
    requires Inv(m) && Search(m.arr, m.last) == Some(t) && e in m.list
    ensures e.ndx != t
  {
    SearchCorrect(m.arr, m.last);
    assert FirstFree(m.arr, m.last, t);
    var j :| 0 <= j < |m.list| && m.list[j] == e;
    assert Mirrors(m.arr, m.list[j]);
  }

  lemma RestIsOther(l: seq<Elem>, i: nat, e: Elem)
    requires DistinctBlocks(l) && i < |l| && e in RemoveAt(l, i)
    ensures e in l && e.ndx != l[i].ndx
  {
    var k :| 0 <= k < |l| - 1 && RemoveAt(l, i)[k] == e;
    assert l[if k < i then k else k + 1] == e;
  }

  /** The block of a listed element is either as the critical section found it, or just written. */
  lemma ListedBlockIntact(s: State, k: nat)
    requires SpineAllocated(s) && Ownership(s.node, s.spine, s.lock, s.calls) && Refines(s) && k < |s.spine|
    ensures DescribedBy(s.dev, Elems(s)[k])
  {
    hide Owns, Contents, DeviceAgrees, ListAgrees, Search, IndexOf, InsertPos, BlockOf, Rewritten, Mixed, EncodeMetadata,
      Insert, RemoveAt, PutAt, DescribedBy;
    var e := Elems(s)[k];
    if s.lock.None? {
      assert AtRest(s);
      ModelDescribes(s.model, e);
    } else {
      var pc := s.calls[s.lock.value];
      assert Progress(s, pc);
      if pc.PutWrite? || pc.PutLink? {
        WritingLeavesListed(s, pc, e);
      } else if pc.PutSwap? || pc.PutUnlock? {
        PublishedIsDescribed(s, pc, e);
      } else if pc.InvMark? || pc.InvRewrite? {
        RemovalLeavesListed(s, pc, e);
      } else {
        ModelDescribes(s.model, e);
      }
    }
  }

  lemma WritingLeavesListed(s: State, pc: Call, e: Elem)
    requires SpineAllocated(s) && Inv(s.model) && Progress(s, pc) && (pc.PutWrite? || pc.PutLink?) && e in Elems(s)
    ensures DescribedBy(s.dev, e)
  {
    hide DeviceAgrees, ListAgrees, Search, BlockOf, Mixed, EncodeMetadata, InsertPos;
    FreeIsNotListed(s.model, pc.t, e);
    ModelDescribes(s.model, e);
  }

  lemma PublishedIsDescribed(s: State, pc: Call, e: Elem)
    requires SpineAllocated(s) && Inv(s.model) && Progress(s, pc) && (pc.PutSwap? || pc.PutUnlock?) && e in Elems(s)
    ensures DescribedBy(s.dev, e)
  {
    hide DeviceAgrees, ListAgrees, Search, BlockOf, EncodeMetadata, Insert;
    InsertMembers(s.model.list, Elem(pc.t, pc.ts, |pc.msg|));
    if e in s.model.list {
      FreeIsNotListed(s.model, pc.t, e);
      ModelDescribes(s.model, e);
    }
  }

  lemma RemovalLeavesListed(s: State, pc: Call, e: Elem)
    requires SpineAllocated(s) && Inv(s.model) && Progress(s, pc) && (pc.InvMark? || pc.InvRewrite?) && e in Elems(s)
    ensures DescribedBy(s.dev, e)
  {
    hide DeviceAgrees, Mirrors, Listed, Sorted, IndexOf, Rewritten, Mixed, EncodeMetadata;
    RestIsOther(s.model.list, IndexOf(s.model.list, pc.b).value, e);
    ModelDescribes(s.model, e);
  }

  /** Between two instants a put selects block `b`. */
  ghost predicate Selects(s: State, s': State, b: int) {
    exists c :: c in s.calls && c in s'.calls && s.calls[c].PutScan? && s'.calls[c].PutWrite? && s'.calls[c].t == b
  }

  lemma OnlySelectionMakesStale(s: State, a: Action, x: Id)
    requires Good(s) && Ready(s, a) && Safe(s, a)
    requires x in s.node && x !in s.stale
    ensures x in Step(s, a).stale ==> Selects(s, Step(s, a), s.node[x].e.ndx)
  {
    hide Linked, Ownership, Contents, GraceOk, Refines, Sections, Search, IndexOf, InsertPos, ElemsOf, Lists, InsertAt, RemoveAt, Piece,
      BlockOf, Rewritten, Ring, Observed, Hop, Ids, Apply, Complete, Stop, CopyFrom, CopyGoal;
    if a.PutChoose? {
      assert a.c in Step(s, a).calls;
    }
  }

  lemma OnlyFillChangesFields(s: State, a: Action, x: Id)
    requires Ready(s, a) && Safe(s, a) && x in s.node && x in Step(s, a).node
    ensures Step(s, a).node[x] == s.node[x] || (a.PutFill? && s.calls[a.c].node == x)
  {
    hide Step, Ready, Safe;
    if ByPut(a) {
      OnlyFillAmongPutsChangesFields(s, a, x);
    } else {
      OthersKeepFields(s, a, x);
    }
  }

  lemma OnlyFillAmongPutsChangesFields(s: State, a: Action, x: Id)
    requires ByPut(a) && Ready(s, a) && Safe(s, a) && x in s.node && x in Step(s, a).node
    ensures Step(s, a).node[x] == s.node[x] || (a.PutFill? && s.calls[a.c].node == x)
  {
    hide Search, IndexOf, InsertPos, ElemsOf, Lists, InsertAt, RemoveAt, Piece,
      BlockOf, Rewritten, Ring, Observed, Hop, Ids, Apply, Complete, Stop, CopyFrom, CopyGoal;
  }

  lemma OthersKeepFields(s: State, a: Action, x: Id)
    requires !ByPut(a) && Ready(s, a) && Safe(s, a) && x in s.node && x in Step(s, a).node
    ensures Step(s, a).node[x] == s.node[x]
  {
    hide Search, IndexOf, InsertPos, ElemsOf, Lists, InsertAt, RemoveAt, Piece,
      BlockOf, Rewritten, Ring, Observed, Hop, Ids, Apply, Complete, Stop, CopyFrom, CopyGoal;
  }

  /** The fields of a node that a section has seen listed do not change while the section lasts. */
  lemma SeenNodeIsFixed(s: State, a: Action, r: nat, x: Id)
    requires Good(s) && Ready(s, a) && Safe(s, a) && Good(Step(s, a))
    requires r in s.readers && r in Step(s, a).readers && x in s.readers[r].ever
    ensures x in s.node && x in Step(s, a).node && Step(s, a).node[x] == s.node[x]
    ensures x in Step(s, a).readers[r].ever
  {
    hide Linked, Ownership, Contents, Refines, SectionOk, Step, Safe;
    StepRecords(s, a, r);
    assert InRange(s.node, s.dev, x);
    assert InRange(Step(s, a).node, Step(s, a).dev, x);
    OnlyFillChangesFields(s, a, x);
    if a.PutFill? {
      FilledIsUnseen(s, a.c, r, x);
    }
  }

  /** No section has seen the node that a put is still filling in. */
  lemma FilledIsUnseen(s: State, c: nat, r: nat, x: Id)
    requires Good(s) && CanPutFill(s, c) && r in s.readers && x in s.readers[r].ever
    ensures s.calls[c].node != x
  {
    hide Linked, Ownership, Contents, Refines, SectionOk;
    assert !MayReach(s.calls[c], r);
    assert Owns(s.calls[c], s.calls[c].node);
  }

  /** A node listed at instant `j` of a section keeps its fields, and its block keeps its message,
      until a put selects the block. */
  lemma {:induction false} FreshUntilSelected(run: seq<State>, j: nat, i: nat, r: nat, x: Id)
    requires IsRun(run) && j <= i < |run| && x in run[j].spine
    requires forall k :: j <= k <= i ==> r in run[k].readers
    requires x in run[j].node
    requires forall k :: j <= k < i ==> !Selects(run[k], run[k + 1], run[j].node[x].e.ndx)
    ensures x in run[i].node && run[i].node[x] == run[j].node[x] && x !in run[i].stale && x in run[i].readers[r].ever
    ensures Holding(run[i].dev, run[j].node[x])
    decreases i
  {
    hide IsRun, Good, Ready, Safe, Step, Selects;
    if i == j {
      ListedIsFresh(run, j, r, x);
    } else {
      FreshUntilSelected(run, j, i - 1, r, x);
      var a := RunStep(run, i - 1);
      SeenNodeIsFixed(run[i - 1], a, r, x);
      OnlySelectionMakesStale(run[i - 1], a, x);
      assert !Selects(run[i - 1], run[i - 1 + 1], run[j].node[x].e.ndx);
    }
    FreshIsHolding(run, i, x);
  }

  lemma ListedIsFresh(run: seq<State>, j: nat, r: nat, x: Id)
    requires IsRun(run) && j < |run| && x in run[j].spine && r in run[j].readers
    ensures x !in run[j].stale && x in run[j].readers[r].ever
  {
    hide IsRun, Linked, Ownership, GraceOk, Refines, WalkOk, Nearer;
    ReachableGood(run, j);
    var s := run[j];
    assert SectionOk(s.node, s.next, s.spine, s.stale, s.readers[r]);
  }

  /** If no put selects the block since an instant of the section at which the found node was
      listed, the section copies exactly the bytes it asked for of the message that was stored
      there; `get_data` asks for the first ones. */
  lemma SectionCopiesStoredMessage(run: seq<State>, i: nat, r: nat, j: nat)
    requires IsRun(run) && i < |run| && r in run[i].readers
    requires run[i].readers[r].walk.Copying? && Complete(run[i].readers[r].walk)
    requires InWindow(run, i, r, j) && run[i].readers[r].walk.cur in run[j].spine && run[i].readers[r].walk.cur in run[j].node
    requires forall k :: j <= k < i ==> !Selects(run[k], run[k + 1], run[j].node[run[i].readers[r].walk.cur].e.ndx)
    ensures var rd := run[i].readers[r]; var x := run[j].node[rd.walk.cur]; var from := CopyFrom(rd.want, x.e);
            && Stop(rd.want, x.e) && Holding(run[j].dev, x)
            && rd.walk.got == if from > |x.msg| then [] else x.msg[from..from + Min(rd.size, |x.msg| - from)]
  {
    hide IsRun, Nearer, Selects, InWindow, Stop;
    HistoryIsTheWindow(run, i, r);
    WindowIsConvex(run, i, r, j);
    ReachableSection(run, i, r);
    var rd := run[i].readers[r];
    var x := rd.walk.cur;
    FreshUntilSelected(run, j, i, r, x);
    FreshIsHolding(run, i, x);
    ListedIsFresh(run, j, r, x);
    FreshIsHolding(run, j, x);
  }

  lemma WindowIsConvex(run: seq<State>, i: nat, r: nat, j: int)
    requires i < |run| && r in run[i].readers && InWindow(run, i, r, j)
    ensures j <= i && forall k :: j <= k <= i ==> InWindow(run, i, r, k)
  {
  }

  lemma FreshIsHolding(run: seq<State>, i: nat, x: Id)
    requires IsRun(run) && i < |run| && x in run[i].node && x !in run[i].stale
    ensures Holding(run[i].dev, run[i].node[x])
  {
    hide IsRun, Linked, Ownership, GraceOk, Refines, Sections, Holding;
    ReachableGood(run, i);
  }
}
