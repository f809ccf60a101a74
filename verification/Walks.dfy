/** How a read section moves along the list, over whole runs: it only climbs, it meets no node twice, and
    the successor it looks up skips nothing that stayed listed. */
module Walks {
  import opened Layout
  import opened SortedList
  import opened StoreSpec
  import opened Protocol
  import opened ListSteps
  import opened Invariant
  import opened Runs
  import opened Linearizability

  // ----- what a step does to a walk -----

  /** The walk stays, or makes a hop, copies from the device as it is, or looks up its successor. */
  ghost predicate Moves(s: State, rd: Reader, w': Walk) {
    || w' == rd.walk
    || (rd.walk.At? && SafeHop(s.node, s.next, rd.walk.cur) && w' == Hop(s.node, s.next, rd, rd.walk.cur))
    || (rd.walk.Copying? && w'.Copying? && Extends(s, rd.walk, w'))
    || (rd.walk.Copying? && w'.Peeked? && w'.cur == rd.walk.cur)
  }

  ghost predicate Extends(s: State, w: Walk, w': Walk)
    requires w.Copying? && w'.Copying?
  {
    && w'.cur == w.cur && w'.from == w.from && |w.got| <= |w'.got| && w'.got[..|w.got|] == w.got
    && forall q :: |w.got| <= q < |w'.got| ==> CopiedFrom(s, w, q, w'.got[q])
  }

  ghost predicate CopiedFrom(s: State, w: Walk, q: nat, v: Byte)
    requires w.Copying?
  {
    && w.cur in s.node && s.node[w.cur].e.ndx < |s.dev| && METADATA_SIZE + w.from + q < BLOCK_SIZE
    && v == s.dev[s.node[w.cur].e.ndx][METADATA_SIZE + w.from + q]
  }

  lemma PutsKeepWalks(s: State, a: Action, r: nat)
    requires Ready(s, a) && Safe(s, a) && ByPut(a) && r in s.readers
    ensures r in Step(s, a).readers && Step(s, a).readers[r].walk == s.readers[r].walk
  {
    hide Search, InsertPos, ElemsOf, InsertAt, Piece, BlockOf, Ring, Ids, Apply, Lists;
  }

  lemma InvalidatesKeepWalks(s: State, a: Action, r: nat)
    requires Ready(s, a) && Safe(s, a) && !ByPut(a) && !ByReader(a) && r in s.readers
    ensures r in Step(s, a).readers && Step(s, a).readers[r].walk == s.readers[r].walk
  {
    hide IndexOf, ElemsOf, RemoveAt, Piece, Rewritten, Ring, Ids, Apply, Lists;
  }

  lemma EnterMoves(s: State, want: Want, size: nat, r: nat)
    requires r in s.readers && r < s.nextReader
    ensures var s' := Step(s, ReaderEnter(want, size)); r in s'.readers && Moves(s, s.readers[r], s'.readers[r].walk)
  {
    hide Ids, Lists;
  }

  lemma AdvanceMoves(s: State, d: nat, r: nat)
    requires Ready(s, ReaderAdvance(d)) && Safe(s, ReaderAdvance(d)) && r in s.readers
    ensures var s' := Step(s, ReaderAdvance(d)); r in s'.readers && Moves(s, s.readers[r], s'.readers[r].walk)
  {
    hide Hop;
  }

  lemma CopyMoves(s: State, d: nat, n: nat, r: nat)
    requires Ready(s, ReaderCopy(d, n)) && Safe(s, ReaderCopy(d, n)) && r in s.readers
    ensures var s' := Step(s, ReaderCopy(d, n)); r in s'.readers && Moves(s, s.readers[r], s'.readers[r].walk)
  {
    hide Hop;
  }

  lemma PeekMoves(s: State, d: nat, r: nat)
    requires Ready(s, ReaderPeek(d)) && Safe(s, ReaderPeek(d)) && r in s.readers
    ensures var s' := Step(s, ReaderPeek(d)); r in s'.readers && Moves(s, s.readers[r], s'.readers[r].walk)
  {
    hide Hop, Complete;
  }

  lemma LeaveMoves(s: State, d: nat, r: nat)
    requires Ready(s, ReaderLeave(d)) && r in s.readers
    ensures var s' := Step(s, ReaderLeave(d)); r in s'.readers ==> Moves(s, s.readers[r], s'.readers[r].walk)
  {
    hide Hop, Complete;
  }

  lemma ReadersMove(s: State, a: Action, r: nat)
    requires Ready(s, a) && Safe(s, a) && ByReader(a) && r in s.readers && r < s.nextReader && r in Step(s, a).readers
    ensures Moves(s, s.readers[r], Step(s, a).readers[r].walk)
  {
    hide Ready, Safe, Step, Moves;
    match a
    case ReaderEnter(want, size) => EnterMoves(s, want, size, r);
    case ReaderAdvance(d) => AdvanceMoves(s, d, r);
    case ReaderCopy(d, n) => CopyMoves(s, d, n, r);
    case ReaderPeek(d) => PeekMoves(s, d, r);
    case ReaderLeave(d) => LeaveMoves(s, d, r);
  }

  lemma StillMoves(s: State, rd: Reader)
    ensures Moves(s, rd, rd.walk)
  {
  }

  lemma WalkStep(s: State, a: Action, r: nat)
    requires Good(s) && Ready(s, a) && Safe(s, a) && r in s.readers && r in Step(s, a).readers
    ensures Moves(s, s.readers[r], Step(s, a).readers[r].walk)
  {
    hide Ready, Safe, Step, Linked, Ownership, Contents, GraceOk, Refines, SectionOk, Moves;
    StillMoves(s, s.readers[r]);
    if ByPut(a) {
      PutsKeepWalks(s, a, r);
    } else if ByReader(a) {
      ReadersMove(s, a, r);
    } else {
      InvalidatesKeepWalks(s, a, r);
    }
  }

  // ----- nodes that a section has seen -----

  /** A node that a section has seen keeps its fields as long as the section lasts. */
  lemma {:induction false} SeenStaysFixed(run: seq<State>, j: nat, i: nat, r: nat, x: Id)
    requires IsRun(run) && j <= i < |run| && r in run[j].readers && x in run[j].readers[r].ever
    requires forall k :: j <= k <= i ==> r in run[k].readers
    ensures x in run[j].node && x in run[i].node && run[i].node[x] == run[j].node[x] && x in run[i].readers[r].ever
    decreases i
  {
    hide IsRun, Good, Ready, Safe, Step;
    if i == j {
      ReachableSection(run, j, r);
    } else {
      SeenStaysFixed(run, j, i - 1, r, x);
      var a := RunStep(run, i - 1);
      SeenNodeIsFixed(run[i - 1], a, r, x);
    }
  }

  // ----- climbing -----

  /** The node at which the walk stands, if it stands at one. */
  ghost predicate StandsOn(w: Walk, x: Id) {
    !w.Missed? && w.cur == x && x != HEAD
  }

  lemma StandsOnSeen(run: seq<State>, i: nat, r: nat, x: Id)
    requires IsRun(run) && i < |run| && r in run[i].readers && StandsOn(run[i].readers[r].walk, x)
    ensures x in run[i].readers[r].ever
  {
    hide IsRun, Nearer, Stop;
    ReachableSection(run, i, r);
  }

  /** In every run, from each node that a section has seen, listed or unlinked since, the pointer leads
      to the head or further on in list order. */
  lemma PointersClimb(run: seq<State>, i: nat, r: nat, x: Id)
    requires IsRun(run) && i < |run| && r in run[i].readers && x in run[i].readers[r].ever
    ensures Climbs(run[i].node, run[i].next, x)
    ensures x in run[i].next && (run[i].next[x] == HEAD || run[i].next[x] in run[i].readers[r].ever)
  {
    hide IsRun, Nearer, Climbs, WalkOk;
    ReachableSection(run, i, r);
  }

  ghost predicate NotBehind(node: map<Id, Node>, x: Id, y: Id) {
    x in node && y in node && (x == y || Before(node[x], node[y]))
  }

  lemma MovesUp(node: map<Id, Node>, next: map<Id, Id>, s: State, rd: Reader, w': Walk, x: Id, z: Id)
    requires s.node == node && s.next == next && Moves(s, rd, w') && StandsOn(rd.walk, x) && StandsOn(w', z)
    requires x in node && Climbs(node, next, x)
    ensures NotBehind(node, x, z) && (z == x || z == next[x])
  {
    hide Stop, CopyFrom, CopyGoal;
  }

  /** The walk has left the head of the list. */
  ghost predicate OffHead(w: Walk) {
    w.Missed? || w.cur != HEAD
  }

  lemma NeverBackAtHead(s: State, rd: Reader, w': Walk)
    requires Moves(s, rd, w') && OffHead(rd.walk)
    ensures OffHead(w') && (rd.walk.Missed? ==> w'.Missed?)
  {
    hide Stop, CopyFrom, CopyGoal;
  }

  lemma BeforeTransitive(node: map<Id, Node>, x: Id, y: Id, z: Id)
    requires NotBehind(node, x, y) && NotBehind(node, y, z)
    ensures NotBehind(node, x, z)
  {
  }

  /** Whatever is inserted, unlinked or reused meanwhile, a section never goes back: of two nodes it
      stands on, the later one is the same or comes later in list order. */
  lemma {:induction false} NeverGoesBack(run: seq<State>, j: nat, i: nat, r: nat, x: Id)
    requires IsRun(run) && j <= i < |run| && forall k :: j <= k <= i ==> r in run[k].readers
    requires StandsOn(run[j].readers[r].walk, x)
    ensures OffHead(run[i].readers[r].walk)
    ensures !run[i].readers[r].walk.Missed? ==> NotBehind(run[i].node, x, run[i].readers[r].walk.cur)
    decreases i
  {
    hide IsRun, Good, Ready, Safe, Step, Moves, Climbs;
    StandsOnSeen(run, j, r, x);
    SeenStaysFixed(run, j, if i > j then i - 1 else i, r, x);
    if i > j {
      NeverGoesBack(run, j, i - 1, r, x);
      var a := RunStep(run, i - 1);
      WalkStep(run[i - 1], a, r);
      var s, rd, w := run[i - 1], run[i - 1].readers[r], run[i].readers[r].walk;
      NeverBackAtHead(s, rd, w);
      if !w.Missed? {
        var y := rd.walk.cur;
        StandsOnSeen(run, i - 1, r, y);
        PointersClimb(run, i - 1, r, y);
        MovesUp(s.node, s.next, s, rd, w, y, w.cur);
        BeforeTransitive(s.node, x, y, w.cur);
        SeenStaysFixed(run, i - 1, i, r, x);
        SeenStaysFixed(run, i - 1, i, r, w.cur);
      }
    }
  }

  // ----- the successor -----

  /** The successor that `read` looks up skips nothing: a node that stays listed for the whole section
      and comes after the node just read is the successor or comes after it. */
  lemma SuccessorSkipsNothing(run: seq<State>, i: nat, r: nat, n: Id)
    requires IsRun(run) && i < |run| && r in run[i].readers && run[i].readers[r].walk.Peeked?
    requires forall j :: InWindow(run, i, r, j) ==> n in run[j].spine
    ensures var s, w := run[i], run[i].readers[r].walk;
            && w.cur in s.node && n in s.node
            && (Before(s.node[w.cur], s.node[n]) ==>
                w.succ.Some? && exists y :: y in s.node && s.node[y].e == w.succ.value && Before(s.node[w.cur], s.node[y]) && NotBehind(s.node, y, n))
  {
    hide IsRun, Nearer, Climbs, InWindow;
    HistoryIsTheWindow(run, i, r);
    ReachableSection(run, i, r);
    var s, rd := run[i], run[i].readers[r];
    assert n in rd.always;
    if Before(s.node[rd.walk.cur], s.node[n]) {
      var y :| y in rd.ever && s.node[y].e == rd.walk.succ.value && Follows(s.node, rd.always, rd.walk.cur, y);
      assert NotBehind(s.node, y, n);
    }
  }

  /** It comes after the node just read, and was listed at some instant of the section. */
  lemma SuccessorWasListed(run: seq<State>, i: nat, r: nat)
    requires IsRun(run) && i < |run| && r in run[i].readers && run[i].readers[r].walk.Peeked? && run[i].readers[r].walk.succ.Some?
    ensures var s, w := run[i], run[i].readers[r].walk;
            exists y, j :: y in s.node && s.node[y].e == w.succ.value && w.cur in s.node && Before(s.node[w.cur], s.node[y]) &&
                           InWindow(run, i, r, j) && y in run[j].spine
  {
    hide IsRun, Nearer, Climbs;
    HistoryIsTheWindow(run, i, r);
    ReachableSection(run, i, r);
    var s, rd := run[i], run[i].readers[r];
    var y :| y in rd.ever && s.node[y].e == rd.walk.succ.value && Follows(s.node, rd.always, rd.walk.cur, y);
    var j :| InWindow(run, i, r, j) && y in run[j].spine;
    assert y in s.node && Before(s.node[rd.walk.cur], s.node[y]);
  }
}
