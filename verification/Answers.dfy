/** What a read section answers, in terms of its request and of the messages listed during it. */
module Answers {
  import opened Layout
  import opened SortedList
  import opened StoreSpec
  import opened Protocol
  import opened ListSteps
  import opened Invariant
  import opened Runs
  import opened Linearizability
  import opened Walks

  /** What is looked for: the block asked for or, by `read` only, anything newer than the timestamp. */
  ghost predicate Wanted(want: Want, ndx: int, nsec: Time) {
    match want
    case Get(b) => ndx == b
    case Next(b, after, _) => ndx == b || nsec > after
  }

  /** The first byte of a message that is asked for: `read` goes on where it was in its own block. */
  ghost function First(want: Want, ndx: int): nat {
    match want
    case Get(_) => 0
    case Next(b, _, skip) => if ndx == b then skip else 0
  }

  /** The bytes of `msg` from `from` on, `size` of them at most. */
  ghost function Excerpt(msg: seq<Byte>, from: nat, size: nat): seq<Byte> {
    if from >= |msg| then [] else if size < |msg| - from then msg[from..from + size] else msg[from..]
  }

  /** Node `n` is listed at every instant of the section. */
  ghost predicate Throughout(run: seq<State>, i: nat, r: nat, n: Id)
    requires i < |run| && r in run[i].readers
  {
    forall j :: InWindow(run, i, r, j) ==> n in run[j].spine
  }

  lemma ThroughoutIsAlways(run: seq<State>, i: nat, r: nat, n: Id)
    requires IsRun(run) && i < |run| && r in run[i].readers && Throughout(run, i, r, n)
    ensures n in run[i].readers[r].always && n in run[i].node
  {
    hide IsRun, InWindow, WalkOk, Nearer, Climbs;
    HistoryIsTheWindow(run, i, r);
    ReachableSection(run, i, r);
  }

  lemma StopsAtWanted(want: Want, e: Elem)
    ensures Stop(want, e) <==> Wanted(want, e.ndx, e.nsec)
    ensures CopyFrom(want, e) == First(want, e.ndx)
  {
  }

  /** What a section found is what it looked for, and was listed at some instant of the section; and
      nothing that it looked for and that stayed listed throughout comes before it in the list. */
  lemma FindsTheFirstWanted(run: seq<State>, i: nat, r: nat)
    requires IsRun(run) && i < |run| && r in run[i].readers && run[i].readers[r].walk.Copying?
    ensures var s, rd := run[i], run[i].readers[r]; var x := rd.walk.cur;
            && x in s.node && Wanted(rd.want, s.node[x].e.ndx, s.node[x].e.nsec)
            && (exists j :: InWindow(run, i, r, j) && x in run[j].spine)
            && forall n :: Throughout(run, i, r, n) ==>
                 n in s.node && (Wanted(rd.want, s.node[n].e.ndx, s.node[n].e.nsec) ==> n == x || Before(s.node[x], s.node[n]))
  {
    hide IsRun, InWindow, Stop, Nearer, Wanted, Climbs, Throughout;
    FoundWasListed(run, i, r);
    ReachableSection(run, i, r);
    var s, rd := run[i], run[i].readers[r];
    StopsAtWanted(rd.want, s.node[rd.walk.cur].e);
    forall n | Throughout(run, i, r, n)
      ensures n in s.node && (Wanted(rd.want, s.node[n].e.ndx, s.node[n].e.nsec) ==> n == rd.walk.cur || Before(s.node[rd.walk.cur], s.node[n]))
    {
      ThroughoutIsAlways(run, i, r, n);
      StopsAtWanted(rd.want, s.node[n].e);
    }
  }

  /** A section that found nothing was offered nothing: no node that stayed listed throughout is what
      it looked for. */
  lemma MissedNothingWanted(run: seq<State>, i: nat, r: nat, n: Id)
    requires IsRun(run) && i < |run| && r in run[i].readers && run[i].readers[r].walk.Missed?
    requires Throughout(run, i, r, n)
    ensures n in run[i].node
    ensures match run[i].readers[r].want
            case Get(b) => run[i].node[n].e.ndx != b
            case Next(b, after, _) => run[i].node[n].e.ndx != b && run[i].node[n].e.nsec <= after
  {
    hide IsRun, InWindow, Stop;
    ListedThroughoutIsNotMissed(run, i, r, n);
    StopsAtWanted(run[i].readers[r].want, run[i].node[n].e);
  }

  /** A section that is about to leave, or to look up the successor, with what it copied. */
  ghost predicate HasCopied(s: State, r: nat) {
    r in s.readers && s.readers[r].walk.Copying? && (Ready(s, ReaderLeave(r)) || Ready(s, ReaderPeek(r)))
  }

  /** If no put selects the block since an instant at which the found node was listed, what a finished
      section has copied is the excerpt it asked for of the message it looked for. */
  lemma CopiesTheWantedExcerpt(run: seq<State>, i: nat, r: nat, j: nat)
    requires IsRun(run) && i < |run| && HasCopied(run[i], r)
    requires InWindow(run, i, r, j) && run[i].readers[r].walk.cur in run[j].spine && run[i].readers[r].walk.cur in run[j].node
    requires forall k :: j <= k < i ==> !Selects(run[k], run[k + 1], run[j].node[run[i].readers[r].walk.cur].e.ndx)
    ensures var rd := run[i].readers[r]; var x := run[j].node[rd.walk.cur];
            && Wanted(rd.want, x.e.ndx, x.e.nsec)
            && rd.walk.got == Excerpt(x.msg, First(rd.want, x.e.ndx), rd.size)
  {
    hide IsRun, Nearer, Selects, Stop, CopyFrom, Wanted, First;
    SectionCopiesStoredMessage(run, i, r, j);
    var rd := run[i].readers[r];
    StopsAtWanted(rd.want, run[j].node[rd.walk.cur].e);
  }

  /** What `get_data(b)` answers when it leaves: ENODATA, and then the block was absent at some instant
      of its section; or bytes, and then block `b` was listed at some instant, and the bytes are the first
      ones of the message listed then, if no put selects the block since. */
  lemma GetAnswers(run: seq<State>, i: nat, r: nat)
    requires IsRun(run) && i < |run| && r in run[i].readers && run[i].readers[r].want.Get? && Ready(run[i], ReaderLeave(r))
    ensures var rd := run[i].readers[r]; var b := rd.want.b;
            if rd.walk.Missed? then exists j :: InWindow(run, i, r, j) && !Lists(run[j], b)
            else
              && rd.walk.Copying?
              && exists j, x :: InWindow(run, i, r, j) && ListsAs(run[j], b, x) &&
                   ((forall k :: j <= k < i ==> !Selects(run[k], run[k + 1], b)) ==> rd.walk.got == Excerpt(run[j].node[x].msg, 0, rd.size))
  {
    hide IsRun, InWindow, Selects, Excerpt, Nearer, Stop, CopyFrom, CopyGoal, Lists, Climbs;
    var rd := run[i].readers[r];
    ReachableSection(run, i, r);
    if rd.walk.Missed? {
      MissedWasAbsent(run, i, r);
    } else {
      assert rd.walk.Copying?;
      FindsTheFirstWanted(run, i, r);
      var j := FoundAt(run, i, r);
      assert ListsAs(run[j], rd.want.b, rd.walk.cur);
      if forall k :: j <= k < i ==> !Selects(run[k], run[k + 1], rd.want.b) {
        CopiesTheWantedExcerpt(run, i, r, j);
      }
    }
  }

  /** An instant at which the node found was listed, with the fields it has now. */
  lemma FoundAt(run: seq<State>, i: nat, r: nat) returns (j: nat)
    requires IsRun(run) && i < |run| && r in run[i].readers && run[i].readers[r].walk.Copying?
    ensures j <= i && InWindow(run, i, r, j) && run[i].readers[r].walk.cur in run[j].spine
    ensures var x := run[i].readers[r].walk.cur; x in run[i].node && x in run[j].node && run[j].node[x] == run[i].node[x]
  {
    hide IsRun, Stop;
    FoundWasListed(run, i, r);
    var x := run[i].readers[r].walk.cur;
    j :| InWindow(run, i, r, j) && x in run[j].spine;
    HistoryIsTheWindow(run, i, r);
    WindowIsConvex(run, i, r, j);
    ListedIsFresh(run, j, r, x);
    SeenStaysFixed(run, j, i, r, x);
  }

  ghost predicate ListsAs(s: State, b: int, x: Id) {
    x in s.spine && x in s.node && s.node[x].e.ndx == b
  }
}
