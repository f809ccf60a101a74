/** What the linked list of the step-level machine keeps, and what each read section may rely on:
    stated on the heap of nodes alone, for one publication, one removal, one free at a time. */
module ListSteps {
  import opened SortedList
  import opened Protocol

  /** The `next` pointers link exactly the spine, in list order, and every node has a pointer. */
  ghost predicate Linked(node: map<Id, Node>, next: map<Id, Id>, spine: seq<Id>, tick: nat) {
    && HEAD !in node && next.Keys == node.Keys + {HEAD}
    && (forall i :: 0 <= i < |spine| ==> spine[i] in node && node[spine[i]].born < tick)
    && (forall i: nat, j: nat :: i <= |spine| && j == i + 1 ==> next[Ring(spine, i)] == Ring(spine, j))
    && (forall i, j :: 0 <= i < j < |spine| ==> Before(node[spine[i]], node[spine[j]]))
  }

  /** What holds of a read section at every instant. */
  ghost predicate SectionOk(node: map<Id, Node>, next: map<Id, Id>, spine: seq<Id>, stale: set<Id>, rd: Reader) {
    && Ids(spine) <= rd.ever <= node.Keys
    && rd.always <= Ids(spine)
    && (forall x :: x in rd.ever ==> x in next && (next[x] == HEAD || next[x] in rd.ever))
    && (forall x :: x in rd.ever ==> Climbs(node, next, x))
    && (forall x, n :: x in rd.ever && n in rd.always && Before(node[x], node[n]) ==> Nearer(node, next, rd.ever, x, n))
    && (rd.present ==> exists n :: n in rd.always && node[n].e.ndx == rd.want.b)
    && WalkOk(node, stale, rd)
  }

  /** The pointer of `x` leads to the head or further on in list order. */
  ghost predicate Climbs(node: map<Id, Node>, next: map<Id, Id>, x: Id) {
    x in next && (next[x] == HEAD || (x in node && next[x] in node && Before(node[x], node[next[x]])))
  }

  /** From `x`, one pointer leads to `n` or to a node still before it. */
  ghost predicate Nearer(node: map<Id, Node>, next: map<Id, Id>, ever: set<Id>, x: Id, n: Id) {
    && x in next && n in node
    && (next[x] == n || (next[x] in ever && next[x] in node && Before(node[next[x]], node[n])))
  }

  ghost predicate WalkOk(node: map<Id, Node>, stale: set<Id>, rd: Reader)
    requires rd.ever <= node.Keys && rd.always <= node.Keys
  {
    match rd.walk
    case At(cur) =>
      && (cur == HEAD || cur in rd.ever)
      && forall n :: n in rd.always && Stop(rd.want, node[n].e) ==> cur == HEAD || (cur in rd.ever && Before(node[cur], node[n]))
    case Copying(cur, from, goal, got) =>
      && cur in rd.ever && Stop(rd.want, node[cur].e)
      && from == CopyFrom(rd.want, node[cur].e) && goal == CopyGoal(rd.want, rd.size, node[cur].e) && |got| <= goal
      && (forall n :: n in rd.always && Stop(rd.want, node[n].e) ==> n == cur || Before(node[cur], node[n]))
      && (cur !in stale && |got| > 0 ==> from + |got| <= |node[cur].msg| && got == node[cur].msg[from..from + |got|])
    case Peeked(cur, succ) =>
      && cur in rd.ever && rd.want.Next?
      && (succ.None? ==> forall n :: n in rd.always ==> !Before(node[cur], node[n]))
      && (succ.Some? ==> exists y :: y in rd.ever && node[y].e == succ.value && Follows(node, rd.always, cur, y))
    case Missed =>
      forall n :: n in rd.always ==> !Stop(rd.want, node[n].e)
  }

  /** `y` comes after `x`, and none of `ns` comes between them. */
  ghost predicate Follows(node: map<Id, Node>, ns: set<Id>, x: Id, y: Id) {
    && x in node && y in node && Before(node[x], node[y])
    && forall n :: n in ns && n in node && Before(node[x], node[n]) ==> n == y || Before(node[y], node[n])
  }

  // ----- the list -----

  lemma SpineDistinct(node: map<Id, Node>, next: map<Id, Id>, spine: seq<Id>, tick: nat)
    requires Linked(node, next, spine, tick)
    ensures forall i, j :: 0 <= i < |spine| && 0 <= j < |spine| && spine[i] == spine[j] ==> i == j
    ensures HEAD !in spine
  {
  }

  /** A change of a node outside the list does not disturb it. */
  lemma OutsideList(node: map<Id, Node>, next: map<Id, Id>, node': map<Id, Node>, next': map<Id, Id>,
                    spine: seq<Id>, tick: nat, tick': nat)
    requires Linked(node, next, spine, tick) && tick <= tick'
    requires HEAD !in node' && next'.Keys == node'.Keys + {HEAD}
    requires forall i :: 0 <= i < |spine| ==> spine[i] in node' && node'[spine[i]] == node[spine[i]] && next'[spine[i]] == next[spine[i]]
    requires next'[HEAD] == next[HEAD]
    ensures Linked(node', next', spine, tick')
  {
    forall i: nat, j: nat | i <= |spine| && j == i + 1
      ensures next'[Ring(spine, i)] == Ring(spine, j)
    {
      assert next[Ring(spine, i)] == Ring(spine, j);
    }
  }

  lemma PublishKeepsLinked(node: map<Id, Node>, next: map<Id, Id>, spine: seq<Id>, tick: nat, pos: nat, x: Id)
    requires Linked(node, next, spine, tick)
    requires pos <= |spine| && x in node && x !in spine && node[x].born < tick
    requires next[x] == Ring(spine, pos + 1)
    requires forall i :: 0 <= i < pos ==> Before(node[spine[i]], node[x])
    requires forall i :: pos <= i < |spine| ==> Before(node[x], node[spine[i]])
    ensures Linked(node, next[Ring(spine, pos) := x], InsertAt(spine, pos, x), tick)
  {
    SpineDistinct(node, next, spine, tick);
    var next', spine' := next[Ring(spine, pos) := x], InsertAt(spine, pos, x);
    assert next'.Keys == next.Keys;
    forall i: nat, j: nat | i <= |spine'| && j == i + 1
      ensures next'[Ring(spine', i)] == Ring(spine', j)
    {
      if i < pos {
        assert next[Ring(spine, i)] == Ring(spine, j);
      } else if i == pos {
        assert Ring(spine', i) == Ring(spine, pos);
      } else if i == pos + 1 {
        assert Ring(spine', i) == x;
      } else {
        assert Ring(spine', i) == Ring(spine, i - 1);
        assert next[Ring(spine, i - 1)] == Ring(spine, i);
      }
    }
  }

  lemma DetachKeepsLinked(node: map<Id, Node>, next: map<Id, Id>, spine: seq<Id>, tick: nat, pos: nat)
    requires Linked(node, next, spine, tick) && pos < |spine|
    ensures Linked(node, next[Ring(spine, pos) := next[spine[pos]]], RemoveAt(spine, pos), tick)
  {
    SpineDistinct(node, next, spine, tick);
    var next', spine' := next[Ring(spine, pos) := next[spine[pos]]], RemoveAt(spine, pos);
    assert next'.Keys == next.Keys;
    assert Ring(spine, pos + 1) == spine[pos];
    assert next[spine[pos]] == Ring(spine, pos + 2);
    forall i: nat, j: nat | i <= |spine'| && j == i + 1
      ensures next'[Ring(spine', i)] == Ring(spine', j)
    {
      if i < pos {
        assert next[Ring(spine, i)] == Ring(spine, j);
      } else if i == pos {
        assert Ring(spine', i) == Ring(spine, pos);
        assert Ring(spine', j) == Ring(spine, pos + 2);
      } else {
        assert Ring(spine', i) == Ring(spine, i + 1) && Ring(spine', j) == Ring(spine, i + 2);
        assert next[Ring(spine, i + 1)] == Ring(spine, i + 2);
      }
    }
  }

  // ----- the read sections -----

  /** On a listed node the order of the list gives the next hop. */
  lemma NearerOnSpine(node: map<Id, Node>, next: map<Id, Id>, spine: seq<Id>, tick: nat, ever: set<Id>, x: Id, n: Id)
    requires Linked(node, next, spine, tick) && Ids(spine) <= ever
    requires x in spine && n in spine && Before(node[x], node[n])
    ensures Nearer(node, next, ever, x, n)
  {
    var i :| 0 <= i < |spine| && spine[i] == x;
    var j :| 0 <= j < |spine| && spine[j] == n;
    assert i < j by {
      assert j < i ==> Before(node[spine[j]], node[spine[i]]);
    }
    assert next[Ring(spine, i + 1)] == Ring(spine, i + 2);
    assert spine[i + 1] in Ids(spine);
    if i + 1 < j {
      assert Before(node[spine[i + 1]], node[spine[j]]);
    }
  }

  lemma ClosedOnSpine(node: map<Id, Node>, next: map<Id, Id>, spine: seq<Id>, tick: nat, x: Id)
    requires Linked(node, next, spine, tick) && x in spine
    ensures next[x] == HEAD || next[x] in spine
    ensures Climbs(node, next, x)
  {
    var i :| 0 <= i < |spine| && spine[i] == x;
    assert next[Ring(spine, i + 1)] == Ring(spine, i + 2);
  }

  /** A read section survives any change of the list that leaves alone the nodes it may still
      reach and that are not listed: they keep their frozen pointer. */
  lemma SectionSurvives(node: map<Id, Node>, next: map<Id, Id>, spine: seq<Id>,
                        node': map<Id, Node>, next': map<Id, Id>, spine': seq<Id>,
                        tick: nat, stale: set<Id>, stale': set<Id>, rd: Reader, listed: bool)
    requires SectionOk(node, next, spine, stale, rd)
    requires Linked(node', next', spine', tick)
    requires rd.ever <= node'.Keys
    requires forall x :: x in rd.ever ==> node'[x] == node[x]
    requires forall x :: x in rd.ever && x !in spine' ==> x in next && next'[x] == next[x]
    requires forall x :: x in rd.ever && x in stale ==> x in stale'
    requires rd.present && listed ==> exists n :: n in rd.always && n in spine' && node[n].e.ndx == rd.want.b
    ensures SectionOk(node', next', spine', stale', Observed(rd, spine', listed))
  {
    var rd' := Observed(rd, spine', listed);
    forall x | x in rd'.ever
      ensures x in next' && (next'[x] == HEAD || next'[x] in rd'.ever) && Climbs(node', next', x)
    {
      if x in spine' {
        ClosedOnSpine(node', next', spine', tick, x);
      } else {
        assert Climbs(node, next, x);
      }
    }
    forall x, n | x in rd'.ever && n in rd'.always && Before(node'[x], node'[n])
      ensures Nearer(node', next', rd'.ever, x, n)
    {
      if x in spine' {
        NearerOnSpine(node', next', spine', tick, rd'.ever, x, n);
      } else {
        assert Nearer(node, next, rd.ever, x, n);
      }
    }
    WalkSurvives(node, node', stale, stale', rd, rd');
  }

  lemma WalkSurvives(node: map<Id, Node>, node': map<Id, Node>, stale: set<Id>, stale': set<Id>, rd: Reader, rd': Reader)
    requires rd.ever <= node.Keys && rd.always <= rd.ever && WalkOk(node, stale, rd)
    requires rd' == rd.(ever := rd'.ever, always := rd'.always, present := rd'.present)
    requires rd.ever <= rd'.ever <= node'.Keys && rd'.always <= rd.always
    requires forall x :: x in rd.ever ==> node'[x] == node[x]
    requires forall x :: x in rd.ever && x in stale ==> x in stale'
    ensures WalkOk(node', stale', rd')
  {
    if rd.walk.Peeked? && rd.walk.succ.Some? {
      var y :| y in rd.ever && node[y].e == rd.walk.succ.value && Follows(node, rd.always, rd.walk.cur, y);
      assert y in rd'.ever && node'[y].e == rd'.walk.succ.value && Follows(node', rd'.always, rd'.walk.cur, y);
    }
  }

  /** One hop of the walk: nothing that stayed listed is skipped. */
  lemma AdvanceKeepsSection(node: map<Id, Node>, next: map<Id, Id>, spine: seq<Id>, tick: nat, stale: set<Id>, rd: Reader)
    requires Linked(node, next, spine, tick) && SectionOk(node, next, spine, stale, rd) && rd.walk.At?
    ensures SafeHop(node, next, rd.walk.cur)
    ensures SectionOk(node, next, spine, stale, rd.(walk := Hop(node, next, rd, rd.walk.cur)))
  {
    var cur := rd.walk.cur;
    assert next[Ring(spine, 0)] == Ring(spine, 1);
    assert spine != [] ==> spine[0] in Ids(spine);
    var x := next[cur];
    forall n | n in rd.always && Stop(rd.want, node[n].e)
      ensures x == n || (x in rd.ever && Before(node[x], node[n]))
    {
      if cur == HEAD {
        var j :| 0 <= j < |spine| && spine[j] == n;
        assert x == spine[0];
        assert j > 0 ==> Before(node[spine[0]], node[spine[j]]);
      } else {
        assert Nearer(node, next, rd.ever, cur, n);
      }
    }
  }

  /** The successor that a section looks up: nothing that stayed listed is skipped. */
  lemma PeekKeepsSection(node: map<Id, Node>, next: map<Id, Id>, spine: seq<Id>, stale: set<Id>, rd: Reader)
    requires SectionOk(node, next, spine, stale, rd) && rd.walk.Copying? && rd.want.Next? && HEAD !in node
    ensures SafeHop(node, next, rd.walk.cur)
    ensures var cur := rd.walk.cur;
            SectionOk(node, next, spine, stale, rd.(walk := Peeked(cur, if next[cur] == HEAD then None else Some(node[next[cur]].e))))
  {
    var cur := rd.walk.cur;
    assert Climbs(node, next, cur);
    var y := next[cur];
    forall n | n in rd.always && Before(node[cur], node[n])
      ensures y != HEAD && (n == y || Before(node[y], node[n]))
    {
      assert Nearer(node, next, rd.ever, cur, n);
    }
    assert y != HEAD ==> Follows(node, rd.always, cur, y);
  }
}
