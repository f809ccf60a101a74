/** The list of valid blocks as a circular doubly linked list with a head, changed in place (rcu.c). */
module LinkedList {
  import opened SortedList

  class Node {
    var elem: Elem
    var next: Node
    var prev: Node

    /** A node linked to itself, as `LIST_HEAD` makes it. */
    constructor (e: Elem)
      ensures elem == e && next == this && prev == this
    {
      elem := e;
      next := this;
      prev := this;
    }
  }

  /** The head at both ends, the nodes of the list between. */
  ghost function Ring(head: Node, spine: seq<Node>, i: nat): Node {
    if 1 <= i <= |spine| then spine[i - 1] else head
  }

  ghost predicate Distinct(head: Node, spine: seq<Node>) {
    head !in spine && forall i, j :: 0 <= i < j < |spine| ==> spine[i] != spine[j]
  }

  /** Following `next` from the head meets the spine in order, and `prev` undoes `next`. */
  ghost predicate Linked(head: Node, spine: seq<Node>)
    reads head, spine
  {
    forall i: nat, j: nat :: i <= |spine| && j == i + 1 ==>
      Ring(head, spine, i).next == Ring(head, spine, j) && Ring(head, spine, j).prev == Ring(head, spine, i)
  }

  ghost function ElemsOf(spine: seq<Node>): (l: seq<Elem>)
    reads spine
    ensures |l| == |spine| && forall i :: 0 <= i < |l| ==> l[i] == spine[i].elem
  {
    seq(|spine|, i requires 0 <= i < |spine| reads spine => spine[i].elem)
  }

  lemma RingAfterInsert(head: Node, spine: seq<Node>, pos: nat, x: Node, i: nat)
    requires pos <= |spine| && i <= |spine| + 2
    ensures Ring(head, InsertAt(spine, pos, x), i) ==
            if i <= pos then Ring(head, spine, i) else if i == pos + 1 then x else Ring(head, spine, i - 1)
  {
  }

  lemma RingAfterRemove(head: Node, spine: seq<Node>, pos: nat, i: nat)
    requires pos < |spine| && i <= |spine|
    ensures Ring(head, RemoveAt(spine, pos), i) == if i <= pos then Ring(head, spine, i) else Ring(head, spine, i + 1)
  {
  }

  lemma RingInjective(head: Node, spine: seq<Node>, i: nat, j: nat)
    requires Distinct(head, spine) && i <= |spine| && j <= |spine|
    ensures Ring(head, spine, i) == Ring(head, spine, j) ==> i == j
  {
  }

  class ValidList {
    const head: Node
    ghost var spine: seq<Node>

    ghost predicate Valid()
      reads this, head, spine
    {
      Distinct(head, spine) && Linked(head, spine)
    }

    ghost function Contents(): (l: seq<Elem>)
      reads this, spine
    {
      ElemsOf(spine)
    }

    constructor ()
      ensures Valid() && spine == [] && fresh(head)
    {
      head := new Node(Elem(0, 0, 0));
      spine := [];
    }

    /** `__list_add`: link `el` between the node at ring position `pos` and its successor. */
    method LinkAfter(el: Node, prev: Node, ghost pos: nat)
      requires Valid() && pos <= |spine| && prev == Ring(head, spine, pos) && el != head && el !in spine
      modifies this, el, head, spine
      ensures Valid() && spine == InsertAt(old(spine), pos, el)
      ensures el.elem == old(el.elem) && forall x :: x in old(spine) ==> x.elem == old(x.elem)
    {
      ghost var sp := spine;
      var next := prev.next;
      assert next == Ring(head, sp, pos + 1);
      el.next := next;
      el.prev := prev;
      prev.next := el;
      next.prev := el;
      spine := InsertAt(sp, pos, el);
      forall i: nat, j: nat | i <= |spine| && j == i + 1
        ensures Ring(head, spine, i).next == Ring(head, spine, j) && Ring(head, spine, j).prev == Ring(head, spine, i)
      {
        RingAfterInsert(head, sp, pos, el, i);
        RingAfterInsert(head, sp, pos, el, j);
        if i < pos {
          RingInjective(head, sp, i, pos);
          assert old(Ring(head, sp, i).next) == Ring(head, sp, j);
        } else if i > pos + 1 {
          RingInjective(head, sp, i - 1, pos);
          assert old(Ring(head, sp, i - 1).next) == Ring(head, sp, i);
        }
      }
    }

    /** `add_valid_block_in_order_secure`: fill `el` in, scan from the tail for a strictly smaller
        timestamp, and link `el` after it, or first. */
    method InsertInOrder(el: Node, e: Elem)
      requires Valid() && el != head && el !in spine
      modifies this, el, head, spine
      ensures Valid() && spine == InsertAt(old(spine), InsertPos(old(Contents()), e.nsec), el)
      ensures Contents() == Insert(old(Contents()), e)
    {
      ghost var sp, l := spine, Contents();
      el.elem := e;
      assert ElemsOf(sp) == l;
      if head.next == head {
        assert |sp| == 0 by {
          assert Ring(head, sp, 0).next == Ring(head, sp, 1);
        }
        assert head.prev == Ring(head, sp, 0) by {
          assert Ring(head, sp, 1).prev == Ring(head, sp, 0);
        }
        LinkAfter(el, head.prev, 0);
        return;
      }
      var prev := head.prev;
      ghost var k := |sp|;
      assert prev == Ring(head, sp, k) by {
        assert Ring(head, sp, k + 1).prev == Ring(head, sp, k);
      }
      while prev != head
        invariant 0 <= k <= |sp| && prev == Ring(head, sp, k)
        invariant forall i :: k <= i < |sp| ==> e.nsec <= l[i].nsec
        decreases k
      {
        assert prev == sp[k - 1];
        if prev.elem.nsec < e.nsec {
          InsertPosUnique(l, e.nsec, k);
          LinkAfter(el, prev, k);
          InsertedContents(sp, k, el, l, e);
          return;
        }
        assert Ring(head, sp, k).prev == Ring(head, sp, k - 1);
        prev := prev.prev;
        k := k - 1;
      }
      assert k == 0;
      InsertPosUnique(l, e.nsec, 0);
      LinkAfter(el, head, 0);
      InsertedContents(sp, 0, el, l, e);
    }

    lemma InsertedContents(sp: seq<Node>, k: nat, el: Node, l: seq<Elem>, e: Elem)
      requires k <= |sp| && spine == InsertAt(sp, k, el) && ElemsOf(sp) == l && el.elem == e
      ensures Contents() == InsertAt(l, k, e)
    {
    }

    /** The walk of `list_for_each_entry`: the first node of block `b`, if any. */
    method Find(b: int) returns (found: bool, node: Node, ghost pos: nat)
      requires Valid()
      ensures found <==> IndexOf(Contents(), b).Some?
      ensures found ==> pos < |spine| && spine[pos] == node && IndexOf(Contents(), b) == Some(pos)
      ensures !found ==> node == head
    {
      assert Ring(head, spine, 0).next == Ring(head, spine, 1);
      node, pos := head.next, 0;
      while node != head
        invariant pos <= |spine| && node == Ring(head, spine, pos + 1)
        invariant forall i :: 0 <= i < pos ==> spine[i].elem.ndx != b
        decreases |spine| - pos
      {
        assert node == spine[pos];
        if node.elem.ndx == b {
          assert Contents()[pos].ndx == b;
          return true, node, pos;
        }
        assert Ring(head, spine, pos + 1).next == Ring(head, spine, pos + 2);
        node, pos := node.next, pos + 1;
      }
      assert pos == |spine|;
      found := false;
    }

    lemma RemovedContents(sp: seq<Node>, k: nat, l: seq<Elem>)
      requires k < |sp| && spine == RemoveAt(sp, k) && ElemsOf(sp) == l
      ensures Contents() == RemoveAt(l, k)
    {
    }

    /** `list_del_rcu`: the neighbours are linked to each other; the removed node keeps its `next`. */
    method Unlink(node: Node, ghost pos: nat)
      requires Valid() && pos < |spine| && spine[pos] == node
      modifies this, head, spine
      ensures Valid() && spine == RemoveAt(old(spine), pos)
      ensures Contents() == RemoveAt(old(Contents()), pos)
      ensures node.next == old(node.next) && node.elem == old(node.elem)
    {
      ghost var sp, l := spine, Contents();
      assert Ring(head, sp, pos).next == Ring(head, sp, pos + 1) && Ring(head, sp, pos + 1).prev == Ring(head, sp, pos);
      assert Ring(head, sp, pos + 1).next == Ring(head, sp, pos + 2);
      var next, prev := node.next, node.prev;
      RingInjective(head, sp, pos, pos + 1);
      next.prev := prev;
      prev.next := next;
      spine := RemoveAt(sp, pos);
      RemovedContents(sp, pos, l);
      forall i: nat, j: nat | i <= |spine| && j == i + 1
        ensures Ring(head, spine, i).next == Ring(head, spine, j) && Ring(head, spine, j).prev == Ring(head, spine, i)
      {
        RingAfterRemove(head, sp, pos, i);
        RingAfterRemove(head, sp, pos, j);
        if i < pos {
          RingInjective(head, sp, i, pos);
          RingInjective(head, sp, j, pos + 1);
          assert old(Ring(head, sp, i).next) == Ring(head, sp, j) && old(Ring(head, sp, j).prev) == Ring(head, sp, i);
        } else if i > pos {
          RingInjective(head, sp, i + 1, pos);
          assert old(Ring(head, sp, i + 1).next) == Ring(head, sp, i + 2) && old(Ring(head, sp, i + 2).prev) == Ring(head, sp, i + 1);
        }
      }
    }

    /** `remove_valid_block`: search, and unlink what was found. */
    method Remove(b: int) returns (found: bool)
      requires Valid()
      modifies this, head, spine
      ensures Valid() && (found <==> IndexOf(old(Contents()), b).Some?)
      ensures Contents() == if found then RemoveAt(old(Contents()), IndexOf(old(Contents()), b).value) else old(Contents())
      ensures DistinctBlocks(old(Contents())) ==> !Listed(Contents(), b)
    {
      hide Linked, Distinct, ElemsOf, RemoveAt;
      ghost var l := Contents();
      var node: Node;
      ghost var pos: nat;
      found, node, pos := Find(b);
      if found {
        Unlink(node, pos);
        if DistinctBlocks(l) {
          RemovedIsGone(l, b);
        }
      }
    }
  }

  lemma RemovedIsGone(l: seq<Elem>, b: int)
    requires DistinctBlocks(l) && IndexOf(l, b).Some?
    ensures !Listed(RemoveAt(l, IndexOf(l, b).value), b)
  {
  }
}
