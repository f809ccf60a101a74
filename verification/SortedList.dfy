/** The list of valid blocks seen as a sequence of elements (include/rcu.h, rcu.c). */
module SortedList {
  import opened Layout

  datatype Option<+T> = None | Some(value: T)

  datatype Elem = Elem(ndx: nat, nsec: Time, bytes: nat)

  ghost predicate Sorted(l: seq<Elem>) {
    forall i, j :: 0 <= i < j < |l| ==> l[i].nsec <= l[j].nsec
  }

  ghost predicate StrictlySorted(l: seq<Elem>) {
    forall i, j :: 0 <= i < j < |l| ==> l[i].nsec < l[j].nsec
  }

  ghost predicate DistinctBlocks(l: seq<Elem>) {
    forall i, j :: 0 <= i < j < |l| ==> l[i].ndx != l[j].ndx
  }

  /** `p` is the position right after the last element with a strictly smaller timestamp. */
  ghost predicate IsInsertPos(l: seq<Elem>, nsec: Time, p: nat) {
    && p <= |l|
    && (p > 0 ==> l[p - 1].nsec < nsec)
    && forall i :: p <= i < |l| ==> nsec <= l[i].nsec
  }

  /** The scan from the tail. */
  function InsertPos(l: seq<Elem>, nsec: Time): (p: nat)
    ensures IsInsertPos(l, nsec, p)
  {
    if l == [] then 0
    else if l[|l| - 1].nsec < nsec then |l|
    else InsertPos(l[..|l| - 1], nsec)
  }

  lemma InsertPosUnique(l: seq<Elem>, nsec: Time, p: nat)
    requires IsInsertPos(l, nsec, p)
    ensures p == InsertPos(l, nsec)
  {
    var q := InsertPos(l, nsec);
    assert !(p < q) by { assert q > 0 ==> l[q - 1].nsec < nsec; }
    assert !(q < p) by { assert p > 0 ==> l[p - 1].nsec < nsec; }
  }

  function InsertAt<T>(l: seq<T>, p: nat, e: T): (r: seq<T>)
    requires p <= |l|
    ensures |r| == |l| + 1
    ensures r[p] == e
    ensures forall i :: 0 <= i < p ==> r[i] == l[i]
    ensures forall i :: p < i < |r| ==> r[i] == l[i - 1]
  {
    l[..p] + [e] + l[p..]
  }

  function RemoveAt<T>(l: seq<T>, p: nat): (r: seq<T>)
    requires p < |l|
    ensures |r| == |l| - 1
    ensures forall i :: 0 <= i < p ==> r[i] == l[i]
    ensures forall i :: p <= i < |r| ==> r[i] == l[i + 1]
  {
    l[..p] + l[p + 1..]
  }

  lemma RemoveInsert<T>(l: seq<T>, p: nat, e: T)
    requires p <= |l|
    ensures RemoveAt(InsertAt(l, p, e), p) == l
  {
    var r := RemoveAt(InsertAt(l, p, e), p);
    assert |r| == |l|;
    assert forall i :: 0 <= i < |l| ==> r[i] == l[i];
  }

  /** The in-order insertion. */
  function Insert(l: seq<Elem>, e: Elem): (r: seq<Elem>)
    ensures |r| == |l| + 1
  {
    InsertAt(l, InsertPos(l, e.nsec), e)
  }

  lemma InsertSorted(l: seq<Elem>, e: Elem)
    requires Sorted(l)
    ensures Sorted(Insert(l, e))
  {
    var p := InsertPos(l, e.nsec);
    forall i | 0 <= i < p
      ensures l[i].nsec < e.nsec
    {
      assert i == p - 1 || l[i].nsec <= l[p - 1].nsec;
    }
  }

  lemma InsertMembers(l: seq<Elem>, e: Elem)
    ensures forall x :: x in Insert(l, e) <==> x == e || x in l
  {
    var p := InsertPos(l, e.nsec);
    assert l == l[..p] + l[p..];
  }

  /** The index of the first element for block `b`. */
  function IndexOf(l: seq<Elem>, b: int): (r: Option<nat>)
    ensures r.Some? ==> r.value < |l| && l[r.value].ndx == b
    ensures r.Some? ==> forall i :: 0 <= i < r.value ==> l[i].ndx != b
    ensures r.None? ==> forall i :: 0 <= i < |l| ==> l[i].ndx != b
  {
    if l == [] then None
    else if l[0].ndx == b then Some(0)
    else match IndexOf(l[1..], b)
      case None =>
        assert forall i :: 0 <= i < |l| ==> i == 0 || l[i] == l[1..][i - 1];
        None
      case Some(i) =>
        assert forall k :: 0 <= k < i + 1 ==> k == 0 || l[k] == l[1..][k - 1];
        Some(i + 1)
  }

  ghost predicate Listed(l: seq<Elem>, b: int) {
    exists i :: 0 <= i < |l| && l[i].ndx == b
  }
}
