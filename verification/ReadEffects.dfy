/** What one call of the file `read` delivers and where it leaves the session, in every case, told by the
    list, the bytes of the device and the offset alone. */
module ReadEffects {
  import opened Layout
  import opened SortedList
  import opened StoreSpec
  import opened Session

  /** The element that a session looks for: the block it stands in, or anything newer than it expects. */
  ghost predicate Sought(e: Elem, c: Cursor) {
    e.ndx == c.off / 4096 || e.nsec > c.ts
  }

  ghost predicate FirstSought(l: seq<Elem>, c: Cursor, i: nat) {
    i < |l| && Sought(l[i], c) && forall k :: 0 <= k < i ==> !Sought(l[k], c)
  }

  /** Where in its block the session stands, past the record. */
  ghost function Place(c: Cursor): (o: nat)
    ensures 10 <= o < 4096
  {
    if c.off % 4096 < 10 then 10 else c.off % 4096
  }

  /** The byte of message `e` that the call starts at. */
  ghost function Start(e: Elem, c: Cursor): nat {
    if e.ndx == c.off / 4096 then Place(c) - 10 else 0
  }

  /** How much the call asks for: what the caller does, but at most the rest of the block the session
      stands in, and all of that if the request reaches beyond the bound. */
  ghost function Asked(fsz: nat, c: Cursor, len: nat): nat {
    if c.off + 8192 + len > fsz || len > 4096 - Place(c) then 4096 - Place(c) else len
  }

  /** The session goes on to the first byte of the successor of `i`, or to the end of the file. */
  ghost predicate GoesOn(l: seq<Elem>, fsz: nat, i: nat, ts: Time, c': Cursor)
    requires i < |l|
  {
    if i + 1 == |l| then c' == Cursor(fsz, ts)
    else c' == Cursor(l[i + 1].ndx * 4096 + 10, l[i + 1].nsec)
  }

  /** Beyond the bound, at 8192 bytes before the end of the file, a call delivers nothing and changes nothing. */
  lemma BeyondTheBound(st: Store, fsz: nat, c: Cursor, len: nat)
    requires Inv(st) && c.off + 8192 >= fsz
    ensures Read(st, fsz, c, len) == (c, Bytes([]))
  {
  }

  /** A call that finds no element delivers nothing and leaves the session at the end of the file. */
  lemma FindsNothing(st: Store, fsz: nat, c: Cursor, len: nat)
    requires Inv(st) && c.off + 8192 < fsz && forall i :: 0 <= i < |st.list| ==> !Sought(st.list[i], c)
    ensures Read(st, fsz, c, len) == (Cursor(fsz, c.ts), Bytes([]))
  {
    hide DeviceAgrees, ListAgrees;
    LocateIsSought(st.list, c);
  }

  lemma LocateIsSought(l: seq<Elem>, c: Cursor)
    ensures match Locate(l, c.off / 4096, c.ts)
            case None => forall i :: 0 <= i < |l| ==> !Sought(l[i], c)
            case Some(i) => FirstSought(l, c, i)
  {
  }

  lemma OneFirstSought(l: seq<Elem>, c: Cursor, i: nat, k: nat)
    requires FirstSought(l, c, i) && FirstSought(l, c, k)
    ensures i == k
  {
  }

  lemma LocatesFirstSought(l: seq<Elem>, c: Cursor, i: nat)
    requires FirstSought(l, c, i)
    ensures Locate(l, c.off / 4096, c.ts) == Some(i)
  {
    hide Locate;
    LocateIsSought(l, c);
    var r := Locate(l, c.off / 4096, c.ts);
    if r.Some? {
      OneFirstSought(l, c, i, r.value);
    }
  }

  lemma PreparedAs(fsz: nat, c: Cursor, len: nat)
    requires c.off + 8192 < fsz
    ensures var q := Prepare(fsz, c.off, len);
            q.o == Place(c) && q.len == Asked(fsz, c, len) && q.off == c.off / 4096 * 4096 + Place(c)
  {
  }

  /** A call that finds element `i`: what is unset, what is delivered, and where the session goes. */
  lemma ReadsExactly(st: Store, fsz: nat, c: Cursor, len: nat, i: nat)
    requires Inv(st) && c.off + 8192 < fsz && FirstSought(st.list, c, i)
    ensures var (c', out) := Read(st, fsz, c, len); var e := st.list[i]; var j := Start(e, c);
            && e.ndx < |st.dev| && e.bytes <= 4086
            && if j > e.bytes then out == Unset && GoesOn(st.list, fsz, i, c.ts, c')
               else
                 var n := if Asked(fsz, c, len) < e.bytes - j then Asked(fsz, c, len) else e.bytes - j;
                 && out == Bytes(st.dev[e.ndx][10 + j..10 + j + n])
                 && if j + n < e.bytes then c' == Cursor(e.ndx * 4096 + 10 + j + n, c.ts) else GoesOn(st.list, fsz, i, c.ts, c')
  {
    hide Inv, Prepare, Locate;
    LocatesFirstSought(st.list, c, i);
    PreparedAs(fsz, c, len);
    ListedFits(st, i);
  }

  // ----- after an unset return -----

  /** The call whose return value is unset moves the session on, and the next call, if it is within the
      bound, delivers the successor from its first byte. */
  lemma AfterUnset(st: Store, fsz: nat, c: Cursor, len: nat, i: nat, len': nat)
    requires Inv(st) && c.off + 8192 < fsz && FirstSought(st.list, c, i) && Start(st.list[i], c) > st.list[i].bytes
    ensures var c' := Read(st, fsz, c, len).0;
            && Read(st, fsz, c, len).1 == Unset && GoesOn(st.list, fsz, i, c.ts, c')
            && if i + 1 == |st.list| || c'.off + 8192 >= fsz then Read(st, fsz, c', len') == (c', Bytes([]))
               else
                 var e := st.list[i + 1]; var n := if Asked(fsz, c', len') < e.bytes then Asked(fsz, c', len') else e.bytes;
                 e.ndx < |st.dev| && e.bytes <= 4086 && Read(st, fsz, c', len').1 == Bytes(st.dev[e.ndx][10..10 + n])
  {
    hide Inv, Read, Asked;
    ReadsExactly(st, fsz, c, len, i);
    var c' := Read(st, fsz, c, len).0;
    if c'.off + 8192 >= fsz {
      BeyondTheBound(st, fsz, c', len');
    } else {
      SuccessorIsFirstSought(st, i, c');
      ReadsExactly(st, fsz, c', len', i + 1);
    }
  }

  lemma SuccessorIsFirstSought(st: Store, i: nat, c: Cursor)
    requires Inv(st) && i + 1 < |st.list| && c == Cursor(st.list[i + 1].ndx * 4096 + 10, st.list[i + 1].nsec)
    ensures FirstSought(st.list, c, i + 1) && Start(st.list[i + 1], c) == 0
  {
    hide DeviceAgrees;
  }
}
