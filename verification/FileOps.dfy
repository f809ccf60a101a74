/** An open file and its operations, updated in place (file_ops.c), proved against the session machine. */
module FileOps {
  import opened Layout
  import opened SortedList
  import opened StoreSpec
  import opened LinkedList
  import opened Driver
  import Session

  const SEEK_SET := 0

  /** The walk of `read` over the list: the first node that is block `blk`, or is newer than `ts`. */
  method Locate(l: ValidList, blk: nat, ts: Time) returns (node: Node, ghost pos: nat)
    requires l.Valid()
    ensures pos <= |l.spine| && node == Ring(l.head, l.spine, pos + 1)
    ensures Session.Locate(l.Contents(), blk, ts) == if pos < |l.spine| then Some(pos) else None
    ensures node == l.head <==> pos == |l.spine|
  {
    assert Ring(l.head, l.spine, 0).next == Ring(l.head, l.spine, 1);
    node, pos := l.head.next, 0;
    while node != l.head
      invariant pos <= |l.spine| && node == Ring(l.head, l.spine, pos + 1)
      invariant forall i :: 0 <= i < pos ==> l.Contents()[i].ndx != blk && l.Contents()[i].nsec <= ts
      decreases |l.spine| - pos
    {
      assert node == l.spine[pos] && l.Contents()[pos] == node.elem;
      if node.elem.ndx == blk || node.elem.nsec > ts {
        return;
      }
      assert Ring(l.head, l.spine, pos + 1).next == Ring(l.head, l.spine, pos + 2);
      node, pos := node.next, pos + 1;
    }
  }

  class OpenFile {
    var off: nat        // f_pos
    var ts: Time        // *private_data
    const readable: bool

    ghost function State(): Session.Cursor
      reads this
    {
      Session.Cursor(off, ts)
    }

    /** The session that `bldms_open` sets up. */
    constructor (readable: bool)
      ensures State() == Session.FRESH && this.readable == readable
    {
      this.readable := readable;
      off, ts := 0, 0;
    }

    /** `bldms_llseek`: only a rewind of a readable file is allowed, and it makes the session fresh. */
    method Llseek(d: Bldms, offset: int, whence: int) returns (r: Result<int>)
      modifies this
      ensures r == if !d.mounted then Err(ENODEV)
                   else if whence == SEEK_SET && offset == 0 && readable then Ok(0) else Err(EINVAL)
      ensures State() == if r.Ok? then Session.FRESH else old(State())
    {
      if !d.mounted {
        return Err(ENODEV);
      }
      if whence != SEEK_SET || offset != 0 || !readable {
        return Err(EINVAL);
      }
      off, ts := 0, 0;
      r := Ok(0);
    }

    /** The end of `read`: remember the successor of the node just read, or the end of the file. */
    method SetNext(d: Bldms, fsz: nat, node: Node, ghost pos: nat)
      requires d.Valid() && pos < |d.list.spine| && d.list.spine[pos] == node
      modifies this
      ensures State() == Session.Expect(d.View().list, fsz, pos, old(ts))
    {
      assert Ring(d.list.head, d.list.spine, pos + 1).next == Ring(d.list.head, d.list.spine, pos + 2);
      var next := node.next;
      if next == d.list.head {
        off := fsz;
      } else {
        ts := next.elem.nsec;
        off := next.elem.ndx * BLOCK_SIZE + METADATA_SIZE;
      }
    }

    /** The middle of `read`: copy out of the located node, from byte `o` of its block. */
    method CopyOut(d: Bldms, fsz: nat, node: Node, o: nat, len: nat, ghost pos: nat) returns (out: Session.Outcome)
      requires d.Valid() && Inv(d.View()) && pos < |d.list.spine| && d.list.spine[pos] == node && METADATA_SIZE <= o
      modifies this
      ensures (State(), out) == Session.Deliver(d.View(), fsz, pos, Session.Request(old(off), o, len), old(ts))
    {
      hide DeviceAgrees, Sorted, DistinctBlocks, Linked, Distinct;
      var bytes := node.elem.bytes;
      assert d.View().list[pos] == node.elem;
      assert Mirrors(d.View().arr, d.View().list[pos]);
      if o - METADATA_SIZE > bytes {
        out := Session.Unset;
      } else {
        var n := len;
        if n + o - METADATA_SIZE > bytes {
          n := bytes - (o - METADATA_SIZE);
        }
        Session.ListedFits(d.View(), pos);
        out := Session.Bytes(d.device[node.elem.ndx][o..o + n]);
        if o + n < bytes + METADATA_SIZE {
          off := off + n;
          return;
        }
      }
      SetNext(d, fsz, node, pos);
    }

    /** The start of `read`: clamp the request, skip the metadata, keep to one block. */
    method Clamp(fsz: nat, len: nat) returns (o: nat, n: nat)
      requires off + Session.HEADER < fsz
      modifies this
      ensures Session.Request(off, o, n) == Session.Prepare(fsz, old(off), len) && ts == old(ts)
    {
      n := len;
      if off + Session.HEADER + n > fsz {
        n := fsz - off;
      }
      o := off % BLOCK_SIZE;
      if o < METADATA_SIZE {
        off := off + (METADATA_SIZE - o);
        o := METADATA_SIZE;
      }
      if o + n > BLOCK_SIZE {
        n := BLOCK_SIZE - o;
      }
    }

    /** `bldms_read`. */
    method Read(d: Bldms, fsz: nat, len: nat) returns (out: Session.Outcome)
      requires d.Valid() && Inv(d.View())
      modifies this
      ensures (State(), out) == Session.Read(d.View(), fsz, old(State()), len)
    {
      hide Inv, Session.Deliver, Session.Locate, Session.Prepare, Linked, Distinct;
      if off + Session.HEADER >= fsz {
        return Session.Bytes([]);
      }
      var o, n := Clamp(fsz, len);
      var blk := off / BLOCK_SIZE;
      var node, pos := Locate(d.list, blk, ts);
      if node == d.list.head {
        off := fsz;
        return Session.Bytes([]);
      }
      assert d.View().list[pos] == node.elem;
      if node.elem.ndx != blk {
        off := node.elem.ndx * BLOCK_SIZE + METADATA_SIZE;
        o := METADATA_SIZE;
        n := if node.elem.bytes < n then node.elem.bytes else n;
      }
      out := CopyOut(d, fsz, node, o, n, pos);
    }
  }

  /** `bldms_open`: a fresh session, on a mounted device only. */
  method Open(d: Bldms, readable: bool) returns (r: Result<OpenFile>)
    ensures r == Err(ENODEV) <==> !d.mounted
    ensures r.Ok? <==> d.mounted
    ensures r.Ok? ==> fresh(r.value) && r.value.State() == Session.FRESH && r.value.readable == readable
  {
    if !d.mounted {
      return Err(ENODEV);
    }
    var f := new OpenFile(readable);
    r := Ok(f);
  }
}
