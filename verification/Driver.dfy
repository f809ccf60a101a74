/** The driver's global state and its system calls, on arrays and the linked list in place
    (syscalls.c, bldms.c), proved against the sequential store. */
module Driver {
  import opened Layout
  import opened SortedList
  import opened StoreSpec
  import opened Image
  import opened LinkedList

  class Bldms {
    var mounted: bool
    var metadata: array<Metadata>   // metadata_array
    var device: array<Block>        // the data blocks
    var list: ValidList             // valid_blk_list
    var last: nat                   // last_written_block

    ghost predicate Valid()
      reads this, list, list.head, list.spine
    {
      && list.Valid()
      && metadata.Length == device.Length
      && (metadata.Length > 0 ==> last < metadata.Length)
    }

    /** The three views and the last written block, as one value. */
    ghost function View(): (st: Store)
      reads this, metadata, device, list, list.spine
    {
      Store(metadata[..], device[..], list.Contents(), last)
    }

    constructor ()
      ensures Valid() && !mounted && View() == EmptyStore(0)
      ensures fresh(metadata) && fresh(device) && fresh(list) && fresh(list.head)
    {
      mounted := false;
      metadata := new Metadata[0];
      device := new Block[0];
      list := new ValidList();
      last := 0xFFFF_FFFF;
    }

    /** The circular scan of the metadata array. */
    method FindFree() returns (r: Option<nat>)
      requires Valid()
      ensures r == Search(metadata[..], last)
    {
      var n := metadata.Length;
      if n == 0 {
        return None;
      }
      ghost var arr := metadata[..];
      var i := 1;
      while i <= n
        invariant 1 <= i <= n + 1
        invariant SearchFrom(arr, last, 1) == SearchFrom(arr, last, i)
        decreases n + 1 - i
      {
        var b := (last + i) % n;
        if !metadata[b].valid {
          return Some(b);
        }
        i := i + 1;
      }
      r := None;
    }

    /** The part of `put_data` after the search: write the block, publish the element, record it. */
    method StoreAt(el: Node, t: nat, msg: Message, now: Time)
      requires Valid() && t < metadata.Length && el != list.head && el !in list.spine
      modifies this, metadata, device, list, list.head, list.spine, el
      ensures Valid() && mounted == old(mounted) && View() == PutAt(old(View()), t, msg, now)
      ensures metadata == old(metadata) && device == old(device) && list == old(list)
      ensures forall x :: x in list.spine ==> x == el || x in old(list.spine)
    {
      hide BlockOf, Insert, InsertPos, Linked, Distinct, ElemsOf;
      device[t] := BlockOf(now, msg);
      list.InsertInOrder(el, Elem(t, now, |msg|));
      metadata[t] := Metadata(now, true, |msg|);
      last := t;
    }

    method PutData(msg: seq<Byte>, now: Time) returns (r: Result<nat>)
      requires Valid()
      modifies this, metadata, device, list, list.head, list.spine
      ensures Valid() && mounted == old(mounted)
      ensures !mounted ==> r == Err(ENODEV) && View() == old(View())
      ensures mounted ==> (View(), r) == Put(old(View()), msg, now)
      ensures old(Inv(View())) ==> Inv(View())
      ensures metadata == old(metadata) && device == old(device) && list == old(list)
      ensures forall x :: x in list.spine ==> x in old(list.spine) || fresh(x)
    {
      hide Inv, Search, PutAt;
      ghost var st := View();
      if Inv(st) {
        ApplyKeepsInv(st, PutOp(msg, now));
      }
      if !mounted {
        return Err(ENODEV);
      }
      if |msg| > MAX_MESSAGE {
        return Err(E2BIG);
      }
      var el := new Node(Elem(0, 0, 0));
      var target := FindFree();
      if target.None? {
        return Err(ENOMEM);
      }
      StoreAt(el, target.value, msg, now);
      r := Ok(target.value);
    }

    method GetData(offset: int, size: nat) returns (r: Result<seq<Byte>>)
      requires Valid() && Inv(View())
      ensures !mounted ==> r == Err(ENODEV)
      ensures mounted ==> r == Get(View(), offset, size)
    {
      if !mounted {
        return Err(ENODEV);
      }
      if offset < 0 || offset >= metadata.Length {
        return Err(E2BIG);
      }
      var found, node, pos := list.Find(offset);
      if !found {
        return Err(ENODATA);
      }
      assert View().list[pos] == node.elem;
      assert Mirrors(View().arr, View().list[pos]);
      var n := if size > node.elem.bytes then node.elem.bytes else size;
      r := Ok(Payload(device[offset], n));
    }

    method InvalidateData(offset: int) returns (r: Result<()>)
      requires Valid()
      modifies this, metadata, device, list, list.head, list.spine
      ensures Valid() && mounted == old(mounted)
      ensures !mounted ==> r == Err(ENODEV) && View() == old(View())
      ensures mounted ==> (View(), r) == Invalidate(old(View()), offset)
      ensures old(Inv(View())) ==> Inv(View())
      ensures metadata == old(metadata) && device == old(device) && list == old(list)
      ensures forall x :: x in list.spine ==> x in old(list.spine)
    {
      hide Inv, IndexOf, RemoveAt, Rewritten;
      ghost var st := View();
      if Inv(st) {
        ApplyKeepsInv(st, InvalidateOp(offset));
      }
      if !mounted {
        return Err(ENODEV);
      }
      if offset < 0 || offset >= metadata.Length {
        return Err(E2BIG);
      }
      var found, node, pos := list.Find(offset);
      if !found {
        return Err(ENODATA);
      }
      Detach(node, pos);
      r := Ok(());
    }

    /** The part of `invalidate_data` after the search: unlink, clear the bit, rewrite the metadata. */
    method Detach(node: Node, ghost pos: nat)
      requires Valid() && pos < |list.spine| && list.spine[pos] == node && node.elem.ndx < metadata.Length
      modifies this, metadata, device, list, list.head, list.spine
      ensures Valid() && mounted == old(mounted) && View() == InvalidateAt(old(View()), pos)
      ensures metadata == old(metadata) && device == old(device) && list == old(list)
      ensures forall x :: x in list.spine ==> x in old(list.spine)
    {
      hide Rewritten;
      list.Unlink(node, pos);
      var b := node.elem.ndx;
      metadata[b] := metadata[b].(valid := false);
      device[b] := Rewritten(device[b], metadata[b]);
    }

    /** `bldms_fs_fill_super`: check the image, then fill the array and the list block by block. */
    method Mount(image: seq<Byte>) returns (r: Result<()>)
      requires Valid()
      modifies this
      ensures Valid()
      ensures old(mounted) ==> r == Err(EBUSY) && mounted && View() == old(View())
      ensures !old(mounted) ==>
                match MountImage(image)
                case Err(e) => r == Err(e) && !mounted && View() == old(View())
                case Ok(st) => r == Ok(()) && mounted && View() == st
    {
      hide ListFrom, DecodeMetadata, MagicOf, FileSizeOf;
      if mounted {
        return Err(EBUSY);
      }
      if |image| < 2 * BLOCK_SIZE {
        return Err(EIO);
      }
      if MagicOf(image) != MAGIC {
        return Err(EBADF);
      }
      if FileSizeOf(image) > NBLOCKS * BLOCK_SIZE {
        return Err(E2BIG);
      }
      var n := FileSizeOf(image) / BLOCK_SIZE;
      if (n + 2) * BLOCK_SIZE > |image| {
        return Err(EIO);
      }
      var blocks := new Block[n];
      for k := 0 to n
        invariant forall j :: 0 <= j < k ==> blocks[j] == DataBlock(image, j)
      {
        blocks[k] := DataBlock(image, k);
      }
      assert blocks[..] == seq(n, k requires 0 <= k < n => DataBlock(image, k));
      FillFrom(blocks);
      r := Ok(());
    }

    /** What the mount sets once the blocks have been read. */
    method FillFrom(blocks: array<Block>)
      modifies this
      ensures Valid() && mounted && View() == MountBlocks(blocks[..])
    {
      hide ListFrom, ArrayFrom;
      var arr, l := ReadBlocks(blocks);
      var lastBlock := LastBlock(l, arr.Length);
      assert l.Contents() != [] ==> l.Contents()[|l.spine| - 1].ndx < arr.Length by {
        MountedIndicesInRange(arr[..]);
      }
      metadata, device, list, last, mounted := arr, blocks, l, lastBlock, true;
    }
  }

  lemma MountedIndicesInRange(arr: seq<Metadata>)
    ensures forall i :: 0 <= i < |ListFrom(arr, |arr|)| ==> ListFrom(arr, |arr|)[i].ndx < |arr|
  {
    ListFromCorrect(arr, |arr|);
    var l := ListFrom(arr, |arr|);
    assert forall i :: 0 <= i < |l| ==> l[i] in l;
  }

  method LastBlock(l: ValidList, n: nat) returns (r: nat)
    requires l.Valid()
    ensures r == LastFrom(l.Contents(), n)
  {
    assert Ring(l.head, l.spine, |l.spine| + 1).prev == Ring(l.head, l.spine, |l.spine|);
    if l.head.prev != l.head {
      return l.head.prev.elem.ndx;
    }
    r := if n == 0 then 0xFFFF_FFFF else n - 1;
  }

  /** A new element, inserted in order. */
  method AddBlock(l: ValidList, e: Elem)
    requires l.Valid()
    modifies l, l.head, l.spine
    ensures l.Valid() && l.Contents() == Insert(old(l.Contents()), e)
    ensures fresh(set x | x in l.spine && x !in old(l.spine))
  {
    hide Linked, Insert, InsertPos, ElemsOf;
    var el := new Node(Elem(0, 0, 0));
    l.InsertInOrder(el, e);
  }

  lemma ListFromNone(arr: seq<Metadata>)
    ensures ListFrom(arr, 0) == []
  {
  }

  lemma ListFromOne(arr: seq<Metadata>, i: nat)
    requires i < |arr|
    ensures ListFrom(arr, i + 1) == if arr[i].valid then Insert(ListFrom(arr, i), ElemOf(arr, i)) else ListFrom(arr, i)
  {
  }

  /** The mount loop: read every block, record its metadata, and list it if it is valid. */
  method ReadBlocks(blocks: array<Block>) returns (arr: array<Metadata>, l: ValidList)
    ensures fresh(arr) && fresh(l) && fresh(l.head) && fresh(l.spine)
    ensures l.Valid() && arr[..] == ArrayFrom(blocks[..])
    ensures l.Contents() == ListFrom(ArrayFrom(blocks[..]), blocks.Length)
  {
    hide DecodeMetadata, Insert, ListFrom, ArrayFrom, Linked, Distinct, ElemsOf;
    ListFromNone(ArrayFrom(blocks[..]));
    var n := blocks.Length;
    arr := new Metadata[n];
    l := new ValidList();
    ghost var all := ArrayFrom(blocks[..]);
    var i := 0;
    while i < n
      invariant 0 <= i <= n
      invariant fresh(l) && fresh(l.head) && fresh(l.spine) && l.Valid()
      invariant forall j :: 0 <= j < i ==> arr[j] == all[j]
      invariant l.Contents() == ListFrom(all, i)
    {
      ListFromOne(all, i);
      arr[i] := DecodeMetadata(blocks[i]);
      if arr[i].valid {
        AddBlock(l, Elem(i, arr[i].nsec, arr[i].bytes));
      }
      i := i + 1;
    }
    assert arr[..] == all;
  }
}
