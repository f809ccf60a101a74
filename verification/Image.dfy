/** The persistent form: the image the formatter writes, and the mount that rebuilds the array and
    the list from the blocks of a device (bldmsmakefs.c, bldms.c). */
module Image {
  import opened Layout
  import opened SortedList
  import opened StoreSpec

  const MAGIC := 0x3030_3030
  const NBLOCKS := 1000

  // ----- mounting a device -----

  function ElemOf(arr: seq<Metadata>, i: nat): Elem
    requires i < |arr|
  {
    Elem(i, arr[i].nsec, arr[i].bytes)
  }

  /** The list after the first `n` blocks have been read, in index order. */
  function ListFrom(arr: seq<Metadata>, n: nat): (l: seq<Elem>)
    requires n <= |arr|
  {
    if n == 0 then []
    else if arr[n - 1].valid then Insert(ListFrom(arr, n - 1), ElemOf(arr, n - 1))
    else ListFrom(arr, n - 1)
  }

  function ArrayFrom(dev: seq<Block>): (arr: seq<Metadata>)
    ensures |arr| == |dev|
    ensures forall i :: 0 <= i < |dev| ==> arr[i] == DecodeMetadata(dev[i])
  {
    seq(|dev|, i requires 0 <= i < |dev| => DecodeMetadata(dev[i]))
  }

  /** The next search starts after the newest message, or at block 0 of an empty device. */
  function LastFrom(list: seq<Elem>, n: nat): nat {
    if list != [] then list[|list| - 1].ndx else if n == 0 then 0xFFFF_FFFF else n - 1
  }

  function MountBlocks(dev: seq<Block>): (st: Store) {
    var arr := ArrayFrom(dev);
    var list := ListFrom(arr, |arr|);
    Store(arr, dev, list, LastFrom(list, |arr|))
  }

  /** List order of a mount: increasing timestamps, and among equal ones decreasing block index. */
  ghost predicate KeyLess(x: Elem, y: Elem) {
    x.nsec < y.nsec || (x.nsec == y.nsec && x.ndx > y.ndx)
  }

  ghost predicate KeySorted(l: seq<Elem>) {
    forall i, j :: 0 <= i < j < |l| ==> KeyLess(l[i], l[j])
  }

  /** The rebuilt list holds exactly the valid entries, in key order. */
  lemma {:induction false} ListFromCorrect(arr: seq<Metadata>, n: nat)
    requires n <= |arr|
    ensures KeySorted(ListFrom(arr, n))
    ensures forall x :: x in ListFrom(arr, n) <==> x.ndx < n && arr[x.ndx].valid && x == ElemOf(arr, x.ndx)
  {
    hide Insert, KeySorted;
    if n == 0 {
      NothingIsSorted();
    } else {
      ListFromCorrect(arr, n - 1);
      if arr[n - 1].valid {
        var l, e := ListFrom(arr, n - 1), ElemOf(arr, n - 1);
        InsertMembers(l, e);
        InsertNewest(l, e);
      }
    }
  }

  lemma NothingIsSorted()
    ensures KeySorted([])
  {
  }

  /** Inserting a block with a larger index than all listed ones keeps key order. */
  lemma InsertNewest(l: seq<Elem>, e: Elem)
    requires KeySorted(l) && forall x :: x in l ==> x.ndx < e.ndx
    ensures KeySorted(Insert(l, e))
  {
    var p := InsertPos(l, e.nsec);
    forall i | 0 <= i < |l|
      ensures if i < p then KeyLess(l[i], e) else KeyLess(e, l[i])
    {
      assert l[i] in l;
      assert i < p ==> i == p - 1 || KeyLess(l[i], l[p - 1]);
    }
  }

  /** A device whose valid blocks all declare a length that fits into the block. */
  ghost predicate WellFormed(dev: seq<Block>) {
    forall b :: 0 <= b < |dev| && DecodeMetadata(dev[b]).valid ==> DecodeMetadata(dev[b]).bytes <= MAX_MESSAGE
  }

  /** Mounting leaves array, list and device in agreement, with all listed messages inside their
      blocks, if and only if the device is well formed; the mount itself does not check this. */
  lemma MountInvIff(dev: seq<Block>)
    ensures Inv(MountBlocks(dev)) <==> WellFormed(dev)
  {
    hide EncodeMetadata, DecodeMetadata, ListFrom;
    if WellFormed(dev) {
      MountInv(dev);
    }
    if Inv(MountBlocks(dev)) {
      forall b | 0 <= b < |dev| && DecodeMetadata(dev[b]).valid
        ensures DecodeMetadata(dev[b]).bytes <= MAX_MESSAGE
      {
        assert MountBlocks(dev).arr[b] == DecodeMetadata(dev[b]);
      }
    }
  }

  /** On a malformed device the list holds a message that ends beyond its block. */
  lemma MalformedIsListed(dev: seq<Block>)
    requires !WellFormed(dev)
    ensures var l := MountBlocks(dev).list; exists i :: 0 <= i < |l| && METADATA_SIZE + l[i].bytes > BLOCK_SIZE
  {
    hide EncodeMetadata, DecodeMetadata, ListFrom;
    var st := MountBlocks(dev);
    var b :| 0 <= b < |dev| && DecodeMetadata(dev[b]).valid && DecodeMetadata(dev[b]).bytes > MAX_MESSAGE;
    ListFromCorrect(st.arr, |st.arr|);
    assert ElemOf(st.arr, b) in st.list;
  }

  lemma MountInv(dev: seq<Block>)
    requires WellFormed(dev)
    ensures Inv(MountBlocks(dev))
  {
    hide EncodeMetadata, DecodeMetadata;
    var st := MountBlocks(dev);
    ListFromCorrect(st.arr, |st.arr|);
    forall b | 0 <= b < |dev|
      ensures dev[b][..METADATA_SIZE] == EncodeMetadata(st.arr[b])
    {
      EncodeDecode(dev[b]);
    }
    MountedListAgrees(st.arr);
    if st.list != [] {
      assert Mirrors(st.arr, st.list[|st.list| - 1]);
    }
  }

  lemma MountedListAgrees(arr: seq<Metadata>)
    ensures ListAgrees(arr, ListFrom(arr, |arr|))
  {
    hide ListFrom;
    var l := ListFrom(arr, |arr|);
    ListFromCorrect(arr, |arr|);
    forall i | 0 <= i < |l|
      ensures Mirrors(arr, l[i])
    {
      assert l[i] in l;
    }
    forall i, j | 0 <= i < j < |l|
      ensures l[i].nsec <= l[j].nsec && l[i].ndx != l[j].ndx
    {
      assert l[i] in l && l[j] in l && KeyLess(l[i], l[j]);
    }
    forall b | 0 <= b < |arr| && arr[b].valid
      ensures Listed(l, b)
    {
      assert ElemOf(arr, b) in l;
      var i :| 0 <= i < |l| && l[i] == ElemOf(arr, b);
      assert l[i].ndx == b;
    }
  }

  // ----- remounting -----

  /** A key-sorted list is determined by its elements. */
  lemma {:induction false} KeySortedUnique(a: seq<Elem>, b: seq<Elem>)
    requires KeySorted(a) && KeySorted(b) && forall x :: x in a <==> x in b
    ensures a == b
    decreases |a|
  {
    if a == [] {
      if b != [] {
        HasMember(b);
      }
    } else {
      assert a[0] in a;
      assert a[0] in b;
      var i :| 0 <= i < |b| && b[i] == a[0];
      assert b[0] in b;
      assert b[0] in a;
      var j :| 0 <= j < |a| && a[j] == b[0];
      FirstIsLeast(b, i);
      FirstIsLeast(a, j);
      TailMembers(a);
      TailMembers(b);
      KeySortedUnique(a[1..], b[1..]);
    }
  }

  lemma FirstIsLeast(l: seq<Elem>, i: nat)
    requires KeySorted(l) && i < |l|
    ensures i == 0 || KeyLess(l[0], l[i])
  {
  }

  lemma HasMember(b: seq<Elem>)
    requires b != []
    ensures exists x :: x in b
  {
    assert b[0] in b;
  }

  lemma TailMembers(a: seq<Elem>)
    requires a != [] && KeySorted(a)
    ensures KeySorted(a[1..]) && forall x :: x in a[1..] <==> x in a && x != a[0]
  {
    forall x | x in a && x != a[0]
      ensures x in a[1..]
    {
      var i :| 0 <= i < |a| && a[i] == x;
      assert a[1..][i - 1] == x;
    }
    forall x | x in a[1..]
      ensures x in a && x != a[0]
    {
      var i :| 0 <= i < |a| - 1 && a[1..][i] == x;
      assert KeyLess(a[0], a[i + 1]);
    }
  }

  lemma ArrayRebuilt(st: Store)
    requires Inv(st)
    ensures ArrayFrom(st.dev) == st.arr
  {
    hide EncodeMetadata, DecodeMetadata, ListAgrees;
    forall b | 0 <= b < |st.dev|
      ensures DecodeMetadata(st.dev[b]) == st.arr[b]
    {
      DecodeEncode(st.arr[b], st.dev[b][METADATA_SIZE..]);
      assert st.dev[b] == EncodeMetadata(st.arr[b]) + st.dev[b][METADATA_SIZE..];
    }
  }

  lemma SameMembers(arr: seq<Metadata>, list: seq<Elem>)
    requires ListAgrees(arr, list)
    ensures forall x :: x in list <==> x in ListFrom(arr, |arr|)
  {
    hide ListFrom, Sorted;
    ListFromCorrect(arr, |arr|);
    forall x | x in list
      ensures x in ListFrom(arr, |arr|)
    {
      var i :| 0 <= i < |list| && list[i] == x;
      assert Mirrors(arr, list[i]);
    }
    forall x | x in ListFrom(arr, |arr|)
      ensures x in list
    {
      assert Listed(list, x.ndx);
      var i :| 0 <= i < |list| && list[i].ndx == x.ndx;
      assert Mirrors(arr, list[i]);
    }
  }

  /** Remounting rebuilds the array, keeps the device, and lists the same messages. The list is in
      the same order exactly if messages with equal timestamps were listed by decreasing block. */
  lemma RemountRestores(st: Store)
    requires Inv(st)
    ensures var st' := MountBlocks(st.dev);
            && Inv(st') && st'.arr == st.arr && st'.dev == st.dev
            && (forall x :: x in st'.list <==> x in st.list)
            && (st'.list == st.list <==> KeySorted(st.list))
  {
    hide ListAgrees, DeviceAgrees, ListFrom;
    ArrayRebuilt(st);
    assert WellFormed(st.dev) by { RebuiltIsWellFormed(st); }
    MountInv(st.dev);
    SameMembers(st.arr, st.list);
    ListFromCorrect(st.arr, |st.arr|);
    if KeySorted(st.list) {
      KeySortedUnique(st.list, ListFrom(st.arr, |st.arr|));
    }
  }

  lemma RebuiltIsWellFormed(st: Store)
    requires Inv(st) && ArrayFrom(st.dev) == st.arr
    ensures WellFormed(st.dev)
  {
    hide ListAgrees, DecodeMetadata, EncodeMetadata;
  }

  /** After any run of puts and invalidations, if timestamps are distinct, an unmount and a mount give
      back the same array and list; the next put starts its search just after the newest message. */
  lemma RemountAfterRun(st: Store, ops: seq<Op>)
    requires Inv(st) && StrictlySorted(ApplyAll(st, ops).list)
    ensures var now := ApplyAll(st, ops); var again := MountBlocks(now.dev);
            && again == now.(last := again.last)
            && (now.list == [] && |now.arr| > 0 ==> again.last == |now.arr| - 1)
            && forall i :: 0 <= i < |now.list| && again.last != now.list[i].ndx ==>
                 exists j :: 0 <= j < |now.list| && now.list[j].ndx == again.last && now.list[i].nsec < now.list[j].nsec
  {
    hide DeviceAgrees, ListAgrees, ApplyAll, ListFrom;
    RunKeepsInv(st, ops);
    var now := ApplyAll(st, ops);
    RemountRestores(now);
    var j := |now.list| - 1;
    assert now.list != [] ==> MountBlocks(now.dev).last == now.list[j].ndx;
  }

  // ----- images -----

  /** Block `k` of the data area. */
  function DataBlock(image: seq<Byte>, k: nat): (b: Block)
    requires (k + 3) * BLOCK_SIZE <= |image|
  {
    image[(k + 2) * BLOCK_SIZE..(k + 3) * BLOCK_SIZE]
  }

  function MagicOf(image: seq<Byte>): nat
    requires |image| >= 2 * BLOCK_SIZE
  {
    FromBytes(image[8..16])
  }

  function FileSizeOf(image: seq<Byte>): nat
    requires |image| >= 2 * BLOCK_SIZE
  {
    FromBytes(image[BLOCK_SIZE + 24..BLOCK_SIZE + 32])
  }

  /** The mount: magic number, size limit, then all data blocks. */
  function MountImage(image: seq<Byte>): (r: Result<Store>) {
    if |image| < 2 * BLOCK_SIZE then Err(EIO)
    else if MagicOf(image) != MAGIC then Err(EBADF)
    else if FileSizeOf(image) > NBLOCKS * BLOCK_SIZE then Err(E2BIG)
    else
      var n := FileSizeOf(image) / BLOCK_SIZE;
      if (n + 2) * BLOCK_SIZE > |image| then Err(EIO)
      else Ok(MountBlocks(seq(n, k requires 0 <= k < n => DataBlock(image, k))))
  }

  /** The device size recorded in the inode: the image size less two blocks, in 64-bit arithmetic. */
  function RecordedSize(size: nat): (n: nat)
    requires size < 0x8000_0000_0000_0000
    ensures n < 0x1_0000_0000_0000_0000
  {
    if size >= 2 * BLOCK_SIZE then size - 2 * BLOCK_SIZE else size + 0x1_0000_0000_0000_0000 - 2 * BLOCK_SIZE
  }

  /** The number of blocks the formatter writes, in 32-bit arithmetic. */
  function RecordedBlocks(size: nat): (n: nat)
    requires size < 0x8000_0000_0000_0000
  {
    RecordedSize(size) / BLOCK_SIZE % 0x1_0000_0000
  }

  /** What a formatted image of `size` bytes looks like, byte by byte: version and magic number in block 0;
      mode, inode number and size in block 1; zeros in the data blocks. The bytes that the formatter
      leaves uninitialised are not described. */
  ghost predicate Formatted(image: seq<Byte>, size: nat)
    requires size < 0x8000_0000_0000_0000
  {
    && (RecordedBlocks(size) + 2) * 4096 <= |image|
    && LittleEndian(image[..8]) == 1
    && image[8..16] == [0x30, 0x30, 0x30, 0x30, 0, 0, 0, 0]
    && image[4096..4100] == [0, 0x80, 0, 0]
    && LittleEndian(image[4104..4112]) == 1
    && LittleEndian(image[4120..4128]) == RecordedSize(size)
    && forall m :: 8192 <= m < (RecordedBlocks(size) + 2) * 4096 ==> image[m] == 0
  }

  /** What the formatter writes before the data blocks. `junk` supplies the bytes it never sets. */
  function Preamble(size: nat, junk: seq<Byte>): (s: seq<Byte>)
    requires size < 0x8000_0000_0000_0000 && |junk| == 8156
    ensures |s| == 2 * BLOCK_SIZE
  {
    ToBytes(1, 8) + ToBytes(MAGIC, 8) + junk[..4080]
    + ToBytes(0x8000, 4) + junk[4080..4084] + ToBytes(1, 8) + junk[4084..4092] + ToBytes(RecordedSize(size), 8) + junk[4092..]
  }

  /** The fixed numbers of the preamble, in bytes. */
  lemma PresetBytes()
    ensures ToBytes(MAGIC, 8) == [0x30, 0x30, 0x30, 0x30, 0, 0, 0, 0]
    ensures ToBytes(0x8000, 4) == [0, 0x80, 0, 0]
  {
    hide ToBytes;
    LowestByte(0x8000, 4);
    LowestByte(0x80, 3);
    ZeroBytes(2);
    LowestByte(MAGIC, 8);
    LowestByte(0x30_3030, 7);
    LowestByte(0x3030, 6);
    LowestByte(0x30, 5);
    ZeroBytes(4);
    assert Zeros(2) == [0, 0] && Zeros(4) == [0, 0, 0, 0];
  }

  lemma LowestByte(v: nat, n: nat)
    requires n > 0
    ensures ToBytes(v, n) == [v % 256] + ToBytes(v / 256, n - 1)
  {
  }

  lemma {:induction false} ZeroBytes(n: nat)
    ensures ToBytes(0, n) == Zeros(n)
  {
    if n > 0 {
      ZeroBytes(n - 1);
      assert [0] + Zeros(n - 1) == Zeros(n);
    }
  }

  /** What the formatter writes before the data blocks is what the mount, or anyone, reads back. */
  lemma PreambleCorrect(size: nat, junk: seq<Byte>, rest: seq<Byte>)
    requires size < 0x8000_0000_0000_0000 && |junk| == 8156
    ensures var image := Preamble(size, junk) + rest;
            && MagicOf(image) == MAGIC && FileSizeOf(image) == RecordedSize(size)
            && LittleEndian(image[..8]) == 1
            && image[8..16] == [0x30, 0x30, 0x30, 0x30, 0, 0, 0, 0]
            && image[4096..4100] == [0, 0x80, 0, 0]
            && LittleEndian(image[4104..4112]) == 1
            && LittleEndian(image[4120..4128]) == RecordedSize(size)
  {
    hide ToBytes, FromBytes, LittleEndian;
    Pow256Values();
    PresetBytes();
    FromToBytes(MAGIC, 8);
    FromToBytes(RecordedSize(size), 8);
    var image := Preamble(size, junk) + rest;
    assert image[..8] == ToBytes(1, 8);
    assert image[8..16] == ToBytes(MAGIC, 8);
    assert image[4096..4100] == ToBytes(0x8000, 4);
    assert image[4104..4112] == ToBytes(1, 8);
    assert image[4120..4128] == ToBytes(RecordedSize(size), 8);
    OneForm(image[..8], 1);
    OneForm(image[4104..4112], 1);
    OneForm(image[4120..4128], RecordedSize(size));
  }

  lemma DataBlockPrefix(image: seq<Byte>, more: seq<Byte>, k: nat)
    requires (k + 3) * BLOCK_SIZE <= |image|
    ensures DataBlock(image + more, k) == DataBlock(image, k)
  {
  }

  lemma AppendedBlock(image: seq<Byte>, blk: Block, k: nat)
    requires |image| == (k + 2) * BLOCK_SIZE
    ensures DataBlock(image + blk, k) == blk
  {
  }

  /** The first `n` data blocks are as the formatter writes them. */
  ghost predicate EmptyBlocks(image: seq<Byte>, n: nat)
    requires (n + 2) * BLOCK_SIZE <= |image|
  {
    forall k :: 0 <= k < n ==> DataBlock(image, k) == EmptyBlock()
  }

  lemma AppendKeepsEmpty(image: seq<Byte>, more: seq<Byte>, n: nat)
    requires (n + 2) * BLOCK_SIZE <= |image| && EmptyBlocks(image, n)
    ensures EmptyBlocks(image + more, n)
  {
    hide EmptyBlock, DataBlock;
    forall k | 0 <= k < n
      ensures DataBlock(image + more, k) == EmptyBlock()
    {
      DataBlockPrefix(image, more, k);
    }
  }

  /** The formatter's empty block is all zeros. */
  lemma EmptyBlockIsZero()
    ensures EmptyBlock() == Zeros(4096)
  {
    hide EncodeMetadata;
    MetadataBytes(NO_MESSAGE);
    var s := EncodeMetadata(NO_MESSAGE);
    assert forall p :: 0 <= p < 8 ==> s[..8][p] == 0;
    assert s[8..10][0] == 0 && s[8..10][1] == 0;
    assert s == Zeros(10);
  }

  lemma EmptyBlocksAreZero(image: seq<Byte>, n: nat)
    requires (n + 2) * BLOCK_SIZE <= |image|
    ensures EmptyBlocks(image, n) <==> forall m :: 8192 <= m < (n + 2) * 4096 ==> image[m] == 0
  {
    hide EmptyBlock;
    EmptyBlockIsZero();
    if EmptyBlocks(image, n) {
      forall m | 8192 <= m < (n + 2) * 4096
        ensures image[m] == 0
      {
        var k, p := m / 4096 - 2, m % 4096;
        assert DataBlock(image, k)[p] == image[m];
      }
    }
    if forall m :: 8192 <= m < (n + 2) * 4096 ==> image[m] == 0 {
      forall k | 0 <= k < n
        ensures DataBlock(image, k) == EmptyBlock()
      {
        var b := DataBlock(image, k);
        assert forall p :: 0 <= p < 4096 ==> b[p] == 0;
      }
    }
  }

  /** The formatter: sequential writes over the image file, whose tail, if any, is left as it was. */
  method Format(file: seq<Byte>, junk: seq<Byte>) returns (image: seq<Byte>)
    requires |file| < 0x8000_0000_0000_0000 && |junk| == 8156
    ensures Formatted(image, |file|)
    ensures |file| >= 2 * BLOCK_SIZE ==> image[(RecordedBlocks(|file|) + 2) * BLOCK_SIZE..] == file[(RecordedBlocks(|file|) + 2) * BLOCK_SIZE..]
  {
    hide EncodeMetadata, Preamble, DataBlock, MagicOf, FileSizeOf, LittleEndian;
    var written := Preamble(|file|, junk);
    ghost var tail: seq<Byte> := [];
    var n := RecordedBlocks(|file|);
    for i := 0 to n
      invariant |written| == (i + 2) * BLOCK_SIZE
      invariant written == Preamble(|file|, junk) + tail
      invariant EmptyBlocks(written, i)
    {
      AppendedBlock(written, EmptyBlock(), i);
      AppendKeepsEmpty(written, EmptyBlock(), i);
      assert written + EncodeMetadata(NO_MESSAGE) + Zeros(MAX_MESSAGE) == written + EmptyBlock();
      assert written + EmptyBlock() == Preamble(|file|, junk) + (tail + EmptyBlock());
      tail := tail + EmptyBlock();
      written := written + EncodeMetadata(NO_MESSAGE) + Zeros(MAX_MESSAGE);
    }
    image := written;
    if |written| < |file| {
      image := written + file[|written|..];
      assert image == Preamble(|file|, junk) + (tail + file[|written|..]);
      AppendKeepsEmpty(written, file[|written|..], n);
      PreambleCorrect(|file|, junk, tail + file[|written|..]);
    } else {
      PreambleCorrect(|file|, junk, tail);
    }
    EmptyBlocksAreZero(image, n);
  }

  lemma EmptyBlockDecodes()
    ensures DecodeMetadata(EmptyBlock()) == NO_MESSAGE
  {
    DecodeEncode(NO_MESSAGE, Zeros(MAX_MESSAGE));
  }

  lemma {:induction false} EmptyList(arr: seq<Metadata>, n: nat)
    requires n <= |arr| && forall i :: 0 <= i < |arr| ==> !arr[i].valid
    ensures ListFrom(arr, n) == []
  {
    if n > 0 {
      EmptyList(arr, n - 1);
    }
  }

  /** Formatting and mounting an image gives an empty device of the right size, or fails exactly when
      it has more than NBLOCKS blocks' worth of data (an image of less than two blocks counts as huge). */
  lemma FormatThenMount(image: seq<Byte>, size: nat)
    requires size < 0x8000_0000_0000_0000 && Formatted(image, size)
    ensures MountImage(image) ==
            if 2 * BLOCK_SIZE <= size <= (NBLOCKS + 2) * BLOCK_SIZE then Ok(EmptyStore(size / BLOCK_SIZE - 2)) else Err(E2BIG)
  {
    hide DecodeMetadata, EmptyBlock, MagicOf, FileSizeOf, LittleEndian;
    FormattedHeader(image, size);
    if 2 * BLOCK_SIZE <= size <= (NBLOCKS + 2) * BLOCK_SIZE {
      var n := RecordedSize(size) / BLOCK_SIZE;
      assert n == RecordedBlocks(size) == size / BLOCK_SIZE - 2;
      var dev := seq(n, k requires 0 <= k < n => DataBlock(image, k));
      assert dev == EmptyStore(n).dev;
      EmptyBlockDecodes();
      assert ArrayFrom(dev) == EmptyStore(n).arr;
      EmptyList(ArrayFrom(dev), n);
    }
  }

  lemma FormattedHeader(image: seq<Byte>, size: nat)
    requires size < 0x8000_0000_0000_0000 && Formatted(image, size)
    ensures MagicOf(image) == MAGIC && FileSizeOf(image) == RecordedSize(size) && EmptyBlocks(image, RecordedBlocks(size))
  {
    hide EmptyBlock, LittleEndian;
    Pow256Values();
    PresetBytes();
    FromToBytes(MAGIC, 8);
    FromEightBytes(image[4120..4128]);
    EmptyBlocksAreZero(image, RecordedBlocks(size));
  }

  // ----- any image -----

  /** What a mount answers, in every case, by the bytes of the image. */
  lemma MountAnswers(image: seq<Byte>)
    ensures var r := MountImage(image); var readable := |image| >= 8192;
            var magic := readable && image[8..16] == [0x30, 0x30, 0x30, 0x30, 0, 0, 0, 0];
            var size := if readable then LittleEndian(image[4120..4128]) else 0;
            && (r == Err(EBADF) <==> readable && !magic)
            && (r == Err(E2BIG) <==> magic && size > 1000 * 4096)
            && (r == Err(EIO) <==> !readable || (magic && size <= 1000 * 4096 && (size / 4096 + 2) * 4096 > |image|))
            && (r.Ok? <==> magic && size <= 1000 * 4096 && (size / 4096 + 2) * 4096 <= |image|)
  {
    hide MountBlocks, LittleEndian, FromBytes, ToBytes;
    if |image| >= 8192 {
      Pow256Values();
      PresetBytes();
      FromToBytes(MAGIC, 8);
      ToFromBytes(image[8..16]);
      FromEightBytes(image[4120..4128]);
    }
  }

  /** A mount reads data block `k` of the image as block `k` of the device, and its first ten bytes as
      entry `k` of the array; array and list are those of the device's blocks. */
  lemma MountedBytes(image: seq<Byte>)
    requires MountImage(image).Ok?
    ensures |image| >= 8192
    ensures var st := MountImage(image).value;
            && |st.arr| == |st.dev| == LittleEndian(image[4120..4128]) / 4096 && (|st.dev| + 2) * 4096 <= |image|
            && (forall k, p :: 0 <= k < |st.dev| && 0 <= p < 4096 ==> st.dev[k][p] == image[(k + 2) * 4096 + p])
            && (forall k :: 0 <= k < |st.dev| ==> StartsWith(st.dev[k], st.arr[k].nsec, st.arr[k].valid, st.arr[k].bytes))
            && st == MountBlocks(st.dev)
  {
    hide ListFrom, LittleEndian, FromBytes, DecodeMetadata, StartsWith;
    FromEightBytes(image[4120..4128]);
    var st := MountImage(image).value;
    forall k | 0 <= k < |st.dev|
      ensures StartsWith(st.dev[k], st.arr[k].nsec, st.arr[k].valid, st.arr[k].bytes)
    {
      DecodesAsItStarts(st.dev[k]);
    }
  }

  lemma DecodesAsItStarts(b: Block)
    ensures var m := DecodeMetadata(b); StartsWith(b, m.nsec, m.valid, m.bytes)
  {
    hide EncodeMetadata, DecodeMetadata, LittleEndian;
    var m := DecodeMetadata(b);
    EncodeDecode(b);
    MetadataBytes(m);
    assert b[..8] == EncodeMetadata(m)[..8] && b[8..10] == EncodeMetadata(m)[8..10];
  }

  /** All blocks, one after the other. */
  function Flat(dev: seq<Block>): (s: seq<Byte>)
    ensures |s| == |dev| * BLOCK_SIZE
  {
    if dev == [] then [] else Flat(dev[..|dev| - 1]) + dev[|dev| - 1]
  }

  lemma {:induction false} FlatAt(dev: seq<Block>, k: nat)
    requires k < |dev|
    ensures Flat(dev)[k * BLOCK_SIZE..(k + 1) * BLOCK_SIZE] == dev[k]
    decreases |dev|
  {
    var front := dev[..|dev| - 1];
    if k < |front| {
      FlatAt(front, k);
      assert Flat(dev)[k * BLOCK_SIZE..(k + 1) * BLOCK_SIZE] == Flat(front)[k * BLOCK_SIZE..(k + 1) * BLOCK_SIZE];
    }
  }

  /** The first two blocks of an image for `n` data blocks. */
  ghost predicate IsPreamble(pre: seq<Byte>, n: nat) {
    && |pre| == 8192 && pre[8..16] == [0x30, 0x30, 0x30, 0x30, 0, 0, 0, 0]
    && LittleEndian(pre[4120..4128]) <= 1000 * 4096 && LittleEndian(pre[4120..4128]) / 4096 == n
  }

  /** What the formatter writes serves as such, for images that can be mounted. */
  lemma FormattedIsPreamble(image: seq<Byte>, size: nat)
    requires 8192 <= size <= 1002 * 4096 && Formatted(image, size)
    ensures IsPreamble(image[..8192], size / 4096 - 2)
  {
    hide LittleEndian;
    assert image[..8192][8..16] == image[8..16] && image[..8192][4120..4128] == image[4120..4128];
  }

  /** Mounting the image of any device gives the device. */
  lemma MountOfImage(pre: seq<Byte>, dev: seq<Block>, tail: seq<Byte>)
    requires IsPreamble(pre, |dev|)
    ensures MountImage(pre + Flat(dev) + tail) == Ok(MountBlocks(dev))
  {
    hide MountImage, MountBlocks, LittleEndian, StartsWith, Flat;
    var image := pre + Flat(dev) + tail;
    assert image[8..16] == pre[8..16] && image[4120..4128] == pre[4120..4128];
    MountAnswers(image);
    MountedBytes(image);
    var st := MountImage(image).value;
    forall k | 0 <= k < |dev|
      ensures st.dev[k] == dev[k]
    {
      FlatAt(dev, k);
      forall p | 0 <= p < 4096
        ensures st.dev[k][p] == dev[k][p]
      {
        assert dev[k][p] == Flat(dev)[k * BLOCK_SIZE..(k + 1) * BLOCK_SIZE][p] == Flat(dev)[k * BLOCK_SIZE + p] == image[(k + 2) * 4096 + p];
      }
    }
    assert st.dev == dev;
  }

  /** After any run that leaves distinct timestamps, mounting the image of the device gives the store back;
      the next search starts after the newest message. */
  lemma RemountImageAfterRun(pre: seq<Byte>, st: Store, ops: seq<Op>, tail: seq<Byte>)
    requires Inv(st) && StrictlySorted(ApplyAll(st, ops).list) && IsPreamble(pre, |ApplyAll(st, ops).dev|)
    ensures var now := ApplyAll(st, ops); var r := MountImage(pre + Flat(now.dev) + tail);
            && r.Ok? && r.value == now.(last := r.value.last)
            && (if now.list == [] then |now.arr| > 0 ==> r.value.last == |now.arr| - 1
                else r.value.last == now.list[|now.list| - 1].ndx)
  {
    hide MountImage, ApplyAll, DeviceAgrees, ListAgrees, IsPreamble, Flat, ListFrom, ArrayFrom;
    RemountAfterRun(st, ops);
    MountOfImage(pre, ApplyAll(st, ops).dev, tail);
  }

  /** On a freshly formatted and mounted device, with no invalidation, the k-th put takes block k - 1
      until the device is full, and is refused from then on. */
  lemma FormattedDeviceFillsInOrder(image: seq<Byte>, size: nat, puts: seq<(Message, Time)>)
    requires 2 * BLOCK_SIZE <= size <= (NBLOCKS + 2) * BLOCK_SIZE && Formatted(image, size)
    ensures MountImage(image).Ok? && Inv(MountImage(image).value)
    ensures forall i :: 0 <= i < |puts| ==>
              PutResults(MountImage(image).value, puts)[i] == if i < size / BLOCK_SIZE - 2 then Ok(i) else Err(ENOMEM)
  {
    hide MountImage, PutResults, EmptyStore, FilledUpTo, Inv, Formatted;
    FormatThenMount(image, size);
    var n := size / BLOCK_SIZE - 2;
    EmptyStoreInv(n);
    NothingFilledYet(n);
    FillsInOrder(EmptyStore(n), puts, 0);
  }

  lemma NothingFilledYet(n: nat)
    ensures FilledUpTo(EmptyStore(n), 0) && |EmptyStore(n).arr| == n
  {
    hide EmptyBlock;
  }
}
