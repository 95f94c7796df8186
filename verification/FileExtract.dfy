/** fs.c: reading inodes, and copying a file out of its direct, indirect and doubly-indirect blocks. */
module FileExtract {
  import opened HeapLayout
  import opened WordBytes

  const BLOCK_SIZE := 256
  const REFS_PER_BLOCK := 64
  const NUM_DIRECT_PTRS := 8
  const INODES_PER_BLOCK := 4
  const INODE_SIZE := 64
  const FIRST_INODE_BLOCK := 3
  const MAX_BLOCKS := NUM_DIRECT_PTRS + REFS_PER_BLOCK + REFS_PER_BLOCK * REFS_PER_BLOCK

  type Block = b: seq<Byte> | |b| == BLOCK_SIZE witness seq(BLOCK_SIZE, _ => 0)

  /** What each block number reads as. */
  type Disk = int -> Block

  datatype Inode = Inode(filesize: int, direct: seq<int>, indirect: int, doubly: int)

  // ---------- Numbers in blocks ----------

  /** The two's complement reading of the low 32 bits. */
  function Int32(x: int): (r: int)
    ensures -0x8000_0000 <= r < 0x8000_0000
  {
    var low := x % 0x1_0000_0000;
    if low < 0x8000_0000 then low else low - 0x1_0000_0000
  }

  /** The number whose bytes these are, lowest first. */
  function Unsigned(b: seq<Byte>): nat {
    if b == [] then 0 else b[0] + 256 * Unsigned(b[1..])
  }

  function IntAt(b: Block, at: nat): int
    requires at + 4 <= BLOCK_SIZE
  {
    Int32(Unsigned(b[at..at + 4]))
  }

  function LongAt(b: Block, at: nat): int
    requires at + 8 <= BLOCK_SIZE
  {
    var u := Unsigned(b[at..at + 8]);
    if u < 0x8000_0000_0000_0000 then u else u - 0x1_0000_0000_0000_0000
  }

  function Refs(b: Block): (refs: seq<int>)
    ensures |refs| == REFS_PER_BLOCK
  {
    seq(REFS_PER_BLOCK, i requires 0 <= i < REFS_PER_BLOCK => IntAt(b, 4 * i))
  }

  // ---------- Where an inode lives ----------

  /** The block and the byte offset of an inode, in the unsigned arithmetic the division is done in. */
  function InodeSlot(inumber: int): (int, int) {
    var u := inumber % 0x1_0000_0000_0000_0000;
    var quotient := u / INODES_PER_BLOCK;
    (Int32(FIRST_INODE_BLOCK + quotient), Int32(u - quotient * INODES_PER_BLOCK) * INODE_SIZE)
  }

  /** For every int the unsigned detour amounts to rounding the quotient down, so that the slot
      always lies inside its block. */
  lemma SlotIs(inumber: int)
    requires -0x8000_0000 <= inumber < 0x8000_0000
    ensures InodeSlot(inumber) == (3 + inumber / 4, inumber % 4 * 64)
    ensures 0 <= InodeSlot(inumber).1 <= BLOCK_SIZE - INODE_SIZE
  {
    if inumber < 0 {
      var u := inumber + 0x1_0000_0000_0000_0000;
      assert inumber % 0x1_0000_0000_0000_0000 == u;
      QuotientShifts(inumber, 0x4000_0000_0000_0000);
      assert u / INODES_PER_BLOCK == inumber / INODES_PER_BLOCK + 0x4000_0000_0000_0000;
      Int32Wraps(FIRST_INODE_BLOCK + inumber / INODES_PER_BLOCK, 0x4000_0000);
    }
  }

  lemma QuotientShifts(x: int, k: int)
    ensures (x + 4 * k) / 4 == x / 4 + k
  {
  }

  /** An int is read back from any number it is congruent to. */
  lemma Int32Wraps(x: int, k: int)
    requires -0x8000_0000 <= x < 0x8000_0000
    ensures Int32(x + 0x1_0000_0000 * k) == x
  {
    var low := if x < 0 then x + 0x1_0000_0000 else x;
    assert x + 0x1_0000_0000 * k == low + 0x1_0000_0000 * (if x < 0 then k - 1 else k);
  }

  /** Different inodes never overlap. */
  lemma SlotsApart(m: int, n: int)
    requires -0x8000_0000 <= m < n < 0x8000_0000
    ensures var s, t := InodeSlot(m), InodeSlot(n); s.0 != t.0 || s.1 + INODE_SIZE <= t.1
  {
    SlotIs(m);
    SlotIs(n);
  }

  /** The answer -1 of a failed search is read as the last inode of block 2, the data bitmap. */
  lemma MissingInode()
    ensures InodeSlot(-1) == (2, 3 * INODE_SIZE)
  {
    SlotIs(-1);
  }

  function ReadInode(disk: Disk, inumber: int): (inode: Inode)
    requires -0x8000_0000 <= inumber < 0x8000_0000
    ensures |inode.direct| == NUM_DIRECT_PTRS
  {
    SlotIs(inumber);
    var (block, at) := InodeSlot(inumber);
    var b := disk(block);
    Inode(LongAt(b, at + 16),
          seq(NUM_DIRECT_PTRS, i requires 0 <= i < NUM_DIRECT_PTRS => IntAt(b, at + 24 + 4 * i)),
          IntAt(b, at + 56),
          IntAt(b, at + 60))
  }

  /** The fields of inode_t at their offsets in the slot. */
  lemma InodeFields(disk: Disk, inumber: int)
    requires -0x8000_0000 <= inumber < 0x8000_0000
    ensures var b, at, inode := disk(3 + inumber / 4), inumber % 4 * 64, ReadInode(disk, inumber);
            && inode.filesize == LongAt(b, at + 16)
            && |inode.direct| == 8 && (forall i :: 0 <= i < 8 ==> inode.direct[i] == IntAt(b, at + 24 + 4 * i))
            && inode.indirect == IntAt(b, at + 56) && inode.doubly == IntAt(b, at + 60)
  {
    SlotIs(inumber);
  }

  lemma IntAtIs(b: Block, at: nat)
    requires at + 4 <= 256
    ensures var u: int := b[at] as int + 0x100 * b[at + 1] as int
                          + 0x1_0000 * b[at + 2] as int + 0x100_0000 * b[at + 3] as int;
            IntAt(b, at) == if u < 0x8000_0000 then u else u - 0x1_0000_0000
  {
    FourBytes(b[at..at + 4]);
  }

  lemma FourBytes(b: seq<Byte>)
    requires |b| >= 4
    ensures Unsigned(b) ==
      b[0] as int + 0x100 * b[1] as int + 0x1_0000 * b[2] as int + 0x100_0000 * b[3] as int
      + 0x1_0000_0000 * Unsigned(b[4..])
  {
    assert b[1..][1..] == b[2..] && b[2..][1..] == b[3..] && b[3..][1..] == b[4..];
    assert Unsigned(b[3..]) == b[3] as int + 256 * Unsigned(b[4..]);
    assert Unsigned(b[2..]) == b[2] as int + 256 * Unsigned(b[3..]);
  }

  /** A long is two unsigned ints, the lower one first. */
  lemma LongAtIs(b: Block, at: nat)
    requires at + 8 <= 256
    ensures var u := Unsigned(b[at..at + 4]) + 0x1_0000_0000 * Unsigned(b[at + 4..at + 8]);
            LongAt(b, at) == if u < 0x8000_0000_0000_0000 then u else u - 0x1_0000_0000_0000_0000
  {
    var w := b[at..at + 8];
    FourBytes(w);
    FourBytes(b[at..at + 4]);
    assert w[4..] == b[at + 4..at + 8];
  }

  /** Reference i of a block is the int at its byte 4 i. */
  lemma RefsAre(b: Block, i: nat)
    requires i < 64
    ensures |Refs(b)| == 64 && Refs(b)[i] == IntAt(b, 4 * i)
  {
  }

  // ---------- How numbers and inodes are stored ----------

  /** The n bytes of a number, lowest first. */
  function Bytes(u: nat, n: nat): (b: seq<Byte>)
    ensures |b| == n
  {
    if n == 0 then [] else [u % 256] + Bytes(u / 256, n - 1)
  }

  lemma {:induction false} UnsignedBytes(u: nat, n: nat)
    requires u < Limit(n)
    ensures Unsigned(Bytes(u, n)) == u
  {
    if n > 0 {
      UnsignedBytes(u / 256, n - 1);
      assert Bytes(u, n)[1..] == Bytes(u / 256, n - 1);
    }
  }

  /** An int in two's complement. */
  function IntBytes(x: int): (b: seq<Byte>)
    requires -0x8000_0000 <= x < 0x8000_0000
    ensures |b| == 4
  {
    Bytes(if x < 0 then x + 0x1_0000_0000 else x, 4)
  }

  lemma IntReads(b: Block, at: nat, x: int)
    requires at + 4 <= BLOCK_SIZE && -0x8000_0000 <= x < 0x8000_0000 && b[at..at + 4] == IntBytes(x)
    ensures IntAt(b, at) == x
  {
    assert Limit(2) == 0x1_0000 && Limit(4) == 0x1_0000_0000;
    UnsignedBytes(if x < 0 then x + 0x1_0000_0000 else x, 4);
  }

  /** A long in two's complement. */
  function LongBytes(x: int): (b: seq<Byte>)
    requires -0x8000_0000_0000_0000 <= x < 0x8000_0000_0000_0000
    ensures |b| == 8
  {
    Bytes(if x < 0 then x + WORD_RANGE else x, 8)
  }

  lemma LongReads(b: Block, at: nat, x: int)
    requires at + 8 <= BLOCK_SIZE && -0x8000_0000_0000_0000 <= x < 0x8000_0000_0000_0000
    requires b[at..at + 8] == LongBytes(x)
    ensures LongAt(b, at) == x
  {
    WordLimit();
    UnsignedBytes(if x < 0 then x + WORD_RANGE else x, 8);
  }

  ghost predicate Ints(xs: seq<int>) {
    forall i :: 0 <= i < |xs| ==> -0x8000_0000 <= xs[i] < 0x8000_0000
  }

  /** An array of ints. */
  ghost function IntsBytes(xs: seq<int>): (b: seq<Byte>)
    requires Ints(xs)
    ensures |b| == 4 * |xs|
  {
    if xs == [] then [] else IntsBytes(xs[..|xs| - 1]) + IntBytes(xs[|xs| - 1])
  }

  lemma {:induction false} IntsAt(xs: seq<int>, i: nat)
    requires Ints(xs) && i < |xs|
    ensures IntsBytes(xs)[4 * i..4 * i + 4] == IntBytes(xs[i])
    decreases |xs|
  {
    var n := |xs| - 1;
    if i < n {
      IntsAt(xs[..n], i);
      assert IntsBytes(xs)[4 * i..4 * i + 4] == IntsBytes(xs[..n])[4 * i..4 * i + 4];
    }
  }

  /** A block of references reads back as those references. */
  lemma RefsRoundTrip(refs: seq<int>)
    requires |refs| == REFS_PER_BLOCK && Ints(refs)
    ensures Refs(IntsBytes(refs)) == refs
  {
    forall i | 0 <= i < REFS_PER_BLOCK ensures Refs(IntsBytes(refs))[i] == refs[i] {
      IntsAt(refs, i);
      IntReads(IntsBytes(refs), 4 * i, refs[i]);
    }
  }

  ghost predicate Storable(inode: Inode) {
    && -0x8000_0000_0000_0000 <= inode.filesize < 0x8000_0000_0000_0000
    && |inode.direct| == NUM_DIRECT_PTRS && Ints(inode.direct + [inode.indirect, inode.doubly])
  }

  /** An inode_t: the name, the size, and ten references. */
  ghost function InodeBytes(name: seq<Byte>, inode: Inode): (b: seq<Byte>)
    requires |name| == 16 && Storable(inode)
    ensures |b| == INODE_SIZE
  {
    name + LongBytes(inode.filesize) + IntsBytes(inode.direct + [inode.indirect, inode.doubly])
  }

  lemma SliceOfSlice(b: seq<Byte>, at: nat, n: nat, low: nat, high: nat)
    requires at + n <= |b| && low <= high <= n
    ensures b[at..at + n][low..high] == b[at + low..at + high]
  {
    var whole := b[at..at + n];
    var part, same := whole[low..high], b[at + low..at + high];
    forall k | 0 <= k < high - low ensures part[k] == same[k] {
      assert whole[low + k] == b[at + low + k];
    }
  }

  lemma RefInInode(b: Block, at: nat, name: seq<Byte>, inode: Inode, i: nat)
    requires |name| == 16 && Storable(inode) && i < 10 && at + INODE_SIZE <= BLOCK_SIZE
    requires b[at..at + INODE_SIZE] == InodeBytes(name, inode)
    ensures IntAt(b, at + 24 + 4 * i) == (inode.direct + [inode.indirect, inode.doubly])[i]
  {
    var refs := inode.direct + [inode.indirect, inode.doubly];
    IntsAt(refs, i);
    SliceOfSlice(b, at, INODE_SIZE, 24 + 4 * i, 28 + 4 * i);
    assert InodeBytes(name, inode)[24 + 4 * i..28 + 4 * i] == IntsBytes(refs)[4 * i..4 * i + 4];
    IntReads(b, at + 24 + 4 * i, refs[i]);
  }

  /** An inode stored in its slot is the inode read. */
  lemma InodeRoundTrip(disk: Disk, inumber: int, name: seq<Byte>, inode: Inode)
    requires -0x8000_0000 <= inumber < 0x8000_0000 && |name| == 16 && Storable(inode)
    requires var at := inumber % INODES_PER_BLOCK * INODE_SIZE;
             disk(FIRST_INODE_BLOCK + inumber / INODES_PER_BLOCK)[at..at + INODE_SIZE] == InodeBytes(name, inode)
    ensures ReadInode(disk, inumber) == inode
  {
    SlotIs(inumber);
    var at := inumber % INODES_PER_BLOCK * INODE_SIZE;
    var b := disk(FIRST_INODE_BLOCK + inumber / INODES_PER_BLOCK);
    SliceOfSlice(b, at, INODE_SIZE, 16, 24);
    assert InodeBytes(name, inode)[16..24] == LongBytes(inode.filesize);
    LongReads(b, at + 16, inode.filesize);
    forall i | 0 <= i < NUM_DIRECT_PTRS ensures ReadInode(disk, inumber).direct[i] == inode.direct[i] {
      RefInInode(b, at, name, inode, i);
    }
    RefInInode(b, at, name, inode, 8);
    RefInInode(b, at, name, inode, 9);
  }

  // ---------- The logical blocks of a file ----------

  /** The blocks an indirect block refers to, for each of a list of indirect blocks in turn. */
  function Flatten(disk: Disk, rows: seq<int>): seq<int> {
    if rows == [] then [] else Flatten(disk, rows[..|rows| - 1]) + Refs(disk(rows[|rows| - 1]))
  }

  function Logical(disk: Disk, inode: Inode): seq<int> {
    inode.direct + Refs(disk(inode.indirect)) + Flatten(disk, Refs(disk(inode.doubly)))
  }

  lemma {:induction false} FlattenAt(disk: Disk, rows: seq<int>, i: nat, j: nat)
    requires i < |rows| && j < REFS_PER_BLOCK
    ensures |Flatten(disk, rows)| == REFS_PER_BLOCK * |rows|
    ensures Flatten(disk, rows)[REFS_PER_BLOCK * i + j] == Refs(disk(rows[i]))[j]
    decreases |rows|
  {
    var rest := rows[..|rows| - 1];
    if rest != [] {
      FlattenAt(disk, rest, if i < |rest| then i else 0, j);
    }
  }

  /** Block by block: first the direct ones, then those of the indirect block, then row by row. */
  lemma LogicalAt(disk: Disk, inode: Inode, j: nat)
    requires |inode.direct| == NUM_DIRECT_PTRS && j < MAX_BLOCKS
    ensures |Logical(disk, inode)| == MAX_BLOCKS
    ensures Logical(disk, inode)[j] ==
      if j < 8 then inode.direct[j]
      else if j < 72 then Refs(disk(inode.indirect))[j - 8]
      else Refs(disk(Refs(disk(inode.doubly))[(j - 72) / 64]))[(j - 72) % 64]
  {
    var rows := Refs(disk(inode.doubly));
    var k := if j < 72 then 0 else j - 72;
    FlattenAt(disk, rows, k / 64, k % 64);
  }

  // ---------- Writing blocks out ----------

  function Clamp(x: int, high: nat): (r: nat)
    ensures r <= high
  {
    if x < 0 then 0 else if x < high then x else high
  }

  /** What writing a list of blocks emits when `remaining` bytes are wanted. */
  function Written(disk: Disk, refs: seq<int>, remaining: int): seq<Byte> {
    if refs == [] then []
    else
      var n := |refs| - 1;
      Written(disk, refs[..n], remaining) + disk(refs[n])[..Clamp(remaining - BLOCK_SIZE * n, BLOCK_SIZE)]
  }

  lemma WrittenMore(disk: Disk, refs: seq<int>, ref: int, remaining: int)
    ensures Written(disk, refs + [ref], remaining) ==
      Written(disk, refs, remaining) + disk(ref)[..Clamp(remaining - BLOCK_SIZE * |refs|, BLOCK_SIZE)]
  {
    assert (refs + [ref])[..|refs|] == refs;
  }

  /** Nothing more is written once nothing is wanted. */
  lemma {:induction false} WrittenEnds(disk: Disk, refs: seq<int>, more: seq<int>, remaining: int)
    requires remaining <= BLOCK_SIZE * |refs|
    ensures Written(disk, refs + more, remaining) == Written(disk, refs, remaining)
    decreases |more|
  {
    if more == [] {
      assert refs + more == refs;
    } else {
      var n := |more| - 1;
      WrittenEnds(disk, refs, more[..n], remaining);
      WrittenMore(disk, refs + more[..n], more[n], remaining);
      assert refs + more == refs + more[..n] + [more[n]];
    }
  }

  lemma {:induction false} WrittenLength(disk: Disk, refs: seq<int>, remaining: int)
    ensures |Written(disk, refs, remaining)| == Clamp(remaining, BLOCK_SIZE * |refs|)
  {
    if refs != [] {
      WrittenLength(disk, refs[..|refs| - 1], remaining);
    }
  }

  /** Each byte written is the byte at its place in its logical block. */
  lemma {:induction false} WrittenAt(disk: Disk, refs: seq<int>, remaining: int, j: nat, b: nat)
    requires j < |refs| && b < BLOCK_SIZE && BLOCK_SIZE * j + b < remaining
    ensures BLOCK_SIZE * j + b < |Written(disk, refs, remaining)|
    ensures Written(disk, refs, remaining)[BLOCK_SIZE * j + b] == disk(refs[j])[b]
    decreases |refs|
  {
    var n := |refs| - 1;
    WrittenLength(disk, refs, remaining);
    WrittenLength(disk, refs[..n], remaining);
    if j < n {
      WrittenAt(disk, refs[..n], remaining, j, b);
    }
  }

  /** The file is exactly filesize bytes long, up to the 4168 blocks the three levels can hold, and byte k of
      it is byte k mod 256 of logical block k div 256. */
  ghost predicate Exact(disk: Disk, inode: Inode, file: seq<Byte>) {
    var refs := Logical(disk, inode);
    && |refs| == MAX_BLOCKS
    && (0 <= inode.filesize <= 256 * 4168 ==> |file| == inode.filesize)
    && (inode.filesize < 0 ==> file == [])
    && (inode.filesize > 256 * 4168 ==> |file| == 256 * 4168)
    && forall k :: 0 <= k < |file| ==> file[k] == disk(refs[k / BLOCK_SIZE])[k % BLOCK_SIZE]
  }

  lemma ExtractionIsExact(disk: Disk, inode: Inode, file: seq<Byte>)
    requires |inode.direct| == NUM_DIRECT_PTRS
    requires file == Written(disk, Logical(disk, inode), inode.filesize)
    ensures Exact(disk, inode, file)
  {
    var refs := Logical(disk, inode);
    LogicalAt(disk, inode, 0);
    WrittenLength(disk, refs, inode.filesize);
    forall k | 0 <= k < |file| ensures file[k] == disk(refs[k / BLOCK_SIZE])[k % BLOCK_SIZE] {
      WrittenAt(disk, refs, inode.filesize, k / BLOCK_SIZE, k % BLOCK_SIZE);
    }
  }

  // ---------- The extraction ----------

  /** Emits the bytes of one block, as many as are still wanted. */
  method EmitBlock(block: Block, remaining: int, file: seq<Byte>) returns (out: seq<Byte>)
    ensures 0 <= remaining <= 256 ==> out == file + block[..remaining]
    ensures remaining < 0 ==> out == file
    ensures remaining > 256 ==> out == file + block
  {
    assert block[..256] == block;
    out := file;
    var i := 0;
    while i < BLOCK_SIZE && i < remaining
      invariant 0 <= i <= BLOCK_SIZE && (i > 0 ==> i <= remaining)
      invariant out == file + block[..i]
    {
      out := out + [block[i]];
      i := i + 1;
    }
  }

  /** Emits the blocks of a list in turn, after those already written. */
  method EmitRefs(disk: Disk, refs: seq<int>, wanted: int, file: seq<Byte>, ghost done: seq<int>)
    returns (out: seq<Byte>, left: int)
    requires file == Written(disk, done, wanted + BLOCK_SIZE * |done|)
    ensures out == Written(disk, done + refs, wanted + BLOCK_SIZE * |done|)
    ensures left == wanted - BLOCK_SIZE * |refs|
  {
    out, left := file, wanted;
    ghost var total := wanted + BLOCK_SIZE * |done|;
    var i := 0;
    assert done + refs[..0] == done;
    while i < |refs|
      invariant 0 <= i <= |refs|
      invariant left == total - BLOCK_SIZE * (|done| + i)
      invariant out == Written(disk, done + refs[..i], total)
    {
      WrittenMore(disk, done + refs[..i], refs[i], total);
      assert done + refs[..i + 1] == done + refs[..i] + [refs[i]];
      assert disk(refs[i])[..BLOCK_SIZE] == disk(refs[i]);
      out := EmitBlock(disk(refs[i]), left, out);
      left := left - BLOCK_SIZE;
      i := i + 1;
    }
    assert refs[..i] == refs;
  }

  /** Emits the blocks of each indirect block of a list in turn. */
  method EmitRows(disk: Disk, rows: seq<int>, wanted: int, file: seq<Byte>, ghost done: seq<int>)
    returns (out: seq<Byte>)
    requires file == Written(disk, done, wanted + BLOCK_SIZE * |done|)
    ensures out == Written(disk, done + Flatten(disk, rows), wanted + BLOCK_SIZE * |done|)
  {
    var left := wanted;
    out := file;
    ghost var total := wanted + BLOCK_SIZE * |done|;
    ghost var written := done;
    var i := 0;
    while i < |rows|
      invariant 0 <= i <= |rows|
      invariant written == done + Flatten(disk, rows[..i])
      invariant left == total - BLOCK_SIZE * |written|
      invariant out == Written(disk, written, total)
    {
      var refs := Refs(disk(rows[i]));
      out, left := EmitRefs(disk, refs, left, out, written);
      assert rows[..i + 1][..i] == rows[..i];
      written := written + refs;
      i := i + 1;
    }
    assert rows[..i] == rows;
  }

  /** The three levels one after the other, the later ones only while bytes are wanted. */
  method EmitLevels(disk: Disk, inode: Inode) returns (file: seq<Byte>)
    requires |inode.direct| == NUM_DIRECT_PTRS
    ensures file == Written(disk, Logical(disk, inode), inode.filesize)
  {
    var left := inode.filesize;
    ghost var indirect, doubly := Refs(disk(inode.indirect)), Flatten(disk, Refs(disk(inode.doubly)));
    assert [] + inode.direct == inode.direct;
    file, left := EmitRefs(disk, inode.direct, left, [], []);
    ghost var done := inode.direct;
    if left > 0 {
      file, left := EmitRefs(disk, Refs(disk(inode.indirect)), left, file, done);
    } else {
      WrittenEnds(disk, done, indirect, inode.filesize);
    }
    done := done + indirect;
    if left > 0 {
      file := EmitRows(disk, Refs(disk(inode.doubly)), left, file, done);
    } else {
      WrittenEnds(disk, done, doubly, inode.filesize);
    }
  }

  /** Copies a file out, given its inode number. */
  method ExtractFile(disk: Disk, inumber: int) returns (file: seq<Byte>)
    requires -0x8000_0000 <= inumber < 0x8000_0000
    ensures Exact(disk, ReadInode(disk, inumber), file)
    ensures var filesize := ReadInode(disk, inumber).filesize;
            && (0 <= filesize <= 256 * 4168 ==> |file| == filesize)
            && (filesize < 0 ==> file == []) && (filesize > 256 * 4168 ==> |file| == 256 * 4168)
  {
    var inode := ReadInode(disk, inumber);
    file := EmitLevels(disk, inode);
    ExtractionIsExact(disk, inode, file);
  }
}
