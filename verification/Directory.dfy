/** fs.c: finding a file by its path, and copying it out. */
module Directory {
  import opened FileExtract
  import opened Paths
  import opened WordBytes

  const ENTRIES_PER_BLOCK := 8
  const ENTRY_SIZE := 32

  type Name = seq<char>

  // ---------- Specification ----------

  /** Entry i of a block carries this name, terminated. */
  predicate Named(b: Block, i: nat, name: Name)
    requires i < ENTRIES_PER_BLOCK
  {
    var at := ENTRY_SIZE * i;
    && at + |name| < BLOCK_SIZE
    && b[at + |name|] == 0
    && forall k :: 0 <= k < |name| ==> b[at + k] == name[k] as int
  }

  function Inumber(b: Block, i: nat): int
    requires i < ENTRIES_PER_BLOCK
  {
    IntAt(b, ENTRY_SIZE * i + 16)
  }

  /** Entries are 32 bytes apart, with the number at byte 16. */
  lemma EntryFields(b: Block, i: nat, name: Name)
    requires i < 8
    ensures Inumber(b, i) == IntAt(b, 32 * i + 16)
    ensures Named(b, i, name) <==>
      && 32 * i + |name| < 256 && b[32 * i + |name|] == 0
      && forall k :: 0 <= k < |name| ==> b[32 * i + k] == name[k] as int
  {
  }

  /** A directory_entry_t: a name padded to 16 bytes, an int, and 12 bytes more. */
  ghost predicate EntryIs(b: Block, i: nat, name: Name, inumber: int)
    requires i < ENTRIES_PER_BLOCK
  {
    var at := ENTRY_SIZE * i;
    && CName(name) && |name| < 16 && -0x8000_0000 <= inumber < 0x8000_0000
    && b[at..at + 16] == Padded(name)
    && b[at + 16..at + 20] == IntBytes(inumber)
  }

  ghost predicate CName(name: Name) {
    forall k :: 0 <= k < |name| ==> 0 < name[k] as int < 256
  }

  ghost function Padded(name: Name): seq<Byte>
    requires CName(name)
  {
    seq(16, k requires 0 <= k => if k < |name| then name[k] as int else 0)
  }

  /** Of two names that an entry carries, neither is shorter. */
  lemma NoShorter(b: Block, i: nat, name: Name, other: Name)
    requires i < ENTRIES_PER_BLOCK && CName(name) && Named(b, i, name) && Named(b, i, other)
    ensures |name| <= |other|
  {
    var field := b[ENTRY_SIZE * i..];
    assert forall k :: 0 <= k < |name| ==> field[k] == name[k] as int != 0;
    assert field[|other|] == 0;
  }

  /** A stored entry carries its own name and no other, and its inode number is read back. */
  lemma EntryReads(b: Block, i: nat, name: Name, inumber: int, other: Name)
    requires i < ENTRIES_PER_BLOCK && EntryIs(b, i, name, inumber) && CName(other)
    ensures Named(b, i, other) <==> other == name
    ensures Inumber(b, i) == inumber
  {
    var at := ENTRY_SIZE * i;
    IntReads(b, at + 16, inumber);
    var field := b[at..at + 16];
    assert forall k :: 0 <= k < 16 ==> field[k] == b[at + k];
    assert field[|name|] == b[at + |name|] == 0;
    assert forall k :: 0 <= k < |name| ==> b[at + k] == field[k] == name[k] as int;
    if Named(b, i, other) {
      NoShorter(b, i, name, other);
      NoShorter(b, i, other, name);
      forall k | 0 <= k < |name| ensures other[k] == name[k] {
        assert b[at + k] == other[k] as int;
      }
    }
  }

  /** How many entries of a block a search looks at: a negative bound stops nothing. */
  function Looked(maxEntries: int): (n: nat)
    ensures n <= ENTRIES_PER_BLOCK
  {
    if 0 <= maxEntries < ENTRIES_PER_BLOCK then maxEntries else ENTRIES_PER_BLOCK
  }

  /** r is the inode number of the first of the entries looked at that has the name, or -1. */
  ghost predicate BlockAnswer(b: Block, name: Name, maxEntries: int, r: int) {
    || (r == -1 && forall i :: 0 <= i < Looked(maxEntries) ==> !Named(b, i, name))
    || exists i :: 0 <= i < Looked(maxEntries) && Named(b, i, name) && r == Inumber(b, i)
                   && forall j :: 0 <= j < i ==> !Named(b, j, name)
  }

  /** The answer of one block, as a function. */
  function InBlock(b: Block, name: Name, maxEntries: int, i: nat): (r: int)
    requires i <= Looked(maxEntries)
    ensures -0x8000_0000 <= r < 0x8000_0000
    decreases Looked(maxEntries) - i
  {
    if i == Looked(maxEntries) then -1
    else if Named(b, i, name) then Inumber(b, i)
    else InBlock(b, name, maxEntries, i + 1)
  }

  lemma {:induction false} InBlockAnswers(b: Block, name: Name, maxEntries: int, i: nat)
    requires i <= Looked(maxEntries)
    requires forall j :: 0 <= j < i ==> !Named(b, j, name)
    ensures BlockAnswer(b, name, maxEntries, InBlock(b, name, maxEntries, i))
    decreases Looked(maxEntries) - i
  {
    if i < Looked(maxEntries) && !Named(b, i, name) {
      InBlockAnswers(b, name, maxEntries, i + 1);
    }
  }

  /** A block to be searched, and the bound it is searched with. */
  datatype Probe = Probe(block: int, maxEntries: int)

  function Answer(disk: Disk, p: Probe, name: Name): int {
    InBlock(disk(p.block), name, p.maxEntries, 0)
  }

  /** The first answer other than -1 among the blocks searched, or -1. */
  function FirstHit(disk: Disk, probes: seq<Probe>, name: Name): (r: int)
    ensures -0x8000_0000 <= r < 0x8000_0000
  {
    if probes == [] then -1
    else
      var n := |probes| - 1;
      var before := FirstHit(disk, probes[..n], name);
      if before != -1 then before else Answer(disk, probes[n], name)
  }

  lemma {:induction false} HitsJoin(disk: Disk, p: seq<Probe>, q: seq<Probe>, name: Name)
    ensures FirstHit(disk, p + q, name) ==
      if FirstHit(disk, p, name) != -1 then FirstHit(disk, p, name) else FirstHit(disk, q, name)
    decreases |q|
  {
    if q == [] {
      assert p + q == p;
    } else {
      var n := |q| - 1;
      HitsJoin(disk, p, q[..n], name);
      assert (p + q)[..|p + q| - 1] == p + q[..n];
    }
  }

  /** All of a list of blocks, with one bound. */
  function ProbesOf(refs: seq<int>, maxEntries: int): seq<Probe> {
    seq(|refs|, i requires 0 <= i < |refs| => Probe(refs[i], maxEntries))
  }

  lemma ProbesJoin(p: seq<int>, q: seq<int>, maxEntries: int)
    ensures ProbesOf(p + q, maxEntries) == ProbesOf(p, maxEntries) + ProbesOf(q, maxEntries)
  {
  }

  /** filesize / 4, rounded toward zero and kept in an int. */
  function EntryCount(inode: Inode): int {
    Int32(if inode.filesize >= 0 then inode.filesize / 4 else -(-inode.filesize / 4))
  }

  function DirectProbes(direct: seq<int>, entries: int): seq<Probe> {
    seq(|direct|, i requires 0 <= i < |direct| => Probe(direct[i], entries - ENTRIES_PER_BLOCK * (i + 1)))
  }

  function IndirectProbes(disk: Disk, inode: Inode, left: int): seq<Probe> {
    if left > 0 then ProbesOf(Refs(disk(inode.indirect)), left) else []
  }

  function DoublyProbes(disk: Disk, inode: Inode, left: int): seq<Probe> {
    var doublyLeft := left - ENTRIES_PER_BLOCK * REFS_PER_BLOCK;
    if doublyLeft > 0 then ProbesOf(Flatten(disk, Refs(disk(inode.doubly))), doublyLeft) else []
  }

  function FarProbes(disk: Disk, inode: Inode, left: int): seq<Probe> {
    IndirectProbes(disk, inode, left) + DoublyProbes(disk, inode, left)
  }

  /** Every block a directory search may look at, in order, with the bound it uses there. */
  function Probes(disk: Disk, inode: Inode): seq<Probe> {
    var entries := EntryCount(inode);
    DirectProbes(inode.direct, entries)
    + FarProbes(disk, inode, entries - ENTRIES_PER_BLOCK * |inode.direct|)
  }

  /** The answer of searching a directory. */
  function InDir(disk: Disk, dirInum: int, name: Name): int
    requires -0x8000_0000 <= dirInum < 0x8000_0000
  {
    FirstHit(disk, Probes(disk, ReadInode(disk, dirInum)), name)
  }

  lemma HitStays(disk: Disk, probes: seq<Probe>, n: nat, name: Name)
    requires n <= |probes| && FirstHit(disk, probes[..n], name) != -1
    ensures FirstHit(disk, probes, name) == FirstHit(disk, probes[..n], name)
  {
    HitsJoin(disk, probes[..n], probes[n..], name);
    assert probes == probes[..n] + probes[n..];
  }

  lemma FarJoins(disk: Disk, inode: Inode, name: Name)
    ensures var entries := EntryCount(inode);
            var near := FirstHit(disk, DirectProbes(inode.direct, entries), name);
            var far := FirstHit(disk, FarProbes(disk, inode, entries - ENTRIES_PER_BLOCK * |inode.direct|), name);
            FirstHit(disk, Probes(disk, inode), name) == if near != -1 then near else far
  {
    var entries := EntryCount(inode);
    HitsJoin(disk, DirectProbes(inode.direct, entries),
             FarProbes(disk, inode, entries - ENTRIES_PER_BLOCK * |inode.direct|), name);
  }

  /** The answer is that of the first block with one. */
  lemma {:induction false} FirstHitIs(disk: Disk, probes: seq<Probe>, name: Name)
    ensures var r := FirstHit(disk, probes, name);
            || (r == -1 && forall i :: 0 <= i < |probes| ==> Answer(disk, probes[i], name) == -1)
            || exists i :: 0 <= i < |probes| && r == Answer(disk, probes[i], name) != -1
                           && forall j :: 0 <= j < i ==> Answer(disk, probes[j], name) == -1
  {
    if probes != [] {
      var n := |probes| - 1;
      FirstHitIs(disk, probes[..n], name);
      assert forall i :: 0 <= i < n ==> probes[..n][i] == probes[i];
    }
  }

  // ---------- What a search overlooks ----------

  /** The bound that logical block i is searched with in a directory that counts `entries` entries. */
  function Bound(entries: int, i: nat): int {
    if i < NUM_DIRECT_PTRS then entries - ENTRIES_PER_BLOCK * (i + 1)
    else if i < NUM_DIRECT_PTRS + REFS_PER_BLOCK then entries - ENTRIES_PER_BLOCK * NUM_DIRECT_PTRS
    else entries - ENTRIES_PER_BLOCK * (NUM_DIRECT_PTRS + REFS_PER_BLOCK)
  }

  /** Entry s of logical block i is looked at: direct blocks are always searched, the others only
      while entries are left. */
  predicate Seen(entries: int, i: nat, s: nat) {
    (i < NUM_DIRECT_PTRS || Bound(entries, i) > 0) && s < Looked(Bound(entries, i))
  }

  /** A direct block is searched with what is left of the count after it, so all of it unless 0 to 7
      entries are left; the others with what is left after the direct or the indirect ones. */
  lemma SeenIs(entries: int, i: nat, s: nat)
    ensures var left := if i < 8 then entries - 8 * (i + 1) else if i < 72 then entries - 64 else entries - 576;
            Seen(entries, i, s) <==> s < 8 && (i < 8 || left > 0) && (0 <= left < 8 ==> s < left)
  {
  }

  /** The count is a quarter of the file size, in entries of 32 bytes eight times too many. */
  lemma EntryCountIs(inode: Inode)
    ensures 0 <= inode.filesize < 0x2_0000_0000 ==>
              4 * EntryCount(inode) <= inode.filesize < 4 * EntryCount(inode) + 4
    ensures -0x2_0000_0000 <= inode.filesize < 0 ==>
              4 * EntryCount(inode) - 4 < inode.filesize <= 4 * EntryCount(inode)
  {
  }

  /** The blocks searched are the logical blocks of the directory, as far as entries are left. */
  lemma ProbeAt(disk: Disk, inode: Inode, i: nat)
    requires |inode.direct| == NUM_DIRECT_PTRS && i < MAX_BLOCKS
    ensures var probes, entries := Probes(disk, inode), EntryCount(inode);
            && |probes| <= MAX_BLOCKS == |Logical(disk, inode)|
            && (i < |probes| <==> i < NUM_DIRECT_PTRS || Bound(entries, i) > 0)
            && (i < |probes| ==> probes[i] == Probe(Logical(disk, inode)[i], Bound(entries, i)))
  {
    LogicalAt(disk, inode, i);
  }

  /** What logical block i of a directory holds. */
  function BlockAt(disk: Disk, inode: Inode, i: nat): Block
    requires |inode.direct| == NUM_DIRECT_PTRS && i < MAX_BLOCKS
  {
    LogicalAt(disk, inode, i);
    disk(Logical(disk, inode)[i])
  }

  /** Entry s is the first of its block to carry the name, and its inode number is not the -1 that
      means nothing. */
  ghost predicate Leads(b: Block, name: Name, s: nat) {
    && s < ENTRIES_PER_BLOCK && Named(b, s, name) && Inumber(b, s) != -1
    && forall t :: 0 <= t < s ==> !Named(b, t, name)
  }

  lemma LeadsOnce(b: Block, name: Name, s: nat, t: nat)
    requires Leads(b, name, s) && Leads(b, name, t)
    ensures s == t
  {
  }

  lemma BlockLeads(b: Block, name: Name, maxEntries: int)
    ensures var r := InBlock(b, name, maxEntries, 0);
            || (r == -1 && forall s :: 0 <= s < Looked(maxEntries) ==> !Leads(b, name, s))
            || exists s :: 0 <= s < Looked(maxEntries) && Leads(b, name, s) && r == Inumber(b, s)
  {
    InBlockAnswers(b, name, maxEntries, 0);
    var r := InBlock(b, name, maxEntries, 0);
    if i :| 0 <= i < Looked(maxEntries) && Named(b, i, name) && r == Inumber(b, i)
            && forall j :: 0 <= j < i ==> !Named(b, j, name) {
      assert r != -1 ==> Leads(b, name, i);
    }
  }

  /** Entry s of logical block i would be an answer. */
  ghost predicate Hit(disk: Disk, inode: Inode, name: Name, i: nat, s: nat)
    requires |inode.direct| == NUM_DIRECT_PTRS
  {
    i < MAX_BLOCKS && Seen(EntryCount(inode), i, s) && Leads(BlockAt(disk, inode, i), name, s)
  }

  function Search(disk: Disk, inode: Inode, name: Name): int {
    FirstHit(disk, Probes(disk, inode), name)
  }

  lemma ProbeHits(disk: Disk, inode: Inode, name: Name, i: nat)
    requires |inode.direct| == NUM_DIRECT_PTRS && i < |Probes(disk, inode)|
    ensures var r := Answer(disk, Probes(disk, inode)[i], name);
            || (r == -1 && forall s :: !Hit(disk, inode, name, i, s))
            || exists s :: Hit(disk, inode, name, i, s) && r == Inumber(BlockAt(disk, inode, i), s) && r != -1
  {
    ProbeAt(disk, inode, 0);
    ProbeAt(disk, inode, i);
    var bound := Bound(EntryCount(inode), i);
    BlockLeads(BlockAt(disk, inode, i), name, bound);
    if s :| 0 <= s < Looked(bound) && Leads(BlockAt(disk, inode, i), name, s)
            && Answer(disk, Probes(disk, inode)[i], name) == Inumber(BlockAt(disk, inode, i), s) {
      assert Hit(disk, inode, name, i, s);
    }
  }

  lemma NoHitBeyond(disk: Disk, inode: Inode, name: Name, i: nat, s: nat)
    requires |inode.direct| == NUM_DIRECT_PTRS && Hit(disk, inode, name, i, s)
    ensures i < |Probes(disk, inode)|
  {
    ProbeAt(disk, inode, i);
  }

  /** What a directory search answers, whatever the disk holds: the entry of the first logical block
      in which an entry that is looked at leads to an inode, or -1 if there is none. */
  lemma SearchAnswers(disk: Disk, inode: Inode, name: Name)
    requires |inode.direct| == NUM_DIRECT_PTRS
    ensures var r := Search(disk, inode, name);
            || (r == -1 && forall i, s :: !Hit(disk, inode, name, i, s))
            || exists i, s :: Hit(disk, inode, name, i, s) && r == Inumber(BlockAt(disk, inode, i), s)
                              && forall j, t :: Hit(disk, inode, name, j, t) ==> i <= j
  {
    var probes := Probes(disk, inode);
    FirstHitIs(disk, probes, name);
    forall i: nat, s: nat | Hit(disk, inode, name, i, s) ensures i < |probes| && Answer(disk, probes[i], name) != -1 {
      NoHitBeyond(disk, inode, name, i, s);
      ProbeHits(disk, inode, name, i);
    }
    if Search(disk, inode, name) != -1 {
      var i :| 0 <= i < |probes| && Search(disk, inode, name) == Answer(disk, probes[i], name)
               && forall j :: 0 <= j < i ==> Answer(disk, probes[j], name) == -1;
      ProbeHits(disk, inode, name, i);
    }
  }

  /** Entry s of logical block i is looked at and carries the name. */
  ghost predicate Shown(disk: Disk, inode: Inode, name: Name, i: nat, s: nat)
    requires |inode.direct| == NUM_DIRECT_PTRS
  {
    && i < MAX_BLOCKS && s < ENTRIES_PER_BLOCK && Seen(EntryCount(inode), i, s)
    && Named(BlockAt(disk, inode, i), s, name)
  }

  /** An entry that carries the name, with no other entry looked at that does, is found exactly when
      it is looked at itself. */
  lemma FoundIff(disk: Disk, inode: Inode, name: Name, i: nat, s: nat)
    requires |inode.direct| == NUM_DIRECT_PTRS && i < MAX_BLOCKS && s < ENTRIES_PER_BLOCK
    requires Named(BlockAt(disk, inode, i), s, name) && Inumber(BlockAt(disk, inode, i), s) != -1
    requires forall j, t :: Shown(disk, inode, name, j, t) ==> j == i && t == s
    ensures Search(disk, inode, name) ==
      if Seen(EntryCount(inode), i, s) then Inumber(BlockAt(disk, inode, i), s) else -1
  {
    SearchAnswers(disk, inode, name);
    forall j: nat, t: nat | Hit(disk, inode, name, j, t) ensures j == i && t == s {
      assert Shown(disk, inode, name, j, t);
    }
    if Seen(EntryCount(inode), i, s) {
      forall t | 0 <= t < s ensures !Named(BlockAt(disk, inode, i), t, name) {
        assert !Shown(disk, inode, name, i, t);
      }
      assert Hit(disk, inode, name, i, s);
    }
  }

  // ---------- Directories of 32-byte entries laid out in order ----------

  /** Entry e, counted from the start of the directory, carries the name. */
  predicate Carries(disk: Disk, inode: Inode, e: nat, name: Name)
    requires |inode.direct| == NUM_DIRECT_PTRS && e < ENTRIES_PER_BLOCK * MAX_BLOCKS
  {
    Named(BlockAt(disk, inode, e / ENTRIES_PER_BLOCK), e % ENTRIES_PER_BLOCK, name)
  }

  function Number(disk: Disk, inode: Inode, e: nat): int
    requires |inode.direct| == NUM_DIRECT_PTRS && e < ENTRIES_PER_BLOCK * MAX_BLOCKS
  {
    Inumber(BlockAt(disk, inode, e / ENTRIES_PER_BLOCK), e % ENTRIES_PER_BLOCK)
  }

  lemma EntryAt(disk: Disk, inode: Inode, name: Name, i: nat, s: nat) returns (e: nat)
    requires |inode.direct| == NUM_DIRECT_PTRS && i < MAX_BLOCKS && s < ENTRIES_PER_BLOCK
    ensures e == ENTRIES_PER_BLOCK * i + s < ENTRIES_PER_BLOCK * MAX_BLOCKS
    ensures e / ENTRIES_PER_BLOCK == i && e % ENTRIES_PER_BLOCK == s
    ensures Carries(disk, inode, e, name) <==> Named(BlockAt(disk, inode, i), s, name)
  {
    e := ENTRIES_PER_BLOCK * i + s;
    assert e / ENTRIES_PER_BLOCK == i && e % ENTRIES_PER_BLOCK == s;
  }

  lemma LeadsNamed(b: Block, name: Name, s: nat)
    requires Leads(b, name, s)
    ensures s < ENTRIES_PER_BLOCK && Named(b, s, name)
  {
  }

  /** With n entries, the search reads every direct block to its end but block n - 1, of which it
      reads nothing; the other blocks it reads to their ends or not at all. */
  predicate Reached(n: nat, i: nat) {
    if i < NUM_DIRECT_PTRS then i + 1 != n
    else if i < NUM_DIRECT_PTRS + REFS_PER_BLOCK then n > NUM_DIRECT_PTRS
    else n > NUM_DIRECT_PTRS + REFS_PER_BLOCK
  }

  lemma SeenInOrder(inode: Inode, n: nat, i: nat, s: nat)
    requires inode.filesize == ENTRY_SIZE * n && n <= ENTRIES_PER_BLOCK * MAX_BLOCKS && s < ENTRIES_PER_BLOCK
    ensures Seen(EntryCount(inode), i, s) <==> Reached(n, i)
  {
    assert EntryCount(inode) == ENTRIES_PER_BLOCK * n;
  }

  /** So the answer comes from the first block reached that has a leading entry. */
  lemma SearchInOrder(disk: Disk, inode: Inode, name: Name, n: nat)
    requires |inode.direct| == NUM_DIRECT_PTRS
    requires inode.filesize == ENTRY_SIZE * n && n <= ENTRIES_PER_BLOCK * MAX_BLOCKS
    ensures var r := Search(disk, inode, name);
            || (r == -1 && forall i, s :: 0 <= i < MAX_BLOCKS && 0 <= s < ENTRIES_PER_BLOCK && Reached(n, i) ==>
                  !Leads(BlockAt(disk, inode, i), name, s))
            || exists i, s :: 0 <= i < MAX_BLOCKS && 0 <= s < ENTRIES_PER_BLOCK && Reached(n, i)
                  && Leads(BlockAt(disk, inode, i), name, s) && r == Inumber(BlockAt(disk, inode, i), s) != -1
                  && forall j, t :: 0 <= j < i && 0 <= t < ENTRIES_PER_BLOCK && Reached(n, j) ==>
                       !Leads(BlockAt(disk, inode, j), name, t)
  {
    SearchAnswers(disk, inode, name);
    forall i: nat, s: nat | i < MAX_BLOCKS && s < ENTRIES_PER_BLOCK
      ensures Hit(disk, inode, name, i, s) <==> Reached(n, i) && Leads(BlockAt(disk, inode, i), name, s)
    {
      SeenInOrder(inode, n, i, s);
    }
  }

  /** The first entry with the name leads its block, and no block before it has a leading entry. */
  lemma FirstLeads(disk: Disk, inode: Inode, name: Name, e: nat)
    requires |inode.direct| == NUM_DIRECT_PTRS && e < ENTRIES_PER_BLOCK * MAX_BLOCKS
    requires Carries(disk, inode, e, name) && Number(disk, inode, e) != -1
    requires forall d :: 0 <= d < e ==> !Carries(disk, inode, d, name)
    ensures Leads(BlockAt(disk, inode, e / ENTRIES_PER_BLOCK), name, e % ENTRIES_PER_BLOCK)
    ensures forall j, t :: 0 <= j < e / ENTRIES_PER_BLOCK && 0 <= t < ENTRIES_PER_BLOCK ==>
      !Leads(BlockAt(disk, inode, j), name, t)
  {
    hide BlockAt, Named, Inumber;
    var i, s := e / ENTRIES_PER_BLOCK, e % ENTRIES_PER_BLOCK;
    forall j: nat, t: nat | j <= i && t < ENTRIES_PER_BLOCK && (j < i || t < s)
      ensures !Named(BlockAt(disk, inode, j), t, name)
    {
      var d := EntryAt(disk, inode, name, j, t);
    }
  }

  /** Where the first entry with the name stands decides the answer, be it one of the n entries or
      left behind past their end. */
  lemma FirstEntryFound(disk: Disk, inode: Inode, name: Name, n: nat, e: nat)
    requires |inode.direct| == NUM_DIRECT_PTRS
    requires inode.filesize == ENTRY_SIZE * n && n <= ENTRIES_PER_BLOCK * MAX_BLOCKS
    requires e < ENTRIES_PER_BLOCK * MAX_BLOCKS && Carries(disk, inode, e, name) && Number(disk, inode, e) != -1
    requires forall d :: 0 <= d < e ==> !Carries(disk, inode, d, name)
    requires Reached(n, e / ENTRIES_PER_BLOCK)
    ensures Search(disk, inode, name) == Number(disk, inode, e)
  {
    var i, s := e / ENTRIES_PER_BLOCK, e % ENTRIES_PER_BLOCK;
    FirstLeads(disk, inode, name, e);
    hide BlockAt, Leads, Named, Carries, Search, Inumber;
    SearchInOrder(disk, inode, name, n);
    forall t: nat | Leads(BlockAt(disk, inode, i), name, t) ensures t == s {
      LeadsOnce(BlockAt(disk, inode, i), name, s, t);
    }
  }

  /** Every name in a directory of more than one entry is found, whatever the blocks outside it hold. */
  lemma LookupInOrder(disk: Disk, inode: Inode, name: Name, n: nat, e: nat)
    requires |inode.direct| == NUM_DIRECT_PTRS
    requires inode.filesize == ENTRY_SIZE * n && e < n <= ENTRIES_PER_BLOCK * MAX_BLOCKS && n != 1
    requires Carries(disk, inode, e, name) && Number(disk, inode, e) != -1
    requires forall d :: 0 <= d < e ==> !Carries(disk, inode, d, name)
    ensures Search(disk, inode, name) == Number(disk, inode, e)
  {
    FirstEntryFound(disk, inode, name, n, e);
  }

  /** In a directory of one entry that entry plays no part: the search fails exactly when no later
      direct block, all of which it reads to the end, has a leading entry. */
  lemma LoneEntry(disk: Disk, inode: Inode, name: Name)
    requires |inode.direct| == NUM_DIRECT_PTRS && inode.filesize == ENTRY_SIZE
    ensures Search(disk, inode, name) == -1 <==>
      forall i, s :: 1 <= i < NUM_DIRECT_PTRS && 0 <= s < ENTRIES_PER_BLOCK ==> !Leads(BlockAt(disk, inode, i), name, s)
  {
    SearchInOrder(disk, inode, name, 1);
  }

  /** Entry e leads its block, and the block is reached. */
  ghost predicate Leading(disk: Disk, inode: Inode, name: Name, n: nat, e: nat)
    requires |inode.direct| == NUM_DIRECT_PTRS && e < ENTRIES_PER_BLOCK * MAX_BLOCKS
  {
    && Reached(n, e / ENTRIES_PER_BLOCK)
    && Leads(BlockAt(disk, inode, e / ENTRIES_PER_BLOCK), name, e % ENTRIES_PER_BLOCK)
  }

  /** A name that none of the n entries carries is answered exactly when a block that is reached has
      a leading entry for it past the end. */
  lemma PastTheEnd(disk: Disk, inode: Inode, name: Name, n: nat)
    requires |inode.direct| == NUM_DIRECT_PTRS
    requires inode.filesize == ENTRY_SIZE * n && n <= ENTRIES_PER_BLOCK * MAX_BLOCKS
    requires forall d :: 0 <= d < n ==> !Carries(disk, inode, d, name)
    ensures Search(disk, inode, name) != -1 <==>
      exists e :: n <= e < ENTRIES_PER_BLOCK * MAX_BLOCKS && Leading(disk, inode, name, n, e)
  {
    hide BlockAt, Leads, Named, Carries, Search, Inumber;
    SearchInOrder(disk, inode, name, n);
    forall e: nat | e < ENTRIES_PER_BLOCK * MAX_BLOCKS && Leading(disk, inode, name, n, e) ensures n <= e {
      LeadsNamed(BlockAt(disk, inode, e / ENTRIES_PER_BLOCK), name, e % ENTRIES_PER_BLOCK);
      var d := EntryAt(disk, inode, name, e / ENTRIES_PER_BLOCK, e % ENTRIES_PER_BLOCK);
    }
    if Search(disk, inode, name) != -1 {
      var i, s :| 0 <= i < MAX_BLOCKS && 0 <= s < ENTRIES_PER_BLOCK && Reached(n, i)
                  && Leads(BlockAt(disk, inode, i), name, s);
      var e := EntryAt(disk, inode, name, i, s);
      assert Leading(disk, inode, name, n, e);
    } else {
      forall e: nat | e < ENTRIES_PER_BLOCK * MAX_BLOCKS ensures !Leading(disk, inode, name, n, e) {
      }
    }
  }

  // ---------- A name that is not found ----------

  /** A disk whose root directory, inode 2, has one entry, "a" with inode 7, in block 20. */
  function LoneDisk(): Disk {
    (block: int) => seq(BLOCK_SIZE, k => LoneByte(block, k))
  }

  function LoneByte(block: int, k: int): Byte {
    if block == 3 && k == 144 then 32
    else if block == 3 && k == 152 then 20
    else if block == 20 && k == 0 then 97
    else if block == 20 && k == 16 then 7
    else 0
  }

  function LoneInode(): Inode {
    Inode(ENTRY_SIZE, [20, 0, 0, 0, 0, 0, 0, 0], 0, 0)
  }

  lemma SmallInt(b: Block, at: nat)
    requires at + 4 <= BLOCK_SIZE && b[at + 1] == b[at + 2] == b[at + 3] == 0
    ensures IntAt(b, at) == b[at]
  {
    assert b[at..at + 4] == [b[at], 0, 0, 0];
    assert Unsigned([b[at], 0, 0, 0]) == b[at] + 256 * Unsigned([b[at], 0, 0, 0][1..]);
    assert Unsigned([0, 0, 0]) == 0 && [b[at], 0, 0, 0][1..] == [0, 0, 0];
  }

  /** The inode is on the disk. */
  lemma LoneInodeIs()
    ensures ReadInode(LoneDisk(), 2) == LoneInode()
  {
    SlotIs(2);
    var b := LoneDisk()(3);
    forall i | 0 <= i < 10 ensures IntAt(b, 152 + 4 * i) == if i == 0 then 20 else 0 {
      SmallInt(b, 152 + 4 * i);
    }
    assert b[144..152] == LongBytes(32);
    LongReads(b, 144, 32);
    assert ReadInode(LoneDisk(), 2).direct == LoneInode().direct;
    assert IntAt(b, 152 + 4 * 8) == IntAt(b, 152 + 4 * 9) == 0;
  }

  /** The next inode is empty. */
  lemma NextInodeIs()
    ensures ReadInode(LoneDisk(), 3) == Inode(0, [0, 0, 0, 0, 0, 0, 0, 0], 0, 0)
  {
    SlotIs(3);
    var b := LoneDisk()(3);
    forall i | 0 <= i < 10 ensures IntAt(b, 216 + 4 * i) == 0 {
      SmallInt(b, 216 + 4 * i);
    }
    assert b[208..216] == LongBytes(0);
    LongReads(b, 208, 0);
    assert ReadInode(LoneDisk(), 3).direct == [0, 0, 0, 0, 0, 0, 0, 0];
    assert IntAt(b, 216 + 4 * 8) == IntAt(b, 216 + 4 * 9) == 0;
  }

  lemma LoneNamed(block: int, t: nat)
    requires t < ENTRIES_PER_BLOCK
    ensures Named(LoneDisk()(block), t, "a") <==> block == 20 && t == 0
  {
    assert LoneDisk()(block)[ENTRY_SIZE * t] == "a"[0] as int <==> block == 20 && t == 0;
  }

  /** The entry is there, and search_dir does not find it. */
  lemma LoneEntryOverlooked()
    ensures Named(LoneDisk()(20), 0, "a") && Inumber(LoneDisk()(20), 0) == 7
    ensures LoneInode().direct[0] == 20 && ReadInode(LoneDisk(), 2) == LoneInode()
    ensures InDir(LoneDisk(), 2, "a") == -1
  {
    var disk, inode := LoneDisk(), LoneInode();
    LoneInodeIs();
    LoneNamed(20, 0);
    SmallInt(disk(20), 16);
    forall i, s | 1 <= i < NUM_DIRECT_PTRS && 0 <= s < ENTRIES_PER_BLOCK
      ensures !Leads(BlockAt(disk, inode, i), "a", s)
    {
      LogicalAt(disk, inode, i);
      LoneNamed(0, s);
    }
    hide Leads, BlockAt;
    LoneEntry(disk, inode, "a");
  }

  /** Nor is there such a name in the other inode that its path makes the search look into. */
  lemma NextIsEmpty()
    ensures InDir(LoneDisk(), 3, "a") == -1
  {
    var disk, empty := LoneDisk(), Inode(0, [0, 0, 0, 0, 0, 0, 0, 0], 0, 0);
    NextInodeIs();
    forall i, s | 0 <= i < NUM_DIRECT_PTRS && 0 <= s < ENTRIES_PER_BLOCK
      ensures !Leads(BlockAt(disk, empty, i), "a", s)
    {
      LogicalAt(disk, empty, i);
      LoneNamed(0, s);
    }
    hide Leads, BlockAt;
    SearchInOrder(disk, empty, "a", 0);
  }

  // ---------- The searches ----------

  method SearchDataBlock(disk: Disk, block: int, name: Name, maxEntries: int) returns (r: int)
    ensures r == Answer(disk, Probe(block, maxEntries), name)
    ensures BlockAnswer(disk(block), name, maxEntries, r)
  {
    var b := disk(block);
    InBlockAnswers(b, name, maxEntries, 0);
    var i := 0;
    while i < ENTRIES_PER_BLOCK
      invariant 0 <= i <= Looked(maxEntries)
      invariant InBlock(b, name, maxEntries, 0) == InBlock(b, name, maxEntries, i)
    {
      if i == maxEntries {
        return -1;
      }
      if Named(b, i, name) {
        return Inumber(b, i);
      }
      i := i + 1;
    }
    return -1;
  }

  method SearchIndirect(disk: Disk, block: int, name: Name, maxEntries: int) returns (r: int)
    ensures r == FirstHit(disk, ProbesOf(Refs(disk(block)), maxEntries), name)
  {
    var refs := Refs(disk(block));
    ghost var probes := ProbesOf(refs, maxEntries);
    var i := 0;
    while i < REFS_PER_BLOCK
      invariant 0 <= i <= REFS_PER_BLOCK
      invariant FirstHit(disk, probes[..i], name) == -1
    {
      r := SearchDataBlock(disk, refs[i], name, maxEntries);
      assert probes[..i + 1][..i] == probes[..i];
      if r != -1 {
        HitStays(disk, probes, i + 1, name);
        return r;
      }
      i := i + 1;
    }
    assert probes[..i] == probes;
    return -1;
  }

  method SearchDoublyIndirect(disk: Disk, block: int, name: Name, maxEntries: int) returns (r: int)
    ensures r == FirstHit(disk, ProbesOf(Flatten(disk, Refs(disk(block))), maxEntries), name)
  {
    var rows := Refs(disk(block));
    var i := 0;
    while i < REFS_PER_BLOCK
      invariant 0 <= i <= REFS_PER_BLOCK
      invariant FirstHit(disk, ProbesOf(Flatten(disk, rows[..i]), maxEntries), name) == -1
    {
      r := SearchIndirect(disk, rows[i], name, maxEntries);
      RowSearched(disk, rows, i, maxEntries, name);
      if r != -1 {
        RowsSearched(disk, rows, i + 1, maxEntries, name);
        return r;
      }
      i := i + 1;
    }
    assert rows[..i] == rows;
    return -1;
  }

  lemma RowSearched(disk: Disk, rows: seq<int>, i: nat, maxEntries: int, name: Name)
    requires i < |rows|
    requires FirstHit(disk, ProbesOf(Flatten(disk, rows[..i]), maxEntries), name) == -1
    ensures FirstHit(disk, ProbesOf(Flatten(disk, rows[..i + 1]), maxEntries), name) ==
      FirstHit(disk, ProbesOf(Refs(disk(rows[i])), maxEntries), name)
  {
    hide FirstHit, ProbesOf, Refs;
    assert rows[..i + 1][..i] == rows[..i];
    ProbesJoin(Flatten(disk, rows[..i]), Refs(disk(rows[i])), maxEntries);
    HitsJoin(disk, ProbesOf(Flatten(disk, rows[..i]), maxEntries), ProbesOf(Refs(disk(rows[i])), maxEntries), name);
  }

  /** Later rows do not change the answer of the first ones. */
  lemma {:induction false} RowsSearched(disk: Disk, rows: seq<int>, i: nat, maxEntries: int, name: Name)
    requires i <= |rows|
    requires FirstHit(disk, ProbesOf(Flatten(disk, rows[..i]), maxEntries), name) != -1
    ensures FirstHit(disk, ProbesOf(Flatten(disk, rows), maxEntries), name) ==
      FirstHit(disk, ProbesOf(Flatten(disk, rows[..i]), maxEntries), name)
    decreases |rows|
  {
    hide FirstHit, ProbesOf, Refs;
    if i == |rows| {
      assert rows[..i] == rows;
    } else {
      var n := |rows| - 1;
      assert rows[..n][..i] == rows[..i];
      RowsSearched(disk, rows[..n], i, maxEntries, name);
      var before, last := Flatten(disk, rows[..n]), Refs(disk(rows[n]));
      ProbesJoin(before, last, maxEntries);
      HitsJoin(disk, ProbesOf(before, maxEntries), ProbesOf(last, maxEntries), name);
    }
  }

  /** The part of a directory search that goes through indirect blocks. */
  method SearchFar(disk: Disk, inode: Inode, name: Name, entries: int) returns (r: int)
    ensures r == FirstHit(disk, FarProbes(disk, inode, entries), name)
  {
    var entriesLeft := entries;
    r := -1;
    if entriesLeft > 0 {
      r := SearchIndirect(disk, inode.indirect, name, entriesLeft);
      entriesLeft := entriesLeft - ENTRIES_PER_BLOCK * REFS_PER_BLOCK;
    }
    if r == -1 && entriesLeft > 0 {
      r := SearchDoublyIndirect(disk, inode.doubly, name, entriesLeft);
    }
    HitsJoin(disk, IndirectProbes(disk, inode, entries), DoublyProbes(disk, inode, entries), name);
  }

  /** The part that goes through the direct blocks; what is left of the count comes back with it. */
  method SearchNear(disk: Disk, direct: seq<int>, entries: int, name: Name) returns (r: int, left: int)
    ensures r == FirstHit(disk, DirectProbes(direct, entries), name)
    ensures r == -1 ==> left == entries - ENTRIES_PER_BLOCK * |direct|
  {
    ghost var probes := DirectProbes(direct, entries);
    left := entries;
    var i := 0;
    while i < |direct|
      invariant 0 <= i <= |direct|
      invariant left == entries - ENTRIES_PER_BLOCK * i
      invariant FirstHit(disk, probes[..i], name) == -1
    {
      left := left - ENTRIES_PER_BLOCK;
      r := SearchDataBlock(disk, direct[i], name, left);
      assert probes[..i + 1][..i] == probes[..i];
      if r != -1 {
        HitStays(disk, probes, i + 1, name);
        return r, left;
      }
      i := i + 1;
    }
    assert probes[..i] == probes;
    r := -1;
  }

  method SearchInode(disk: Disk, inode: Inode, name: Name) returns (r: int)
    requires |inode.direct| == NUM_DIRECT_PTRS
    ensures r == FirstHit(disk, Probes(disk, inode), name)
  {
    var left;
    r, left := SearchNear(disk, inode.direct, EntryCount(inode), name);
    if r == -1 {
      r := SearchFar(disk, inode, name, left);
    }
    FarJoins(disk, inode, name);
  }

  method SearchDir(disk: Disk, dirInum: int, name: Name) returns (r: int)
    requires -0x8000_0000 <= dirInum < 0x8000_0000
    ensures r == InDir(disk, dirInum, name) == Search(disk, ReadInode(disk, dirInum), name)
  {
    var inode := ReadInode(disk, dirInum);
    r := SearchInode(disk, inode, name);
  }

  // ---------- Paths ----------

  /** The characters from p up to a terminator. */
  function CString(cells: seq<char>, p: nat): seq<char>
    requires p <= |cells|
    decreases |cells| - p
  {
    if p == |cells| || cells[p] == '\0' then [] else [cells[p]] + CString(cells, p + 1)
  }

  lemma {:induction false} CStringIs(cells: seq<char>, p: nat, s: seq<char>)
    requires StringAt(cells, p, s)
    ensures CString(cells, p) == s
    decreases |s|
  {
    assert cells[p..p + |s|] == s;
    if s != [] {
      assert cells[p] == s[0];
      assert cells[p + 1..p + |s|] == s[1..];
      CStringIs(cells, p + 1, s[1..]);
    }
  }

  lemma {:induction false} NamesCount(path: seq<char>)
    ensures |Names(path)| <= |path| + 1
  {
    if path != [] {
      NamesCount(path[..|path| - 1]);
    }
  }

  /** The first answer other than -1, or -1. */
  function FirstAnswer(answers: seq<int>): (r: int)
    ensures r == -1 || r in answers
  {
    if answers == [] then -1
    else if answers[0] != -1 then answers[0]
    else FirstAnswer(answers[1..])
  }

  lemma {:induction false} FirstAnswerIs(answers: seq<int>)
    ensures var r := FirstAnswer(answers);
            || (r == -1 && forall d :: 0 <= d < |answers| ==> answers[d] == -1)
            || exists d :: 0 <= d < |answers| && r == answers[d] != -1 && forall e :: 0 <= e < d ==> answers[e] == -1
  {
    if answers != [] && answers[0] == -1 {
      var rest := answers[1..];
      FirstAnswerIs(rest);
      assert forall d :: 0 < d < |answers| ==> answers[d] == rest[d - 1];
      if FirstAnswer(rest) != -1 {
        var d :| 0 <= d < |rest| && FirstAnswer(rest) == rest[d] && forall e :: 0 <= e < d ==> rest[e] == -1;
        assert answers[d + 1] == rest[d];
      }
    }
  }

  /** The answers of n directories from inode 2 on. */
  function InDirs(disk: Disk, n: nat, name: Name): (answers: seq<int>)
    requires n < 0x7fff_ffff
    ensures |answers| == n
    ensures forall d :: 0 <= d < n ==> answers[d] == InDir(disk, d + 2, name)
  {
    seq(n, d requires 0 <= d < n => InDir(disk, d + 2, name))
  }

  /** Looks for the last name of a path in as many directories as the path has names, inode 2 being
      the first of them. */
  function AtPath(disk: Disk, path: seq<char>): (r: int)
    requires |path| < 0x7fff_fffe
    ensures -0x8000_0000 <= r < 0x8000_0000
  {
    NamesCount(path);
    var names := Names(path);
    FirstAnswer(InDirs(disk, |names|, names[|names| - 1]))
  }

  lemma InDirIs(disk: Disk, d: int, name: Name)
    requires -0x8000_0000 <= d < 0x8000_0000
    ensures InDir(disk, d, name) == Search(disk, ReadInode(disk, d), name)
  {
  }

  /** The names of a path, which are what the path is joined from, decide its answer: -1 exactly if
      none of the directories 2 .. |names| + 1 has one for the last name, and otherwise that of the
      first that does. */
  lemma AtPathIs(disk: Disk, path: seq<char>) returns (names: seq<Name>)
    requires |path| < 0x7fff_fffe
    ensures names == Names(path) && 0 < |names| <= |path| + 1 && NoSlashes(names) && Join(names) == path
    ensures var r, n := AtPath(disk, path), |names|;
            || (r == -1 && forall d :: 2 <= d <= n + 1 ==> Search(disk, ReadInode(disk, d), names[n - 1]) == -1)
            || exists d :: 2 <= d <= n + 1 && r == Search(disk, ReadInode(disk, d), names[n - 1]) != -1
                           && forall e :: 2 <= e < d ==> Search(disk, ReadInode(disk, e), names[n - 1]) == -1
  {
    hide InDir, Search, ReadInode, NoSlashes, Join, FirstAnswer;
    names := Names(path);
    NamesCount(path);
    JoinNames(path);
    NamesHaveNoSlashes(path);
    var n := |names|;
    var name := names[n - 1];
    var answers := InDirs(disk, n, name);
    FirstAnswerIs(answers);
    forall d | 2 <= d <= n + 1 ensures answers[d - 2] == Search(disk, ReadInode(disk, d), name) {
      InDirIs(disk, d, name);
    }
    var r := AtPath(disk, path);
    if r != -1 {
      var k :| 0 <= k < n && r == answers[k] && forall e :: 0 <= e < k ==> answers[e] == -1;
      forall e | 2 <= e < k + 2 ensures Search(disk, ReadInode(disk, e), name) == -1 {
        assert answers[e - 2] == -1;
      }
      assert r == Search(disk, ReadInode(disk, k + 2), name);
    }
  }

  method SearchPath(disk: Disk, path: array<char>, len: nat) returns (r: int, ghost names: seq<Name>)
    requires len < path.Length && path[len] == '\0' && '\0' !in path[..len] && len < 0x7fff_fffe
    modifies path
    ensures r == AtPath(disk, old(path[..len]))
    ensures 0 < |names| <= len + 1 && NoSlashes(names) && Join(names) == old(path[..len])
    ensures var n := |names|;
            || (r == -1 && forall d :: 2 <= d <= n + 1 ==> Search(disk, ReadInode(disk, d), names[n - 1]) == -1)
            || exists d :: 2 <= d <= n + 1 && r == Search(disk, ReadInode(disk, d), names[n - 1]) != -1
                           && forall e :: 2 <= e < d ==> Search(disk, ReadInode(disk, e), names[n - 1]) == -1
  {
    hide Search, ReadInode, InDir;
    NamesCount(path[..len]);
    names := AtPathIs(disk, path[..len]);
    var dirs, numDirs := ParsePath(path, len);
    var name := CString(path[..], dirs[numDirs]);
    CStringIs(path[..], dirs[numDirs], Names(old(path[..len]))[numDirs]);
    ghost var answers := InDirs(disk, numDirs + 1, name);
    var i := 2;
    while i <= numDirs + 2
      invariant 2 <= i <= numDirs + 3
      invariant FirstAnswer(answers) == FirstAnswer(answers[i - 2..])
    {
      r := SearchDir(disk, i, name);
      if r != -1 {
        return;
      }
      assert answers[i - 2..][1..] == answers[i - 1..];
      i := i + 1;
    }
    r := -1;
  }

  /** The root directory of LoneDisk holds "a", and yet its path leads nowhere. */
  lemma LonePathFails()
    ensures AtPath(LoneDisk(), "/a") == -1
  {
    RootPath();
    LoneEntryOverlooked();
    NextIsEmpty();
    hide InDir, LoneDisk, Names;
    FirstAnswerIs(InDirs(LoneDisk(), 2, "a"));
  }

  lemma RootPath()
    ensures Names("/a") == ["", "a"]
  {
    assert "/a"[..1] == "/" && "/"[..0] == "" && "" + ['a'] == "a";
  }

  /** Copies out the file the path leads to. */
  method PortFakeToReal(disk: Disk, path: array<char>, len: nat)
    returns (file: seq<Byte>, ghost inumber: int, ghost names: seq<Name>)
    requires len < path.Length && path[len] == '\0' && '\0' !in path[..len] && len < 0x7fff_fffe
    modifies path
    ensures inumber == AtPath(disk, old(path[..len])) && Exact(disk, ReadInode(disk, inumber), file)
    ensures 0 < |names| <= len + 1 && NoSlashes(names) && Join(names) == old(path[..len])
    ensures var n := |names|;
            || (inumber == -1 && forall d :: 2 <= d <= n + 1 ==> Search(disk, ReadInode(disk, d), names[n - 1]) == -1)
            || exists d :: 2 <= d <= n + 1 && inumber == Search(disk, ReadInode(disk, d), names[n - 1]) != -1
                           && forall e :: 2 <= e < d ==> Search(disk, ReadInode(disk, e), names[n - 1]) == -1
    ensures var filesize := ReadInode(disk, inumber).filesize;
            && (0 <= filesize <= 256 * 4168 ==> |file| == filesize)
            && (filesize < 0 ==> file == []) && (filesize > 256 * 4168 ==> |file| == 256 * 4168)
  {
    var found;
    found, names := SearchPath(disk, path, len);
    inumber := found;
    file := ExtractFile(disk, found);
  }
}
