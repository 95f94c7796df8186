/** Pages of a fixed number of ints, laid out one after the other. */
module Pages {
  function Flat(size: nat, page: int, offset: int): int {
    page * size + offset
  }

  lemma StepUp(a: nat, b: nat, size: nat)
    requires a < b
    ensures a * size + size <= b * size
  {
    var k := b - a - 1;
    assert b == a + 1 + k;
    assert b * size == a * size + size + k * size by {
      assert (a + 1 + k) * size == a * size + size + k * size;
    }
    MulNonNegative(k, size);
  }

  lemma MulNonNegative(a: nat, b: nat)
    ensures a * b >= 0
  {
  }

  lemma FlatBounds(size: nat, count: nat, page: nat, offset: nat)
    requires page < count && offset < size
    ensures 0 <= Flat(size, page, offset) < count * size
    ensures 0 <= page * size && page * size + size <= count * size
  {
    MulNonNegative(page, size);
    StepUp(page, count, size);
  }

  lemma FlatUnique(size: nat, p: nat, o: nat, p': nat, o': nat)
    requires o < size && o' < size && Flat(size, p, o) == Flat(size, p', o')
    ensures p == p' && o == o'
  {
    if p < p' {
      StepUp(p, p', size);
    } else if p' < p {
      StepUp(p', p, size);
    }
  }

  /** The page of int i, and its place in that page. */
  function PageOf(size: nat, i: nat): nat
    requires size > 0
  {
    if i < size then 0 else 1 + PageOf(size, i - size)
  }

  function OffsetOf(size: nat, i: nat): (o: nat)
    requires size > 0
    ensures o < size
  {
    if i < size then i else OffsetOf(size, i - size)
  }

  lemma {:induction false} FlatOfIndex(size: nat, i: nat)
    requires size > 0
    ensures Flat(size, PageOf(size, i), OffsetOf(size, i)) == i
  {
    if i >= size {
      FlatOfIndex(size, i - size);
      assert (1 + PageOf(size, i - size)) * size == size + PageOf(size, i - size) * size;
    }
  }

  lemma PageInRange(size: nat, count: nat, i: nat)
    requires size > 0 && i < count * size
    ensures PageOf(size, i) < count
  {
    FlatOfIndex(size, i);
    if count < PageOf(size, i) { StepUp(count, PageOf(size, i), size); }
  }

  /** The byte address of int i: dividing by the page size in bytes gives its page, and leaves four
      times its offset. */
  lemma ByteAddress(size: nat, i: nat)
    requires size > 0
    ensures 4 * i / (4 * size) == PageOf(size, i)
    ensures 4 * i - (4 * size) * PageOf(size, i) == 4 * OffsetOf(size, i)
  {
    var q, r := PageOf(size, i), OffsetOf(size, i);
    FlatOfIndex(size, i);
    assert 4 * (q * size) == (4 * size) * q;
    DivUnique(4 * i, 4 * size, q, 4 * r);
  }

  lemma PageOfFlat(size: nat, page: nat, offset: nat)
    requires offset < size
    ensures Flat(size, page, offset) >= 0
    ensures PageOf(size, Flat(size, page, offset)) == page && OffsetOf(size, Flat(size, page, offset)) == offset
  {
    MulNonNegative(page, size);
    var i := Flat(size, page, offset);
    FlatOfIndex(size, i);
    FlatUnique(size, PageOf(size, i), OffsetOf(size, i), page, offset);
  }

  /** The least number of pages with room for n ints. */
  function PagesFor(size: nat, n: nat): nat
    requires size > 0
  {
    if n == 0 then 0 else if n <= size then 1 else 1 + PagesFor(size, n - size)
  }

  lemma {:induction false} PagesForBounds(size: nat, n: nat)
    requires size > 0
    ensures n <= PagesFor(size, n) * size < n + size
  {
    if n > size {
      PagesForBounds(size, n - size);
      assert (1 + PagesFor(size, n - size)) * size == size + PagesFor(size, n - size) * size;
    }
  }

  /** Rounding the byte count of n ints up to pages gives that number. */
  lemma RoundUpToPages(size: nat, n: nat)
    requires size > 0
    ensures (4 * n + 4 * size - 1) / (4 * size) == PagesFor(size, n)
  {
    PagesForBounds(size, n);
    var u := PagesFor(size, n);
    assert (4 * size) * u == 4 * (u * size);
    DivUnique(4 * n + 4 * size - 1, 4 * size, u, 4 * n + 4 * size - 1 - (4 * size) * u);
  }

  lemma PagesWithin(size: nat, count: nat, n: nat)
    requires size > 0 && n <= count * size
    ensures PagesFor(size, n) <= count
  {
    PagesForBounds(size, n);
    if count < PagesFor(size, n) { StepUp(count, PagesFor(size, n), size); }
  }

  lemma DivUnique(a: nat, d: nat, q: nat, r: nat)
    requires d > 0 && r < d && a == d * q + r
    ensures a / d == q
  {
    var q', r' := a / d, a % d;
    assert a == d * q' + r';
    if q' < q {
      StepUp(q', q, d);
    } else if q < q' {
      StepUp(q, q', d);
    }
  }
}

/** vm.c: a page table, physical frames and a disk, kept so that a program sees plain memory. */
module Paging {
  import opened Pages
  import opened Lru

  const INT_SIZE: nat := 4

  datatype Strategy = RANDOM | LRU

  class Simulator {
    const pageInts: nat   // INTS_PER_PAGE
    const numFrames: nat
    const numPages: nat
    const frame: array<int>
    const valid: array<bool>
    const marker: array<int>
    const physical: array<int>
    var disk: map<nat, seq<int>>
    var useMarker: int
    var numFaults: nat
    var numAccesses: nat
    var strategy: Strategy

    /** The ints of all pages in use, as the program sees them. */
    ghost var contents: seq<int>
    ghost var inUse: nat
    /** The resident pages, and every page load and use since initialize. */
    ghost var resident: set<nat>
    ghost var history: seq<nat>
    /** use_marker when initialize began. */
    ghost var birth: int
    /** num_accesses and the state when the counting of accesses began, the ints accessed since, and
        the states before and after each of these accesses. */
    ghost var base: int
    ghost var origin: Cache
    ghost var touched: seq<nat>
    ghost var states: seq<Cache>

    ghost predicate Shape()
      reads `inUse, `contents
    {
      && pageInts > 0 && inUse <= numPages
      && frame.Length == valid.Length == marker.Length == numPages
      && physical.Length == numFrames * pageInts
      && frame != marker && frame != physical && marker != physical
      && |contents| == inUse * pageInts
    }

    ghost predicate ResidentOk()
      requires Shape()
      reads `inUse, `contents, `resident, valid
    {
      && (forall p: nat :: p in resident ==> p < inUse)
      && (forall p: nat :: p < numPages ==> (valid[p] <==> p in resident))
    }

    /** Resident pages have frames of their own. */
    ghost predicate OwnFrame(p: nat, q: nat)
      requires Shape()
      reads `inUse, `contents, frame
    {
      p < numPages && q < numPages &&
      0 <= frame[p] < numFrames && (p != q ==> frame[p] != frame[q])
    }

    ghost predicate FramesOk()
      requires Shape()
      reads `inUse, `contents, `resident, frame
    {
      forall p, q :: p in resident && q in resident ==> OwnFrame(p, q)
    }

    ghost predicate OnDisk(p: nat)
      reads `disk
    {
      p in disk && |disk[p]| == pageInts
    }

    /** What cell `offset` of page p holds: its frame if it is resident, else its file. */
    ghost predicate CellIs(p: nat, offset: nat, v: int)
      requires Shape()
      reads `inUse, `contents, `resident, `disk, frame, physical
    {
      if p in resident then
        p < numPages && 0 <= Flat(pageInts, frame[p], offset) < physical.Length &&
        physical[Flat(pageInts, frame[p], offset)] == v
      else
        OnDisk(p) && offset < pageInts && disk[p][offset] == v
    }

    ghost predicate CellOk(p: nat, offset: nat)
      requires Shape()
      reads `inUse, `contents, `resident, `disk, frame, physical
    {
      0 <= Flat(pageInts, p, offset) < |contents| && CellIs(p, offset, contents[Flat(pageInts, p, offset)])
    }

    ghost predicate ContentsOk()
      requires Shape()
      reads `inUse, `contents, `resident, `disk, frame, physical
    {
      && (forall p :: 0 <= p < inUse && p !in resident ==> OnDisk(p))
      && (forall p, offset :: 0 <= p < inUse && 0 <= offset < pageInts ==> CellOk(p, offset))
    }

    /** A resident page's marker says when it was last used or loaded. */
    ghost predicate MarkerOk(p: nat)
      requires Shape()
      reads `inUse, `contents, `history, `birth, marker
    {
      p < numPages && p in history && marker[p] == birth + LastUse(history, p)
    }

    ghost predicate HistoryOk(except: set<nat>)
      requires Shape()
      reads `inUse, `contents, `history, `birth, `resident, `useMarker, marker
    {
      && useMarker == birth + |history|
      && (forall p :: p in resident && p !in except ==> MarkerOk(p))
    }

    ghost predicate Sound()
      reads `inUse, `contents, `resident, `disk, `history, `birth, `useMarker, frame, valid, marker, physical
    {
      Shape() && ResidentOk() && FramesOk() && ContentsOk() && HistoryOk({}) && (inUse > 0 ==> resident != {})
    }

    ghost function CacheNow(): Cache
      reads `resident, `history, `numFaults
    {
      Cache(resident, history, numFaults)
    }

    /** Every access is counted and recorded. */
    ghost predicate Recorded()
      reads `numAccesses, `base, `origin, `touched, `states, `strategy, `resident, `history, `numFaults
    {
      && pageInts > 0 && numAccesses == base + |touched|
      && Record(states, touched, pageInts, strategy == LRU)
      && states[0] == origin && states[|touched|] == CacheNow()
    }

    ghost predicate Valid()
      reads this, frame, valid, marker, physical
    {
      Sound() && Recorded()
    }

    /** The markers of resident pages are distinct, none older than initialize, and use_marker is
        above them all; it has moved by one for each page loaded at first and each access since. */
    lemma MarkersDiffer(p: nat, q: nat)
      requires Sound() && p in resident && q in resident && p != q
      ensures p < numPages && q < numPages && marker[p] != marker[q] && birth <= marker[p] < useMarker
      ensures useMarker == birth + |history|
    {
      assert MarkerOk(p) && MarkerOk(q);
      LastUseFinds(history, p);
      LastUseFinds(history, q);
    }

    /** The cell of an in-use int. */
    lemma Locate(i: nat)
      requires Shape() && ContentsOk() && i < |contents|
      ensures var page, offset := PageOf(pageInts, i), OffsetOf(pageInts, i);
              && 0 <= page < inUse && 0 <= offset < pageInts && CellOk(page, offset)
              && 4 * i / (INT_SIZE * pageInts) == page
              && 4 * i - INT_SIZE * pageInts * page == 4 * offset
              && Flat(pageInts, page, offset) == i
    {
      ByteAddress(pageInts, i);
      FlatOfIndex(pageInts, i);
      PageInRange(pageInts, inUse, i);
      assert CellOk(PageOf(pageInts, i), OffsetOf(pageInts, i));
    }

    /** translate_addr: the physical address, after marking the page used, or -1 and no change when
        the page is not resident. */
    method TranslateAddr(virtAddr: int, ghost page: nat, ghost offset: nat) returns (physAddr: int)
      requires Shape() && ResidentOk() && FramesOk() && ContentsOk() && HistoryOk({page})
      requires page == virtAddr / (INT_SIZE * pageInts) && page < inUse && offset < pageInts
      requires virtAddr - INT_SIZE * pageInts * page == 4 * offset
      modifies `useMarker, `history, marker
      ensures FramesOk() && ContentsOk()
      ensures physAddr == -1 <==> page !in resident
      ensures physAddr == -1 ==> unchanged(this) && unchanged(marker)
      ensures physAddr != -1 ==> HistoryOk({}) && history == old(history) + [page]
      ensures physAddr != -1 ==> physAddr == 4 * Flat(pageInts, frame[page], offset)
    {
      var loadedPage := virtAddr / (INT_SIZE * pageInts);
      var loadedOffset := virtAddr - INT_SIZE * pageInts * loadedPage;
      if !valid[loadedPage] {
        return -1;
      }
      assert OwnFrame(page, page);
      physAddr := frame[loadedPage] * (INT_SIZE * pageInts) + loadedOffset;
      FrameAddress(frame[loadedPage], offset);
      marker[loadedPage] := useMarker;
      useMarker := useMarker + 1;
      history := history + [page];
      forall p | p in resident ensures MarkerOk(p) {
        assert p != page ==> old(MarkerOk(p));
        UseStep(old(history), page, p);
      }
    }

    lemma FrameAddress(f: int, offset: nat)
      requires f >= 0
      ensures f * (INT_SIZE * pageInts) + 4 * offset == 4 * Flat(pageInts, f, offset) >= 0
    {
      MulNonNegative(f, pageInts);
      assert f * (INT_SIZE * pageInts) == 4 * (f * pageInts);
    }

    static lemma UseStep(h: seq<nat>, page: nat, p: nat)
      ensures LastUse(h + [page], p) == if p == page then |h| else LastUse(h, p)
      ensures p in h + [page] <==> p == page || p in h
    {
      assert (h + [page])[..|h|] == h;
    }

    /** The RANDOM strategy: some resident page. */
    method PickRandom() returns (victim: int)
      requires Shape() && ResidentOk() && resident != {}
      ensures 0 <= victim < numPages && victim in resident
    {
      assert exists p: nat :: p < numPages && valid[p] by {
        var p :| p in resident;
      }
      victim :| 0 <= victim < numPages && valid[victim];
    }

    /** The LRU strategy: the resident page with the least marker, which is the one whose last use
        or load is earliest in the whole history. */
    method PickOldest() returns (victim: int)
      requires Shape() && ResidentOk() && resident != {} && HistoryOk({})
      ensures 0 <= victim < numPages && Oldest(history, resident, victim)
    {
      victim := -1;
      var least := 0;
      for p := 0 to numPages
        invariant -1 <= victim < p
        invariant victim == -1 ==> forall q: nat :: q < p ==> q !in resident
        invariant victim >= 0 ==> victim in resident && least == marker[victim]
        invariant victim >= 0 ==> forall q: nat :: q < p && q in resident ==> marker[victim] <= marker[q]
      {
        if valid[p] && (victim == -1 || marker[p] < least) {
          victim := p;
          least := marker[p];
        }
      }
      assert victim >= 0;
      forall p | p in resident ensures LastUse(history, victim) <= LastUse(history, p) {
        assert MarkerOk(p) && MarkerOk(victim);
      }
    }

    /** Step 2 of a page fault: write the victim to disk and take it out of the page table. */
    method Evict(victim: nat) returns (f: int)
      requires Shape() && ResidentOk() && FramesOk() && ContentsOk() && HistoryOk({}) && victim in resident
      modifies `disk, `resident, valid
      ensures resident == old(resident) - {victim}
      ensures ResidentOk() && FramesOk() && ContentsOk() && HistoryOk({})
      ensures 0 <= f < numFrames && forall p: nat :: p in resident ==> p < numPages && frame[p] != f
    {
      assert OwnFrame(victim, victim);
      f := frame[victim];
      FrameRange(f);
      disk := disk[victim := physical[f * pageInts..f * pageInts + pageInts]];
      valid[victim] := false;
      resident := resident - {victim};
      forall p: nat | p in resident ensures p < numPages && frame[p] != f {
        assert OwnFrame(p, victim);
      }
      forall p, q | p in resident && q in resident ensures OwnFrame(p, q) {
        assert old(OwnFrame(p, q));
      }
      forall p, o | 0 <= p < inUse && 0 <= o < pageInts ensures CellOk(p, o) {
        assert old(CellOk(p, o));
        if p == victim {
          assert disk[p][o] == physical[Flat(pageInts, f, o)];
        }
      }
      forall p | p in resident ensures MarkerOk(p) {
        assert old(MarkerOk(p));
      }
    }

    lemma FrameRange(f: int)
      requires Shape() && 0 <= f < numFrames
      ensures 0 <= f * pageInts && f * pageInts + pageInts <= physical.Length
    {
      FlatBounds(pageInts, numFrames, f, 0);
    }

    /** fread of one page into frame f. */
    method ReadFile(file: seq<int>, f: int)
      requires Shape() && |file| == pageInts && 0 <= f < numFrames
      modifies physical
      ensures 0 <= f * pageInts && f * pageInts + pageInts <= physical.Length
      ensures forall o :: 0 <= o < pageInts ==> physical[Flat(pageInts, f, o)] == file[o]
      ensures forall i :: 0 <= i < physical.Length && !(f * pageInts <= i < f * pageInts + pageInts) ==>
                physical[i] == old(physical[i])
    {
      FrameRange(f);
      var start := f * pageInts;
      for o := 0 to pageInts
        invariant forall j :: 0 <= j < o ==> physical[start + j] == file[j]
        invariant forall i :: 0 <= i < physical.Length && !(start <= i < start + pageInts) ==> physical[i] == old(physical[i])
      {
        physical[start + o] := file[o];
      }
    }

    /** Step 3: read a page from disk into the free frame f and enter it in the page table. */
    method LoadPage(page: nat, f: int)
      requires Shape() && ResidentOk() && FramesOk() && ContentsOk() && HistoryOk({})
      requires page < inUse && page !in resident && 0 <= f < numFrames
      requires forall p: nat :: p in resident ==> p < numPages && frame[p] != f
      modifies `resident, valid, frame, physical
      ensures resident == old(resident) + {page}
      ensures ResidentOk() && FramesOk() && ContentsOk() && HistoryOk({page})
    {
      assert OnDisk(page);
      ReadFile(disk[page], f);
      frame[page] := f;
      valid[page] := true;
      resident := resident + {page};
      forall p, q | p in resident && q in resident ensures OwnFrame(p, q) {
        assert (p == page || p in old(resident)) && (q == page || q in old(resident));
        assert p != page && q != page ==> old(OwnFrame(p, q));
      }
      forall p, o | 0 <= p < inUse && 0 <= o < pageInts ensures CellOk(p, o) {
        assert old(CellOk(p, o));
        if p == page {
          assert physical[Flat(pageInts, f, o)] == disk[page][o];
        } else if p in resident {
          assert p in old(resident) && old(OwnFrame(p, p));
          FrameCells(f, frame[p], o);
        }
      }
      forall p | p in resident && p != page ensures MarkerOk(p) {
        assert old(MarkerOk(p));
      }
    }

    /** The cells of one frame lie outside every other frame. */
    lemma FrameCells(f: int, g: int, o: nat)
      requires 0 <= f && 0 <= g && f != g && o < pageInts
      ensures !(f * pageInts <= Flat(pageInts, g, o) < f * pageInts + pageInts)
    {
      if f < g { StepUp(f, g, pageInts); } else { StepUp(g, f, pageInts); }
    }

    /** handle_page_fault: some resident page, under LRU the one unused for longest, makes room. */
    method HandlePageFault(virtAddr: int, ghost page: nat) returns (ghost victim: nat)
      requires Shape() && ResidentOk() && FramesOk() && ContentsOk() && HistoryOk({}) && resident != {}
      requires page == virtAddr / (INT_SIZE * pageInts) && page < inUse && page !in resident
      modifies `disk, `resident, valid, frame, physical
      ensures victim in old(resident) && resident == old(resident) - {victim} + {page}
      ensures strategy == LRU ==> Oldest(history, old(resident), victim)
      ensures ResidentOk() && FramesOk() && ContentsOk() && HistoryOk({page})
    {
      var evicted;
      match strategy {
        case RANDOM => evicted := PickRandom();
        case LRU => evicted := PickOldest();
      }
      victim := evicted;
      var f := Evict(evicted);
      LoadPage(virtAddr / (INT_SIZE * pageInts), f);
    }

    /** The fault branch of access. */
    method Fault(virtAddr: int, ghost page: nat, ghost offset: nat) returns (physAddr: int, ghost victim: nat)
      requires Sound() && page < inUse && offset < pageInts && page !in resident
      requires page == virtAddr / (INT_SIZE * pageInts) && virtAddr - INT_SIZE * pageInts * page == 4 * offset
      modifies `numFaults, `disk, `resident, `useMarker, `history, valid, frame, marker, physical
      ensures Sound() && page in resident && physAddr == 4 * Flat(pageInts, frame[page], offset)
      ensures victim in old(resident) && resident == old(resident) - {victim} + {page}
      ensures numFaults == old(numFaults) + 1 && history == old(history) + [page]
      ensures strategy == LRU ==> Oldest(old(history), old(resident), victim)
    {
      numFaults := numFaults + 1;
      victim := HandlePageFault(virtAddr, page);
      physAddr := TranslateAddr(virtAddr, page, offset);
    }

    /** access: an int index into physical memory that holds the addressed int. The page has become
        resident, in place of some resident page if it was not. */
    method Access(virtAddr: int, ghost i: nat, ghost page: nat, ghost offset: nat) returns (j: int, ghost victim: nat)
      requires Sound() && virtAddr == 4 * i && i < |contents|
      requires page == PageOf(pageInts, i) && offset == OffsetOf(pageInts, i)
      modifies `numAccesses, `numFaults, `disk, `resident, `useMarker, `history, valid, frame, marker, physical
      ensures Sound() && page in resident && page < inUse && Flat(pageInts, page, offset) == i
      ensures 0 <= j < physical.Length && j == Flat(pageInts, frame[page], offset) && physical[j] == contents[i]
      ensures numAccesses == old(numAccesses) + 1 && history == old(history) + [page] && |resident| == old(|resident|)
      ensures page in old(resident) ==> numFaults == old(numFaults) && resident == old(resident)
      ensures page !in old(resident) ==>
                numFaults == old(numFaults) + 1 && victim in old(resident) && resident == old(resident) - {victim} + {page}
      ensures page !in old(resident) && strategy == LRU ==> Oldest(old(history), old(resident), victim)
    {
      Locate(i);
      victim := 0;
      numAccesses := numAccesses + 1;
      var physAddr := TranslateAddr(virtAddr, page, offset);
      if physAddr == -1 {
        physAddr, victim := Fault(virtAddr, page, offset);
      }
      j := physAddr / 4;
      assert CellOk(page, offset);
    }

    lemma CacheKnown()
      requires Sound() && resident != {}
      ensures Known(CacheNow())
    {
      assert forall p :: p in resident ==> MarkerOk(p);
    }

    /** load, but for the record */
    method Fetch(virtAddr: int, ghost i: nat) returns (v: int)
      requires Sound() && virtAddr == 4 * i && i < |contents|
      modifies `numAccesses, `numFaults, `disk, `resident, `useMarker, `history, valid, frame, marker, physical
      ensures Sound() && v == contents[i] && |resident| == old(|resident|) && numAccesses == old(numAccesses) + 1
      ensures history == old(history) + [PageOf(pageInts, i)]
      ensures PageOf(pageInts, i) in old(resident) ==> resident == old(resident) && numFaults == old(numFaults)
      ensures strategy == LRU ==> CacheNow() == Touch(old(CacheNow()), PageOf(pageInts, i))
    {
      var j;
      ghost var before, victim := CacheNow(), 0;
      Locate(i);
      CacheKnown();
      j, victim := Access(virtAddr, i, PageOf(pageInts, i), OffsetOf(pageInts, i));
      if strategy == LRU { TouchIs(before, CacheNow(), PageOf(pageInts, i), victim); }
      return physical[j];
    }

    /** store, but for the record */
    method Put(virtAddr: int, v: int, ghost i: nat)
      requires Sound() && virtAddr == 4 * i && i < |contents|
      modifies `numAccesses, `numFaults, `disk, `resident, `useMarker, `history, `contents, valid, frame, marker, physical
      ensures Sound() && contents == old(contents)[i := v] && |resident| == old(|resident|)
      ensures numAccesses == old(numAccesses) + 1 && history == old(history) + [PageOf(pageInts, i)]
      ensures PageOf(pageInts, i) in old(resident) ==> resident == old(resident) && numFaults == old(numFaults)
      ensures strategy == LRU ==> CacheNow() == Touch(old(CacheNow()), PageOf(pageInts, i))
    {
      ghost var page, offset := PageOf(pageInts, i), OffsetOf(pageInts, i);
      var j;
      ghost var before, victim := CacheNow(), 0;
      Locate(i);
      CacheKnown();
      j, victim := Access(virtAddr, i, page, offset);
      if strategy == LRU { TouchIs(before, CacheNow(), page, victim); }
      Write(j, v, i, page, offset);
    }

    /** load */
    method Load(virtAddr: int, ghost i: nat) returns (v: int)
      requires Valid() && virtAddr == 4 * i && i < |contents|
      modifies `numAccesses, `numFaults, `disk, `resident, `useMarker, `history, `touched, `states
      modifies valid, frame, marker, physical
      ensures Valid() && v == contents[i] && |resident| == old(|resident|)
      ensures touched == old(touched) + [i]
      ensures strategy == LRU ==> CacheNow() == Touch(old(CacheNow()), PageOf(pageInts, i))
    {
      hide Sound;
      v := Fetch(virtAddr, i);
      RecordMore(states, touched, pageInts, strategy == LRU, CacheNow(), i);
      touched, states := touched + [i], states + [CacheNow()];
    }

    /** store */
    method Store(virtAddr: int, v: int, ghost i: nat)
      requires Valid() && virtAddr == 4 * i && i < |contents|
      modifies `numAccesses, `numFaults, `disk, `resident, `useMarker, `history, `touched, `states, `contents
      modifies valid, frame, marker, physical
      ensures Valid() && contents == old(contents)[i := v] && |resident| == old(|resident|)
      ensures touched == old(touched) + [i]
      ensures strategy == LRU ==> CacheNow() == Touch(old(CacheNow()), PageOf(pageInts, i))
    {
      hide Sound;
      Put(virtAddr, v, i);
      RecordMore(states, touched, pageInts, strategy == LRU, CacheNow(), i);
      touched, states := touched + [i], states + [CacheNow()];
    }

    /** Writing the int that access found. */
    method Write(j: int, v: int, ghost i: nat, ghost page: nat, ghost offset: nat)
      requires Sound() && page in resident && page < inUse && offset < pageInts && Flat(pageInts, page, offset) == i
      requires 0 <= j < physical.Length && j == Flat(pageInts, frame[page], offset) && i < |contents|
      modifies `contents, physical
      ensures Sound() && contents == old(contents)[i := v]
    {
      physical[j] := v;
      contents := contents[i := v];
      forall p, o | 0 <= p < inUse && 0 <= o < pageInts ensures CellOk(p, o) {
        assert old(CellOk(p, o));
        assert p in resident ==> OwnFrame(p, page);
        if Flat(pageInts, p, o) == i { FlatUnique(pageInts, p, o, page, offset); }
        if p in resident && p != page { FrameCells(frame[page], frame[p], o); }
      }
    }

    constructor (pageInts: nat, numFrames: nat, numPages: nat)
      requires pageInts > 0 && 0 < numFrames <= numPages
      ensures this.pageInts == pageInts && this.numFrames == numFrames && this.numPages == numPages
      ensures Allocated() && fresh(frame) && fresh(valid) && fresh(marker) && fresh(physical) && useMarker == 0
    {
      MulNonNegative(numFrames, pageInts);
      this.pageInts, this.numFrames, this.numPages := pageInts, numFrames, numPages;
      frame, valid, marker := new int[numPages], new bool[numPages], new int[numPages];
      physical := new int[numFrames * pageInts];
      disk := map[];
      useMarker, numFaults, numAccesses := 0, 0, 0;
      strategy := RANDOM;
      contents, inUse, resident, history, birth := [], 0, {}, [], 0;
      base, origin, touched, states := 0, Initial(0), [], [];
    }

    ghost predicate Allocated() {
      && pageInts > 0 && 0 < numFrames <= numPages
      && frame.Length == valid.Length == marker.Length == numPages
      && physical.Length == numFrames * pageInts
      && frame != marker && frame != physical && marker != physical
    }

    /** How many of the u pages in use initialize puts into frames. */
    function Loaded(u: nat): nat {
      if u < numFrames then u else numFrames
    }

    /** Where frame f begins. */
    static function FrameStart(f: nat, size: nat): nat {
      if f == 0 then 0 else FrameStart(f - 1, size) + size
    }

    static lemma {:induction false} FrameStartIs(f: nat, size: nat)
      ensures FrameStart(f, size) == f * size
    {
      if f > 0 {
        FrameStartIs(f - 1, size);
        assert f * size == (f - 1) * size + size;
      }
    }

    lemma FrameFits(f: nat)
      requires Allocated() && f <= numFrames
      ensures f < numFrames ==> FrameStart(f, pageInts) + pageInts <= physical.Length
      ensures f == numFrames ==> FrameStart(f, pageInts) == physical.Length
    {
      FrameStartIs(f, pageInts);
      if f < numFrames { StepUp(f, numFrames, pageInts); }
    }

    /** One frame is filled from data. */
    method FillFrame(data: seq<int>, start: nat)
      requires start + pageInts <= physical.Length <= |data|
      requires forall i :: 0 <= i < start ==> physical[i] == data[i]
      modifies physical
      ensures forall i :: 0 <= i < start + pageInts ==> physical[i] == data[i]
    {
      for i := 0 to pageInts
        invariant forall j :: 0 <= j < start + i ==> physical[j] == data[j]
      {
        physical[start + i] := data[start + i];
      }
    }

    /** The table entry of a page with a frame, the page being in use or not. */
    method EnterPage(page: nat, used: bool)
      requires Allocated() && page < numFrames
      modifies `useMarker, frame, valid, marker
      ensures valid[page] == used && (used ==> frame[page] == page && marker[page] == old(useMarker))
      ensures useMarker == old(useMarker) + if used then 1 else 0
      ensures forall p: nat :: p < page ==> valid[p] == old(valid[p]) && frame[p] == old(frame[p]) && marker[p] == old(marker[p])
    {
      if used {
        frame[page] := page;
        valid[page] := true;
        marker[page] := useMarker;
        useMarker := useMarker + 1;
      } else {
        valid[page] := false;
      }
    }

    /** The first loop of initialize: fill the frames, and enter the pages in use. */
    method FillFrames(data: seq<int>, u: nat)
      requires Allocated() && physical.Length <= |data| && useMarker == birth
      modifies `useMarker, frame, valid, marker, physical
      ensures forall i :: 0 <= i < physical.Length ==> physical[i] == data[i]
      ensures forall p: nat :: p < numFrames ==> (valid[p] <==> p < u)
      ensures forall p: nat :: p < Loaded(u) ==> frame[p] == p && marker[p] == birth + p
      ensures useMarker == birth + Loaded(u)
    {
      var start := 0;
      for page := 0 to numFrames
        invariant start == FrameStart(page, pageInts) <= physical.Length
        invariant forall i :: 0 <= i < start ==> physical[i] == data[i]
        invariant forall p: nat :: p < page ==> (valid[p] <==> p < u)
        invariant forall p: nat :: p < page && p < u ==> frame[p] == p && marker[p] == birth + p
        invariant useMarker == birth + if page < u then page else u
      {
        FrameFits(page);
        FillFrame(data, start);
        EnterPage(page, page < u);
        start := start + pageInts;
      }
      FrameFits(numFrames);
    }

    /** The second loop of initialize: the other pages in use are on disk. What their files hold is
        a parameter. */
    method FillDisk(files: map<nat, seq<int>>, u: nat)
      requires Allocated() && forall p :: numFrames <= p < u ==> p in files
      modifies `disk, valid
      ensures forall p: nat :: numFrames <= p < numPages ==> !valid[p]
      ensures forall p: nat :: p < numFrames ==> valid[p] == old(valid[p])
      ensures forall p :: numFrames <= p < u && p < numPages ==> p in disk && disk[p] == files[p]
    {
      for page := numFrames to numPages
        invariant forall p: nat :: numFrames <= p < page ==> !valid[p]
        invariant forall p: nat :: p < numFrames ==> valid[p] == old(valid[p])
        invariant forall p :: numFrames <= p < u && p < page ==> p in disk && disk[p] == files[p]
      {
        valid[page] := false;
        if page < u {
          disk := disk[page := files[page]];
        }
      }
    }

    /** What the program finds at int i after initialize: data, for pages loaded into frames, else
        what the page's file holds. */
    ghost function Origin(data: seq<int>, files: map<nat, seq<int>>, i: nat): int
      requires pageInts > 0
    {
      var page, offset := PageOf(pageInts, i), OffsetOf(pageInts, i);
      if page < numFrames then (if i < |data| then data[i] else 0)
      else if page in files && offset < |files[page]| then files[page][offset]
      else 0
    }

    /** initialize, but for the record */
    method SetUp(data: seq<int>, n: nat, files: map<nat, seq<int>>)
      requires Allocated() && 0 < n <= numPages * pageInts && numFrames * pageInts <= |data|
      requires forall p :: numFrames <= p < PagesFor(pageInts, n) ==> p in files && |files[p]| == pageInts
      modifies `disk, `useMarker, `contents, `inUse, `resident, `history, `birth, frame, valid, marker, physical
      ensures Sound() && inUse == PagesFor(pageInts, n) && n <= |contents|
      ensures CacheNow() == Initial(Loaded(inUse)).(faults := numFaults)
      ensures birth == old(useMarker)
      ensures forall i :: 0 <= i < |contents| ==> contents[i] == Origin(data, files, i)
    {
      var pagesInUse := CountPages(n);
      birth := useMarker;
      FillFrames(data, pagesInUse);
      FillDisk(files, pagesInUse);
      inUse := pagesInUse;
      resident := UpTo(Loaded(inUse));
      history := Initial(Loaded(inUse)).history;
      contents := seq(inUse * pageInts, i requires 0 <= i => Origin(data, files, i));
      StartsValid(data, files);
    }

    /** initialize: the frames are filled from data, the first pages become resident in page order,
        and `files` is what the files of the other pages in use hold. */
    method Initialize(data: seq<int>, n: nat, files: map<nat, seq<int>>)
      requires Allocated() && 0 < n <= numPages * pageInts && numFrames * pageInts <= |data|
      requires forall p :: numFrames <= p < PagesFor(pageInts, n) ==> p in files && |files[p]| == pageInts
      modifies `disk, `useMarker, `contents, `inUse, `resident, `history, `birth, `base, `origin, `touched, `states
      modifies frame, valid, marker, physical
      ensures Valid() && touched == [] && origin == CacheNow() && inUse == PagesFor(pageInts, n) && n <= |contents|
      ensures CacheNow() == Initial(Loaded(inUse)).(faults := numFaults)
      ensures birth == old(useMarker)
      ensures forall i :: 0 <= i < |contents| ==> contents[i] == Origin(data, files, i)
      ensures forall p: nat :: p in resident <==> p < inUse && p < numFrames
    {
      SetUp(data, n, files);
      StartRecord();
    }

    /** Ints of the pages that fit into the frames start out as the data, the others as their files. */
    lemma OriginIs(data: seq<int>, files: map<nat, seq<int>>, page: nat, offset: nat)
      requires offset < pageInts && numFrames * pageInts <= |data|
      ensures page < numFrames ==> 0 <= page * pageInts + offset < |data|
      ensures page < numFrames ==> Origin(data, files, page * pageInts + offset) == data[page * pageInts + offset]
      ensures page >= numFrames && page in files && |files[page]| == pageInts ==>
                0 <= page * pageInts && Origin(data, files, page * pageInts + offset) == files[page][offset]
    {
      PageOfFlat(pageInts, page, offset);
      if page < numFrames { FlatBounds(pageInts, numFrames, page, offset); }
      MulNonNegative(page, pageInts);
    }

    ghost method StartRecord()
      requires Sound()
      modifies `base, `origin, `touched, `states
      ensures Valid() && base == numAccesses && touched == [] && origin == CacheNow()
    {
      base, origin, touched, states := numAccesses, CacheNow(), [], [CacheNow()];
    }

    /** The counts start from zero, before each measurement. */
    method ResetCounts()
      requires Valid()
      modifies `numFaults, `numAccesses, `base, `origin, `touched, `states
      ensures Valid() && numFaults == numAccesses == base == 0 && touched == []
      ensures origin == CacheNow()
    {
      numFaults := 0;
      numAccesses := 0;
      StartRecord();
    }

    method CountPages(n: nat) returns (u: nat)
      requires Allocated() && 0 < n <= numPages * pageInts
      ensures 0 < u == PagesFor(pageInts, n) <= numPages && n <= u * pageInts
    {
      RoundUpToPages(pageInts, n);
      PagesForBounds(pageInts, n);
      PagesWithin(pageInts, numPages, n);
      u := (n * INT_SIZE + INT_SIZE * pageInts - 1) / (INT_SIZE * pageInts);
    }

    lemma StartsValid(data: seq<int>, files: map<nat, seq<int>>)
      requires Allocated() && 0 < inUse <= numPages && |contents| == inUse * pageInts
      requires numFrames * pageInts <= |data|
      requires resident == UpTo(Loaded(inUse)) && history == Initial(Loaded(inUse)).history
      requires useMarker == birth + Loaded(inUse)
      requires forall p: nat :: p < numPages ==> (valid[p] <==> p < Loaded(inUse))
      requires forall p: nat :: p < Loaded(inUse) ==> frame[p] == p && marker[p] == birth + p
      requires forall p :: numFrames <= p < inUse ==> p in files && |files[p]| == pageInts && p in disk && disk[p] == files[p]
      requires forall i :: 0 <= i < numFrames * pageInts ==> physical[i] == data[i]
      requires forall i :: 0 <= i < |contents| ==> contents[i] == Origin(data, files, i)
      ensures Sound()
    {
      forall p | p in resident ensures MarkerOk(p) {
        assert history[p] == p;
        InitialUse(Loaded(inUse), p);
      }
      forall p, o | 0 <= p < inUse && 0 <= o < pageInts ensures CellOk(p, o) {
        FirstCell(data, files, p, o);
      }
      assert 0 in resident;
    }

    lemma FirstCell(data: seq<int>, files: map<nat, seq<int>>, p: nat, o: nat)
      requires Shape() && Allocated() && p < inUse && o < pageInts && numFrames * pageInts <= |data|
      requires p in resident <==> p < numFrames
      requires p in resident ==> frame[p] == p
      requires p !in resident ==> p in files && |files[p]| == pageInts && p in disk && disk[p] == files[p]
      requires forall i :: 0 <= i < numFrames * pageInts ==> physical[i] == data[i]
      requires forall i :: 0 <= i < |contents| ==> contents[i] == Origin(data, files, i)
      ensures CellOk(p, o)
    {
      FlatBounds(pageInts, inUse, p, o);
      PageOfFlat(pageInts, p, o);
      if p < numFrames { FlatBounds(pageInts, numFrames, p, o); }
    }
  }

  /** The pages of a sequence of ints. */
  function PagesOf(size: nat, ints: seq<nat>): seq<nat>
    requires size > 0
  {
    seq(|ints|, k requires 0 <= k < |ints| => PageOf(size, ints[k]))
  }

  /** Access k leads from state k to state k + 1. */
  ghost predicate MoveAt(states: seq<Cache>, touched: seq<nat>, size: nat, lru: bool, k: nat)
    requires size > 0
  {
    && k < |touched| && k + 1 < |states|
    && var page := PageOf(size, touched[k]);
    && states[k + 1].history == states[k].history + [page]
    && (page in states[k].resident ==> states[k + 1] == states[k].(history := states[k + 1].history))
    && (lru ==> states[k + 1] == Touch(states[k], page))
  }

  ghost predicate Record(states: seq<Cache>, touched: seq<nat>, size: nat, lru: bool)
    requires size > 0
  {
    |states| == |touched| + 1 && forall k :: 0 <= k < |touched| ==> MoveAt(states, touched, size, lru, k)
  }

  lemma RecordMore(states: seq<Cache>, touched: seq<nat>, size: nat, lru: bool, now: Cache, i: nat)
    requires size > 0 && Record(states, touched, size, lru)
    requires now.history == states[|touched|].history + [PageOf(size, i)]
    requires PageOf(size, i) in states[|touched|].resident ==>
      now.resident == states[|touched|].resident && now.faults == states[|touched|].faults
    requires lru ==> now == Touch(states[|touched|], PageOf(size, i))
    ensures Record(states + [now], touched + [i], size, lru)
  {
    forall k | 0 <= k <= |touched| ensures MoveAt(states + [now], touched + [i], size, lru, k) {
      assert k < |touched| ==> MoveAt(states, touched, size, lru, k);
    }
  }

  lemma RecordPrefix(states: seq<Cache>, touched: seq<nat>, size: nat, lru: bool)
    requires size > 0 && Record(states, touched, size, lru) && touched != []
    ensures Record(states[..|touched|], touched[..|touched| - 1], size, lru)
    ensures MoveAt(states, touched, size, lru, |touched| - 1)
    ensures PagesOf(size, touched) == PagesOf(size, touched[..|touched| - 1]) + [PageOf(size, touched[|touched| - 1])]
  {
    var most, before := states[..|touched|], touched[..|touched| - 1];
    forall k | 0 <= k < |before| ensures MoveAt(most, before, size, lru, k) {
      assert MoveAt(states, touched, size, lru, k);
    }
  }

  /** What a record amounts to: the history grows by the pages touched, and under LRU the state is
      where the policy comes to on these pages. */
  lemma {:induction false} RecordIs(states: seq<Cache>, touched: seq<nat>, size: nat, lru: bool)
    requires size > 0 && Record(states, touched, size, lru)
    ensures states[|touched|].history == states[0].history + PagesOf(size, touched)
    ensures lru ==> states[|touched|] == TouchAll(states[0], PagesOf(size, touched))
    decreases |touched|
  {
    if touched != [] {
      var n := |touched| - 1;
      RecordPrefix(states, touched, size, lru);
      RecordIs(states[..n + 1], touched[..n], size, lru);
      var pages := PagesOf(size, touched);
      assert pages[..n] == PagesOf(size, touched[..n]);
    }
  }

  /** Touching pages that are resident changes neither residency nor faults, whatever the strategy. */
  lemma {:induction false} RecordStays(states: seq<Cache>, touched: seq<nat>, size: nat, lru: bool)
    requires size > 0 && Record(states, touched, size, lru)
    requires forall k :: 0 <= k < |touched| ==> PageOf(size, touched[k]) in states[0].resident
    ensures states[|touched|].resident == states[0].resident && states[|touched|].faults == states[0].faults
    decreases |touched|
  {
    if touched != [] {
      var n := |touched| - 1;
      RecordPrefix(states, touched, size, lru);
      RecordStays(states[..n + 1], touched[..n], size, lru);
    }
  }

  /** Two simulators that have accessed the same ints under LRU since they were initialized and
      their counts reset: the one with more frames holds every page the other holds, and has not
      faulted more often. */
  lemma MoreFramesNeverHurt(few: Simulator, many: Simulator)
    requires few.Valid() && many.Valid() && few.pageInts == many.pageInts && few.strategy == many.strategy == LRU
    requires 0 < few.numFrames <= many.numFrames && 0 < few.inUse == many.inUse
    requires few.origin == Initial(few.Loaded(few.inUse)) && many.origin == Initial(many.Loaded(many.inUse))
    requires few.touched == many.touched
    ensures few.resident <= many.resident && many.numFaults <= few.numFaults
  {
    RecordIs(few.states, few.touched, few.pageInts, true);
    RecordIs(many.states, many.touched, many.pageInts, true);
    NoBelady(few.Loaded(few.inUse), many.Loaded(many.inUse), PagesOf(few.pageInts, few.touched));
  }
}
