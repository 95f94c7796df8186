/** The heap of mm.c as a list of blocks.

    Block starts are 8-aligned, so boundaries are counted in 8-byte words: block i occupies the
    words bounds[i] .. bounds[i+1], tags included. held[i] is the number of bytes the client asked
    for when it got the block, or 0 when the block is free; the roving pointer `search` stands at
    the start of block `cursor`.

    The functions say which block list each operation of mm.c must produce; Mm.dfy proves that the
    tag-writing code produces it, and the lemmas here prove what a client relies on. */
module HeapLayout {
  const WORD_RANGE: nat := 0x1_0000_0000_0000_0000
  const WORD_SIZE: nat := 8
  const MIN_PAYLOAD: nat := 16
  const CHUNK_SIZE: nat := 4096

  /** The smallest block, two tags and the minimal payload, in words. */
  const MIN_WORDS: nat := 4

  /** A size_t, a pointer, or an 8-byte memory word. */
  type Word = w: nat | w < WORD_RANGE

  // ---------- Sizes, with the wrap-around of size_t ----------

  function Roundup(size: Word): Word {
    var t := (size + 7) % WORD_RANGE;
    t - t % 8
  }

  function AdjustedSize(size: Word): Word {
    (2 * WORD_SIZE + if size < MIN_PAYLOAD then MIN_PAYLOAD else Roundup(size)) % WORD_RANGE
  }

  /** The largest request whose block size does not wrap. */
  const MAX_REQUEST: nat := WORD_RANGE - 24

  /** A block has room for its tags and the request exactly when the request is at most
      MAX_REQUEST; such a block is aligned, not too small, and wastes less than a word beyond the
      minimal payload. */
  lemma AdjustedSizeHasRoom(size: Word)
    ensures AdjustedSize(size) >= size + 16 <==> size <= MAX_REQUEST
    ensures size <= MAX_REQUEST ==>
              AdjustedSize(size) % 8 == 0 && AdjustedSize(size) >= 32 &&
              (AdjustedSize(size) == 32 || AdjustedSize(size) < size + 24)
  {
    if size <= MAX_REQUEST {
      assert (size + 7) % WORD_RANGE == size + 7;
    } else if size + 7 < WORD_RANGE {
      assert (size + 7) % WORD_RANGE == size + 7;
      assert Roundup(size) >= WORD_RANGE - 16;
    } else {
      assert (size + 7) % WORD_RANGE == size + 7 - WORD_RANGE < 8;
      assert Roundup(size) == 0;
    }
  }

  /** The words of the block a request needs. */
  function Need(size: Word): nat {
    AdjustedSize(size) / 8
  }

  lemma NeedHasRoom(size: Word)
    requires size <= MAX_REQUEST
    ensures Need(size) >= MIN_WORDS && size + 16 <= 8 * Need(size) == AdjustedSize(size)
  {
    AdjustedSizeHasRoom(size);
  }

  /** The words mm_malloc asks of mem_sbrk when no block fits: 256 bytes more than needed for a
      block below 256 bytes. */
  function Growth(need: nat): nat {
    if need < 32 then need + 32 else need
  }

  // ---------- Block lists ----------

  function InsertAt<T>(s: seq<T>, j: nat, x: T): (r: seq<T>)
    requires j <= |s|
    ensures |r| == |s| + 1
    ensures forall k {:trigger r[k]} :: 0 <= k < |r| ==> r[k] == if k < j then s[k] else if k == j then x else s[k - 1]
  {
    seq(|s| + 1, k requires 0 <= k <= |s| => if k < j then s[k] else if k == j then x else s[k - 1])
  }

  function RemoveAt<T>(s: seq<T>, j: nat): (r: seq<T>)
    requires j < |s|
    ensures |r| == |s| - 1
    ensures forall k {:trigger r[k]} :: 0 <= k < |r| ==> r[k] == if k < j then s[k] else s[k + 1]
  {
    seq(|s| - 1, k requires 0 <= k < |s| - 1 => if k < j then s[k] else s[k + 1])
  }

  lemma RemoveUndoesInsert<T>(s: seq<T>, j: nat, x: T)
    requires j <= |s|
    ensures RemoveAt(InsertAt(s, j, x), j) == s
  {
  }

  lemma InsertUndoesRemove<T>(s: seq<T>, j: nat)
    requires j < |s|
    ensures InsertAt(RemoveAt(s, j), j, s[j]) == s
  {
  }

  /** Boundary j stands at least a block above boundary i. */
  predicate Above(b: seq<int>, i: nat, j: nat)
    requires i < j < |b|
  {
    b[i] + MIN_WORDS <= b[j]
  }

  ghost predicate Spaced(b: seq<int>) {
    forall i, j :: 0 <= i < j < |b| ==> Above(b, i, j)
  }

  ghost predicate Roomy(b: seq<int>, h: seq<nat>)
    requires |b| == |h| + 1
  {
    forall i {:trigger h[i]} :: 0 <= i < |h| && h[i] > 0 ==> h[i] + 16 <= 8 * (b[i + 1] - b[i])
  }

  /** The bytes lo .. hi, both included: the driver's record of a live payload. */
  datatype Range = Range(lo: int, hi: int)

  datatype Layout = Layout(bounds: seq<int>, held: seq<nat>, cursor: nat)
  {
    function N(): nat { |held| }

    ghost predicate Shaped() {
      |bounds| == |held| + 1 && |held| >= 1
    }

    function Base(): int
      requires Shaped()
    {
      bounds[0]
    }

    function Top(): int
      requires Shaped()
    {
      bounds[|held|]
    }

    function Size(i: nat): int
      requires Shaped() && i < N()
    {
      bounds[i + 1] - bounds[i]
    }

    predicate Free(i: nat)
      requires i < N()
    {
      held[i] == 0
    }

    /** The blocks tile Base() .. Top(), at least 32 bytes each, and large enough for two tags and
        the bytes held. */
    ghost predicate Tiled() {
      Shaped() && Spaced(bounds) && Roomy(bounds, held)
    }

    /** No two neighbours are both free. */
    ghost predicate Coalesced() {
      forall i :: 1 <= i < N() ==> held[i - 1] > 0 || held[i] > 0
    }

    ghost predicate WF() {
      Tiled() && Coalesced() && cursor < N()
    }

    /** The extents of all live payloads. */
    ghost function Live(): set<Range>
      requires Shaped()
    {
      set i | 0 <= i < N() && held[i] > 0 :: RangeAt(i)
    }

    function RangeAt(i: nat): Range
      requires Shaped() && i < N()
    {
      Range(8 * bounds[i] + 8, 8 * bounds[i] + 7 + held[i])
    }
  }

  /** A free block of at least `need` words. */
  predicate Fit(L: Layout, i: nat, need: nat)
    requires L.Shaped() && i < L.N()
  {
    L.held[i] == 0 && L.bounds[i + 1] - L.bounds[i] >= need
  }

  ghost predicate SomeFit(L: Layout, need: nat)
    requires L.Shaped()
  {
    exists i :: 0 <= i < L.N() && Fit(L, i, need)
  }

  /** The least fitting index of lo .. hi, or hi. */
  function FirstFrom(L: Layout, need: nat, lo: nat, hi: nat): (r: nat)
    requires L.Shaped() && lo <= hi <= L.N()
    ensures lo <= r <= hi
    decreases hi - lo
  {
    if lo == hi || Fit(L, lo, need) then lo else FirstFrom(L, need, lo + 1, hi)
  }

  lemma {:induction false} FirstFromSpec(L: Layout, need: nat, lo: nat, hi: nat)
    requires L.Shaped() && lo <= hi <= L.N()
    ensures var r := FirstFrom(L, need, lo, hi);
            (r < hi ==> Fit(L, r, need)) && forall j :: lo <= j < r ==> !Fit(L, j, need)
    decreases hi - lo
  {
    if lo < hi && !Fit(L, lo, need) { FirstFromSpec(L, need, lo + 1, hi); }
  }

  lemma FirstFromIs(L: Layout, need: nat, lo: nat, hi: nat, r: nat)
    requires L.Shaped() && lo <= r <= hi <= L.N()
    requires r < hi ==> Fit(L, r, need)
    requires forall j :: lo <= j < r ==> !Fit(L, j, need)
    ensures FirstFrom(L, need, lo, hi) == r
  {
    FirstFromSpec(L, need, lo, hi);
    var f := FirstFrom(L, need, lo, hi);
    assert f < hi ==> Fit(L, f, need);
  }

  /** The block next_fit chooses, or N() when it gives up. */
  function NextFit(L: Layout, need: nat): (r: nat)
    requires L.Shaped() && L.cursor < L.N()
  {
    var r := FirstFrom(L, need, L.cursor, L.N());
    if r < L.N() then r
    else
      var r' := FirstFrom(L, need, 0, L.cursor);
      if r' < L.cursor then r' else L.N()
  }

  /** next_fit gives up exactly when no block fits, exactly when first_fit does, and otherwise
      chooses the fitting block nearest to the roving pointer in circular order. */
  lemma NextFitComplete(L: Layout, need: nat)
    requires L.Shaped() && L.cursor < L.N()
    ensures NextFit(L, need) == L.N() <==> !SomeFit(L, need)
    ensures NextFit(L, need) == L.N() <==> FirstFrom(L, need, 0, L.N()) == L.N()
    ensures SomeFit(L, need) ==>
              var r := NextFit(L, need);
              r < L.N() && Fit(L, r, need) &&
              forall j :: 0 <= j < L.N() && Fit(L, j, need) ==>
                (if r >= L.cursor then r - L.cursor else L.N() - L.cursor + r) <=
                (if j >= L.cursor then j - L.cursor else L.N() - L.cursor + j)
  {
    FirstFromSpec(L, need, L.cursor, L.N());
    FirstFromSpec(L, need, 0, L.cursor);
    FirstFromSpec(L, need, 0, L.N());
    var r, r' := FirstFrom(L, need, L.cursor, L.N()), FirstFrom(L, need, 0, L.cursor);
    if SomeFit(L, need) {
      var k :| 0 <= k < L.N() && Fit(L, k, need);
      assert r == L.N() ==> k < L.cursor && r' < L.cursor;
    }
    assert FirstFrom(L, need, 0, L.N()) < L.N() ==> Fit(L, FirstFrom(L, need, 0, L.N()), need);
  }

  // ---------- What the operations do to the block list ----------

  function InitLayout(start: nat): Layout {
    Layout([(start + 7) / 8, (start + 7) / 8 + CHUNK_SIZE / 8], [0], 0)
  }

  /** A further free block above the old top. */
  function Grow(L: Layout, words: nat): Layout
    requires L.Shaped()
  {
    L.(bounds := L.bounds + [L.Top() + words], held := L.held + [0])
  }

  /** Cut free block i in two after its first `words` words. */
  function Split(L: Layout, i: nat, words: nat): Layout
    requires L.Shaped() && i < L.N()
  {
    Layout(InsertAt(L.bounds, i + 1, L.bounds[i] + words), InsertAt(L.held, i + 1, 0), L.cursor)
  }

  /** Split off what exceeds `need` in block i if that is worth a block. */
  function Carve(L: Layout, i: nat, need: nat): (C: Layout)
    requires L.Shaped() && i < L.N()
    ensures C.Shaped() && i < C.N()
  {
    if L.Size(i) - need <= MIN_WORDS then L else Split(L, i, need)
  }

  /** Give block i, carved to `need` words, to a request of `size` bytes. */
  function Place(L: Layout, i: nat, need: nat, size: nat): Layout
    requires L.Shaped() && i < L.N()
  {
    var C := Carve(L, i, need);
    Layout(C.bounds, C.held[i := size], i)
  }

  /** The layout Place starts from: grown when nothing fits. */
  function Room(L: Layout, need: nat): (R: Layout)
    requires L.Shaped() && L.cursor < L.N()
  {
    if NextFit(L, need) == L.N() then Grow(L, Growth(need)) else L
  }

  function Malloc(L: Layout, size: Word): Layout
    requires L.Shaped() && L.cursor < L.N()
  {
    if size == 0 then L
    else Place(Room(L, Need(size)), NextFit(L, Need(size)), Need(size), size)
  }

  /** Remove boundary j, joining the free blocks on its two sides; a roving pointer at the joined
      block moves down to its new start. */
  function Merge(L: Layout, j: nat): Layout
    requires L.Shaped() && 1 <= j < L.N()
  {
    Layout(RemoveAt(L.bounds, j), RemoveAt(L.held, j), if L.cursor >= j then L.cursor - 1 else L.cursor)
  }

  /** What FreeAt has done when the block above has been looked at. */
  function FreeUp(L: Layout, i: nat): Layout
    requires L.Shaped() && i < L.N()
  {
    var L1 := L.(held := L.held[i := 0]);
    if i + 1 < L.N() && L.Free(i + 1) then Merge(L1, i + 1) else L1
  }

  function FreeAt(L: Layout, i: nat): Layout
    requires L.Shaped() && i < L.N()
  {
    var U := FreeUp(L, i);
    if i > 0 && L.Free(i - 1) then Merge(U, i) else U
  }

  // ---------- The invariant ----------

  lemma InitWF(start: nat)
    ensures InitLayout(start).WF()
    ensures InitLayout(start).Live() == {}
    ensures start <= 8 * InitLayout(start).Base() < start + 8
    ensures 8 * InitLayout(start).Top() == 8 * InitLayout(start).Base() + 4096 && InitLayout(start).held == [0]
  {
  }

  lemma InsertBound(b: seq<int>, j: nat, x: int)
    requires Spaced(b) && 1 <= j < |b|
    requires b[j - 1] + MIN_WORDS <= x && x + MIN_WORDS <= b[j]
    ensures Spaced(InsertAt(b, j, x))
  {
    assert Above(b, j - 1, j);
    forall i, k | 0 <= i < k <= |b|
      ensures Above(InsertAt(b, j, x), i, k)
    {
      var i', k' := if i < j then i else i - 1, if k <= j then k else k - 1;
      assert i' < k' ==> Above(b, i', k');
      if i == j { assert k' == j || Above(b, j, k'); }
      if k == j { assert i' == j - 1 || Above(b, i', j - 1); }
    }
  }

  lemma InsertRoomy(b: seq<int>, h: seq<nat>, j: nat, x: int)
    requires |b| == |h| + 1 && Roomy(b, h) && 1 <= j <= |h| && h[j - 1] == 0
    ensures Roomy(InsertAt(b, j, x), InsertAt(h, j, 0))
  {
    forall k | 0 <= k <= |h| && InsertAt(h, j, 0)[k] > 0
      ensures InsertAt(h, j, 0)[k] + 16 <= 8 * (InsertAt(b, j, x)[k + 1] - InsertAt(b, j, x)[k])
    {
      if k > j { assert InsertAt(h, j, 0)[k] == h[k - 1]; }
    }
  }

  lemma RemoveBound(b: seq<int>, h: seq<nat>, j: nat)
    requires |b| == |h| + 1 && Spaced(b) && Roomy(b, h) && 1 <= j < |h| && h[j - 1] == h[j] == 0
    ensures Spaced(RemoveAt(b, j)) && Roomy(RemoveAt(b, j), RemoveAt(h, j))
  {
    forall i, k | 0 <= i < k < |h|
      ensures Above(RemoveAt(b, j), i, k)
    {
      assert Above(b, if i < j then i else i + 1, if k < j then k else k + 1);
    }
  }

  lemma SplitTiled(L: Layout, i: nat, words: nat)
    requires L.Tiled() && i < L.N() && L.Free(i)
    requires MIN_WORDS <= words && words + MIN_WORDS <= L.Size(i)
    ensures Split(L, i, words).Tiled()
    ensures Split(L, i, words).Base() == L.Base() && Split(L, i, words).Top() == L.Top()
  {
    InsertBound(L.bounds, i + 1, L.bounds[i] + words);
    InsertRoomy(L.bounds, L.held, i + 1, L.bounds[i] + words);
  }

  /** Block i is the only one that may have a free neighbour, and that only below it. */
  ghost predicate ReadyAt(L: Layout, i: nat) {
    && L.Tiled() && i < L.N() && L.Free(i)
    && (forall j :: 1 <= j < L.N() && j != i ==> L.held[j - 1] > 0 || L.held[j] > 0)
  }

  lemma PlaceWF(L: Layout, i: nat, need: nat, size: nat)
    requires ReadyAt(L, i)
    requires 0 < size && size + 16 <= 8 * need && need <= L.Size(i) && need >= MIN_WORDS
    ensures Place(L, i, need, size).WF()
    ensures Place(L, i, need, size).Base() == L.Base()
    ensures Place(L, i, need, size).Top() == L.Top()
  {
    if L.Size(i) - need > MIN_WORDS {
      SplitTiled(L, i, need);
      var S := Split(L, i, need);
      forall j | 1 <= j < S.N() && j != i && j != i + 1
        ensures S.held[j - 1] > 0 || S.held[j] > 0
      {
        if j > i {
          assert S.held[j] == L.held[j - 1];
          if j == i + 2 { assert L.held[i] == 0; } else { assert S.held[j - 1] == L.held[j - 2]; }
        }
      }
    }
  }

  /** A block is split exactly when more than 32 bytes of it are not needed; the block handed out
      exceeds the need by no more than that. */
  lemma PlaceTight(L: Layout, i: nat, need: nat, size: nat)
    requires L.Shaped() && i < L.N() && need <= L.Size(i)
    ensures var P := Place(L, i, need, size);
            && need <= P.Size(i) <= need + 4 && P.held[i] == size && P.cursor == i
            && (8 * (L.Size(i) - need) <= 32 ==> P.bounds == L.bounds && P.held == L.held[i := size])
            && (8 * (L.Size(i) - need) > 32 ==>
                  && P.bounds == L.bounds[..i + 1] + [L.bounds[i] + need] + L.bounds[i + 1..]
                  && P.held == L.held[..i] + [size, 0] + L.held[i + 1..])
  {
  }

  lemma GrowTiled(L: Layout, words: nat)
    requires L.Tiled() && MIN_WORDS <= words
    ensures Grow(L, words).Tiled() && Grow(L, words).Base() == L.Base()
  {
    var G := Grow(L, words);
    forall i, k | 0 <= i < k < |G.bounds|
      ensures Above(G.bounds, i, k)
    {
      if k < |L.bounds| {
        assert Above(L.bounds, i, k);
      } else {
        assert i < L.N() ==> Above(L.bounds, i, L.N());
      }
    }
  }

  lemma RoomIsReady(L: Layout, need: nat)
    requires L.WF() && need >= MIN_WORDS
    ensures var i := NextFit(L, need);
            var R := Room(L, need);
            ReadyAt(R, i) && need <= R.Size(i) && R.Base() == L.Base()
  {
    NextFitComplete(L, need);
    GrowTiled(L, Growth(need));
  }

  lemma MallocWF(L: Layout, size: Word)
    requires L.WF() && size <= MAX_REQUEST
    ensures Malloc(L, size).WF()
    ensures Malloc(L, size).Base() == L.Base()
  {
    if size > 0 {
      NeedHasRoom(size);
      RoomIsReady(L, Need(size));
      PlaceWF(Room(L, Need(size)), NextFit(L, Need(size)), Need(size), size);
    }
  }

  lemma MergeTiled(L: Layout, j: nat)
    requires L.Tiled() && 1 <= j < L.N() && L.Free(j - 1) && L.Free(j)
    ensures Merge(L, j).Tiled()
    ensures Merge(L, j).Base() == L.Base() && Merge(L, j).Top() == L.Top()
    ensures Merge(L, j).Free(j - 1)
  {
    RemoveBound(L.bounds, L.held, j);
  }

  /** Block i is free and may have free neighbours on both sides; nothing else has. */
  ghost predicate LooseAt(L: Layout, i: nat) {
    && L.Tiled() && i < L.N() && L.Free(i) && L.cursor < L.N()
    && (forall j :: 1 <= j < L.N() && j != i && j != i + 1 ==> L.held[j - 1] > 0 || L.held[j] > 0)
  }

  lemma MergeAbove(L: Layout, i: nat)
    requires LooseAt(L, i) && i + 1 < L.N() && L.Free(i + 1)
    ensures LooseAt(Merge(L, i + 1), i)
    ensures i + 1 < Merge(L, i + 1).N() ==> !Merge(L, i + 1).Free(i + 1)
  {
    MergeTiled(L, i + 1);
    var M := Merge(L, i + 1);
    forall j | 1 <= j < M.N() && j != i
      ensures M.held[j - 1] > 0 || M.held[j] > 0
    {
      if j > i {
        assert L.held[j] > 0 || L.held[j + 1] > 0;
        assert M.held[j] == L.held[j + 1];
      }
    }
  }

  lemma MergeBelow(L: Layout, i: nat)
    requires LooseAt(L, i) && i > 0 && L.Free(i - 1)
    requires i + 1 < L.N() ==> !L.Free(i + 1)
    ensures Merge(L, i).WF()
  {
    MergeTiled(L, i);
    var M := Merge(L, i);
    forall j | 1 <= j < M.N()
      ensures M.held[j - 1] > 0 || M.held[j] > 0
    {
      if j >= i {
        assert M.held[j] == L.held[j + 1];
        assert j > i ==> L.held[j] > 0 || L.held[j + 1] > 0;
      }
    }
  }

  lemma ReleaseLoose(L: Layout, i: nat)
    requires L.WF() && i < L.N()
    ensures LooseAt(L.(held := L.held[i := 0]), i)
  {
  }

  lemma FreeUpLoose(L: Layout, i: nat)
    requires L.WF() && i < L.N()
    ensures LooseAt(FreeUp(L, i), i)
    ensures i + 1 < FreeUp(L, i).N() ==> !FreeUp(L, i).Free(i + 1)
    ensures i > 0 ==> FreeUp(L, i).held[i - 1] == L.held[i - 1]
    ensures FreeUp(L, i).Base() == L.Base() && FreeUp(L, i).Top() == L.Top()
  {
    ReleaseLoose(L, i);
    if i + 1 < L.N() && L.Free(i + 1) {
      MergeAbove(L.(held := L.held[i := 0]), i);
      MergeTiled(L.(held := L.held[i := 0]), i + 1);
    }
  }

  lemma FreeWF(L: Layout, i: nat)
    requires L.WF() && i < L.N()
    ensures FreeAt(L, i).WF()
    ensures FreeAt(L, i).Base() == L.Base() && FreeAt(L, i).Top() == L.Top()
  {
    FreeUpLoose(L, i);
    if i > 0 && L.Free(i - 1) {
      MergeBelow(FreeUp(L, i), i);
      MergeTiled(FreeUp(L, i), i);
    }
  }

  /** The boundaries of the freed block go where a neighbour is free, and no other does. */
  lemma FreeBounds(L: Layout, i: nat)
    requires L.WF() && i < L.N() && !L.Free(i)
    ensures forall b :: b in FreeAt(L, i).bounds <==>
      && b in L.bounds
      && !(b == L.bounds[i] && i > 0 && L.held[i - 1] == 0)
      && !(b == L.bounds[i + 1] && i + 1 < L.N() && L.held[i + 1] == 0)
  {
    var U, b1 := FreeUp(L, i), L.bounds[i + 1];
    forall j, k | 0 <= j < k <= L.N() ensures L.bounds[j] != L.bounds[k] {
      assert Above(L.bounds, j, k);
    }
    var up, down := i + 1 < L.N() && L.Free(i + 1), i > 0 && L.Free(i - 1);
    forall b ensures b in U.bounds <==> b in L.bounds && !(b == b1 && up) {
      if up { RemovedFrom(L.bounds, i + 1, b); }
    }
    forall j, k | 0 <= j < k <= U.N() ensures U.bounds[j] != U.bounds[k] {
      if up { assert U.bounds == RemoveAt(L.bounds, i + 1); }
    }
    assert U.bounds[i] == L.bounds[i];
    if down {
      forall b ensures b in FreeAt(L, i).bounds <==> b in U.bounds && b != U.bounds[i] {
        RemovedFrom(U.bounds, i, b);
      }
    }
  }

  lemma RemovedFrom(s: seq<int>, j: nat, x: int)
    requires j < |s| && forall i, k :: 0 <= i < k < |s| ==> s[i] != s[k]
    ensures x in RemoveAt(s, j) <==> x in s && x != s[j]
  {
    var r := RemoveAt(s, j);
    if x in s && x != s[j] {
      var k :| 0 <= k < |s| && s[k] == x;
      assert r[if k < j then k else k - 1] == x;
    }
    if x in r {
      var k :| 0 <= k < |r| && r[k] == x;
      assert x == s[if k < j then k else k + 1];
    }
  }

  // ---------- Live payloads ----------

  /** Two live payloads do not meet, and no live payload meets a tag word. */
  lemma LiveDisjoint(L: Layout, i: nat, j: nat)
    requires L.Tiled() && i < L.N() && j < L.N() && !L.Free(i)
    ensures L.RangeAt(i) == Range(8 * L.bounds[i] + 8, 8 * L.bounds[i] + 7 + L.held[i])
    ensures 8 * L.Base() + 8 <= L.RangeAt(i).lo <= L.RangeAt(i).hi < 8 * L.Top() - 8
    ensures L.RangeAt(i).lo % 8 == 0
    ensures i != j ==> L.RangeAt(i).hi < 8 * L.bounds[j] || 8 * L.bounds[j + 1] <= L.RangeAt(i).lo - 8
    ensures i == j ==> 8 * L.bounds[j] + 8 == L.RangeAt(i).lo && L.RangeAt(i).hi < 8 * L.bounds[j + 1] - 8
    ensures i != j ==> L.RangeAt(i).lo != L.RangeAt(j).lo
  {
    assert Above(L.bounds, i, i + 1);
    assert i > 0 ==> Above(L.bounds, 0, i);
    assert i + 1 < L.N() ==> Above(L.bounds, i + 1, L.N());
    assert i < j ==> Above(L.bounds, i, j) && (i + 1 < j ==> Above(L.bounds, i + 1, j));
    assert j < i ==> Above(L.bounds, j, i) && (j + 1 < i ==> Above(L.bounds, j + 1, i));
  }

  lemma SplitLive(L: Layout, i: nat, words: nat)
    requires L.Shaped() && i < L.N() && L.Free(i)
    ensures Split(L, i, words).Live() == L.Live()
  {
    var S := Split(L, i, words);
    forall k | 0 <= k < L.N() && L.held[k] > 0
      ensures L.RangeAt(k) in S.Live()
    {
      var k' := if k <= i then k else k + 1;
      assert S.held[k'] == L.held[k] && S.bounds[k'] == L.bounds[k];
      assert S.RangeAt(k') == L.RangeAt(k);
    }
    forall k | 0 <= k < S.N() && S.held[k] > 0
      ensures S.RangeAt(k) in L.Live()
    {
      var k' := if k <= i then k else k - 1;
      assert S.held[k] == L.held[k'] && S.bounds[k] == L.bounds[k'];
      assert S.RangeAt(k) == L.RangeAt(k');
    }
  }

  lemma SplitUndoesMerge(L: Layout, j: nat)
    requires L.Shaped() && 1 <= j < L.N() && L.Free(j)
    requires L.bounds[j - 1] <= L.bounds[j]
    ensures var S := Split(Merge(L, j), j - 1, L.bounds[j] - L.bounds[j - 1]);
            S.bounds == L.bounds && S.held == L.held
  {
    InsertUndoesRemove(L.bounds, j);
    InsertUndoesRemove(L.held, j);
  }

  lemma MergeLive(L: Layout, j: nat)
    requires L.Shaped() && 1 <= j < L.N() && L.Free(j - 1) && L.Free(j)
    requires L.bounds[j - 1] <= L.bounds[j]
    ensures Merge(L, j).Live() == L.Live()
  {
    var words := L.bounds[j] - L.bounds[j - 1];
    SplitUndoesMerge(L, j);
    SplitLive(Merge(L, j), j - 1, words);
    SameLive(Split(Merge(L, j), j - 1, words), L);
  }

  lemma SameLive(L: Layout, H: Layout)
    requires L.Shaped() && L.bounds == H.bounds && L.held == H.held
    ensures L.Live() == H.Live()
  {
    assert forall k :: 0 <= k < L.N() ==> H.RangeAt(k) == L.RangeAt(k);
  }

  lemma GrowLive(L: Layout, words: nat)
    requires L.Shaped()
    ensures Grow(L, words).Live() == L.Live()
  {
    var G := Grow(L, words);
    forall k | 0 <= k < L.N()
      ensures G.RangeAt(k) == L.RangeAt(k)
    {
    }
  }

  /** Block i is taken: its new extent enters Live. */
  lemma TakeLive(L: Layout, H: Layout, i: nat, size: nat)
    requires L.Tiled() && i < L.N() && L.Free(i) && size > 0
    requires H.bounds == L.bounds && H.held == L.held[i := size]
    ensures H.Live() == L.Live() + {H.RangeAt(i)}
  {
    assert forall k :: 0 <= k < L.N() && k != i ==> H.RangeAt(k) == L.RangeAt(k);
    forall r | r in H.Live() ensures r in L.Live() + {H.RangeAt(i)} {
      var k :| 0 <= k < H.N() && H.held[k] > 0 && r == H.RangeAt(k);
    }
    forall r | r in L.Live() ensures r in H.Live() {
      var k :| 0 <= k < L.N() && L.held[k] > 0 && r == L.RangeAt(k);
      assert H.RangeAt(k) == r;
    }
  }

  /** Block i is released: its extent leaves Live, and no other does. */
  lemma ReleaseLive(L: Layout, H: Layout, i: nat)
    requires L.Tiled() && i < L.N() && !L.Free(i)
    requires H.bounds == L.bounds && H.held == L.held[i := 0]
    ensures H.Live() == L.Live() - {L.RangeAt(i)}
  {
    forall k | 0 <= k < L.N() && k != i
      ensures H.RangeAt(k) == L.RangeAt(k) && H.RangeAt(k).lo != L.RangeAt(i).lo
    {
      assert if k < i then Above(L.bounds, k, i) else Above(L.bounds, i, k);
    }
    forall r | r in H.Live() ensures r in L.Live() - {L.RangeAt(i)} {
      var k :| 0 <= k < H.N() && H.held[k] > 0 && r == H.RangeAt(k);
    }
    forall r | r in L.Live() - {L.RangeAt(i)} ensures r in H.Live() {
      var k :| 0 <= k < L.N() && L.held[k] > 0 && r == L.RangeAt(k);
      assert H.RangeAt(k) == r;
    }
  }

  /** The extent mm_malloc hands out. */
  function Given(L: Layout, size: Word): Range
    requires L.Shaped() && L.cursor < L.N()
  {
    var p := Room(L, Need(size)).bounds[NextFit(L, Need(size))];
    Range(8 * p + 8, 8 * p + 7 + size)
  }

  lemma CarveLive(L: Layout, i: nat, need: nat)
    requires L.Tiled() && i < L.N() && L.Free(i) && MIN_WORDS <= need <= L.Size(i)
    ensures Carve(L, i, need).Tiled() && Carve(L, i, need).Free(i)
    ensures Carve(L, i, need).Live() == L.Live()
    ensures Carve(L, i, need).bounds[i] == L.bounds[i]
  {
    if L.Size(i) - need > MIN_WORDS {
      SplitTiled(L, i, need);
      SplitLive(L, i, need);
    }
  }

  lemma PlaceAt(R: Layout, i: nat, need: nat, size: nat)
    requires ReadyAt(R, i) && 0 < size && size + 16 <= 8 * need && need <= R.Size(i) && need >= MIN_WORDS
    ensures var C, M := Carve(R, i, need), Place(R, i, need, size);
            && C.Tiled() && C.Free(i) && C.Live() == R.Live() && M.WF()
    ensures Place(R, i, need, size).RangeAt(i) == Range(8 * R.bounds[i] + 8, 8 * R.bounds[i] + 7 + size)
  {
    CarveLive(R, i, need);
    PlaceWF(R, i, need, size);
  }

  lemma RoomLive(L: Layout, need: nat)
    requires L.Shaped() && L.cursor < L.N()
    ensures Room(L, need).Live() == L.Live()
  {
    GrowLive(L, Growth(need));
  }

  /** The block mm_malloc hands out, on the carved layout it takes it from. */
  lemma MallocAt(L: Layout, size: Word)
    requires L.WF() && 0 < size <= MAX_REQUEST
    ensures var i, R := NextFit(L, Need(size)), Room(L, Need(size));
            var C, M := Carve(R, i, Need(size)), Malloc(L, size);
            && i < R.N() && C.Tiled() && C.Free(i) && C.Live() == L.Live() && M.WF()
            && M.bounds == C.bounds && M.held == C.held[i := size] && M.cursor == i
            && M.RangeAt(i) == Given(L, size)
  {
    NeedHasRoom(size);
    RoomIsReady(L, Need(size));
    RoomLive(L, Need(size));
    PlaceAt(Room(L, Need(size)), NextFit(L, Need(size)), Need(size), size);
  }

  /** mm_malloc adds exactly the extent it hands out, clear of every live payload and its tags;
      all other live payloads stay where they are. */
  lemma MallocLive(L: Layout, size: Word)
    requires L.WF() && 0 < size <= MAX_REQUEST
    ensures Malloc(L, size).Live() == L.Live() + {Given(L, size)}
    ensures forall r :: r in L.Live() ==> r.hi < Given(L, size).lo - 8 || Given(L, size).hi < r.lo - 8
    ensures Given(L, size) !in L.Live()
  {
    var i, R := NextFit(L, Need(size)), Room(L, Need(size));
    MallocAt(L, size);
    TakeLive(Carve(R, i, Need(size)), Malloc(L, size), i, size);
    TakenApart(Carve(R, i, Need(size)), Malloc(L, size), i, size);
  }

  lemma TakenApart(C: Layout, M: Layout, i: nat, size: nat)
    requires C.Tiled() && i < C.N() && C.Free(i) && size > 0
    requires M.WF() && M.bounds == C.bounds && M.held == C.held[i := size]
    ensures forall r :: r in C.Live() ==> r.hi < M.RangeAt(i).lo - 8 || M.RangeAt(i).hi < r.lo - 8
  {
    forall r | r in C.Live()
      ensures r.hi < M.RangeAt(i).lo - 8 || M.RangeAt(i).hi < r.lo - 8
    {
      var k :| 0 <= k < C.N() && C.held[k] > 0 && r == C.RangeAt(k);
      assert M.RangeAt(k) == r;
      LiveApart(M, i, k);
    }
  }

  lemma LiveApart(L: Layout, i: nat, j: nat)
    requires L.Tiled() && i < L.N() && j < L.N() && i != j && !L.Free(i) && !L.Free(j)
    ensures L.RangeAt(i).hi < L.RangeAt(j).lo - 8 || L.RangeAt(j).hi < L.RangeAt(i).lo - 8
  {
    LiveDisjoint(L, i, j);
    LiveDisjoint(L, j, i);
    LiveDisjoint(L, i, i);
    LiveDisjoint(L, j, j);
  }

  /** mm_free removes exactly the freed extent. */
  lemma FreeLive(L: Layout, i: nat)
    requires L.WF() && i < L.N() && !L.Free(i)
    ensures FreeAt(L, i).Live() == L.Live() - {L.RangeAt(i)}
  {
    var L1 := L.(held := L.held[i := 0]);
    ReleaseLive(L, L1, i);
    FreeUpLoose(L, i);
    if i + 1 < L.N() && L.Free(i + 1) {
      assert Above(L1.bounds, i, i + 1);
      MergeLive(L1, i + 1);
    }
    if i > 0 && L.Free(i - 1) {
      assert Above(FreeUp(L, i).bounds, i - 1, i);
      MergeLive(FreeUp(L, i), i);
    }
  }

  // ---------- Recovery and round trip ----------

  /** One-step coalescing leaves no fragmentation: a well-formed heap holding nothing is one free
      block, and the roving pointer is at its start. */
  lemma FullRecovery(L: Layout)
    requires L.WF()
    ensures L.Live() == {} <==> L == Layout([L.Base(), L.Top()], [0], 0)
  {
    assert forall i :: 0 <= i < L.N() && L.held[i] > 0 ==> L.RangeAt(i) in L.Live();
    assert L.N() > 1 ==> L.held[0] > 0 || L.held[1] > 0;
    if L.Live() == {} {
      assert L.bounds == [L.Base(), L.Top()];
    }
  }

  lemma MergeUndoesSplit(L: Layout, i: nat, words: nat)
    requires L.Shaped() && i < L.N()
    ensures var M := Merge(Split(L, i, words), i + 1); M.bounds == L.bounds && M.held == L.held
  {
    RemoveUndoesInsert(L.bounds, i + 1, L.bounds[i] + words);
    RemoveUndoesInsert(L.held, i + 1, 0);
  }

  lemma FreeUndoesPlace(L: Layout, i: nat, need: nat, size: nat)
    requires L.WF() && i < L.N() && L.Free(i) && need <= L.Size(i) && size > 0
    ensures FreeAt(Place(L, i, need, size), i).bounds == L.bounds
    ensures FreeAt(Place(L, i, need, size), i).held == L.held
  {
    var P := Place(L, i, need, size);
    assert i > 0 ==> L.held[i - 1] > 0;
    assert i > 0 ==> P.held[i - 1] == L.held[i - 1];
    if L.Size(i) - need <= MIN_WORDS {
      assert i + 1 < L.N() ==> L.held[i + 1] > 0;
      assert P.held[i := 0] == L.held;
    } else {
      MergeUndoesSplit(L, i, need);
      assert P.held[i := 0] == Split(L, i, need).held;
      assert P.Free(i + 1);
    }
  }

  /** Freeing what mm_malloc just returned restores the block list exactly when the request was
      served without extending the heap, split or not. */
  lemma MallocFreeRoundTrip(L: Layout, size: Word)
    requires L.WF() && 0 < size <= MAX_REQUEST
    ensures var M := Malloc(L, size);
            var F := FreeAt(M, NextFit(L, Need(size)));
            F.bounds == L.bounds && F.held == L.held <==> SomeFit(L, Need(size))
  {
    var i := NextFit(L, Need(size));
    NeedHasRoom(size);
    NextFitComplete(L, Need(size));
    if SomeFit(L, Need(size)) {
      FreeUndoesPlace(L, i, Need(size), size);
    } else {
      MallocWF(L, size);
      MallocTop(L, size);
      FreeWF(Malloc(L, size), i);
    }
  }

  // ---------- Space ----------

  function Sum(s: seq<nat>): nat {
    if s == [] then 0 else s[0] + Sum(s[1..])
  }

  lemma {:induction false} SumConcat(a: seq<nat>, b: seq<nat>)
    ensures Sum(a + b) == Sum(a) + Sum(b)
  {
    if a == [] {
      assert a + b == b;
    } else {
      assert (a + b)[1..] == a[1..] + b;
      SumConcat(a[1..], b);
    }
  }

  lemma SumUpdate(s: seq<nat>, i: nat, v: nat)
    requires i < |s|
    ensures Sum(s[i := v]) == Sum(s) - s[i] + v
  {
    assert s == s[..i] + ([s[i]] + s[i + 1..]);
    assert s[i := v] == s[..i] + ([v] + s[i + 1..]);
    SumConcat(s[..i], [s[i]] + s[i + 1..]);
    SumConcat(s[..i], [v] + s[i + 1..]);
  }

  lemma SumWithoutZero(s: seq<nat>, j: nat)
    requires j < |s| && s[j] == 0
    ensures Sum(RemoveAt(s, j)) == Sum(s)
  {
    assert RemoveAt(s, j) == s[..j] + s[j + 1..];
    assert s == s[..j] + ([s[j]] + s[j + 1..]);
    SumConcat(s[..j], [s[j]] + s[j + 1..]);
    SumConcat(s[..j], s[j + 1..]);
  }

  /** All requested bytes together fit between base and top, with two tags for each block. */
  lemma {:induction false} HeldFits(L: Layout, k: nat)
    requires L.Tiled() && k <= L.N()
    ensures Sum(L.held[..k]) + 16 * k <= 8 * (L.bounds[k] - L.Base())
  {
    if k > 0 {
      HeldFits(L, k - 1);
      assert L.held[..k] == L.held[..k - 1] + [L.held[k - 1]];
      SumConcat(L.held[..k - 1], [L.held[k - 1]]);
      assert Above(L.bounds, k - 1, k);
    }
  }

  lemma CarveHeld(L: Layout, i: nat, need: nat)
    requires L.Shaped() && i < L.N()
    ensures Sum(Carve(L, i, need).held) == Sum(L.held)
  {
    var C := Carve(L, i, need);
    if C != L {
      RemoveUndoesInsert(L.held, i + 1, 0);
      SumWithoutZero(C.held, i + 1);
    }
  }

  lemma MallocHeld(L: Layout, size: Word)
    requires L.WF() && 0 < size <= MAX_REQUEST
    ensures Sum(Malloc(L, size).held) == Sum(L.held) + size
  {
    var i, R := NextFit(L, Need(size)), Room(L, Need(size));
    MallocAt(L, size);
    SumConcat(L.held, [0]);
    CarveHeld(R, i, Need(size));
    SumUpdate(Carve(R, i, Need(size)).held, i, size);
  }

  lemma FreeHeld(L: Layout, i: nat)
    requires L.WF() && i < L.N()
    ensures Sum(FreeAt(L, i).held) == Sum(L.held) - L.held[i]
  {
    SumUpdate(L.held, i, 0);
    var L1 := L.(held := L.held[i := 0]);
    FreeUpLoose(L, i);
    if i + 1 < L.N() && L.Free(i + 1) { SumWithoutZero(L1.held, i + 1); }
    if i > 0 && L.Free(i - 1) { SumWithoutZero(FreeUp(L, i).held, i); }
  }

  /** The top never falls; it rises exactly when no free block fits, and then by just what
      mm_malloc asks of mem_sbrk. */
  lemma MallocTop(L: Layout, size: Word)
    requires L.WF() && 0 < size <= MAX_REQUEST
    ensures Malloc(L, size).Top() ==
      L.Top() + if SomeFit(L, Need(size)) then 0 else Need(size) + if Need(size) < 32 then 32 else 0
  {
    NeedHasRoom(size);
    NextFitComplete(L, Need(size));
    RoomIsReady(L, Need(size));
    PlaceWF(Room(L, Need(size)), NextFit(L, Need(size)), Need(size), size);
  }

  lemma SomeFitIs(L: Layout, size: Word)
    requires L.WF() && 0 < size <= MAX_REQUEST
    ensures SomeFit(L, Need(size)) <==>
      exists i :: 0 <= i < L.N() && L.held[i] == 0 && 8 * L.Size(i) >= AdjustedSize(size)
  {
    NeedHasRoom(size);
    forall i | 0 <= i < L.N()
      ensures Fit(L, i, Need(size)) <==> L.held[i] == 0 && 8 * L.Size(i) >= AdjustedSize(size)
    {
    }
  }

  /** If some free block has the bytes needed, the top stays. Otherwise it rises by the bytes needed
      if they are 256 or more, and if they are fewer by 256 more, which are left as a free block on
      top. */
  lemma MissGrows(L: Layout, size: Word)
    requires L.WF() && 0 < size <= MAX_REQUEST
    ensures var t, M := AdjustedSize(size), Malloc(L, size);
            && M.WF()
            && if exists i :: 0 <= i < L.N() && L.held[i] == 0 && 8 * L.Size(i) >= t then M.Top() == L.Top()
               else if t < 256 then
                 && 8 * M.Top() == 8 * L.Top() + t + 256
                 && M.held == L.held + [size, 0] && 8 * M.Size(M.N() - 1) == 256
               else
                 && 8 * M.Top() == 8 * L.Top() + t
                 && M.held == L.held + [size] && 8 * M.Size(M.N() - 1) == t
  {
    var t, M, need := AdjustedSize(size), Malloc(L, size), Need(size);
    NeedHasRoom(size);
    NextFitComplete(L, need);
    MallocTop(L, size);
    MallocWF(L, size);
    SomeFitIs(L, size);
    hide Place;
    if !SomeFit(L, need) { PlaceTight(Grow(L, Growth(need)), L.N(), need, size); }
  }
}
