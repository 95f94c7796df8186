/** mm.c: the boundary-tag allocator, writing its tags into memory in place.

    `layout` is the block list the memory is meant to hold. Valid() says it does: the headers and
    footers spell it out, `base`, `top` and `search` stand where it says, and the break pointer
    stays between 1 and 8 bytes above `top`. */
module Mm {
  import opened HeapLayout
  import opened MemLib

  // ---------- Tags ----------

  /** size | allocated */
  function Tag(size: Word, used: bool): Word {
    if used && size % 2 == 0 then size + 1 else size
  }

  function TagSize(w: Word): Word { w - w % 2 }

  predicate TagAllocated(w: Word) { w % 2 == 1 }

  lemma TagRoundTrip(size: Word, used: bool)
    requires size % 2 == 0
    ensures TagSize(Tag(size, used)) == size && TagAllocated(Tag(size, used)) == used
  {
  }

  lemma TagIs(size: Word, n: int, used: bool)
    requires size == 8 * n
    ensures Tag(size, used) == size + if used then 1 else 0
  {
    TwiceIsEven(4 * n);
  }

  lemma TwiceIsEven(n: int)
    ensures 2 * n % 2 == 0
  {
  }

  // ---------- Block lists written out in memory ----------

  ghost predicate InMemory(L: Layout, w: seq<Word>) {
    L.Tiled() && 1 <= L.Base() && L.Top() <= |w| && 8 * |w| <= WORD_RANGE
  }

  lemma BlockInMemory(L: Layout, w: seq<Word>, k: nat)
    requires InMemory(L, w) && k < L.N()
    ensures L.Base() <= L.bounds[k] && L.bounds[k] + MIN_WORDS <= L.bounds[k + 1] <= L.Top()
    ensures 32 <= 8 * L.Size(k) < WORD_RANGE
  {
    assert Above(L.bounds, k, k + 1);
    assert k > 0 ==> Above(L.bounds, 0, k);
    assert k + 1 < L.N() ==> Above(L.bounds, k + 1, L.N());
  }

  /** Header and footer of block k are right. */
  ghost predicate TagsOk(L: Layout, w: seq<Word>, k: nat)
    requires InMemory(L, w) && k < L.N()
  {
    BlockInMemory(L, w, k);
    var tag := Tag(8 * L.Size(k), L.held[k] > 0);
    w[L.bounds[k]] == tag && w[L.bounds[k + 1] - 1] == tag
  }

  /** Memory spells out L, except perhaps at the blocks of `dirty`. */
  ghost predicate Represents(L: Layout, w: seq<Word>, dirty: set<nat>) {
    InMemory(L, w) && forall k :: 0 <= k < L.N() && k !in dirty ==> TagsOk(L, w, k)
  }

  lemma ReadTags(L: Layout, w: seq<Word>, k: nat)
    requires Represents(L, w, {}) && k < L.N()
    ensures 1 <= L.Base() <= L.bounds[k] < L.bounds[k + 1] <= L.Top() <= |w|
    ensures TagSize(w[L.bounds[k]]) == 8 * L.Size(k) == TagSize(w[L.bounds[k + 1] - 1])
    ensures TagAllocated(w[L.bounds[k]]) <==> !L.Free(k)
    ensures w[L.bounds[k]] == w[L.bounds[k + 1] - 1]
    ensures w[L.bounds[k]] == 8 * L.Size(k) + if L.held[k] > 0 then 1 else 0
  {
    BlockInMemory(L, w, k);
    assert TagsOk(L, w, k);
    TagRoundTrip(8 * L.Size(k), L.held[k] > 0);
  }

  /** What mark_block does to memory, for the block of n words at word q. */
  function Marked(w: seq<Word>, q: int, n: int, used: bool): (r: seq<Word>)
    requires 0 <= q < q + n <= |w| && 8 * n < WORD_RANGE
    ensures |r| == |w|
  {
    w[q := Tag(8 * n, used)][q + n - 1 := Tag(8 * n, used)]
  }

  lemma TagsApart(L: Layout, i: nat, k: nat)
    requires L.Tiled() && i < L.N() && k < L.N() && i != k
    ensures L.bounds[k + 1] <= L.bounds[i] || L.bounds[i + 1] <= L.bounds[k]
  {
    assert i + 1 < k ==> Above(L.bounds, i + 1, k);
    assert k + 1 < i ==> Above(L.bounds, k + 1, i);
  }

  /** Marking a dirty block cleans it and touches no other block's tags. */
  lemma MarkCleans(L: Layout, w: seq<Word>, dirty: set<nat>, i: nat)
    requires Represents(L, w, dirty) && i < L.N()
    ensures 0 <= L.bounds[i] < L.bounds[i + 1] <= |w| && 8 * L.Size(i) < WORD_RANGE
    ensures Represents(L, Marked(w, L.bounds[i], L.Size(i), L.held[i] > 0), dirty - {i})
  {
    BlockInMemory(L, w, i);
    var w' := Marked(w, L.bounds[i], L.Size(i), L.held[i] > 0);
    forall k | 0 <= k < L.N() && k !in dirty - {i}
      ensures TagsOk(L, w', k)
    {
      BlockInMemory(L, w, k);
      if k != i {
        assert TagsOk(L, w, k);
        TagsApart(L, i, k);
      }
    }
  }

  lemma SameTags(A: Layout, B: Layout, w: seq<Word>, j: nat, k: nat)
    requires InMemory(A, w) && InMemory(B, w) && j < A.N() && k < B.N()
    requires A.bounds[j] == B.bounds[k] && A.bounds[j + 1] == B.bounds[k + 1] && A.held[j] == B.held[k]
    ensures TagsOk(A, w, j) == TagsOk(B, w, k)
  {
  }

  lemma SplitRepresents(L: Layout, w: seq<Word>, i: nat, words: nat)
    requires Represents(L, w, {i}) && i < L.N() && L.Free(i)
    requires MIN_WORDS <= words && words + MIN_WORDS <= L.Size(i)
    ensures Represents(Split(L, i, words), w, {i, i + 1})
  {
    SplitTiled(L, i, words);
    var S := Split(L, i, words);
    forall k | 0 <= k < S.N() && k !in {i, i + 1}
      ensures TagsOk(S, w, k)
    {
      var k' := if k < i then k else k - 1;
      assert TagsOk(L, w, k');
      SameTags(S, L, w, k, k');
    }
  }

  lemma HoldRepresents(L: Layout, w: seq<Word>, dirty: set<nat>, H: Layout, i: nat, size: nat)
    requires Represents(L, w, dirty) && i in dirty && i < L.N() && (size > 0 ==> size + 16 <= 8 * L.Size(i))
    requires H.bounds == L.bounds && H.held == L.held[i := size]
    ensures Represents(H, w, dirty)
  {
    assert H.Tiled();
    forall k | 0 <= k < H.N() && k !in dirty
      ensures TagsOk(H, w, k)
    {
      assert TagsOk(L, w, k);
      SameTags(H, L, w, k, k);
    }
  }

  lemma MergeRepresents(L: Layout, w: seq<Word>, j: nat, i: nat)
    requires Represents(L, w, {i}) && 1 <= j < L.N() && L.Free(j - 1) && L.Free(j)
    requires i == j || i == j - 1
    ensures Represents(Merge(L, j), w, {j - 1})
  {
    MergeTiled(L, j);
    var M := Merge(L, j);
    forall k | 0 <= k < M.N() && k !in {j - 1}
      ensures TagsOk(M, w, k)
    {
      var k' := if k < j then k else k + 1;
      assert TagsOk(L, w, k');
      SameTags(M, L, w, k, k');
    }
  }

  lemma GrowRepresents(L: Layout, w: seq<Word>, words: nat)
    requires Represents(L, w, {}) && MIN_WORDS <= words && L.Top() + words <= |w|
    ensures Represents(Grow(L, words), w, {L.N()})
  {
    var G := Grow(L, words);
    GrowTiled(L, words);
    forall k | 0 <= k < L.N()
      ensures TagsOk(G, w, k)
    {
      assert TagsOk(L, w, k);
      SameTags(G, L, w, k, k);
    }
  }

  // ---------- Contents ----------

  /** Every word that holds bytes of r is the same in w and w'. */
  ghost predicate Kept(w: seq<Word>, w': seq<Word>, r: Range) {
    |w'| == |w| && forall a :: 0 <= a < |w| && r.lo < 8 * a + 8 && 8 * a <= r.hi ==> w'[a] == w[a]
  }

  /** w' differs from w neither in a live payload of L nor in the word below the heap. */
  ghost predicate KeepsLive(L: Layout, w: seq<Word>, w': seq<Word>)
    requires L.Shaped()
  {
    (forall r :: r in L.Live() ==> Kept(w, w', r)) && Kept(w, w', WordBelow(L.Base()))
  }

  lemma KeepsItself(L: Layout, w: seq<Word>)
    requires L.Shaped()
    ensures KeepsLive(L, w, w)
  {
  }

  function WordBelow(base: int): Range {
    Range(8 * base - 8, 8 * base - 1)
  }

  /** Marking a free block touches no live payload and nothing below the heap. */
  lemma MarkKeepsLive(L: Layout, w: seq<Word>, i: nat, used: bool)
    requires InMemory(L, w) && i < L.N() && L.Free(i)
    ensures 0 <= L.bounds[i] < L.bounds[i + 1] <= |w| && 8 * L.Size(i) < WORD_RANGE
    ensures KeepsLive(L, w, Marked(w, L.bounds[i], L.Size(i), used))
  {
    BlockInMemory(L, w, i);
    var w' := Marked(w, L.bounds[i], L.Size(i), used);
    forall r | r in L.Live()
      ensures Kept(w, w', r)
    {
      var k :| 0 <= k < L.N() && L.held[k] > 0 && r == L.RangeAt(k);
      LiveDisjoint(L, k, i);
    }
  }

  /** The word below the heap is not ours. It may hold anything that does not make the step to
      the previous block wrap around. */
  ghost predicate Below(w: seq<Word>, base: int) {
    1 <= base <= |w| && TagSize(w[base - 1]) <= 8 * base
  }

  lemma KeepsBelow(w: seq<Word>, w': seq<Word>, base: int)
    requires Below(w, base) && Kept(w, w', WordBelow(base))
    ensures Below(w', base)
  {
  }

  // ---------- The writes of mm_malloc and mm_free ----------

  /** What mm_malloc writes into the block of n words at word q to serve a request from its first
      `need` words. */
  function Written(w: seq<Word>, q: int, n: int, need: int): seq<Word>
    requires 0 <= q && 1 <= need <= n && q + n <= |w| && 8 * n < WORD_RANGE
  {
    if n - need <= MIN_WORDS then Marked(w, q, n, true)
    else Marked(Marked(w, q, need, true), q + need, n - need, false)
  }

  /** Two neighbouring dirty blocks are marked, the lower one for a request. */
  lemma MarkBoth(S: Layout, P: Layout, w: seq<Word>, i: nat, size: nat)
    requires Represents(S, w, {i, i + 1}) && i + 1 < S.N() && S.Free(i) && S.Free(i + 1)
    requires P.bounds == S.bounds && P.held == S.held[i := size] && 0 < size && size + 16 <= 8 * S.Size(i)
    ensures 0 <= S.bounds[i] < S.bounds[i + 1] < S.bounds[i + 2] <= |w|
    ensures 8 * S.Size(i) < WORD_RANGE && 8 * S.Size(i + 1) < WORD_RANGE
    ensures Represents(P, Marked(Marked(w, S.bounds[i], S.Size(i), true), S.bounds[i + 1], S.Size(i + 1), false), {})
  {
    HoldRepresents(S, w, {i, i + 1}, P, i, size);
    MarkCleans(P, w, {i, i + 1}, i);
    assert {i, i + 1} - {i} == {i + 1};
    MarkCleans(P, Marked(w, P.bounds[i], P.Size(i), true), {i + 1}, i + 1);
    assert {i + 1} - {i + 1} == {};
  }

  lemma KeepBoth(S: Layout, w: seq<Word>, i: nat)
    requires InMemory(S, w) && i + 1 < S.N() && S.Free(i) && S.Free(i + 1)
    ensures 0 <= S.bounds[i] < S.bounds[i + 1] < S.bounds[i + 2] <= |w|
    ensures 8 * S.Size(i) < WORD_RANGE && 8 * S.Size(i + 1) < WORD_RANGE
    ensures KeepsLive(S, w, Marked(Marked(w, S.bounds[i], S.Size(i), true), S.bounds[i + 1], S.Size(i + 1), false))
  {
    MarkKeepsLive(S, w, i, true);
    MarkKeepsLive(S, Marked(w, S.bounds[i], S.Size(i), true), i + 1, false);
  }

  lemma SplitAndPlace(L: Layout, w: seq<Word>, i: nat, need: nat, size: nat) returns (S: Layout, P: Layout)
    requires Represents(L, w, {i}) && i < L.N() && L.Free(i)
    requires L.Size(i) - need > MIN_WORDS && need >= MIN_WORDS
    ensures Represents(S, w, {i, i + 1}) && i + 1 < S.N() && S.Free(i) && S.Free(i + 1)
    ensures S.bounds[i] == L.bounds[i] && S.Size(i) == need && S.bounds[i + 2] == L.bounds[i + 1]
    ensures P == Place(L, i, need, size) && P.bounds == S.bounds && P.held == S.held[i := size]
    ensures S.Live() == L.Live() && S.Base() == L.Base()
  {
    S, P := Split(L, i, need), Place(L, i, need, size);
    SplitRepresents(L, w, i, need);
    SplitLive(L, i, need);
  }

  lemma WriteSplit(L: Layout, w: seq<Word>, i: nat, need: nat, size: nat)
    requires Represents(L, w, {i}) && i < L.N() && L.Free(i) && size > 0 && size + 16 <= 8 * need
    requires L.Size(i) - need > MIN_WORDS && need >= MIN_WORDS
    ensures 0 <= L.bounds[i] < L.bounds[i + 1] <= |w| && 8 * L.Size(i) < WORD_RANGE
    ensures Represents(Place(L, i, need, size), Written(w, L.bounds[i], L.Size(i), need), {})
    ensures KeepsLive(L, w, Written(w, L.bounds[i], L.Size(i), need))
  {
    BlockInMemory(L, w, i);
    var S, P := SplitAndPlace(L, w, i, need, size);
    MarkBoth(S, P, w, i, size);
    KeepBoth(S, w, i);
    assert Written(w, L.bounds[i], L.Size(i), need) ==
      Marked(Marked(w, S.bounds[i], S.Size(i), true), S.bounds[i + 1], S.Size(i + 1), false);
  }

  lemma WriteWhole(L: Layout, w: seq<Word>, i: nat, need: nat, size: nat)
    requires Represents(L, w, {i}) && i < L.N() && L.Free(i) && size > 0 && size + 16 <= 8 * need
    requires need <= L.Size(i) <= need + MIN_WORDS
    ensures 0 <= L.bounds[i] < L.bounds[i + 1] <= |w| && 8 * L.Size(i) < WORD_RANGE
    ensures Represents(Place(L, i, need, size), Written(w, L.bounds[i], L.Size(i), need), {})
    ensures KeepsLive(L, w, Written(w, L.bounds[i], L.Size(i), need))
  {
    var P := Place(L, i, need, size);
    BlockInMemory(L, w, i);
    HoldRepresents(L, w, {i}, P, i, size);
    MarkCleans(P, w, {i}, i);
    assert {i} - {i} == {};
    MarkKeepsLive(L, w, i, true);
  }

  lemma RoomRepresents(L: Layout, w: seq<Word>, need: nat)
    requires L.WF() && Represents(L, w, {}) && need >= MIN_WORDS
    requires SomeFit(L, need) || L.Top() + Growth(need) <= |w|
    ensures ReadyAt(Room(L, need), NextFit(L, need)) && Room(L, need).Base() == L.Base()
    ensures need <= Room(L, need).Size(NextFit(L, need))
    ensures Room(L, need).Live() == L.Live()
    ensures Represents(Room(L, need), w, {NextFit(L, need)})
  {
    NextFitComplete(L, need);
    RoomIsReady(L, need);
    RoomLive(L, need);
    if !SomeFit(L, need) { GrowRepresents(L, w, Growth(need)); }
  }

  lemma MallocRepresents(L: Layout, w: seq<Word>, size: Word)
    requires L.WF() && Represents(L, w, {}) && 0 < size <= MAX_REQUEST
    requires SomeFit(L, Need(size)) || L.Top() + Growth(Need(size)) <= |w|
    ensures var R, i := Room(L, Need(size)), NextFit(L, Need(size));
            && i < R.N() && 0 <= R.bounds[i] < R.bounds[i + 1] <= |w| && 1 <= Need(size) <= R.Size(i)
            && 8 * R.Size(i) < WORD_RANGE
            && var w' := Written(w, R.bounds[i], R.Size(i), Need(size));
            Represents(Malloc(L, size), w', {}) && KeepsLive(L, w, w')
  {
    NeedHasRoom(size);
    RoomRepresents(L, w, Need(size));
    var R, i := Room(L, Need(size)), NextFit(L, Need(size));
    if R.Size(i) - Need(size) <= MIN_WORDS {
      WriteWhole(R, w, i, Need(size), size);
    } else {
      WriteSplit(R, w, i, Need(size), size);
    }
  }

  /** The plan of mm_malloc: block i of the layout with room, and memory once its tags are
      written. */
  lemma MallocPlan(L: Layout, w: seq<Word>, size: Word, brk: int, max: int)
    returns (need: nat, R: Layout, i: nat, w': seq<Word>, M: Layout, grown: nat)
    requires L.WF() && Represents(L, w, {}) && Below(w, L.Base()) && 0 < size <= MAX_REQUEST
    requires 8 * L.Top() <= brk && max <= 8 * |w|
    requires SomeFit(L, Need(size)) || brk + 8 * Growth(Need(size)) <= max
    ensures AdjustedSize(size) == 8 * need && need >= MIN_WORDS
    ensures SomeFit(L, need) || brk + 8 * Growth(need) <= max
    ensures R == Room(L, need) && i == NextFit(L, need) && R.Shaped()
    ensures i < R.N() && 0 <= R.bounds[i] < R.bounds[i + 1] <= |w| && 1 <= need <= R.Size(i)
    ensures 8 * R.Size(i) < WORD_RANGE && w' == Written(w, R.bounds[i], R.Size(i), need)
    ensures M == Malloc(L, size)
    ensures M.WF() && M.cursor == i && M.bounds[i] == R.bounds[i] && M.Base() == L.Base() && M.Top() == R.Top()
    ensures grown == if SomeFit(L, Need(size)) then 0
                     else AdjustedSize(size) + if AdjustedSize(size) < 256 then 256 else 0
    ensures 8 * M.Top() == 8 * L.Top() + grown
    ensures Given(L, size).lo == 8 * R.bounds[i] + 8
    ensures Represents(M, w', {}) && KeepsLive(L, w, w') && Below(w', L.Base())
  {
    need := Need(size);
    R, i := Room(L, need), NextFit(L, need);
    NeedHasRoom(size);
    NextFitComplete(L, need);
    MallocRepresents(L, w, size);
    MallocWF(L, size);
    RoomIsReady(L, need);
    PlaceWF(R, i, need, size);
    MallocTop(L, size);
    w', M := Written(w, R.bounds[i], R.Size(i), need), Malloc(L, size);
    grown := 8 * M.Top() - 8 * L.Top();
    KeepsBelow(w, w', L.Base());
  }

  /** Where the freed block ends up. */
  function FreedAt(L: Layout, i: nat): nat
    requires L.Shaped() && i < L.N()
  {
    if i > 0 && L.Free(i - 1) then i - 1 else i
  }

  lemma FreeUpRepresents(L: Layout, w: seq<Word>, i: nat)
    requires L.WF() && Represents(L, w, {}) && i < L.N()
    ensures Represents(FreeUp(L, i), w, {i})
  {
    var L1 := L.(held := L.held[i := 0]);
    assert Represents(L, w, {i}) by {
      assert forall k :: 0 <= k < L.N() ==> TagsOk(L, w, k);
    }
    HoldRepresents(L, w, {i}, L1, i, 0);
    if i + 1 < L.N() && L.Free(i + 1) { MergeRepresents(L1, w, i + 1, i); }
  }

  /** Memory after mm_free marked the joined block. */
  lemma FreeRepresents(L: Layout, w: seq<Word>, i: nat)
    requires L.WF() && Represents(L, w, {}) && i < L.N() && !L.Free(i)
    ensures var F, j := FreeAt(L, i), FreedAt(L, i);
            && F.Shaped() && j < F.N() && 0 <= F.bounds[j] < F.bounds[j + 1] <= |w| && 8 * F.Size(j) < WORD_RANGE
            && F.bounds[j] == L.bounds[j]
            && F.bounds[j + 1] == (if i + 1 < L.N() && L.Free(i + 1) then L.bounds[i + 2] else L.bounds[i + 1])
            && var w' := Marked(w, F.bounds[j], F.Size(j), false);
            Represents(F, w', {}) && KeepsLive(F, w, w')
  {
    var F, j := FreeAt(L, i), FreedAt(L, i);
    FreeUpLoose(L, i);
    FreeUpRepresents(L, w, i);
    if i > 0 && L.Free(i - 1) { MergeRepresents(FreeUp(L, i), w, i, i); }
    MarkCleans(F, w, {j}, j);
    assert {j} - {j} == {};
    MarkKeepsLive(F, w, j, false);
  }

  /** The block the roving pointer stands at once block i has been joined with a free block
      above. */
  function CursorAbove(L: Layout, i: nat): nat
    requires L.Shaped() && i < L.N() && L.cursor < L.N()
  {
    if i + 1 < L.N() && L.Free(i + 1) && L.cursor == i + 1 then i else L.cursor
  }

  lemma MergeCursor(L: Layout, j: nat)
    requires L.Shaped() && 1 <= j < L.N() && L.cursor < L.N()
    ensures Merge(L, j).cursor < Merge(L, j).N()
    ensures Merge(L, j).bounds[Merge(L, j).cursor] == L.bounds[if L.cursor == j then j - 1 else L.cursor]
    ensures Merge(L, j).bounds[j - 1] == L.bounds[j - 1]
    ensures L.cursor < j ==> Merge(L, j).cursor == L.cursor
    ensures L.cursor >= j ==> Merge(L, j).cursor == L.cursor - 1
  {
  }

  /** The roving pointer moves to the start of the joined block exactly when it stands in it. */
  lemma CursorIn(L: Layout, i: nat, head: int, tail: int)
    requires L.WF() && i < L.N() && !L.Free(i)
    requires head == L.bounds[if i > 0 && L.held[i - 1] == 0 then i - 1 else i]
    requires tail == L.bounds[if i + 1 < L.N() && L.held[i + 1] == 0 then i + 2 else i + 1]
    ensures var c := CursorAbove(L, i);
            L.bounds[if i > 0 && L.Free(i - 1) && c == i then i - 1 else c] ==
              if head <= L.bounds[L.cursor] < tail then head else L.bounds[L.cursor]
  {
    var c := L.cursor;
    assert c + 1 < i ==> Above(L.bounds, c, i - 1);
    assert c < i ==> Above(L.bounds, c, i);
    assert i < c ==> Above(L.bounds, i, c);
    assert i + 1 < c ==> Above(L.bounds, i + 1, c);
    assert i + 2 < c ==> Above(L.bounds, i + 2, c);
    assert Above(L.bounds, i, i + 1) && (i > 0 ==> Above(L.bounds, i - 1, i));
    assert i + 1 < L.N() ==> Above(L.bounds, i + 1, i + 2);
  }

  lemma FreedSearch(L: Layout, i: nat)
    requires L.WF() && i < L.N() && !L.Free(i)
    ensures var F, c := FreeAt(L, i), CursorAbove(L, i);
            F.WF() && F.bounds[F.cursor] == L.bounds[if i > 0 && L.Free(i - 1) && c == i then i - 1 else c]
  {
    FreeWF(L, i);
    if i + 1 < L.N() && L.Free(i + 1) { MergeCursor(L.(held := L.held[i := 0]), i + 1); }
    if i > 0 && L.Free(i - 1) { MergeCursor(FreeUp(L, i), i); }
  }

  /** The joined block occupies the words head .. tail. */
  lemma FreePlan(L: Layout, w: seq<Word>, i: nat) returns (F: Layout, head: int, tail: int, w': seq<Word>)
    requires L.WF() && Represents(L, w, {}) && Below(w, L.Base()) && i < L.N() && !L.Free(i)
    ensures F == FreeAt(L, i) && F.WF() && F.Base() == L.Base() && F.Top() == L.Top()
    ensures 0 <= head < tail <= |w| && 8 * (tail - head) < WORD_RANGE
    ensures head == L.bounds[if i > 0 && L.held[i - 1] == 0 then i - 1 else i]
    ensures tail == L.bounds[if i + 1 < L.N() && L.Free(i + 1) then i + 2 else i + 1]
    ensures w' == Marked(w, head, tail - head, false)
    ensures Represents(F, w', {}) && KeepsLive(F, w, w') && Below(w', F.Base())
  {
    hide Represents, KeepsLive, Kept, Below, FreeAt, Spaced, Roomy, Layout.Coalesced;
    F := FreeAt(L, i);
    FreeWF(L, i);
    FreeRepresents(L, w, i);
    head, tail := F.bounds[FreedAt(L, i)], F.bounds[FreedAt(L, i) + 1];
    w' := Marked(w, head, tail - head, false);
    KeepsLiveBelow(F, w, w');
    KeepsBelow(w, w', F.Base());
  }

  lemma KeepsLiveBelow(L: Layout, w: seq<Word>, w': seq<Word>)
    requires L.Shaped() && KeepsLive(L, w, w')
    ensures Kept(w, w', WordBelow(L.Base()))
  {
  }

  /** Bytes written inside one live payload leave the block list and every other payload alone. */
  lemma FillKeeps(L: Layout, w: seq<Word>, w': seq<Word>, i: nat)
    requires Represents(L, w, {}) && i < L.N() && !L.Free(i) && |w'| == |w|
    requires forall a :: 0 <= a < |w| && !(L.bounds[i] < a < L.bounds[i + 1] - 1) ==> w'[a] == w[a]
    ensures Represents(L, w', {})
    ensures forall r :: r in L.Live() && r != L.RangeAt(i) ==> Kept(w, w', r)
    ensures Kept(w, w', WordBelow(L.Base()))
  {
    BlockInMemory(L, w, i);
    forall k | 0 <= k < L.N()
      ensures TagsOk(L, w', k)
    {
      BlockInMemory(L, w, k);
      assert TagsOk(L, w, k);
      if k != i { TagsApart(L, i, k); }
    }
    forall r | r in L.Live() && r != L.RangeAt(i)
      ensures Kept(w, w', r)
    {
      var k :| 0 <= k < L.N() && L.held[k] > 0 && r == L.RangeAt(k);
      LiveDisjoint(L, k, i);
    }
  }

  lemma InitRepresents(start: nat, w: seq<Word>)
    requires 8 <= start && start + CHUNK_SIZE + 8 <= 8 * |w| <= WORD_RANGE && Below(w, InitLayout(start).Base())
    ensures var base := InitLayout(start).Base();
            InitLayout(start).WF() && 8 * base == Roundup(start) && start <= 8 * base < start + 8 &&
            0 <= base && base + 512 <= |w| &&
            Represents(InitLayout(start), Marked(w, base, 512, false), {}) &&
            Below(Marked(w, base, 512, false), base)
  {
    var L := InitLayout(start);
    InitWF(start);
    assert Represents(L, w, {0});
    MarkCleans(L, w, {0}, 0);
    assert {0} - {0} == {};
  }

  // ---------- The allocator ----------

  class Allocator {
    const mem: Memory
    var base: int
    var top: int
    var search: int
    ghost var layout: Layout

    /** Everything but where the roving pointer stands. */
    ghost predicate Sound()
      reads `base, `top, `layout, mem, mem.words
    {
      && mem.Valid()
      && layout.WF()
      && Represents(layout, mem.words[..], {})
      && base == 8 * layout.Base() && top == 8 * layout.Top()
      && mem.startBrk <= base
      && 1 <= mem.brk - top <= 8
      && Below(mem.words[..], layout.Base())
    }

    ghost predicate Valid()
      reads this, mem, mem.words
    {
      Sound() && search == 8 * layout.bounds[layout.cursor]
    }

    /** The request can be served: its block size does not wrap, and if no block fits, what
        mm_malloc then asks of mem_sbrk is granted. */
    ghost predicate CanServe(size: Word)
      requires layout.WF()
      reads this, mem
    {
      size <= MAX_REQUEST &&
      (size == 0 || SomeFit(layout, Need(size)) || mem.brk + 8 * Growth(Need(size)) <= mem.maxAddr)
    }

    constructor (m: Memory)
      ensures mem == m
    {
      mem, base, top, search := m, 0, 0, 0;
      layout := Layout([], [], 0);
    }

    predicate IsAllocated(p: int)
      requires 0 <= p / 8 < mem.words.Length
      reads mem.words
    {
      TagAllocated(mem.words[p / 8])
    }

    function BlockSize(p: int): Word
      requires 0 <= p / 8 < mem.words.Length
      reads mem.words
    {
      TagSize(mem.words[p / 8])
    }

    /** p and size are 8-aligned: block p is the n words at word q. */
    method MarkBlock(p: int, size: Word, used: bool, ghost q: int, ghost n: int)
      requires p == 8 * q && size == 8 * n && 0 <= q < q + n <= mem.words.Length
      modifies mem.words
      ensures mem.words[..] == Marked(old(mem.words[..]), q, n, used)
      ensures mem.words[q] == mem.words[q + n - 1] == size + if used then 1 else 0
    {
      TagIs(size, n, used);
      hide Tag;
      var tag := Tag(size, used);
      mem.words[p / 8] := tag;
      mem.words[(p + size - WORD_SIZE) / 8] := tag;
    }

    method Init() returns (r: int)
      requires mem.Valid() && Below(mem.words[..], InitLayout(mem.brk).Base())
      modifies this, mem, mem.words
      ensures r == -1 <==> old(mem.brk) + 4104 > mem.maxAddr
      ensures r == -1 || r == 0
      ensures mem.Valid()
      ensures r == 0 ==> Valid() && layout == InitLayout(old(mem.brk))
      ensures r == 0 ==> mem.brk == old(mem.brk) + 4104 && top == base + 4096 && search == base
    {
      base := mem.Sbrk(CHUNK_SIZE + WORD_SIZE);
      if base == -1 {
        return -1;
      }
      InitRepresents(base, mem.words[..]);
      layout := InitLayout(base);
      base := Roundup(base);
      top := base + CHUNK_SIZE;
      MarkBlock(base, CHUNK_SIZE, false, layout.Base(), 512);
      search := base;
      return 0;
    }

    /** p is boundary k of the scan up to boundary `last`, and the header there, if the scan has
        not ended, reads as block k. */
    ghost predicate Scanning(p: int, k: nat, limit: int, last: nat)
      requires layout.Shaped()
      reads `layout, mem.words
    {
      && k <= last <= layout.N() && p == 8 * layout.bounds[k]
      && (p < limit <==> k < last)
      && (k < last ==>
            && 0 <= p / 8 < mem.words.Length
            && (IsAllocated(p) <==> !layout.Free(k))
            && p + BlockSize(p) == 8 * layout.bounds[k + 1]
            && BlockSize(p) == 8 * layout.Size(k))
    }

    lemma ScanAt(k: nat, last: nat)
      requires Sound() && k <= last <= layout.N()
      ensures Scanning(8 * layout.bounds[k], k, 8 * layout.bounds[last], last)
    {
      if k < last {
        ReadTags(layout, mem.words[..], k);
        assert Above(layout.bounds, k, last);
      }
    }

    /** The loop of first_fit and of both halves of next_fit: from boundary `first` look for a
        fitting block below boundary `last`. */
    method Scan(from: int, limit: int, totalsize: nat, ghost need: nat, ghost first: nat, ghost last: nat)
      returns (p: int)
      requires Sound() && first <= last <= layout.N() && totalsize == 8 * need
      requires from == 8 * layout.bounds[first] && limit == 8 * layout.bounds[last]
      ensures p == 8 * layout.bounds[FirstFrom(layout, need, first, last)]
    {
      p := from;
      ghost var k := first;
      ScanAt(k, last);
      while p < limit && (IsAllocated(p) || BlockSize(p) < totalsize)
        invariant Scanning(p, k, limit, last) && first <= k
        invariant forall j :: first <= j < k ==> !Fit(layout, j, need)
        decreases last - k
      {
        p := p + BlockSize(p);
        k := k + 1;
        ScanAt(k, last);
      }
      FirstFromIs(layout, need, first, last, k);
    }

    lemma BoundsRise(j: nat, k: nat)
      requires layout.WF() && j <= k <= layout.N()
      ensures layout.bounds[j] < layout.bounds[k] <==> j < k
    {
      assert j < k ==> Above(layout.bounds, j, k);
    }

    /** The first fitting block from the bottom, or top. */
    method FirstFit(totalsize: nat, ghost need: nat) returns (p: int)
      requires Sound() && totalsize == 8 * need
      ensures p == 8 * layout.bounds[FirstFrom(layout, need, 0, layout.N())]
    {
      p := Scan(base, top, totalsize, need, 0, layout.N());
      BoundsRise(FirstFrom(layout, need, 0, layout.N()), layout.N());
      if p >= top {
        p := top;
      }
    }

    /** The fitting block nearest to the roving pointer in circular order, or top. */
    method NextFit(totalsize: nat, ghost need: nat) returns (p: int)
      requires Valid() && totalsize == 8 * need
      modifies this`search
      ensures Sound()
      ensures search == p == 8 * layout.bounds[HeapLayout.NextFit(layout, need)]
    {
      p := Scan(search, top, totalsize, need, layout.cursor, layout.N());
      BoundsRise(FirstFrom(layout, need, layout.cursor, layout.N()), layout.N());
      if p >= top {
        p := Scan(base, search, totalsize, need, 0, layout.cursor);
        BoundsRise(FirstFrom(layout, need, 0, layout.cursor), layout.cursor);
        if p >= search {
          p := top;
        }
      }
      search := p;
    }

    /** The end of mm_malloc: the tags of the block handed out, and those of what is split off it. */
    method MarkServed(p: int, totalsize: Word, blocksize: Word, excess: Word, ghost q: int, ghost n: int, ghost need: int)
      requires p == 8 * q && blocksize == 8 * n && totalsize == 8 * need && excess == blocksize - totalsize
      requires 0 <= q && 1 <= need <= n && q + n <= mem.words.Length
      modifies mem.words
      ensures mem.words[..] == Written(old(mem.words[..]), q, n, need)
    {
      if excess <= 2 * WORD_SIZE + MIN_PAYLOAD {
        MarkBlock(p, blocksize, true, q, n);
      } else {
        MarkBlock(p, totalsize, true, q, need);
        MarkBlock(p + totalsize, excess, false, q + need, n - need);
      }
    }

    /** The middle of mm_malloc: the fitting block, or a new one above the old top. */
    method Reserve(totalsize: Word, ghost need: nat, ghost R: Layout, ghost i: nat)
      returns (p: int, blocksize: Word, excess: Word)
      requires Valid() && totalsize == 8 * need && need >= MIN_WORDS
      requires SomeFit(layout, need) || mem.brk + 8 * Growth(need) <= mem.maxAddr
      requires R == Room(layout, need) && i == HeapLayout.NextFit(layout, need)
      modifies `top, `search, mem
      ensures mem.Valid() && mem.brk - top == old(mem.brk - top)
      ensures R.Shaped() && i < R.N() && p == 8 * R.bounds[i] && blocksize == 8 * R.Size(i)
      ensures excess == blocksize - totalsize && search == p && top == 8 * R.Top()
      ensures p == old(top) <==> !SomeFit(layout, need)
      ensures mem.brk == old(mem.brk) + if p != old(top) then 0 else totalsize + if totalsize < 256 then 256 else 0
    {
      ghost var L := layout;
      NextFitComplete(L, need);
      RoomIsReady(L, need);
      ScanAt(i, L.N());
      p := NextFit(totalsize, need);
      if p == top {
        if totalsize < 256 {
          excess := 256;
          blocksize := totalsize + excess;
        } else {
          excess := 0;
          blocksize := totalsize;
        }
        var _ := mem.Sbrk(blocksize);
        top := top + blocksize;
      } else {
        blocksize := BlockSize(p);
        excess := BlockSize(p) - totalsize;
      }
    }

    /** Returns 0 for an empty request, else the payload of the block it made room for. The block
        list changes as HeapLayout.Malloc says, and no live payload changes its contents. */
    method Malloc(size: Word) returns (p: int)
      requires Valid() && CanServe(size)
      modifies this, mem, mem.words
      ensures Valid() && layout == HeapLayout.Malloc(old(layout), size)
      ensures p == if size == 0 then 0 else Given(old(layout), size).lo
      ensures mem.brk - top == old(mem.brk - top) && base == old(base)
      ensures mem.brk == old(mem.brk) + if size == 0 || SomeFit(old(layout), Need(size)) then 0
                                        else AdjustedSize(size) + if AdjustedSize(size) < 256 then 256 else 0
      ensures search == if size == 0 then old(search) else p - 8
      ensures KeepsLive(old(layout), old(mem.words[..]), mem.words[..])
    {
      hide Represents, KeepsLive, Below, Kept, Written, AdjustedSize, Need, SomeFit, Spaced, Roomy, Layout.Coalesced;
      var totalsize := AdjustedSize(size);
      if size == 0 {
        KeepsItself(layout, mem.words[..]);
        return 0;
      }
      ghost var need, R, i, w', M, grown := MallocPlan(layout, mem.words[..], size, mem.brk, mem.maxAddr);
      var blocksize, excess;
      p, blocksize, excess := Reserve(totalsize, need, R, i);
      MarkServed(p, totalsize, blocksize, excess, R.bounds[i], R.Size(i), need);
      layout := M;
      return p + WORD_SIZE;
    }

    /** First half of mm_free: if the block above is free, its size joins in and the roving pointer
        leaves it. */
    method JoinAbove(bp: int, size: int, ghost i: nat) returns (newSize: int)
      requires Valid() && i < layout.N() && bp == 8 * layout.bounds[i] && size == 8 * layout.Size(i)
      modifies `search
      ensures Sound()
      ensures bp + newSize == 8 * layout.bounds[if i + 1 < layout.N() && layout.Free(i + 1) then i + 2 else i + 1]
      ensures search == 8 * layout.bounds[CursorAbove(layout, i)]
    {
      ScanAt(i + 1, layout.N());
      SearchMeets(i);
      var nextBp := bp + size;
      newSize := size;
      if nextBp < top && !IsAllocated(nextBp) {
        newSize := newSize + BlockSize(nextBp);
        if search == nextBp {
          search := bp;
        }
      }
    }

    /** Second half: if the block below is free, the joined block starts there, and the roving
        pointer moves down with it. */
    method JoinBelow(bp: int, newSize: int, ghost i: nat, ghost cursor: nat)
      returns (head: int, size: int)
      requires Sound() && i < layout.N() && !layout.Free(i) && bp == 8 * layout.bounds[i]
      requires cursor < layout.N() && search == 8 * layout.bounds[cursor]
      modifies `search
      ensures Sound()
      ensures head == 8 * layout.bounds[if i > 0 && layout.held[i - 1] == 0 then i - 1 else i]
      ensures head + size == bp + newSize
      ensures search == 8 * layout.bounds[if i > 0 && layout.Free(i - 1) && cursor == i then i - 1 else cursor]
    {
      ScanAt(i, layout.N());
      FooterBelow(i);
      BoundsDiffer(i, cursor);
      var prevBp := bp - WORD_SIZE - BlockSize(bp - WORD_SIZE) + WORD_SIZE;
      head, size := bp, newSize;
      if prevBp >= base && !IsAllocated(prevBp) {
        head := prevBp;
        size := size + BlockSize(prevBp);
        if search == bp {
          search := prevBp;
        }
      }
    }

    /** p is the payload of block i, which is in use. The block list changes as FreeAt says, and
        no payload that stays live changes its contents. */
    method Free(p: int, ghost i: nat)
      requires Valid() && i < layout.N() && !layout.Free(i) && p == layout.RangeAt(i).lo
      modifies `search, `layout, mem.words
      ensures Valid() && layout == FreeAt(old(layout), i)
      ensures KeepsLive(layout, old(mem.words[..]), mem.words[..])
      ensures var L := old(layout);
              var head := 8 * L.bounds[if i > 0 && L.held[i - 1] == 0 then i - 1 else i];
              var tail := 8 * L.bounds[if i + 1 < L.N() && L.held[i + 1] == 0 then i + 2 else i + 1];
              search == if head <= old(search) < tail then head else old(search)
    {
      hide Represents, KeepsLive, FreeAt, Below, Marked, Kept, Spaced, Roomy, Layout.Coalesced;
      ghost var F, head, tail, w' := FreePlan(layout, mem.words[..], i);
      FreedSearch(layout, i);
      CursorIn(layout, i, head, tail);
      hide CursorAbove;
      ScanAt(i, layout.N());
      var bp := p - WORD_SIZE;
      var newSize := JoinAbove(bp, BlockSize(bp), i);
      var newHead;
      newHead, newSize := JoinBelow(bp, newSize, i, CursorAbove(layout, i));
      assert mem.words[..] == old(mem.words[..]) && newHead == 8 * head && newSize == 8 * (tail - head);
      MarkBlock(newHead, newSize, false, head, tail - head);
      assert mem.words[..] == w';
      layout := F;
    }

    lemma BoundsDiffer(i: nat, j: nat)
      requires layout.WF() && i < layout.N() && j < layout.N()
      ensures layout.bounds[i] == layout.bounds[j] <==> i == j
      ensures i > 0 ==> layout.bounds[i - 1] >= layout.Base()
    {
      assert i < j ==> Above(layout.bounds, i, j);
      assert j < i ==> Above(layout.bounds, j, i);
      assert i > 1 ==> Above(layout.bounds, 0, i - 1);
    }

    lemma SearchMeets(i: nat)
      requires Valid() && i < layout.N()
      ensures i + 1 < layout.N() ==> (search == 8 * layout.bounds[i + 1] <==> layout.cursor == i + 1)
    {
      if i + 1 < layout.N() { BoundsDiffer(i + 1, layout.cursor); }
    }

    /** Reading the footer below block i leads to the previous block; below the first block it
        leads out of the heap or nowhere. */
    lemma FooterBelow(i: nat)
      requires Sound() && i < layout.N()
      ensures var bp := 8 * layout.bounds[i];
              && 0 <= (bp - 8) / 8 < mem.words.Length
              && var prev := bp - BlockSize(bp - 8);
              && 0 <= prev / 8 < mem.words.Length
              && (i > 0 ==> prev == 8 * layout.bounds[i - 1] && BlockSize(prev) == 8 * layout.Size(i - 1) &&
                            (IsAllocated(prev) <==> !layout.Free(i - 1)))
              && (i == 0 ==> 0 <= prev <= bp)
    {
      ReadTags(layout, mem.words[..], i);
      if i > 0 {
        ReadTags(layout, mem.words[..], i - 1);
      }
    }

    /** Block b[k] .. b[k + 1] lies below top and its header tells its size. */
    ghost predicate Strides(b: seq<int>, k: nat)
      requires k + 1 < |b|
      reads `top, mem.words
    {
      && 0 <= b[k] < b[k + 1] <= mem.words.Length && 8 * b[k] < top
      && BlockSize(8 * b[k]) == 8 * (b[k + 1] - b[k])
    }

    /** mm_realloc is a stub. */
    method Realloc(p: int, newsize: Word) returns (r: int)
      ensures r == 0
    {
      return 0;
    }

    /** The headers walk from base through `b`, never standing still, to the first boundary at or
        above top. */
    ghost predicate Walk(b: seq<int>)
      reads `base, `top, mem.words
    {
      && |b| >= 2 && 8 * b[0] == base && top <= 8 * b[|b| - 1]
      && forall k :: 0 <= k < |b| - 1 ==> Strides(b, k)
    }

    ghost predicate FooterMatches(b: seq<int>, k: nat)
      requires k + 1 < |b| && Strides(b, k)
      reads `top, mem.words
    {
      mem.words[b[k]] == mem.words[b[k + 1] - 1]
    }

    /** mm_check on any memory whose headers can be walked: 0 exactly when every footer matches
        its header and the walk ends at top. */
    method Check(ghost b: seq<int>) returns (r: int)
      requires Walk(b)
      ensures r == 0 || r == -1
      ensures r == 0 <==> 8 * b[|b| - 1] == top && forall k :: 0 <= k < |b| - 1 ==> FooterMatches(b, k)
    {
      r := 0;
      var p := base;
      ghost var k := 0;
      while p < top
        invariant 0 <= k < |b| && p == 8 * b[k] && (k < |b| - 1 ==> Strides(b, k))
        invariant r == 0 || r == -1
        invariant r == 0 <==> forall j :: 0 <= j < k ==> FooterMatches(b, j)
        decreases |b| - k
      {
        assert Strides(b, k);
        var blocksize := BlockSize(p);
        assert (p + blocksize - WORD_SIZE) / 8 == b[k + 1] - 1;
        assert FooterMatches(b, k) <==> mem.words[p / 8] == mem.words[(p + blocksize - WORD_SIZE) / 8];
        if mem.words[p / 8] != mem.words[(p + blocksize - WORD_SIZE) / 8] {
          r := -1;
        }
        p := p + blocksize;
        k := k + 1;
        assert k < |b| - 1 ==> Strides(b, k);
      }
      if p != top {
        r := -1;
      }
    }

    /** A sound heap is walked block by block and passes. */
    lemma SoundPasses()
      requires Sound()
      ensures Walk(layout.bounds)
      ensures 8 * layout.bounds[layout.N()] == top
      ensures forall k :: 0 <= k < layout.N() ==> FooterMatches(layout.bounds, k)
    {
      forall k | 0 <= k < layout.N()
        ensures Strides(layout.bounds, k) && FooterMatches(layout.bounds, k)
      {
        ReadTags(layout, mem.words[..], k);
      }
    }
  }
}
