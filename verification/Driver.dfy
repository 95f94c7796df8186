/** mdriver.c: replaying a trace against the allocator, checking every payload and measuring how
    well the heap is used. */
module Driver {
  import opened HeapLayout
  import opened WordBytes
  import opened MemLib
  import opened Mm
  import opened Trace
  import opened HeapRun
  import opened Ranges

  /** The driver fills a payload with the low byte of its id. */
  function Mark(id: nat): Byte { id % 256 }

  ghost predicate Filled(w: seq<Word>, r: Range, v: Byte) {
    0 <= r.lo && r.hi < 8 * |w| && forall a :: r.lo <= a <= r.hi ==> ByteAt(w, a) == v
  }

  lemma KeptStaysFilled(w: seq<Word>, w': seq<Word>, r: Range, v: Byte)
    requires Filled(w, r, v) && Kept(w, w', r)
    ensures Filled(w', r, v)
  {
    forall a | r.lo <= a <= r.hi ensures ByteAt(w', a) == v {
      assert ByteAt(w, a) == v;
      assert r.lo < 8 * (a / 8) + 8 && 8 * (a / 8) <= r.hi;
    }
  }

  /** Every outstanding payload still holds what the client wrote there. */
  ghost predicate AllFilled(w: seq<Word>, table: map<nat, Range>) {
    forall id :: id in table ==> Filled(w, table[id], Mark(id))
  }

  /** The list holds the live payload extents, each once. */
  ghost predicate Lists(contents: seq<Range>, L: Layout)
    requires L.Shaped()
  {
    && (forall r :: r in contents <==> r in L.Live())
    && (forall i, j :: 0 <= i < j < |contents| ==> contents[i].lo != contents[j].lo)
  }

  /** The trace's arrays remember the outstanding blocks. */
  ghost predicate Remembered(table: map<nat, Range>, blocks: array<int>, sizes: array<int>)
    reads blocks, sizes
  {
    forall id :: id in table ==>
      && id < blocks.Length && id < sizes.Length && blocks[id] == table[id].lo
      && sizes[id] == table[id].hi - table[id].lo + 1
  }

  /** The allocator is in state s, and the driver knows its blocks. */
  ghost predicate Tracked(s: State, a: Allocator, blocks: array<int>, sizes: array<int>)
    reads a, a.mem, a.mem.words, blocks, sizes
  {
    a.Valid() && a.layout == s.layout && Remembered(s.table, blocks, sizes)
  }

  ghost predicate Synced(s: State, a: Allocator, blocks: array<int>, sizes: array<int>)
    reads a, a.mem, a.mem.words, blocks, sizes
  {
    Tracked(s, a, blocks, sizes) && AllFilled(a.mem.words[..], s.table)
  }

  /** The new payload lies in the heap as add_range sees it. */
  lemma GivenInHeap(a: Allocator, L: Layout, size: Size)
    requires a.Valid() && L.WF() && size > 0 && a.layout == Malloc(L, size)
    ensures var g := Given(L, size);
            g.lo > 0 && g.lo % 8 == 0 && a.mem.HeapLo() <= g.lo <= g.hi <= a.mem.HeapHi()
  {
    MallocLive(L, size);
    assert Given(L, size) in a.layout.Live();
    var k := BlockOf(a.layout, Given(L, size));
    LiveDisjoint(a.layout, k, k);
  }

  lemma GivenHitsNothing(L: Layout, size: Size, contents: seq<Range>)
    requires L.WF() && size > 0 && Lists(contents, L)
    ensures forall i :: 0 <= i < |contents| ==> !Hits(Given(L, size).lo, Given(L, size).hi, contents[i])
  {
    MallocLive(L, size);
    forall i | 0 <= i < |contents| ensures !Hits(Given(L, size).lo, Given(L, size).hi, contents[i]) {
      assert contents[i] in contents;
    }
  }

  /** A client writing into its own payload does not disturb the allocator or anyone else. */
  method ClientFill(a: Allocator, p: int, v: Byte, size: nat, ghost g: Range)
    requires a.Valid() && g in a.layout.Live() && g == Range(p, p + size - 1)
    modifies a.mem.words
    ensures a.Valid() && Filled(a.mem.words[..], g, v)
    ensures forall r :: r in a.layout.Live() && r != g ==> Kept(old(a.mem.words[..]), a.mem.words[..], r)
  {
    ghost var w, i := a.mem.words[..], BlockOf(a.layout, g);
    BlockInMemory(a.layout, w, i);
    a.mem.Memset(p, v, size);
    FillKeeps(a.layout, w, a.mem.words[..], i);
    KeepsBelow(w, a.mem.words[..], a.layout.Base());
  }

  lemma ListsMore(contents: seq<Range>, L: Layout, size: Size)
    requires L.WF() && size > 0 && Lists(contents, L)
    ensures Malloc(L, size).Shaped() && Lists([Given(L, size)] + contents, Malloc(L, size))
  {
    var M, g := MallocEffect(L, size);
    var more := [g] + contents;
    forall i, j | 0 <= i < j < |more| ensures more[i].lo != more[j].lo {
      if i == 0 {
        assert contents[j - 1] in L.Live();
      }
    }
  }

  lemma ListsLess(contents: seq<Range>, L: Layout, i: nat)
    requires L.WF() && i < L.N() && !L.Free(i) && Lists(contents, L)
    ensures FreeAt(L, i).Shaped() && Lists(Without(contents, L.RangeAt(i).lo), FreeAt(L, i))
  {
    FreeWF(L, i);
    FreeLive(L, i);
    WithoutIs(contents, L.RangeAt(i).lo);
    forall r | r in L.Live() && r.lo == L.RangeAt(i).lo ensures r == L.RangeAt(i) {
      LiveDisjoint(L, BlockOf(L, r), i);
    }
  }

  lemma AllKept(w: seq<Word>, w': seq<Word>, L: Layout, table: map<nat, Range>)
    requires L.Shaped() && table.Values <= L.Live() && AllFilled(w, table)
    requires forall r :: r in L.Live() ==> Kept(w, w', r)
    ensures AllFilled(w', table)
  {
    forall k | k in table ensures Filled(w', table[k], Mark(k)) {
      assert table[k] in table.Values;
      KeptStaysFilled(w, w', table[k], Mark(k));
    }
  }

  /** The new payload passes every test of add_range and may be listed. */
  lemma GivenPasses(a: Allocator, L: Layout, size: Size, contents: seq<Range>) returns (g: Range)
    requires a.Valid() && L.WF() && size > 0 && a.layout == Malloc(L, size) && Lists(contents, L)
    ensures g == Given(L, size) && g.hi == g.lo + size - 1
    ensures g.lo % 8 == 0 && a.mem.HeapLo() <= g.lo <= g.hi <= a.mem.HeapHi()
    ensures forall i :: 0 <= i < |contents| ==> !Hits(g.lo, g.hi, contents[i])
    ensures Lists([g] + contents, a.layout)
  {
    g := Given(L, size);
    GivenInHeap(a, L, size);
    GivenHitsNothing(L, size, contents);
    ListsMore(contents, L, size);
  }

  /** List a payload that passes every test of add_range. */
  method Enlist(a: Allocator, ranges: RangeList, p: int, size: Size, ghost g: Range)
    returns (ok: bool)
    requires ranges.Valid() && size > 0 && g == Range(p, p + size - 1)
    requires p % 8 == 0 && a.mem.HeapLo() <= p && p + size - 1 <= a.mem.HeapHi()
    requires forall i :: 0 <= i < |ranges.contents| ==> !Hits(g.lo, g.hi, ranges.contents[i])
    modifies ranges
    ensures ok && ranges.Valid() && ranges.contents == [g] + old(ranges.contents)
    ensures forall n :: n in ranges.nodes ==> n in old(ranges.nodes) || fresh(n)
  {
    ok := ranges.Add(p, size, a.mem.HeapLo(), a.mem.HeapHi());
    assert forall n :: n in ranges.nodes ==> n == ranges.nodes[0] || n in ranges.nodes[1..];
  }

  /** Fill the new payload and remember it in the trace's arrays. */
  method Remember(a: Allocator, blocks: array<int>, sizes: array<int>, id: nat, p: int, size: Size, ghost s: State,
                  ghost out: map<nat, Size>)
    requires a.Valid() && Inv(s, out) && id !in out && size > 0
    requires a.layout == Malloc(s.layout, size) && p == Given(s.layout, size).lo && AllFilled(a.mem.words[..], s.table)
    requires blocks != sizes && id < blocks.Length && id < sizes.Length
    requires Remembered(s.table, blocks, sizes)
    modifies a.mem.words, blocks, sizes
    ensures Synced(Step(s, Alloc(id, size)), a, blocks, sizes)
  {
    ghost var M, g := MallocEffect(s.layout, size);
    ghost var w := a.mem.words[..];
    ClientFill(a, p, Mark(id), size, g);
    blocks[id] := p;
    sizes[id] := size;
    forall k | k in s.table ensures Filled(a.mem.words[..], s.table[k], Mark(k)) {
      assert s.table[k] in s.table.Values;
      KeptStaysFilled(w, a.mem.words[..], s.table[k], Mark(k));
    }
    assert Step(s, Alloc(id, size)) == State(M, s.table[id := g]);
  }

  /** The ALLOC case of eval_mm_valid: it is refused exactly when it asks for nothing. */
  method ReplayAlloc(a: Allocator, ranges: RangeList, blocks: array<int>, sizes: array<int>, id: nat, size: Size,
                     ghost s: State, ghost out: map<nat, Size>)
    returns (ok: bool)
    requires Synced(s, a, blocks, sizes) && Inv(s, out) && (size > 0 ==> id !in out) && a.CanServe(size)
    requires ranges.Valid() && Lists(ranges.contents, s.layout)
    requires blocks != sizes && id < blocks.Length && id < sizes.Length
    modifies a, a.mem, a.mem.words, ranges, blocks, sizes
    ensures ok <==> size > 0
    ensures ok ==> Synced(Step(s, Alloc(id, size)), a, blocks, sizes)
    ensures ok ==> ranges.Valid() && Lists(ranges.contents, a.layout)
    ensures ok ==> a.mem.brk - a.top == old(a.mem.brk - a.top)
    ensures forall n :: n in ranges.nodes ==> n in old(ranges.nodes) || fresh(n)
  {
    var p := a.Malloc(size);
    if size > 0 { GivenInHeap(a, s.layout, size); }
    if p == 0 {
      return false;
    }
    AllKept(old(a.mem.words[..]), a.mem.words[..], s.layout, s.table);
    ghost var g := GivenPasses(a, s.layout, size, ranges.contents);
    ok := Enlist(a, ranges, p, size, g);
    if ok {
      Remember(a, blocks, sizes, id, p, size, s, out);
    }
  }

  /** The FREE case of eval_mm_valid. */
  method ReplayFree(a: Allocator, ranges: RangeList, blocks: array<int>, sizes: array<int>, id: nat,
                    ghost s: State, ghost out: map<nat, Size>)
    requires Synced(s, a, blocks, sizes) && Inv(s, out) && id in out
    requires ranges.Valid() && Lists(ranges.contents, s.layout)
    requires id < blocks.Length
    modifies a, a.mem.words, ranges, ranges.nodes
    ensures Synced(Step(s, Free(id)), a, blocks, sizes)
    ensures ranges.Valid() && Lists(ranges.contents, a.layout)
    ensures a.mem.brk - a.top == old(a.mem.brk - a.top)
    ensures forall n :: n in ranges.nodes ==> n in old(ranges.nodes)
  {
    hide FreeAt, Represents, Below, Spaced, Roomy, Layout.Coalesced, Without;
    ghost var s' := Step(s, Free(id));
    FreeKeepsInv(s, out, id);
    ghost var i := BlockOf(s.layout, s.table[id]);
    ListsLess(ranges.contents, s.layout, i);
    var p := blocks[id];
    ranges.Remove(p);
    a.Free(p, i);
    forall k | k in s'.table ensures Filled(a.mem.words[..], s'.table[k], Mark(k)) {
      assert s'.table[k] in s'.table.Values;
      KeptStaysFilled(old(a.mem.words[..]), a.mem.words[..], s.table[k], Mark(k));
    }
  }

  // ---------- Whole traces ----------

  /** What the driver needs of a trace: as long as its requests can be served, frees name
      outstanding ids and allocations do not, and the heap can be extended as far as they ask. */
  ghost predicate Replayable(start: nat, max: int, ops: seq<Op>) {
    forall n :: 0 <= n <= |ops| ==> ReplayableTo(start, max, ops, n)
  }

  ghost predicate ReplayableTo(start: nat, max: int, ops: seq<Op>, n: nat)
    requires n <= |ops|
  {
    Plain(ops[..n]) ==> WellFormed(ops[..n]) && FitsTrace(start, max, ops[..n])
  }

  /** What one request of a replayable trace needs, in the state the trace has reached. */
  lemma RequestReady(start: nat, max: int, ops: seq<Op>, k: nat)
    requires Replayable(start, max, ops) && k < |ops| && Plain(ops[..k])
    ensures WellFormed(ops[..k]) && Inv(Run(start, ops[..k]), Outstanding(ops[..k]))
    ensures Served(ops[k]) ==> Allowed(ops[k], Outstanding(ops[..k]).Keys)
    ensures var L := Run(start, ops[..k]).layout;
            Served(ops[k]) && ops[k].Alloc? && !SomeFit(L, Need(ops[k].size)) ==>
              8 * (L.Top() + Growth(Need(ops[k].size))) + Slack(start) <= max
  {
    assert ReplayableTo(start, max, ops, k);
    RunInv(start, ops[..k]);
    if Served(ops[k]) {
      PlainStep(ops, k);
      assert ReplayableTo(start, max, ops, k + 1);
      var pre := ops[..k + 1];
      PrefixOfPrefix(ops, k, k + 1);
      assert Allowed(pre[k], Outstanding(pre[..k]).Keys);
      assert FitsAt(start, max, pre, k);
    }
  }

  /** Everything the driver and the allocator agree on between two requests. */
  ghost predicate InStep(start: nat, ops: seq<Op>, a: Allocator, blocks: array<int>, sizes: array<int>)
    reads a, a.mem, a.mem.words, blocks, sizes
  {
    Synced(Run(start, ops), a, blocks, sizes) && a.mem.startBrk == start && a.mem.brk - a.top == Slack(start)
  }

  /** The switch of eval_mm_valid. */
  method ReplayOne(ghost ops: seq<Op>, ghost k: nat, op: Op, a: Allocator, ranges: RangeList, blocks: array<int>,
                   sizes: array<int>, ghost start: nat)
    returns (ok: bool)
    requires k < |ops| && op == ops[k] && Plain(ops[..k]) && Replayable(start, a.mem.maxAddr, ops)
    requires InStep(start, ops[..k], a, blocks, sizes)
    requires ranges.Valid() && Lists(ranges.contents, a.layout)
    requires blocks != sizes && op.id < blocks.Length && op.id < sizes.Length
    modifies a, a.mem, a.mem.words, ranges, ranges.nodes, blocks, sizes
    ensures ok <==> Served(op)
    ensures ok ==> InStep(start, ops[..k + 1], a, blocks, sizes)
    ensures ok ==> ranges.Valid() && Lists(ranges.contents, a.layout)
    ensures forall n :: n in ranges.nodes ==> n in old(ranges.nodes) || fresh(n)
  {
    ghost var s, out := Run(start, ops[..k]), Outstanding(ops[..k]);
    RequestReady(start, a.mem.maxAddr, ops, k);
    RunStep(start, ops, k);
    match op {
      case Alloc(id, size) =>
        ok := ReplayAlloc(a, ranges, blocks, sizes, id, size, s, out);
      case Free(id) =>
        ReplayFree(a, ranges, blocks, sizes, id, s, out);
        ok := true;
      case Realloc(id, size) =>
        var newp := a.Realloc(blocks[id], size);
        ok := newp != 0;
    }
  }

  /** mem_reset_brk, clear_ranges and mm_init. */
  method Restart(a: Allocator, ranges: RangeList, blocks: array<int>, sizes: array<int>) returns (r: int)
    requires a.mem.Valid() && Below(a.mem.words[..], InitLayout(a.mem.startBrk).Base())
    modifies a, a.mem, a.mem.words, ranges
    ensures r == 0 && InStep(a.mem.startBrk, [], a, blocks, sizes)
    ensures ranges.Valid() && ranges.nodes == [] && Lists(ranges.contents, a.layout)
  {
    a.mem.ResetBrk();
    ranges.Clear();
    InitWF(a.mem.startBrk);
    r := a.Init();
  }

  /** eval_mm_valid: the allocator is accepted exactly when the trace asks only for what mm.c
      serves; then the list holds exactly the live payloads, every payload still holds the bytes
      its client wrote, and a trace that frees all it allocates has emptied the heap. */
  method EvalMmValid(ops: seq<Op>, a: Allocator, ranges: RangeList, blocks: array<int>, sizes: array<int>)
    returns (r: int)
    requires a.mem.Valid() && Below(a.mem.words[..], InitLayout(a.mem.startBrk).Base())
    requires Replayable(a.mem.startBrk, a.mem.maxAddr, ops)
    requires blocks != sizes && forall k :: 0 <= k < |ops| ==> ops[k].id < blocks.Length && ops[k].id < sizes.Length
    modifies a, a.mem, a.mem.words, ranges, blocks, sizes
    ensures r == 0 || r == 1
    ensures r == 1 <==> forall k :: 0 <= k < |ops| ==> ops[k].Free? || (ops[k].Alloc? && ops[k].size > 0)
    ensures r == 1 ==> InStep(a.mem.startBrk, ops, a, blocks, sizes)
    ensures r == 1 ==> ranges.Valid() && Lists(ranges.contents, a.layout)
    ensures r == 1 ==> forall id :: id in Outstanding(ops) ==>
      && id < blocks.Length && id < sizes.Length && sizes[id] == Outstanding(ops)[id]
      && a.mem.startBrk <= blocks[id] && blocks[id] % 8 == 0
      && blocks[id] + sizes[id] <= a.mem.brk <= 8 * a.mem.words.Length
    ensures r == 1 ==> forall id, b :: id in Outstanding(ops) && blocks[id] <= b < blocks[id] + sizes[id] ==>
      ByteAt(a.mem.words[..], b) == id % 256
    ensures r == 1 && Outstanding(ops) == map[] ==> Emptied(a.layout, ranges.contents)
  {
    var started := Restart(a, ranges, blocks, sizes);
    if started < 0 {
      return 0;
    }
    ghost var start := a.mem.startBrk;
    for i := 0 to |ops|
      invariant Plain(ops[..i]) && InStep(start, ops[..i], a, blocks, sizes)
      invariant ranges.Valid() && Lists(ranges.contents, a.layout)
      invariant forall j :: 0 <= j < |ranges.nodes| ==> fresh(ranges.nodes[j])
    {
      PlainStep(ops, i);
      var ok := ReplayOne(ops, i, ops[i], a, ranges, blocks, sizes, start);
      assert forall j :: 0 <= j < |ranges.nodes| ==> ranges.nodes[j] in ranges.nodes;
      if !ok {
        return 0;
      }
    }
    assert ops[..|ops|] == ops;
    assert ReplayableTo(start, a.mem.maxAddr, ops, |ops|);
    RunEmpties(start, ops, ranges.contents);
    Delivered(ops, a, blocks, sizes);
    return 1;
  }

  /** Every outstanding block lies in the heap, aligned, and is full of the low byte of its id. */
  lemma Delivered(ops: seq<Op>, a: Allocator, blocks: array<int>, sizes: array<int>)
    requires WellFormed(ops) && Plain(ops) && InStep(a.mem.startBrk, ops, a, blocks, sizes)
    ensures forall id :: id in Outstanding(ops) ==>
      && id < blocks.Length && id < sizes.Length && sizes[id] == Outstanding(ops)[id]
      && a.mem.startBrk <= blocks[id] && blocks[id] % 8 == 0
      && blocks[id] + sizes[id] <= a.mem.brk <= 8 * a.mem.words.Length
    ensures forall id, b :: id in Outstanding(ops) && blocks[id] <= b < blocks[id] + sizes[id] ==>
      ByteAt(a.mem.words[..], b) == id % 256
  {
    var s := Run(a.mem.startBrk, ops);
    RunInv(a.mem.startBrk, ops);
    forall id | id in Outstanding(ops)
      ensures id < blocks.Length && id < sizes.Length && sizes[id] == Outstanding(ops)[id]
      ensures a.mem.startBrk <= blocks[id] && blocks[id] % 8 == 0 && blocks[id] + sizes[id] <= a.mem.brk
    {
      assert s.table[id] in s.table.Values;
      var k := BlockOf(s.layout, s.table[id]);
      LiveDisjoint(s.layout, k, k);
    }
    forall id, b | id in Outstanding(ops) && blocks[id] <= b < blocks[id] + sizes[id]
      ensures ByteAt(a.mem.words[..], b) == id % 256
    {
      assert Filled(a.mem.words[..], s.table[id], Mark(id));
    }
  }

  /** One free block, nothing listed. */
  ghost predicate Emptied(L: Layout, contents: seq<Range>) {
    L.Shaped() && contents == [] && L == Layout([L.Base(), L.Top()], [0], 0)
  }

  lemma RunEmpties(start: nat, ops: seq<Op>, contents: seq<Range>)
    requires WellFormed(ops) && Plain(ops)
    requires Run(start, ops).layout.Shaped() && Lists(contents, Run(start, ops).layout)
    ensures Outstanding(ops) == map[] ==> Emptied(Run(start, ops).layout, contents)
  {
    RunInv(start, ops);
    RunRecovers(start, ops);
    FullRecovery(Run(start, ops).layout);
    assert contents == [] || contents[0] in Run(start, ops).layout.Live();
  }

  // ---------- Utilisation ----------

  /** Everything eval_mm_util knows between two requests. */
  ghost predicate Measuring(start: nat, ops: seq<Op>, a: Allocator, blocks: array<int>, sizes: array<int>, total: int,
                            most: int)
    reads a, a.mem, a.mem.words, blocks, sizes
  {
    && Tracked(Run(start, ops), a, blocks, sizes) && a.mem.startBrk == start && a.mem.brk - a.top == Slack(start)
    && total == Total(ops) && most == HighWater(ops)
  }

  lemma SpaceStep(ops: seq<Op>, k: nat)
    requires k < |ops|
    ensures Total(ops[..k + 1]) ==
              match ops[k]
              case Alloc(_, size) => Total(ops[..k]) + size
              case Free(id) => Total(ops[..k]) - (if id in Outstanding(ops[..k]) then Outstanding(ops[..k])[id] else 0)
              case Realloc(_, _) => Total(ops[..k])
    ensures HighWater(ops[..k + 1]) ==
              if Total(ops[..k + 1]) > HighWater(ops[..k]) then Total(ops[..k + 1]) else HighWater(ops[..k])
  {
    PrefixOfPrefix(ops, k, k + 1);
  }

  lemma FreeIsNoPeak(start: nat, ops: seq<Op>, k: nat)
    requires k < |ops| && ops[k].Free?
    ensures HighWater(ops[..k + 1]) == HighWater(ops[..k])
  {
    SpaceStep(ops, k);
    HighWaterIsMax(ops[..k]);
    assert ops[..k][..k] == ops[..k];
  }

  /** The switch of eval_mm_util; it gives up on a request mm.c does not serve. */
  method MeasureOne(ghost ops: seq<Op>, ghost k: nat, op: Op, a: Allocator, blocks: array<int>, sizes: array<int>,
                    total: int, most: int, ghost start: nat)
    returns (ok: bool, total': int, most': int)
    requires k < |ops| && op == ops[k] && Plain(ops[..k]) && Replayable(start, a.mem.maxAddr, ops)
    requires Measuring(start, ops[..k], a, blocks, sizes, total, most)
    requires blocks != sizes && op.id < blocks.Length && op.id < sizes.Length
    modifies a, a.mem, a.mem.words, blocks, sizes
    ensures ok <==> Served(op)
    ensures ok ==> Measuring(start, ops[..k + 1], a, blocks, sizes, total', most')
  {
    ghost var s, out := Run(start, ops[..k]), Outstanding(ops[..k]);
    RequestReady(start, a.mem.maxAddr, ops, k);
    RunStep(start, ops, k);
    SpaceStep(ops, k);
    total', most' := total, most;
    match op {
      case Alloc(id, size) =>
        ok := MeasureAlloc(a, blocks, sizes, id, size, s, out);
        total' := total + size;
        most' := if total' > most then total' else most;
      case Free(id) =>
        FreeIsNoPeak(start, ops, k);
        var size := sizes[id];
        MeasureFree(a, blocks, sizes, id, s, out);
        total' := total - size;
        ok := true;
      case Realloc(id, size) =>
        var newp := a.Realloc(blocks[id], size);
        ok := newp != 0;
    }
  }

  method MeasureAlloc(a: Allocator, blocks: array<int>, sizes: array<int>, id: nat, size: Size, ghost s: State,
                      ghost out: map<nat, Size>)
    returns (ok: bool)
    requires Tracked(s, a, blocks, sizes) && Inv(s, out) && (size > 0 ==> id !in out) && a.CanServe(size)
    requires blocks != sizes && id < blocks.Length && id < sizes.Length
    modifies a, a.mem, a.mem.words, blocks, sizes
    ensures ok <==> size > 0
    ensures ok ==> Tracked(Step(s, Alloc(id, size)), a, blocks, sizes)
    ensures a.mem.brk - a.top == old(a.mem.brk - a.top)
  {
    var p := a.Malloc(size);
    if size > 0 { GivenInHeap(a, s.layout, size); }
    if p == 0 {
      return false;
    }
    ghost var M, g := MallocEffect(s.layout, size);
    blocks[id] := p;
    sizes[id] := size;
    assert Step(s, Alloc(id, size)) == State(M, s.table[id := g]);
    return true;
  }

  method MeasureFree(a: Allocator, blocks: array<int>, sizes: array<int>, id: nat, ghost s: State,
                     ghost out: map<nat, Size>)
    requires Tracked(s, a, blocks, sizes) && Inv(s, out) && id in out && id < blocks.Length
    modifies a, a.mem.words
    ensures Tracked(Step(s, Free(id)), a, blocks, sizes)
    ensures a.mem.brk - a.top == old(a.mem.brk - a.top)
  {
    FreeKeepsInv(s, out, id);
    a.Free(blocks[id], BlockOf(s.layout, s.table[id]));
  }

  datatype Option<T> = None | Some(value: T)

  /** eval_mm_util: gives up exactly on a trace mm.c does not serve, and otherwise returns the high
      water mark of live bytes over the heap's final size, at most 1. */
  method EvalMmUtil(ops: seq<Op>, a: Allocator, blocks: array<int>, sizes: array<int>) returns (util: Option<real>)
    requires a.mem.Valid() && Below(a.mem.words[..], InitLayout(a.mem.startBrk).Base())
    requires Replayable(a.mem.startBrk, a.mem.maxAddr, ops)
    requires blocks != sizes && forall k :: 0 <= k < |ops| ==> ops[k].id < blocks.Length && ops[k].id < sizes.Length
    modifies a, a.mem, a.mem.words, blocks, sizes
    ensures util.Some? <==> Plain(ops)
    ensures util.Some? ==> 0 < a.mem.brk - a.mem.startBrk <= 41943040 && HighWater(ops) <= a.mem.brk - a.mem.startBrk
    ensures util.Some? ==> util.value == HighWater(ops) as real / (a.mem.brk - a.mem.startBrk) as real
    ensures util.Some? ==> 0.0 <= util.value <= 1.0
  {
    a.mem.ResetBrk();
    InitWF(a.mem.startBrk);
    var started := a.Init();
    if started < 0 {
      return None;
    }
    ghost var start := a.mem.startBrk;
    var total, most := 0, 0;
    for i := 0 to |ops|
      invariant Plain(ops[..i]) && Measuring(start, ops[..i], a, blocks, sizes, total, most)
    {
      PlainStep(ops, i);
      var ok;
      ok, total, most := MeasureOne(ops, i, ops[i], a, blocks, sizes, total, most, start);
      if !ok {
        return None;
      }
    }
    assert ops[..|ops|] == ops;
    assert ReplayableTo(start, a.mem.maxAddr, ops, |ops|);
    UtilisationBound(start, ops);
    HighWaterIsMax(ops);
    assert Total(ops[..0]) == 0;
    RatioBound(most, a.mem.HeapSize());
    return Some(most as real / a.mem.HeapSize() as real);
  }

  lemma RatioBound(part: int, whole: int)
    requires 0 <= part <= whole && whole > 0
    ensures 0.0 <= part as real / whole as real <= 1.0
  {
  }
}
