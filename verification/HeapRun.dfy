/** Whole runs of the allocator: what a client that follows a well-formed trace can rely on in
    every state it reaches. */
module HeapRun {
  import opened HeapLayout
  import opened Trace

  /** The block list, and the payload each outstanding id was given. */
  datatype State = State(layout: Layout, table: map<nat, Range>)

  ghost function BlockOf(L: Layout, r: Range): (i: nat)
    requires L.Shaped() && r in L.Live()
    ensures i < L.N() && !L.Free(i) && L.RangeAt(i) == r
  {
    var i :| 0 <= i < L.N() && L.held[i] > 0 && L.RangeAt(i) == r;
    i
  }

  /** A request outside mm.c's contract, such as a free of what is not live, leads nowhere. */
  ghost function Step(s: State, op: Op): State {
    if !(s.layout.Shaped() && s.layout.cursor < s.layout.N() && Served(op)) then s
    else
      match op
      case Alloc(id, size) => State(Malloc(s.layout, size), s.table[id := Given(s.layout, size)])
      case Free(id) =>
        if id in s.table && s.table[id] in s.layout.Live() then
          State(FreeAt(s.layout, BlockOf(s.layout, s.table[id])), s.table - {id})
        else s
      case Realloc(_, _) => s
  }

  /** The table names exactly the live payloads, each once, and each with the size requested. */
  ghost predicate Inv(s: State, out: map<nat, Size>) {
    && s.layout.WF()
    && s.table.Keys == out.Keys
    && s.table.Values == s.layout.Live()
    && Injective(s.table)
    && (forall id :: id in s.table ==> out[id] > 0 && s.table[id].hi == s.table[id].lo + out[id] - 1)
  }

  predicate Differ(m: map<nat, Range>, id: nat, id': nat) {
    id in m && id' in m && id != id' ==> m[id] != m[id']
  }

  ghost predicate Injective(m: map<nat, Range>) {
    forall id, id' :: Differ(m, id, id')
  }

  lemma AddFresh(m: map<nat, Range>, id: nat, r: Range)
    requires id !in m && r !in m.Values && Injective(m)
    ensures m[id := r].Values == m.Values + {r} && Injective(m[id := r])
  {
    var m' := m[id := r];
    assert m'[id] == r;
    forall v | v in m.Values ensures v in m'.Values {
      var k :| k in m && m[k] == v;
      assert m'[k] == v;
    }
    forall j, k ensures Differ(m', j, k) {
      assert Differ(m, j, k);
      assert j in m ==> m[j] in m.Values;
      assert k in m ==> m[k] in m.Values;
    }
  }

  lemma RemoveKey(m: map<nat, Range>, id: nat)
    requires id in m && Injective(m)
    ensures (m - {id}).Values == m.Values - {m[id]} && Injective(m - {id})
  {
    forall v | v in m.Values - {m[id]} ensures v in (m - {id}).Values {
      var k :| k in m && m[k] == v;
      assert (m - {id})[k] == v;
    }
    forall j, k ensures Differ(m - {id}, j, k) {
      assert Differ(m, j, k);
    }
    forall k | k in m - {id} ensures m[k] != m[id] {
      assert Differ(m, k, id);
    }
  }

  lemma MallocEffect(L: Layout, size: Size) returns (M: Layout, g: Range)
    requires L.WF() && size > 0
    ensures M == Malloc(L, size) && g == Given(L, size) && g.hi == g.lo + size - 1
    ensures M.WF() && M.Live() == L.Live() + {g} && g !in L.Live()
    ensures forall r :: r in L.Live() ==> r.lo != g.lo
  {
    M, g := Malloc(L, size), Given(L, size);
    MallocLive(L, size);
    MallocWF(L, size);
  }

  lemma AllocKeepsInv(s: State, out: map<nat, Size>, id: nat, size: Size)
    requires Inv(s, out) && id !in out && size > 0
    ensures Inv(Step(s, Alloc(id, size)), out[id := size])
  {
    var M, g := MallocEffect(s.layout, size);
    AddFresh(s.table, id, g);
    assert Step(s, Alloc(id, size)) == State(M, s.table[id := g]);
  }

  lemma FreeKeepsInv(s: State, out: map<nat, Size>, id: nat)
    requires Inv(s, out) && id in out
    ensures s.table[id] in s.layout.Live() && Inv(Step(s, Free(id)), out - {id})
  {
    assert s.table[id] in s.table.Values;
    var i := BlockOf(s.layout, s.table[id]);
    FreeWF(s.layout, i);
    FreeLive(s.layout, i);
    RemoveKey(s.table, id);
  }

  /** The state a trace leads to from an empty heap at `start`. */
  ghost function Run(start: nat, ops: seq<Op>): State {
    if ops == [] then State(InitLayout(start), map[])
    else Step(Run(start, ops[..|ops| - 1]), ops[|ops| - 1])
  }

  lemma PlainPrefix(ops: seq<Op>, k: nat)
    requires WellFormed(ops) && Plain(ops) && k <= |ops|
    ensures WellFormed(ops[..k]) && Plain(ops[..k])
  {
    WellFormedPrefix(ops, k);
  }

  lemma RunStep(start: nat, ops: seq<Op>, k: nat)
    requires k < |ops|
    ensures Run(start, ops[..k + 1]) == Step(Run(start, ops[..k]), ops[k])
  {
    PrefixOfPrefix(ops, k, k + 1);
  }

  /** Every state a well-formed trace reaches is sound. */
  lemma {:induction false} RunInv(start: nat, ops: seq<Op>)
    requires WellFormed(ops) && Plain(ops)
    ensures Inv(Run(start, ops), Outstanding(ops))
  {
    if ops == [] {
      InitWF(start);
    } else {
      var k := |ops| - 1;
      PlainPrefix(ops, k);
      RunInv(start, ops[..k]);
      assert Allowed(ops[k], Outstanding(ops[..k]).Keys) && Served(ops[k]);
      if ops[k].Alloc? {
        AllocKeepsInv(Run(start, ops[..k]), Outstanding(ops[..k]), ops[k].id, ops[k].size);
      } else {
        FreeKeepsInv(Run(start, ops[..k]), Outstanding(ops[..k]), ops[k].id);
      }
    }
  }

  // ---------- What a client sees ----------

  ghost predicate Apart(r: Range, r': Range) {
    r.hi < r'.lo || r'.hi < r.lo
  }

  /** In every reachable state each outstanding id owns an 8-aligned payload of exactly the size it
      asked for, inside the heap and clear of its own tags, and no two payloads meet. */
  lemma ClientView(start: nat, ops: seq<Op>, id: nat)
    requires WellFormed(ops) && Plain(ops) && id in Outstanding(ops)
    ensures var s := Run(start, ops);
            && s.layout.WF() && id in s.table
            && var r := s.table[id];
            && r.lo % 8 == 0 && r.hi + 1 - r.lo == Outstanding(ops)[id]
            && 8 * s.layout.Base() + 8 <= r.lo <= r.hi < 8 * s.layout.Top() - 8
            && (forall id' :: id' in s.table && id' != id ==> Apart(r, s.table[id']))
            && (forall k :: 0 <= k < s.layout.N() ==>
                  Apart(r, Header(s.layout, k)) && Apart(r, Footer(s.layout, k)))
  {
    RunInv(start, ops);
    var s := Run(start, ops);
    var r := s.table[id];
    assert r in s.table.Values;
    var i := BlockOf(s.layout, r);
    LiveDisjoint(s.layout, i, i);
    forall id' | id' in s.table && id' != id
      ensures Apart(r, s.table[id'])
    {
      assert s.table[id'] in s.table.Values && Differ(s.table, id, id');
      LiveApart(s.layout, i, BlockOf(s.layout, s.table[id']));
    }
    forall k | 0 <= k < s.layout.N()
      ensures Apart(r, Header(s.layout, k)) && Apart(r, Footer(s.layout, k))
    {
      LiveDisjoint(s.layout, i, k);
      assert Above(s.layout.bounds, k, k + 1);
    }
  }

  function Header(L: Layout, k: nat): Range
    requires L.Shaped() && k < L.N()
  {
    Range(8 * L.bounds[k], 8 * L.bounds[k] + 7)
  }

  function Footer(L: Layout, k: nat): Range
    requires L.Shaped() && k < L.N()
  {
    Range(8 * L.bounds[k + 1] - 8, 8 * L.bounds[k + 1] - 1)
  }

  /** A payload never moves while its id is outstanding. */
  lemma {:induction false} PayloadStays(start: nat, ops: seq<Op>, j: nat, k: nat, id: nat)
    requires WellFormed(ops) && Plain(ops) && j <= k <= |ops|
    requires forall m :: j <= m < k ==> ops[m].id != id
    requires id in Outstanding(ops[..j])
    ensures id in Run(start, ops[..j]).table && id in Run(start, ops[..k]).table
    ensures Run(start, ops[..k]).table[id] == Run(start, ops[..j]).table[id]
    decreases k - j
  {
    PlainPrefix(ops, j);
    RunInv(start, ops[..j]);
    if j < k {
      PayloadStays(start, ops, j, k - 1, id);
      RunStep(start, ops, k - 1);
    }
  }

  /** When everything allocated has been freed, the heap is one free block again, with the roving
      pointer at its start: one-step coalescing leaves nothing behind. */
  lemma RunRecovers(start: nat, ops: seq<Op>)
    requires WellFormed(ops) && Plain(ops)
    ensures var L := Run(start, ops).layout;
            L.WF() && (Outstanding(ops) == map[] <==> L == Layout([L.Base(), L.Top()], [0], 0))
  {
    RunInv(start, ops);
    var s := Run(start, ops);
    FullRecovery(s.layout);
    if Outstanding(ops) == map[] {
      assert s.table == map[];
    } else {
      var id :| id in Outstanding(ops);
      assert s.table[id] in s.table.Values;
    }
  }

  // ---------- Space over a run ----------

  /** The driver's total_size after a trace. */
  function Total(ops: seq<Op>): int {
    if ops == [] then 0
    else
      var before := ops[..|ops| - 1];
      match ops[|ops| - 1]
      case Alloc(_, size) => Total(before) + size
      case Free(id) => Total(before) - if id in Outstanding(before) then Outstanding(before)[id] else 0
      case Realloc(_, _) => Total(before)
  }

  /** The largest total reached on the way. */
  function HighWater(ops: seq<Op>): int {
    if ops == [] then 0
    else
      var before := HighWater(ops[..|ops| - 1]);
      if Total(ops) > before then Total(ops) else before
  }

  lemma {:induction false} HighWaterIsMax(ops: seq<Op>)
    ensures forall k :: 0 <= k <= |ops| ==> Total(ops[..k]) <= HighWater(ops)
    ensures exists k :: 0 <= k <= |ops| && HighWater(ops) == Total(ops[..k])
  {
    assert ops[..|ops|] == ops;
    if ops != [] {
      var before := ops[..|ops| - 1];
      HighWaterIsMax(before);
      forall k | 0 <= k <= |ops| ensures Total(ops[..k]) <= HighWater(ops) {
        if k < |ops| { PrefixOfPrefix(ops, k, |ops| - 1); }
      }
      var m :| 0 <= m <= |before| && HighWater(before) == Total(before[..m]);
      PrefixOfPrefix(ops, m, |ops| - 1);
    }
  }

  lemma {:induction false} TotalIsHeld(start: nat, ops: seq<Op>)
    requires WellFormed(ops) && Plain(ops)
    ensures Total(ops) == Sum(Run(start, ops).layout.held)
  {
    if ops != [] {
      var k := |ops| - 1;
      PlainPrefix(ops, k);
      TotalIsHeld(start, ops[..k]);
      RunInv(start, ops[..k]);
      var s := Run(start, ops[..k]);
      assert Allowed(ops[k], Outstanding(ops[..k]).Keys) && Served(ops[k]);
      match ops[k]
      case Alloc(id, size) => MallocHeld(s.layout, size);
      case Free(id) =>
        assert s.table[id] in s.table.Values;
        FreeHeld(s.layout, BlockOf(s.layout, s.table[id]));
        assert s.layout.held[BlockOf(s.layout, s.table[id])] == Outstanding(ops[..k])[id];
    }
  }

  /** The base is fixed, and the top never falls: a request raises it exactly when it is an
      allocation that no free block can hold, and then by just what mm_malloc asks for. */
  lemma TopMoves(start: nat, ops: seq<Op>, k: nat)
    requires WellFormed(ops) && Plain(ops) && k < |ops|
    ensures var L, L' := Run(start, ops[..k]).layout, Run(start, ops[..k + 1]).layout;
            && L.Shaped() && L.cursor < L.N() && L'.Shaped() && L'.Base() == L.Base()
            && L'.Top() == L.Top() +
                 if !ops[k].Alloc? || SomeFit(L, Need(ops[k].size)) then 0
                 else Need(ops[k].size) + if Need(ops[k].size) < 32 then 32 else 0
  {
    PlainPrefix(ops, k);
    RunStep(start, ops, k);
    RunInv(start, ops[..k]);
    var s := Run(start, ops[..k]);
    assert Allowed(ops[k], Outstanding(ops[..k]).Keys) && Served(ops[k]);
    match ops[k]
    case Alloc(id, size) =>
      MallocTop(s.layout, size);
      MallocWF(s.layout, size);
    case Free(id) =>
      assert s.table[id] in s.table.Values;
      FreeWF(s.layout, BlockOf(s.layout, s.table[id]));
  }

  lemma TopStep(start: nat, ops: seq<Op>, k: nat) returns (L: Layout, L': Layout)
    requires WellFormed(ops) && Plain(ops) && k < |ops|
    ensures L == Run(start, ops[..k]).layout && L' == Run(start, ops[..k + 1]).layout
    ensures L.Shaped() && L'.Shaped() && L.Base() == L'.Base() && L.Top() <= L'.Top()
  {
    TopMoves(start, ops, k);
    L, L' := Run(start, ops[..k]).layout, Run(start, ops[..k + 1]).layout;
  }

  lemma RunShaped(start: nat, ops: seq<Op>)
    requires WellFormed(ops) && Plain(ops)
    ensures Run(start, ops).layout.Shaped()
  {
    RunInv(start, ops);
  }

  lemma {:induction false} TopGrows(start: nat, ops: seq<Op>, j: nat, k: nat)
    requires WellFormed(ops) && Plain(ops) && j <= k <= |ops|
    ensures var L, L' := Run(start, ops[..j]).layout, Run(start, ops[..k]).layout;
            L.Shaped() && L'.Shaped() && L.Base() == L'.Base() && L.Top() <= L'.Top()
    decreases k - j
  {
    hide Run, Inv, Spaced, Roomy, Layout.Coalesced, Plain, WellFormed;
    PlainPrefix(ops, j);
    RunShaped(start, ops[..j]);
    if j < k {
      TopGrows(start, ops, j, k - 1);
      var L, L' := TopStep(start, ops, k - 1);
      assert L.Base() == L'.Base() && L.Top() <= L'.Top();
    }
  }

  /** The bytes asked for at the busiest moment fit between base and the final top. */
  lemma UtilisationBound(start: nat, ops: seq<Op>)
    requires WellFormed(ops) && Plain(ops)
    ensures var L := Run(start, ops).layout; L.Shaped() && HighWater(ops) <= 8 * (L.Top() - L.Base())
  {
    assert ops[..|ops|] == ops;
    HighWaterIsMax(ops);
    var k :| 0 <= k <= |ops| && HighWater(ops) == Total(ops[..k]);
    PlainPrefix(ops, k);
    TopGrows(start, ops, k, |ops|);
    TotalIsHeld(start, ops[..k]);
    RunInv(start, ops[..k]);
    var L := Run(start, ops[..k]).layout;
    HeldFits(L, L.N());
    assert L.held[..L.N()] == L.held;
  }

  // ---------- Fitting in memory ----------

  /** mem_brk stands this many bytes above top, from mm_init on. */
  function Slack(start: nat): int {
    start + CHUNK_SIZE + WORD_SIZE - 8 * InitLayout(start).Top()
  }

  /** The extension request k leads to, if any, stays below `max`. */
  ghost predicate FitsAt(start: nat, max: int, ops: seq<Op>, k: nat)
    requires k < |ops|
  {
    var L := Run(start, ops[..k]).layout;
    ops[k].Alloc? && L.Shaped() && !SomeFit(L, Need(ops[k].size)) ==>
      8 * (L.Top() + Growth(Need(ops[k].size))) + Slack(start) <= max
  }

  ghost predicate FitsTrace(start: nat, max: int, ops: seq<Op>) {
    forall k :: 0 <= k < |ops| ==> FitsAt(start, max, ops, k)
  }

  /** The result of mem_sbrk is not looked at, so this is exactly when it grants every extension:
      the break, a fixed 1 to 8 bytes above top, ends at or below `max`. */
  lemma FitsExactly(start: nat, max: int, ops: seq<Op>)
    requires WellFormed(ops) && Plain(ops) && start + CHUNK_SIZE + WORD_SIZE <= max
    ensures 1 <= Slack(start) <= 8 && Run(start, ops).layout.Shaped()
    ensures FitsTrace(start, max, ops) <==> 8 * Run(start, ops).layout.Top() + Slack(start) <= max
  {
    assert ops[..|ops|] == ops;
    RunInv(start, ops);
    if 8 * Run(start, ops).layout.Top() + Slack(start) <= max {
      forall k | 0 <= k < |ops| ensures FitsAt(start, max, ops, k) {
        TopMoves(start, ops, k);
        TopGrows(start, ops, k + 1, |ops|);
      }
    }
    if FitsTrace(start, max, ops) {
      FitsBounds(start, max, ops, |ops|);
    }
  }

  lemma {:induction false} FitsBounds(start: nat, max: int, ops: seq<Op>, k: nat)
    requires WellFormed(ops) && Plain(ops) && k <= |ops|
    requires start + CHUNK_SIZE + WORD_SIZE <= max && FitsTrace(start, max, ops)
    ensures Run(start, ops[..k]).layout.Shaped()
    ensures 8 * Run(start, ops[..k]).layout.Top() + Slack(start) <= max
  {
    if k > 0 {
      FitsBounds(start, max, ops, k - 1);
      assert FitsAt(start, max, ops, k - 1);
      TopMoves(start, ops, k - 1);
    }
  }
}
