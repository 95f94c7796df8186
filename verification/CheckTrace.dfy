/** checktrace.pl: checks a trace line by line and appends the frees that balance it. */
module CheckTrace {
  import opened HeapLayout
  import opened Trace
  import opened HeapRun

  /** A line is blank, a request, or carries a command the script does not know. */
  datatype Line = Blank | Request(op: Op) | Unknown(id: nat)

  /** What the script's hash says of an id: the command that last entered it. */
  datatype Entry = Allocated | Strange

  datatype Header = Header(heapSize: int, numBlocks: int, numOps: int, weight: int)

  datatype Result = Died | Summary(balanced: bool) | Output(header: Header, lines: seq<Line>)

  datatype Table = Dead | Live(hash: map<nat, Entry>)

  /** One line of input against the hash. An id is entered by an allocation or by an unknown
      command, and leaves by a free; only entering it by an allocation twice, or freeing or
      reallocating it when it is not there, is an error. */
  function Feed(t: Table, line: Line): Table {
    if t.Dead? then Dead
    else
      match line
      case Blank => t
      case Unknown(id) => Live(t.hash[id := Strange])
      case Request(Realloc(id, _)) => if id in t.hash then t else Dead
      case Request(Alloc(id, _)) =>
        if id in t.hash && t.hash[id] == Allocated then Dead else Live(t.hash[id := Allocated])
      case Request(Free(id)) => if id in t.hash then Live(t.hash - {id}) else Dead
  }

  function After(lines: seq<Line>): Table {
    if lines == [] then Live(map[]) else Feed(After(lines[..|lines| - 1]), lines[|lines| - 1])
  }

  function NonBlank(lines: seq<Line>): seq<Line> {
    if lines == [] then []
    else
      var before := NonBlank(lines[..|lines| - 1]);
      if lines[|lines| - 1].Blank? then before else before + [lines[|lines| - 1]]
  }

  /** The free requests for a list of ids. */
  function FreeLines(ids: seq<nat>): seq<Line> {
    seq(|ids|, i requires 0 <= i < |ids| => Request(Free(ids[i])))
  }

  ghost predicate NoRepeats(ids: seq<nat>) {
    forall i, j :: 0 <= i < j < |ids| ==> ids[i] != ids[j]
  }

  /** The ids list the keys of the hash, each once. */
  ghost predicate Enumerates(ids: seq<nat>, keys: set<nat>) {
    NoRepeats(ids) && forall id :: id in ids <==> id in keys
  }

  lemma AfterStep(lines: seq<Line>, k: nat)
    requires k < |lines|
    ensures After(lines[..k + 1]) == Feed(After(lines[..k]), lines[k])
    ensures NonBlank(lines[..k + 1]) == NonBlank(lines[..k]) + if lines[k].Blank? then [] else [lines[k]]
  {
    PrefixOfPrefix(lines, k, k + 1);
  }

  /** Whatever follows a line the script died on is not read. */
  lemma {:induction false} DeadStaysDead(lines: seq<Line>, k: nat)
    requires k <= |lines| && After(lines[..k]).Dead?
    ensures After(lines).Dead?
    decreases |lines| - k
  {
    if k == |lines| {
      assert lines[..k] == lines;
    } else {
      AfterStep(lines, k);
      DeadStaysDead(lines, k + 1);
    }
  }

  /** The line enters the id into the hash. */
  predicate Enters(line: Line, id: nat) {
    line == Unknown(id) || (line.Request? && line.op.Alloc? && line.op.id == id)
  }

  /** Line k enters the id, and no line after it frees the id. */
  ghost predicate Stays(lines: seq<Line>, k: nat, id: nat) {
    k < |lines| && Enters(lines[k], id) && forall j :: k < j < |lines| ==> lines[j] != Request(Free(id))
  }

  /** Line k has an unknown command for the id, and no line after it frees or enters the id. */
  ghost predicate StaysStrange(lines: seq<Line>, k: nat, id: nat) {
    && k < |lines| && lines[k] == Unknown(id)
    && forall j :: k < j < |lines| ==> lines[j] != Request(Free(id)) && !Enters(lines[j], id)
  }

  lemma StaysStep(lines: seq<Line>, id: nat)
    requires lines != []
    ensures var n := |lines| - 1;
            var line, before := lines[n], lines[..n];
            && ((exists k :: Stays(lines, k, id)) <==>
                  Enters(line, id) || (line != Request(Free(id)) && exists k :: Stays(before, k, id)))
            && ((exists k :: StaysStrange(lines, k, id)) <==>
                  line == Unknown(id) ||
                  (line != Request(Free(id)) && !Enters(line, id) && exists k :: StaysStrange(before, k, id)))
  {
    var n := |lines| - 1;
    var line, before := lines[n], lines[..n];
    forall k | 0 <= k < n
      ensures Stays(lines, k, id) <==> line != Request(Free(id)) && Stays(before, k, id)
      ensures StaysStrange(lines, k, id) <==>
                line != Request(Free(id)) && !Enters(line, id) && StaysStrange(before, k, id)
    {
      assert forall j :: 0 <= j < n ==> before[j] == lines[j];
    }
    assert Stays(lines, n, id) <==> Enters(line, id);
    assert StaysStrange(lines, n, id) <==> line == Unknown(id);
    forall k: nat | k >= n ensures !Stays(before, k, id) && !StaysStrange(before, k, id) {
    }
  }

  /** What the hash holds after lines the script has not died on: the ids that a line entered and no
      later line freed; an id counts as strange if the line that last entered it is unknown. */
  lemma {:induction false} HashIs(lines: seq<Line>, id: nat)
    requires After(lines).Live?
    ensures id in After(lines).hash <==> exists k :: Stays(lines, k, id)
    ensures id in After(lines).hash && After(lines).hash[id] == Strange <==> exists k :: StaysStrange(lines, k, id)
  {
    if lines != [] {
      var n := |lines| - 1;
      HashIs(lines[..n], id);
      StaysStep(lines, id);
    }
  }

  /** The script comes to line k, and there an id is freed or reallocated that is not in the hash, or
      one allocated that is there as allocated. */
  ghost predicate Stumbles(lines: seq<Line>, k: nat) {
    && k < |lines| && After(lines[..k]).Live? && lines[k].Request?
    && var id, hash := lines[k].op.id, After(lines[..k]).hash;
    if lines[k].op.Alloc? then id in hash && hash[id] == Allocated else id !in hash
  }

  /** The script dies on the lines exactly when it stumbles over one of them. */
  lemma {:induction false} DiesIs(lines: seq<Line>)
    ensures After(lines).Dead? <==> exists k :: Stumbles(lines, k)
  {
    if lines != [] {
      var n := |lines| - 1;
      DiesIs(lines[..n]);
      forall k: nat | k < n ensures Stumbles(lines, k) <==> Stumbles(lines[..n], k) {
        PrefixOfPrefix(lines, k, n);
      }
      if k :| Stumbles(lines[..n], k) { assert Stumbles(lines, k); }
      assert Stumbles(lines, n) <==> After(lines[..n]).Live? && After(lines).Dead?;
    }
  }

  /** The main routine. The order in which Perl enumerates the keys is left open. */
  method Balance(header: Header, lines: seq<Line>, summary: bool) returns (r: Result, ghost ids: seq<nat>)
    ensures r.Died? <==> After(lines).Dead? || (!summary && Strange in After(lines).hash.Values)
    ensures r.Summary? ==> summary && r.balanced == (After(lines).hash == map[])
    ensures r.Output? ==> !summary && Enumerates(ids, After(lines).hash.Keys)
    ensures r.Output? ==> r.lines == NonBlank(lines) + FreeLines(ids)
    ensures r.Output? ==> r.header == header.(numOps := header.numOps + |ids|)
  {
    var hash: map<nat, Entry> := map[];
    var kept := [];
    ids := [];
    for n := 0 to |lines|
      invariant After(lines[..n]) == Live(hash) && kept == NonBlank(lines[..n])
    {
      AfterStep(lines, n);
      var line := lines[n];
      if line.Blank? {
        continue;
      }
      kept := kept + [line];
      match line {
        case Request(Realloc(id, _)) =>
          if id !in hash {
            DeadStaysDead(lines, n + 1);
            return Died, [];
          }
        case Request(Alloc(id, _)) =>
          if id in hash && hash[id] == Allocated {
            DeadStaysDead(lines, n + 1);
            return Died, [];
          }
          hash := hash[id := Allocated];
        case Request(Free(id)) =>
          if id !in hash {
            DeadStaysDead(lines, n + 1);
            return Died, [];
          }
          hash := hash - {id};
        case Unknown(id) =>
          hash := hash[id := Strange];
      }
    }
    assert lines[..|lines|] == lines;
    if summary {
      return Summary(hash == map[]), [];
    }
    var newHeader := header.(numOps := header.numOps + |hash|);
    var out := kept;
    var rest := hash.Keys;
    while rest != {}
      invariant rest <= hash.Keys && NoRepeats(ids) && |ids| + |rest| == |hash|
      invariant forall id :: id in ids <==> id in hash.Keys - rest
      invariant forall id :: id in hash.Keys - rest ==> hash[id] == Allocated
      invariant out == kept + FreeLines(ids)
      decreases |rest|
    {
      var key :| key in rest;
      if hash[key] == Strange {
        return Died, [];
      }
      assert out + [Request(Free(key))] == kept + FreeLines(ids + [key]);
      out := out + [Request(Free(key))];
      ids := ids + [key];
      rest := rest - {key};
    }
    return Output(newHeader, out), ids;
  }

  // ---------- What the checks amount to ----------

  function Lines(ops: seq<Op>): seq<Line> {
    seq(|ops|, i requires 0 <= i < |ops| => Request(ops[i]))
  }

  lemma LinesPrefix(ops: seq<Op>, k: nat)
    requires k <= |ops|
    ensures Lines(ops)[..k] == Lines(ops[..k])
  {
  }

  /** On lines that are all requests, the script passes a trace exactly when it is well formed, and
      its hash then holds exactly the outstanding ids. */
  lemma {:induction false} PassesWellFormed(ops: seq<Op>)
    ensures After(Lines(ops)).Live? <==> WellFormed(ops)
    ensures WellFormed(ops) ==>
              var h := After(Lines(ops)).hash;
              h.Keys == Outstanding(ops).Keys && forall id :: id in h ==> h[id] == Allocated
  {
    if ops != [] {
      var k := |ops| - 1;
      LinesPrefix(ops, k);
      PassesWellFormed(ops[..k]);
      WellFormedLast(ops);
    }
  }

  lemma WellFormedLast(ops: seq<Op>)
    requires ops != []
    ensures var k := |ops| - 1;
            WellFormed(ops) <==> WellFormed(ops[..k]) && Allowed(ops[k], Outstanding(ops[..k]).Keys)
  {
    var k := |ops| - 1;
    if WellFormed(ops) {
      WellFormedPrefix(ops, k);
      assert Allowed(ops[k], Outstanding(ops[..k]).Keys);
    } else if WellFormed(ops[..k]) && Allowed(ops[k], Outstanding(ops[..k]).Keys) {
      forall j | 0 <= j < |ops| ensures Allowed(ops[j], Outstanding(ops[..j]).Keys) {
        if j < k {
          PrefixOfPrefix(ops, j, k);
          assert Allowed(ops[..k][j], Outstanding(ops[..k][..j]).Keys);
        }
      }
    }
  }

  // ---------- What the output is worth ----------

  lemma {:induction false} BlanksDoNotMatter(lines: seq<Line>)
    ensures After(NonBlank(lines)) == After(lines)
  {
    if lines != [] {
      var before := lines[..|lines| - 1];
      BlanksDoNotMatter(before);
      if !lines[|lines| - 1].Blank? {
        assert NonBlank(lines)[..|NonBlank(before)|] == NonBlank(before);
      }
    }
  }

  lemma {:induction false} NonBlankTwice(lines: seq<Line>)
    ensures NonBlank(NonBlank(lines)) == NonBlank(lines)
  {
    if lines != [] {
      var before := lines[..|lines| - 1];
      NonBlankTwice(before);
      if !lines[|lines| - 1].Blank? {
        assert NonBlank(lines)[..|NonBlank(before)|] == NonBlank(before);
      }
    }
  }

  lemma FreeLinesLast(lines: seq<Line>, ids: seq<nat>)
    requires ids != []
    ensures var all, k := lines + FreeLines(ids), |ids| - 1;
            && all[..|all| - 1] == lines + FreeLines(ids[..k]) && all[|all| - 1] == Request(Free(ids[k]))
            && FreeLines(ids) == FreeLines(ids[..k]) + [Request(Free(ids[k]))]
  {
  }

  /** Freeing ids that are in the hash, each once, takes exactly them out. */
  lemma {:induction false} FreesDrain(lines: seq<Line>, ids: seq<nat>)
    requires After(lines).Live? && NoRepeats(ids) && forall id :: id in ids ==> id in After(lines).hash
    ensures After(lines + FreeLines(ids)).Live?
    ensures After(lines + FreeLines(ids)).hash.Keys == After(lines).hash.Keys - (set id | id in ids)
  {
    if ids == [] {
      assert lines + FreeLines(ids) == lines;
    } else {
      var k := |ids| - 1;
      FreeLinesLast(lines, ids);
      assert ids == ids[..k] + [ids[k]];
      assert ids[k] in ids && ids[k] !in ids[..k];
      FreesDrain(lines, ids[..k]);
    }
  }

  lemma {:induction false} FreesAreKept(lines: seq<Line>, ids: seq<nat>)
    ensures NonBlank(lines + FreeLines(ids)) == NonBlank(lines) + FreeLines(ids)
  {
    if ids == [] {
      assert lines + FreeLines(ids) == lines;
    } else {
      FreeLinesLast(lines, ids);
      FreesAreKept(lines, ids[..|ids| - 1]);
    }
  }

  lemma {:induction false} EnumeratesSize(ids: seq<nat>, keys: set<nat>)
    requires Enumerates(ids, keys)
    ensures |ids| == |keys|
  {
    if ids == [] {
      assert keys == {};
    } else {
      var k := |ids| - 1;
      assert ids == ids[..k] + [ids[k]];
      EnumeratesSize(ids[..k], keys - {ids[k]});
    }
  }

  /** What Balance prints: the input's requests in order, then the frees; the script accepts it, it
      leaves nothing outstanding, and balancing it again adds nothing. Its operation count is right
      if the input's was. */
  lemma OutputIsBalanced(header: Header, lines: seq<Line>, ids: seq<nat>)
    requires After(lines).Live? && Enumerates(ids, After(lines).hash.Keys)
    ensures var out := NonBlank(lines) + FreeLines(ids);
            && NonBlank(lines) <= out
            && After(out) == Live(map[])
            && NonBlank(out) == out
            && (forall ids' :: Enumerates(ids', After(out).hash.Keys) ==> NonBlank(out) + FreeLines(ids') == out)
            && (header.numOps == |NonBlank(lines)| ==> header.numOps + |After(lines).hash| == |out|)
  {
    var kept := NonBlank(lines);
    BlanksDoNotMatter(lines);
    NonBlankTwice(lines);
    FreesDrain(kept, ids);
    FreesAreKept(kept, ids);
    EnumeratesSize(ids, After(lines).hash.Keys);
    forall ids' | Enumerates(ids', {})
      ensures kept + FreeLines(ids) + FreeLines(ids') == kept + FreeLines(ids)
    {
      EnumeratesSize(ids', {});
    }
  }

  // ---------- From the balancer to the allocator ----------

  /** Replaying a balanced trace empties the heap: whatever the balancer prints for a well-formed
      trace of positive allocations and frees leads the allocator back to one free block. */
  lemma BalancedTraceEmptiesHeap(start: nat, ops: seq<Op>, ids: seq<nat>, out: seq<Op>)
    requires After(Lines(ops)).Live? && Plain(ops) && Enumerates(ids, After(Lines(ops)).hash.Keys)
    requires Lines(out) == Lines(ops) + FreeLines(ids)
    ensures WellFormed(out) && Plain(out) && Outstanding(out) == map[]
    ensures var L := Run(start, out).layout; L.Shaped() && L == Layout([L.Base(), L.Top()], [0], 0)
  {
    FreesDrain(Lines(ops), ids);
    PassesWellFormed(out);
    FreesArePlain(ops, ids, out);
    assert Outstanding(out).Keys == {};
    RunRecovers(start, out);
  }

  lemma FreesArePlain(ops: seq<Op>, ids: seq<nat>, out: seq<Op>)
    requires Plain(ops) && Lines(out) == Lines(ops) + FreeLines(ids)
    ensures Plain(out)
  {
    forall k | 0 <= k < |out| ensures Served(out[k]) {
      assert Lines(out)[k] == Request(out[k]);
      if k < |ops| {
        assert Lines(ops)[k] == Request(ops[k]);
      } else {
        assert FreeLines(ids)[k - |ops|] == Request(Free(ids[k - |ops|]));
      }
    }
  }
}
