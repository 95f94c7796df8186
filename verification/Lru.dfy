/** The least-recently-used policy on its own: which pages are resident, in what order pages were
    used, and how often a page was missing. */
module Lru {
  /** The position of the last use of page p in the history, or -1. */
  function LastUse(h: seq<nat>, p: nat): int {
    if h == [] then -1
    else if h[|h| - 1] == p then |h| - 1
    else LastUse(h[..|h| - 1], p)
  }

  lemma {:induction false} LastUseIs(h: seq<nat>, p: nat, i: nat)
    requires i < |h| && h[i] == p && forall j :: i < j < |h| ==> h[j] != p
    ensures LastUse(h, p) == i
  {
    if i < |h| - 1 {
      LastUseIs(h[..|h| - 1], p, i);
    }
  }

  lemma {:induction false} LastUseFinds(h: seq<nat>, p: nat)
    ensures -1 <= LastUse(h, p) < |h|
    ensures LastUse(h, p) == -1 <==> p !in h
    ensures LastUse(h, p) >= 0 ==> h[LastUse(h, p)] == p
    ensures forall j :: LastUse(h, p) < j < |h| ==> h[j] != p
  {
    if h != [] {
      assert h == h[..|h| - 1] + [h[|h| - 1]];
      LastUseFinds(h[..|h| - 1], p);
    }
  }

  lemma {:induction false} LastUseConcat(h: seq<nat>, s: seq<nat>, p: nat)
    ensures LastUse(h + s, p) == if p in s then |h| + LastUse(s, p) else LastUse(h, p)
  {
    LastUseFinds(s, p);
    if s == [] {
      assert h + s == h;
    } else {
      assert (h + s)[..|h + s| - 1] == h + s[..|s| - 1];
      assert s == s[..|s| - 1] + [s[|s| - 1]];
      LastUseConcat(h, s[..|s| - 1], p);
    }
  }

  /** v is the resident page whose last use, or initial load, is earliest. */
  ghost predicate Oldest(h: seq<nat>, resident: set<nat>, v: nat) {
    v in resident && forall p :: p in resident ==> LastUse(h, v) <= LastUse(h, p)
  }

  lemma {:induction false} OldestExists(h: seq<nat>, resident: set<nat>)
    requires resident != {}
    ensures exists v :: Oldest(h, resident, v)
    decreases |resident|
  {
    var p :| p in resident;
    if resident == {p} {
      assert Oldest(h, resident, p);
    } else {
      var rest := resident - {p};
      assert resident == rest + {p};
      OldestExists(h, rest);
      var v :| Oldest(h, rest, v);
      assert Oldest(h, resident, if LastUse(h, v) <= LastUse(h, p) then v else p);
    }
  }

  lemma OldestUnique(h: seq<nat>, resident: set<nat>, v: nat, v': nat)
    requires Oldest(h, resident, v) && Oldest(h, resident, v')
    requires forall p :: p in resident ==> p in h
    ensures v == v'
  {
    LastUseFinds(h, v);
    LastUseFinds(h, v');
  }

  ghost function Victim(h: seq<nat>, resident: set<nat>): (v: nat)
    requires resident != {}
    ensures Oldest(h, resident, v)
  {
    OldestExists(h, resident);
    var v :| Oldest(h, resident, v);
    v
  }

  /** The resident pages, every page load and use so far in order, and the faults counted. */
  datatype Cache = Cache(resident: set<nat>, history: seq<nat>, faults: nat)

  ghost predicate Known(c: Cache) {
    c.resident != {} && forall p :: p in c.resident ==> p in c.history
  }

  /** One access to page p: on a fault the oldest resident page makes room. */
  ghost function Touch(c: Cache, p: nat): Cache {
    if p in c.resident || c.resident == {} then c.(history := c.history + [p])
    else Cache(c.resident - {Victim(c.history, c.resident)} + {p}, c.history + [p], c.faults + 1)
  }

  ghost function TouchAll(c: Cache, pages: seq<nat>): Cache {
    if pages == [] then c else Touch(TouchAll(c, pages[..|pages| - 1]), pages[|pages| - 1])
  }

  function UpTo(k: nat): (s: set<nat>)
    ensures forall p: nat :: p in s <==> p < k
    ensures |s| == k
  {
    if k == 0 then {} else UpTo(k - 1) + {k - 1}
  }

  /** The cache initialize sets up with k pages in the frames, loaded in page order. */
  function Initial(k: nat): Cache {
    Cache(UpTo(k), seq(k, i requires 0 <= i < k => i), 0)
  }

  lemma TouchEvicts(c: Cache, p: nat, v: nat)
    requires Known(c) && p !in c.resident && Oldest(c.history, c.resident, v)
    ensures Touch(c, p) == Cache(c.resident - {v} + {p}, c.history + [p], c.faults + 1)
  {
    OldestUnique(c.history, c.resident, v, Victim(c.history, c.resident));
  }

  lemma TouchIs(c: Cache, c': Cache, p: nat, v: nat)
    requires Known(c) && c'.history == c.history + [p]
    requires p in c.resident ==> c'.faults == c.faults && c'.resident == c.resident
    requires p !in c.resident ==> c'.faults == c.faults + 1 && c'.resident == c.resident - {v} + {p}
    requires p !in c.resident ==> Oldest(c.history, c.resident, v)
    ensures c' == Touch(c, p)
  {
    if p !in c.resident { TouchEvicts(c, p, v); }
  }

  lemma TouchKnown(c: Cache, p: nat)
    requires Known(c)
    ensures Known(Touch(c, p)) && p in Touch(c, p).resident
    ensures |Touch(c, p).resident| == |c.resident|
  {
    if p !in c.resident {
      assert Oldest(c.history, c.resident, Victim(c.history, c.resident));
    }
  }

  /** The history is the initial loads, in page order, followed by the accesses, and only pages
      loaded or accessed are resident. */
  lemma {:induction false} HistoryIs(k: nat, pages: seq<nat>)
    requires k > 0
    ensures var c := TouchAll(Initial(k), pages);
            && c.history == Initial(k).history + pages && Known(c) && |c.resident| == k
            && (forall p :: p in c.resident ==> p < k || p in pages)
  {
    if pages == [] {
      forall p: nat | p < k ensures p in Initial(k).history {
        assert Initial(k).history[p] == p;
      }
      assert 0 in Initial(k).resident;
    } else {
      var before := pages[..|pages| - 1];
      var last := pages[|pages| - 1];
      assert pages == before + [last];
      HistoryIs(k, before);
      TouchKnown(TouchAll(Initial(k), before), last);
    }
  }

  lemma {:induction false} InitialUse(k: nat, p: nat)
    requires p < k
    ensures LastUse(Initial(k).history, p) == p
  {
    LastUseIs(Initial(k).history, p, p);
  }

  /** Two pages that a smaller memory may hold were last used in the same order in the histories of
      both memories: what was accessed later is later in both, and initial loads are in page
      order in both. */
  lemma SameOrder(k: nat, k': nat, pages: seq<nat>, p: nat, q: nat)
    requires k <= k' && (p < k || p in pages) && (q < k || q in pages)
    ensures LastUse(Initial(k).history + pages, p) <= LastUse(Initial(k).history + pages, q) <==>
            LastUse(Initial(k').history + pages, p) <= LastUse(Initial(k').history + pages, q)
  {
    LastUseConcat(Initial(k).history, pages, p);
    LastUseConcat(Initial(k).history, pages, q);
    LastUseConcat(Initial(k').history, pages, p);
    LastUseConcat(Initial(k').history, pages, q);
    LastUseFinds(pages, p);
    LastUseFinds(pages, q);
    if p < k { InitialUse(k, p); InitialUse(k', p); }
    if q < k { InitialUse(k, q); InitialUse(k', q); }
  }

  /** One step of the inclusion: if both memories must evict and the larger one evicts a page the
      smaller one holds, the smaller one evicts the same page. */
  lemma StepIncluded(k: nat, k': nat, pages: seq<nat>, p: nat)
    requires 0 < k <= k'
    requires TouchAll(Initial(k), pages).resident <= TouchAll(Initial(k'), pages).resident
    ensures var c, c' := TouchAll(Initial(k), pages), TouchAll(Initial(k'), pages);
            Touch(c, p).resident <= Touch(c', p).resident &&
            Touch(c', p).faults - c'.faults <= Touch(c, p).faults - c.faults
  {
    var c, c' := TouchAll(Initial(k), pages), TouchAll(Initial(k'), pages);
    HistoryIs(k, pages);
    HistoryIs(k', pages);
    if p !in c'.resident {
      var v, v' := Victim(c.history, c.resident), Victim(c'.history, c'.resident);
      if v' in c.resident {
        SameOrder(k, k', pages, v', v);
        assert Oldest(c'.history, c'.resident, v');
        forall q | q in c.resident ensures LastUse(c.history, v') <= LastUse(c.history, q) {
          SameOrder(k, k', pages, v', q);
        }
        OldestUnique(c.history, c.resident, v, v');
      }
    }
  }

  /** No Belady anomaly: with more frames, every page that fewer frames hold is held too, and no
      access sequence ever faults more often. */
  lemma {:induction false} NoBelady(k: nat, k': nat, pages: seq<nat>)
    requires 0 < k <= k'
    ensures TouchAll(Initial(k), pages).resident <= TouchAll(Initial(k'), pages).resident
    ensures TouchAll(Initial(k'), pages).faults <= TouchAll(Initial(k), pages).faults
  {
    if pages != [] {
      NoBelady(k, k', pages[..|pages| - 1]);
      StepIncluded(k, k', pages[..|pages| - 1], pages[|pages| - 1]);
    }
  }
}
