/** fcyc.c: keep the k smallest of a stream of samples, and stop when they agree. */
module KBest {
  ghost predicate Sorted(v: seq<real>) {
    forall i, j :: 0 <= i < j < |v| ==> v[i] <= v[j]
  }

  /** v lists, in ascending order, the k smallest samples; the others are in rest. */
  ghost predicate Parts(v: seq<real>, rest: multiset<real>, k: nat) {
    && |v| <= k && Sorted(v)
    && (|v| < k ==> rest == multiset{})
    && forall x :: x in rest && v != [] ==> v[|v| - 1] <= x
  }

  ghost predicate BestOf(v: seq<real>, k: nat, samples: multiset<real>) {
    exists rest :: samples == multiset(v) + rest && Parts(v, rest, k)
  }

  // ---------- There is one list of the best ----------

  ghost predicate IsLeast(y: real, samples: multiset<real>) {
    y in samples && forall x :: x in samples ==> y <= x
  }

  lemma HeadIsLeast(v: seq<real>, rest: multiset<real>, k: nat)
    requires Parts(v, rest, k) && v != []
    ensures IsLeast(v[0], multiset(v) + rest)
  {
    assert v[0] in v && v[0] in multiset(v);
    forall x | x in multiset(v) + rest ensures v[0] <= x {
      if x in v {
        var i :| 0 <= i < |v| && v[i] == x;
      }
    }
  }

  lemma WithoutHead(v: seq<real>, rest: multiset<real>, k: nat)
    requires Parts(v, rest, k) && v != []
    ensures Parts(v[1..], rest, k - 1)
    ensures multiset(v[1..]) + rest == multiset(v) + rest - multiset{v[0]}
  {
    assert v == [v[0]] + v[1..];
  }

  lemma SameLength(v: seq<real>, rest: multiset<real>, w: seq<real>, others: multiset<real>, k: nat)
    requires Parts(v, rest, k) && Parts(w, others, k)
    requires multiset(v) + rest == multiset(w) + others
    ensures |v| == |w|
  {
    assert |multiset(v) + rest| == |v| + |rest|;
    assert |multiset(w) + others| == |w| + |others|;
  }

  /** Two lists of the best of the same samples have the same head, and their tails are two lists of
      the best of the rest. */
  lemma SameHeads(v: seq<real>, rest: multiset<real>, w: seq<real>, others: multiset<real>, k: nat)
    requires Parts(v, rest, k) && Parts(w, others, k) && v != [] && w != []
    requires multiset(v) + rest == multiset(w) + others
    ensures v[0] == w[0] && multiset(v[1..]) + rest == multiset(w[1..]) + others
    ensures Parts(v[1..], rest, k - 1) && Parts(w[1..], others, k - 1)
  {
    HeadIsLeast(v, rest, k);
    HeadIsLeast(w, others, k);
    WithoutHead(v, rest, k);
    WithoutHead(w, others, k);
  }

  lemma {:induction false} SameParts(v: seq<real>, rest: multiset<real>, w: seq<real>, others: multiset<real>, k: nat)
    requires Parts(v, rest, k) && Parts(w, others, k)
    requires multiset(v) + rest == multiset(w) + others
    ensures v == w
    decreases |v|
  {
    SameLength(v, rest, w, others, k);
    if v != [] {
      SameHeads(v, rest, w, others, k);
      SameParts(v[1..], rest, w[1..], others, k - 1);
      SameList(v, w);
    }
  }

  lemma SameList(v: seq<real>, w: seq<real>)
    requires v != [] && w != [] && v[0] == w[0] && v[1..] == w[1..]
    ensures v == w
  {
    assert v == [v[0]] + v[1..] && w == [w[0]] + w[1..];
  }

  /** The k smallest of the samples can be listed in only one way. */
  lemma BestUnique(v: seq<real>, w: seq<real>, k: nat, samples: multiset<real>)
    requires BestOf(v, k, samples) && BestOf(w, k, samples)
    ensures v == w
  {
    var rest :| samples == multiset(v) + rest && Parts(v, rest, k);
    var others :| samples == multiset(w) + others && Parts(w, others, k);
    SameParts(v, rest, w, others, k);
  }

  // ---------- Adding a sample ----------

  /** Sorted, except that element p may be too small for its place. */
  ghost predicate Settling(v: seq<real>, p: nat) {
    p < |v| && forall i, j :: 0 <= i < j < |v| && j != p ==> v[i] <= v[j]
  }

  lemma SettleStep(v: seq<real>, p: nat)
    requires Settling(v, p) && p > 0 && v[p - 1] > v[p]
    ensures var w := v[p - 1 := v[p]][p := v[p - 1]]; Settling(w, p - 1) && multiset(w) == multiset(v)
  {
  }

  lemma SettleDone(v: seq<real>, p: nat)
    requires Settling(v, p) && (p == 0 || v[p - 1] <= v[p])
    ensures Sorted(v)
  {
    forall i, j | 0 <= i < j < |v| ensures v[i] <= v[j] {
      if j == p && i < p - 1 {
        assert v[i] <= v[p - 1];
      }
    }
  }

  /** The cells after a sample is put where its insertion starts. */
  ghost function Placed(v: seq<real>, k: nat, val: real): seq<real>
    requires |v| <= k && k > 0
  {
    if |v| < k then v + [val] else if val < v[k - 1] then v[k - 1 := val] else v
  }

  /** What is not kept once a sample has been placed. */
  ghost function Dropped(v: seq<real>, rest: multiset<real>, k: nat, val: real): multiset<real>
    requires |v| <= k && k > 0
  {
    if |v| < k then rest
    else if val < v[k - 1] then rest + multiset{v[k - 1]}
    else rest + multiset{val}
  }

  lemma PlacedSettles(v: seq<real>, k: nat, val: real, pos: nat)
    requires Sorted(v) && |v| <= k && k > 0
    requires pos == (if |v| < k then |v| else if val < v[k - 1] then k - 1 else 0)
    ensures Settling(Placed(v, k, val), pos)
  {
  }

  lemma PlacedTotal(v: seq<real>, rest: multiset<real>, k: nat, val: real)
    requires |v| <= k && k > 0
    ensures multiset(Placed(v, k, val)) + Dropped(v, rest, k, val) == multiset(v) + rest + multiset{val}
  {
    if |v| == k && val < v[k - 1] {
      assert v == v[..k - 1] + [v[k - 1]] && v[k - 1 := val] == v[..k - 1] + [val];
    }
  }

  lemma LastAtMost(w: seq<real>, p: seq<real>, bound: real)
    requires w != [] && multiset(w) == multiset(p) && forall i :: 0 <= i < |p| ==> p[i] <= bound
    ensures w[|w| - 1] <= bound
  {
    assert w[|w| - 1] in w && w[|w| - 1] in multiset(p);
  }

  lemma SameCount(w: seq<real>, p: seq<real>)
    requires multiset(w) == multiset(p)
    ensures |w| == |p|
  {
    assert |multiset(w)| == |w|;
  }

  /** While there is room, everything is kept. */
  lemma AppendParts(v: seq<real>, w: seq<real>, k: nat, val: real)
    requires |v| < k && Sorted(w) && multiset(w) == multiset(v + [val])
    ensures Parts(w, multiset{}, k)
  {
    SameCount(w, v + [val]);
  }

  /** A smaller sample drives out the last of the best. */
  lemma ReplaceParts(v: seq<real>, w: seq<real>, rest: multiset<real>, k: nat, val: real)
    requires Parts(v, rest, k) && |v| == k > 0 && val < v[k - 1]
    requires Sorted(w) && multiset(w) == multiset(v[k - 1 := val])
    ensures Parts(w, rest + multiset{v[k - 1]}, k)
  {
    SameCount(w, v[k - 1 := val]);
    LastAtMost(w, v[k - 1 := val], v[k - 1]);
  }

  /** A sample no smaller than the last of the best is dropped. */
  lemma DropParts(v: seq<real>, w: seq<real>, rest: multiset<real>, k: nat, val: real)
    requires Parts(v, rest, k) && |v| == k > 0 && val >= v[k - 1]
    requires Sorted(w) && multiset(w) == multiset(v)
    ensures Parts(w, rest + multiset{val}, k)
  {
    SameCount(w, v);
    LastAtMost(w, v, v[k - 1]);
  }

  /** Sorting the cells after a sample is placed leaves the best of all samples in them. */
  lemma PlacedParts(v: seq<real>, w: seq<real>, rest: multiset<real>, k: nat, val: real)
    requires Parts(v, rest, k) && k > 0
    requires Sorted(w) && multiset(w) == multiset(Placed(v, k, val))
    ensures Parts(w, Dropped(v, rest, k, val), k)
  {
    if |v| < k {
      AppendParts(v, w, k, val);
    } else if val < v[k - 1] {
      ReplaceParts(v, w, rest, k, val);
    } else {
      DropParts(v, w, rest, k, val);
    }
  }

  // ---------- Convergence ----------

  ghost predicate Within(m: multiset<real>, samples: multiset<real>, bound: real) {
    m <= samples && forall x :: x in m ==> x <= bound
  }

  /** k of the samples are at most 1 + epsilon times the least one. */
  ghost predicate Agree(samples: multiset<real>, k: nat, epsilon: real) {
    exists y :: IsLeast(y, samples) && SomeWithin(samples, k, y + epsilon * y)
  }

  ghost predicate SomeWithin(samples: multiset<real>, k: nat, bound: real) {
    exists m :: |m| == k && Within(m, samples, bound)
  }

  lemma SameSize(m: multiset<real>, n: multiset<real>)
    requires m <= n && |m| == |n|
    ensures m == n
  {
    assert n == m + (n - m);
  }

  /** Among any k samples, one is no smaller than the last of the best. */
  lemma LastReached(v: seq<real>, rest: multiset<real>, k: nat, m: multiset<real>) returns (x: real)
    requires Parts(v, rest, k) && |v| == k > 0
    requires m <= multiset(v) + rest && |m| == k
    ensures x in m && x >= v[k - 1]
  {
    if forall y :: m[y] <= multiset(v)[y] {
      assert |multiset(v)| == k;
      SameSize(m, multiset(v));
      x := v[k - 1];
    } else {
      x :| m[x] > multiset(v)[x];
      assert x in rest;
    }
  }

  lemma KeptWithin(v: seq<real>, samples: multiset<real>, bound: real)
    requires Sorted(v) && multiset(v) <= samples && v != [] && bound >= v[|v| - 1]
    ensures |multiset(v)| == |v| && Within(multiset(v), samples, bound)
  {
    forall x | x in multiset(v) ensures x <= bound {
      var i :| 0 <= i < |v| && v[i] == x;
      assert i < |v| - 1 ==> x <= v[|v| - 1];
    }
  }

  lemma AgreeFrom(v: seq<real>, rest: multiset<real>, k: nat, samples: multiset<real>, bound: real)
    requires Parts(v, rest, k) && |v| == k > 0 && samples == multiset(v) + rest
    ensures SomeWithin(samples, k, bound) <==> bound >= v[k - 1]
  {
    if bound >= v[k - 1] {
      KeptWithin(v, samples, bound);
    }
    forall m: multiset<real> | |m| == k && Within(m, samples, bound)
      ensures bound >= v[k - 1]
    {
      var x := LastReached(v, rest, k, m);
    }
  }

  /** Whether the samples agree shows at the two ends of the list of the best. */
  lemma AgreeIs(v: seq<real>, rest: multiset<real>, k: nat, samples: multiset<real>, epsilon: real)
    requires Parts(v, rest, k) && |v| == k > 0 && samples == multiset(v) + rest
    ensures Agree(samples, k, epsilon) <==> v[0] + epsilon * v[0] >= v[k - 1]
  {
    hide Parts, Agree, SomeWithin;
    HeadIsLeast(v, rest, k);
    var y := v[0];
    var bound := y + epsilon * y;
    AgreeFrom(v, rest, k, samples, bound);
    AgreeAt(y, samples, k, epsilon);
  }

  lemma AgreeAt(y: real, samples: multiset<real>, k: nat, epsilon: real)
    requires IsLeast(y, samples)
    ensures Agree(samples, k, epsilon) <==> SomeWithin(samples, k, y + epsilon * y)
  {
    forall z | IsLeast(z, samples) ensures z == y {
      assert y <= z && z <= y;
    }
  }

  lemma AddsShare(y: real, epsilon: real)
    ensures (1.0 + epsilon) * y == y + epsilon * y
  {
  }

  // ---------- The sampler ----------

  /** The first n readings of the counter. */
  ghost function First(readings: nat -> real, n: nat): seq<real> {
    seq(n, i requires i >= 0 => readings(i))
  }

  lemma FirstGrows(readings: nat -> real, n: nat)
    ensures First(readings, n + 1) == First(readings, n) + [readings(n)]
  {
  }

  /** Sampling may stop once kbest samples agree, or there are maxsamples. */
  ghost predicate Stops(s: seq<real>, kbest: nat, epsilon: real, maxsamples: int) {
    || (|s| >= kbest && Agree(multiset(s), kbest, epsilon))
    || |s| >= maxsamples
  }

  class Sampler {
    const kbest: nat
    const maxsamples: int
    const epsilon: real
    var values: array<real>
    var samplecount: nat
    ghost var seen: seq<real>
    ghost var rest: multiset<real>

    ghost predicate Valid()
      reads this, values
    {
      && kbest >= 1 && values.Length == kbest
      && samplecount == |seen|
      && Parts(Kept(), rest, kbest)
      && multiset(seen) == multiset(Kept()) + rest
    }

    /** The cells of values that hold samples. */
    ghost function Kept(): seq<real>
      requires values.Length == kbest
      reads this, values
    {
      values[..Used(samplecount)]
    }

    function Used(count: nat): nat {
      if count < kbest then count else kbest
    }

    constructor (kbest: nat, maxsamples: int, epsilon: real)
      requires kbest >= 1
      ensures Valid() && seen == [] && fresh(values)
      ensures this.kbest == kbest && this.maxsamples == maxsamples && this.epsilon == epsilon
    {
      this.kbest, this.maxsamples, this.epsilon := kbest, maxsamples, epsilon;
      values := new real[kbest](_ => 0.0);
      samplecount, seen, rest := 0, [], multiset{};
    }

    method InitSampler()
      requires Valid()
      modifies this
      ensures Valid() && seen == [] && fresh(values)
    {
      values := new real[kbest](_ => 0.0);
      samplecount, seen, rest := 0, [], multiset{};
    }

    /** Puts a sample where insertion starts, when it belongs among the best. */
    method PutFirst(val: real) returns (pos: nat)
      requires Valid()
      modifies values
      ensures values[..Used(samplecount + 1)] == Placed(old(Kept()), kbest, val)
      ensures Settling(Placed(old(Kept()), kbest, val), pos)
    {
      ghost var v := Kept();
      pos := 0;
      if samplecount < kbest {
        pos := samplecount;
        values[pos] := val;
      } else if val < values[kbest - 1] {
        pos := kbest - 1;
        values[pos] := val;
      }
      PlacedSettles(v, kbest, val, pos);
    }

    /** Sinks the sample at pos to its place among the first n. */
    method Settle(pos: nat, ghost n: nat)
      requires n <= values.Length && Settling(values[..n], pos)
      modifies values
      ensures Sorted(values[..n]) && multiset(values[..n]) == multiset(old(values[..n]))
    {
      var p: nat := pos;
      while p > 0 && values[p - 1] > values[p]
        invariant p < n && Settling(values[..n], p)
        invariant multiset(values[..n]) == multiset(old(values[..n]))
      {
        ghost var v := values[..n];
        SettleStep(v, p);
        values[p - 1], values[p] := values[p], values[p - 1];
        assert values[..n] == v[p - 1 := v[p]][p := v[p - 1]];
        p := p - 1;
      }
      SettleDone(values[..n], p);
    }

    method AddSample(val: real)
      requires Valid()
      modifies this, values
      ensures Valid() && values == old(values)
      ensures seen == old(seen) + [val]
    {
      ghost var v := Kept();
      ghost var n := Used(samplecount + 1);
      var pos := PutFirst(val);
      Settle(pos, n);
      PlacedParts(v, values[..n], rest, kbest, val);
      PlacedTotal(v, rest, kbest, val);
      rest := Dropped(v, rest, kbest, val);
      samplecount := samplecount + 1;
      seen := seen + [val];
    }

    /** The first cells hold the only possible list of the kbest smallest samples. */
    lemma KeptIsBest(w: seq<real>)
      requires Valid()
      ensures BestOf(w, kbest, multiset(seen)) <==> w == Kept()
    {
      assert BestOf(Kept(), kbest, multiset(seen));
      if BestOf(w, kbest, multiset(seen)) {
        BestUnique(w, Kept(), kbest, multiset(seen));
      }
    }

    method HasConverged() returns (b: bool)
      requires Valid()
      ensures b <==> |seen| >= kbest && Agree(multiset(seen), kbest, epsilon)
    {
      hide Agree, Parts;
      b := samplecount >= kbest && (1.0 + epsilon) * values[0] >= values[kbest - 1];
      if samplecount >= kbest {
        AddsShare(values[0], epsilon);
        AgreeIs(Kept(), rest, kbest, multiset(seen), epsilon);
      }
    }

    /** Takes one reading and says whether to go on. */
    method Round(reading: real) returns (more: bool)
      requires Valid()
      modifies this, values
      ensures Valid() && values == old(values)
      ensures seen == old(seen) + [reading]
      ensures more <==> !Stops(seen, kbest, epsilon, maxsamples)
    {
      AddSample(reading);
      var converged := HasConverged();
      more := !converged && samplecount < maxsamples;
    }

    method Least() returns (result: real)
      requires Valid() && samplecount > 0
      ensures IsLeast(result, multiset(seen))
    {
      result := values[0];
      HeadIsLeast(Kept(), rest, kbest);
    }

    /** Reads until kbest samples agree or maxsamples have been read, and answers the least. */
    method Fcyc(readings: nat -> real) returns (result: real, ghost n: nat)
      requires Valid()
      modifies this
      ensures Valid() && n >= 1 && seen == First(readings, n)
      ensures |seen| == n && forall i :: 0 <= i < n ==> seen[i] == readings(i)
      ensures IsLeast(result, multiset(First(readings, n)))
      ensures forall i :: 1 <= i <= n ==> (Stops(First(readings, i), kbest, epsilon, maxsamples) <==> i == n)
    {
      hide Agree, IsLeast, Parts;
      InitSampler();
      n := 0;
      var more := true;
      while more
        invariant Valid() && fresh(values) && |seen| == n && seen == First(readings, n)
        invariant n == 0 ==> more
        invariant forall i :: 1 <= i <= n ==>
          (Stops(First(readings, i), kbest, epsilon, maxsamples) <==> i == n && !more)
        decreases if more then 1 else 0, maxsamples - n
      {
        FirstGrows(readings, n);
        more := Round(readings(samplecount));
        n := n + 1;
      }
      result := Least();
    }
  }
}
