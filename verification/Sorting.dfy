/** Sequences as sorting code sees them. */
module Arrays {
  function Swapped(s: seq<int>, i: nat, j: nat): seq<int>
    requires i < |s| && j < |s|
  {
    s[i := s[j]][j := s[i]]
  }

  /** s up to the order of its elements a .. b (b excluded). */
  ghost function Outline(s: seq<int>, a: nat, b: nat): (seq<int>, multiset<int>, seq<int>)
    requires a <= b <= |s|
  {
    (s[..a], multiset(s[a..b]), s[b..])
  }

  /** t is s with the elements a .. b in some order, and nothing else changed. */
  ghost predicate Shuffled(s: seq<int>, t: seq<int>, a: nat, b: nat) {
    a <= b <= |s| == |t| && Outline(s, a, b) == Outline(t, a, b)
  }

  lemma ShuffledIs(s: seq<int>, t: seq<int>, a: nat, b: nat)
    requires a <= b <= |s| == |t|
    ensures Shuffled(s, t, a, b) <==>
      && multiset(s[a..b]) == multiset(t[a..b])
      && forall k :: 0 <= k < |s| && !(a <= k < b) ==> t[k] == s[k]
  {
    if multiset(s[a..b]) == multiset(t[a..b]) && forall k :: 0 <= k < |s| && !(a <= k < b) ==> t[k] == s[k] {
      assert s[..a] == t[..a] && s[b..] == t[b..];
    }
    if Shuffled(s, t, a, b) {
      forall k | 0 <= k < |s| && !(a <= k < b) ensures t[k] == s[k] {
        if k < a { assert t[..a][k] == s[..a][k]; } else { assert t[b..][k - b] == s[b..][k - b]; }
      }
    }
  }

  lemma ShuffledTrans(s: seq<int>, t: seq<int>, u: seq<int>, a: nat, b: nat)
    requires Shuffled(s, t, a, b) && Shuffled(t, u, a, b)
    ensures Shuffled(s, u, a, b)
  {
  }

  lemma SwapShuffles(s: seq<int>, i: nat, j: nat, a: nat, b: nat)
    requires a <= i < b <= |s| && a <= j < b
    ensures Shuffled(s, Swapped(s, i, j), a, b)
  {
    var w, t := s[a..b], Swapped(s, i, j);
    assert t[a..b] == w[i - a := w[j - a]][j - a := w[i - a]];
    assert multiset(t[a..b]) == multiset(w);
    assert t[..a] == s[..a] && t[b..] == s[b..];
  }

  lemma ShuffledEnds(s: seq<int>, t: seq<int>, a: nat, b: nat)
    requires Shuffled(s, t, a, b)
    ensures s[..a] == t[..a] && s[b..] == t[b..]
  {
  }

  lemma SwapMore(s: seq<int>, t: seq<int>, i: nat, j: nat, a: nat, b: nat)
    requires Shuffled(s, t, a, b) && a <= i < b && a <= j < b
    ensures Shuffled(s, Swapped(t, i, j), a, b)
  {
    SwapShuffles(t, i, j, a, b);
    ShuffledTrans(s, t, Swapped(t, i, j), a, b);
  }

  /** A shuffle of a part is a shuffle of anything larger. */
  lemma ShuffledWiden(s: seq<int>, t: seq<int>, a: nat, b: nat, a': nat, b': nat)
    requires Shuffled(s, t, a, b) && a' <= a && b <= b' <= |s|
    ensures Shuffled(s, t, a', b')
  {
    assert s[a'..b'] == s[a'..a] + s[a..b] + s[b..b'];
    assert t[a'..b'] == t[a'..a] + t[a..b] + t[b..b'];
    assert s[a'..a] == s[..a][a'..] && t[a'..a] == t[..a][a'..];
    assert s[b..b'] == s[b..][..b' - b] && t[b..b'] == t[b..][..b' - b];
    assert s[..a'] == s[..a][..a'] && t[..a'] == t[..a][..a'];
    assert s[b'..] == s[b..][b' - b..] && t[b'..] == t[b..][b' - b..];
  }

  /** Every element of the shuffled part was there before. */
  lemma ShuffledHas(s: seq<int>, t: seq<int>, a: nat, b: nat, k: nat) returns (j: nat)
    requires Shuffled(s, t, a, b) && a <= k < b
    ensures a <= j < b && s[j] == t[k]
  {
    assert t[a..b][k - a] in multiset(t[a..b]);
    assert t[k] in multiset(s[a..b]);
    assert t[k] in s[a..b];
    var i :| 0 <= i < b - a && s[a..b][i] == t[k];
    j := a + i;
  }

  predicate AtMost(s: seq<int>, i: nat, j: nat)
    requires i < |s| && j < |s|
  {
    s[i] <= s[j]
  }

  ghost predicate Ascending(s: seq<int>, a: nat, b: nat) {
    b <= |s| && forall i, j :: a <= i < j < b ==> AtMost(s, i, j)
  }

  lemma AscendingIs(s: seq<int>, a: nat, b: nat)
    requires b <= |s|
    ensures Ascending(s, a, b) <==> forall i, j :: a <= i < j < b ==> s[i] <= s[j]
  {
    forall i, j | a <= i < j < b ensures AtMost(s, i, j) <==> s[i] <= s[j] {
    }
    if Ascending(s, a, b) {
      forall i, j | a <= i < j < b ensures s[i] <= s[j] { assert AtMost(s, i, j); }
    }
  }

  /** Nothing before a exceeds anything in a .. b. */
  ghost predicate Parted(s: seq<int>, a: nat, b: nat) {
    b <= |s| && forall i, j :: 0 <= i < a <= j < b ==> AtMost(s, i, j)
  }

  lemma AscendingJoin(s: seq<int>, a: nat, b: nat)
    requires a <= b && Ascending(s, 0, a) && Ascending(s, a, b) && Parted(s, a, b)
    ensures Ascending(s, 0, b)
  {
    forall i, j | 0 <= i < j < b ensures AtMost(s, i, j) {
    }
  }
}

/** The sorting programs of vm.c, running on paged memory. */
module Sorting {
  import opened Arrays
  import opened Paging

  // ---------- What a program does to memory, and which ints it touches in what order ----------

  // The functions that end in Ints say what a program makes of the ints of memory; those that end in
  // Touches add to a sequence of ints touched those that the program touches. They know neither the
  // frames nor the victims.

  function CompareTouches(t: seq<int>, i: nat, j: nat): seq<int> {
    t + [i] + [j]
  }

  function SwapTouches(t: seq<int>, i: nat, j: nat): seq<int> {
    t + [i] + [j] + [i] + [j]
  }

  /** swap */
  method Swap(m: Simulator, addr1: int, addr2: int, ghost i: nat, ghost j: nat)
    requires m.Valid() && addr1 == 4 * i && addr2 == 4 * j && i < |m.contents| && j < |m.contents|
    modifies m`numAccesses, m`numFaults, m`disk, m`resident, m`useMarker, m`history, m`touched, m`states, m`contents
    modifies m.valid, m.frame, m.marker, m.physical
    ensures m.Valid() && m.contents == Swapped(old(m.contents), i, j)
    ensures m.touched == SwapTouches(old(m.touched), i, j) == old(m.touched) + [i, j, i, j]
  {
    hide Simulator.Valid;
    var temp := m.Load(addr1, i);
    var other := m.Load(addr2, j);
    m.Store(addr1, other, i);
    m.Store(addr2, temp, j);
  }

  /** load(addr1) > load(addr2) */
  method Exceeds(m: Simulator, addr1: int, addr2: int, ghost i: nat, ghost j: nat) returns (b: bool)
    requires m.Valid() && addr1 == 4 * i && addr2 == 4 * j && i < |m.contents| && j < |m.contents|
    modifies m`numAccesses, m`numFaults, m`disk, m`resident, m`useMarker, m`history, m`touched, m`states
    modifies m.valid, m.frame, m.marker, m.physical
    ensures m.Valid() && b == (m.contents[i] > m.contents[j])
    ensures m.touched == CompareTouches(old(m.touched), i, j) == old(m.touched) + [i, j]
  {
    hide Simulator.Valid;
    var x := m.Load(addr1, i);
    var y := m.Load(addr2, j);
    return x > y;
  }

  // ---------- selection_sort ----------

  /** s[least] is a least element of a .. b. */
  ghost predicate Least(s: seq<int>, least: nat, a: nat, b: nat) {
    least < |s| && b <= |s| && forall k :: a <= k < b ==> s[least] <= s[k]
  }

  lemma SelectStep(s: seq<int>, a: nat, least: nat, n: nat)
    requires a <= least < n <= |s| && Ascending(s, 0, a) && Parted(s, a, n) && Least(s, least, a, n)
    ensures var t := Swapped(s, a, least); Ascending(t, 0, a + 1) && Parted(t, a + 1, n)
  {
    var t := Swapped(s, a, least);
    forall i, j | 0 <= i < j < a + 1 ensures AtMost(t, i, j) {
      assert AtMost(s, i, if j == a then least else j);
    }
    forall i, j | 0 <= i < a + 1 <= j < n ensures AtMost(t, i, j) {
      var j' := if j == least then a else j;
      assert i < a ==> AtMost(s, i, j');
    }
  }

  /** The index the inner loop comes to from `least` and b on. */
  function LeastOf(s: seq<int>, least: nat, b: nat, n: nat): (k: nat)
    requires least < n && b <= n <= |s|
    ensures k < n
    decreases n - b
  {
    if b == n then least else LeastOf(s, if s[least] > s[b] then b else least, b + 1, n)
  }

  function SelectionInts(s: seq<int>, a: nat, n: nat): seq<int>
    requires n <= |s|
    decreases n - a
  {
    if a >= n then s else SelectionInts(Swapped(s, a, LeastOf(s, a, a, n)), a + 1, n)
  }

  function LeastTouches(t: seq<int>, s: seq<int>, least: nat, b: nat, n: nat): seq<int>
    requires least < n && b <= n <= |s|
    decreases n - b
  {
    if b == n then t
    else LeastTouches(CompareTouches(t, least, b), s, if s[least] > s[b] then b else least, b + 1, n)
  }

  function SelectionTouches(t: seq<int>, s: seq<int>, a: nat, n: nat): seq<int>
    requires n <= |s|
    decreases n - a
  {
    if a >= n then t
    else
      var least := LeastOf(s, a, a, n);
      SelectionTouches(SwapTouches(LeastTouches(t, s, a, a, n), a, least), Swapped(s, a, least), a + 1, n)
  }

  lemma {:induction false} LeastOfIs(s: seq<int>, least: nat, a: nat, b: nat, n: nat)
    requires a <= least < n && a <= b <= n <= |s| && Least(s, least, a, b)
    ensures a <= LeastOf(s, least, b, n) && Least(s, LeastOf(s, least, b, n), a, n)
    decreases n - b
  {
    if b < n {
      LeastOfIs(s, if s[least] > s[b] then b else least, a, b + 1, n);
    }
  }

  /** from is what memory was like before the program started. */
  lemma {:induction false} SelectionSorts(from: seq<int>, s: seq<int>, a: nat, n: nat)
    requires a <= n && Shuffled(from, s, 0, n) && Ascending(s, 0, a) && Parted(s, a, n)
    ensures Ascending(SelectionInts(s, a, n), 0, n) && Shuffled(from, SelectionInts(s, a, n), 0, n)
    decreases n - a
  {
    if a < n {
      var least := LeastOf(s, a, a, n);
      LeastOfIs(s, a, a, a, n);
      SelectStep(s, a, least, n);
      SwapMore(from, s, a, least, 0, n);
      SelectionSorts(from, Swapped(s, a, least), a + 1, n);
    }
  }

  lemma {:induction false} LeastCount(t: seq<int>, s: seq<int>, least: nat, b: nat, n: nat)
    requires least < n && b <= n <= |s|
    ensures |LeastTouches(t, s, least, b, n)| == |t| + 2 * (n - b)
    decreases n - b
  {
    if b < n { LeastCount(CompareTouches(t, least, b), s, if s[least] > s[b] then b else least, b + 1, n); }
  }

  lemma {:induction false} SelectionCount(t: seq<int>, s: seq<int>, a: nat, n: nat)
    requires a <= n <= |s|
    ensures |SelectionTouches(t, s, a, n)| == |t| + (n - a) * (n - a) + 5 * (n - a)
    decreases n - a
  {
    if a < n {
      assert (n - a) * (n - a) == (n - a - 1) * (n - a - 1) + 2 * (n - a) - 1;
      var least := LeastOf(s, a, a, n);
      LeastCount(t, s, a, a, n);
      SelectionCount(SwapTouches(LeastTouches(t, s, a, a, n), a, least), Swapped(s, a, least), a + 1, n);
    }
  }

  /** The inner loop of selection_sort. */
  method FindLeast(m: Simulator, i: int, arraySize: int, ghost a: nat, ghost n: nat)
    returns (minPos: int, ghost least: nat)
    requires m.Valid() && i == 4 * a && arraySize == 4 * n && a < n <= |m.contents|
    modifies m`numAccesses, m`numFaults, m`disk, m`resident, m`useMarker, m`history, m`touched, m`states
    modifies m.valid, m.frame, m.marker, m.physical
    ensures m.Valid() && minPos == 4 * least && a <= least < n && Least(m.contents, least, a, n)
    ensures least == LeastOf(m.contents, a, a, n)
    ensures m.touched == LeastTouches(old(m.touched), m.contents, a, a, n)
    ensures |m.touched| == |old(m.touched)| + 2 * (n - a)
  {
    hide Simulator.Valid;
    minPos, least := i, a;
    var j := i;
    ghost var b: nat := a;
    LeastOfIs(m.contents, a, a, a, n);
    LeastCount(m.touched, m.contents, a, a, n);
    while j < arraySize
      invariant j == 4 * b && a <= b <= n && m.Valid() && minPos == 4 * least && least < n
      invariant m.contents == old(m.contents) && LeastOf(m.contents, a, a, n) == LeastOf(m.contents, least, b, n)
      invariant LeastTouches(old(m.touched), m.contents, a, a, n) == LeastTouches(m.touched, m.contents, least, b, n)
      decreases n - b
    {
      var smaller := Exceeds(m, minPos, j, least, b);
      if smaller {
        minPos, least := j, b;
      }
      j := j + INT_SIZE;
      b := b + 1;
    }
  }

  /** selection_sort */
  method SelectionSort(m: Simulator, n: nat)
    requires m.Valid() && n <= |m.contents|
    modifies m`numAccesses, m`numFaults, m`disk, m`resident, m`useMarker, m`history, m`touched, m`states, m`contents
    modifies m.valid, m.frame, m.marker, m.physical
    ensures m.Valid() && Ascending(m.contents, 0, n) && Shuffled(old(m.contents), m.contents, 0, n)
    ensures m.contents == SelectionInts(old(m.contents), 0, n)
    ensures m.touched == SelectionTouches(old(m.touched), old(m.contents), 0, n)
    ensures |m.touched| == |old(m.touched)| + n * n + 5 * n
  {
    hide Simulator.Valid;
    var arraySize := n * INT_SIZE;
    var i := 0;
    ghost var a: nat := 0;
    while i < arraySize
      invariant i == 4 * a && a <= n <= |m.contents| && m.Valid()
      invariant SelectionInts(old(m.contents), 0, n) == SelectionInts(m.contents, a, n)
      invariant SelectionTouches(old(m.touched), old(m.contents), 0, n) == SelectionTouches(m.touched, m.contents, a, n)
      decreases n - a
    {
      ghost var least;
      var minPos;
      minPos, least := FindLeast(m, i, arraySize, a, n);
      Swap(m, i, minPos, a, least);
      i := i + INT_SIZE;
      a := a + 1;
    }
    SelectionSorts(old(m.contents), old(m.contents), 0, n);
    SelectionCount(old(m.touched), old(m.contents), 0, n);
  }

  // ---------- insertion_sort ----------

  /** 0 .. a is ascending, except that element c may be too small for its place. */
  ghost predicate Sinking(s: seq<int>, c: nat, a: nat) {
    a < |s| && forall p, q :: 0 <= p < q <= a && q != c ==> AtMost(s, p, q)
  }

  lemma SinkStep(s: seq<int>, c: nat, a: nat)
    requires Sinking(s, c, a) && 0 < c <= a && s[c - 1] > s[c]
    ensures Sinking(Swapped(s, c - 1, c), c - 1, a)
  {
    var t := Swapped(s, c - 1, c);
    forall p, q | 0 <= p < q <= a && q != c - 1 ensures AtMost(t, p, q) {
      var p', q' := Other(p, c), Other(q, c);
      assert p' < q' && q' != c ==> AtMost(s, p', q');
    }
  }

  /** The index that c - 1 and c trade. */
  function Other(p: nat, c: nat): nat
    requires c > 0
  {
    if p == c then c - 1 else if p == c - 1 then c else p
  }

  lemma SinkDone(s: seq<int>, c: nat, a: nat)
    requires Sinking(s, c, a) && c <= a && (c > 0 ==> s[c - 1] <= s[c])
    ensures Ascending(s, 0, a + 1)
  {
    forall i, j | 0 <= i < j < a + 1 ensures AtMost(s, i, j) {
      if j == c { assert i < c - 1 ==> AtMost(s, i, c - 1); } else { assert AtMost(s, i, j); }
    }
  }

  function SinkInts(s: seq<int>, c: nat): (t: seq<int>)
    requires c < |s|
    ensures |t| == |s|
    decreases c
  {
    if c > 0 && s[c - 1] > s[c] then SinkInts(Swapped(s, c - 1, c), c - 1) else s
  }

  function InsertionInts(s: seq<int>, a: nat, n: nat): seq<int>
    requires n <= |s|
    decreases n - a
  {
    if a >= n then s else InsertionInts(SinkInts(s, a), a + 1, n)
  }

  function SinkTouches(t: seq<int>, s: seq<int>, c: nat): seq<int>
    requires c < |s|
    decreases c
  {
    if c == 0 then t
    else if s[c - 1] > s[c] then
      SinkTouches(SwapTouches(CompareTouches(t, c - 1, c), c - 1, c), Swapped(s, c - 1, c), c - 1)
    else CompareTouches(t, c - 1, c)
  }

  function InsertionTouches(t: seq<int>, s: seq<int>, a: nat, n: nat): seq<int>
    requires n <= |s|
    decreases n - a
  {
    if a >= n then t else InsertionTouches(SinkTouches(t, s, a), SinkInts(s, a), a + 1, n)
  }

  lemma {:induction false} SinkSorts(from: seq<int>, s: seq<int>, c: nat, a: nat, n: nat)
    requires c <= a < n && Shuffled(from, s, 0, n) && Sinking(s, c, a)
    ensures Ascending(SinkInts(s, c), 0, a + 1) && Shuffled(from, SinkInts(s, c), 0, n)
    decreases c
  {
    if c > 0 && s[c - 1] > s[c] {
      SinkStep(s, c, a);
      SwapMore(from, s, c - 1, c, 0, n);
      SinkSorts(from, Swapped(s, c - 1, c), c - 1, a, n);
    } else {
      SinkDone(s, c, a);
    }
  }

  lemma {:induction false} InsertionSorts(from: seq<int>, s: seq<int>, a: nat, n: nat)
    requires a <= n && Shuffled(from, s, 0, n) && Ascending(s, 0, a)
    ensures Ascending(InsertionInts(s, a, n), 0, n) && Shuffled(from, InsertionInts(s, a, n), 0, n)
    decreases n - a
  {
    if a < n {
      SinkSorts(from, s, a, a, n);
      InsertionSorts(from, SinkInts(s, a), a + 1, n);
    }
  }

  /** t is s rearranged within 0 .. n and, if 0 .. a was ascending, with element a sunk to its place. */
  ghost predicate SunkIn(s: seq<int>, t: seq<int>, a: nat, n: nat) {
    Ascending(s, 0, a) ==> Ascending(t, 0, a + 1) && Shuffled(s, t, 0, n)
  }

  lemma SunkIsIn(s: seq<int>, a: nat, n: nat)
    requires a < n <= |s|
    ensures SunkIn(s, SinkInts(s, a), a, n)
  {
    if Ascending(s, 0, a) { SinkSorts(s, s, a, a, n); }
  }

  /** Element a goes to `place`, before the larger ones that stood there. */
  ghost predicate Inserted(s: seq<int>, t: seq<int>, place: nat, a: nat) {
    && place <= a < |s|
    && t == s[..place] + [s[a]] + s[place..a] + s[a + 1..]
    && (forall k :: place <= k < a ==> s[k] > s[a])
    && (place > 0 ==> s[place - 1] <= s[a])
  }

  lemma {:induction false} SinkMoves(t: seq<int>, s: seq<int>, c: nat) returns (place: nat)
    requires c < |s|
    ensures Inserted(s, SinkInts(s, c), place, c)
    ensures |SinkTouches(t, s, c)| == |t| + 6 * (c - place) + if place > 0 then 2 else 0
    decreases c
  {
    if c > 0 && s[c - 1] > s[c] {
      var u := Swapped(s, c - 1, c);
      place := SinkMoves(SwapTouches(CompareTouches(t, c - 1, c), c - 1, c), u, c - 1);
      InsertedMore(s, SinkInts(u, c - 1), place, c);
    } else {
      place := c;
      assert s == s[..c] + [s[c]] + s[c..c] + s[c + 1..];
    }
  }

  lemma InsertedMore(s: seq<int>, t: seq<int>, place: nat, c: nat)
    requires 0 < c < |s| && s[c - 1] > s[c] && Inserted(Swapped(s, c - 1, c), t, place, c - 1)
    ensures Inserted(s, t, place, c)
  {
    var u := Swapped(s, c - 1, c);
    assert u[..place] == s[..place] && u[c + 1..] == s[c + 1..];
    assert u[c..] == [s[c - 1]] + s[c + 1..];
    assert u[place..c - 1] == s[place..c - 1] && s[place..c] == s[place..c - 1] + [s[c - 1]];
    assert forall k :: place <= k < c - 1 ==> u[k] == s[k];
  }

  /** The inner loop of insertion_sort. */
  method Insert(m: Simulator, i: int, ghost a: nat, ghost n: nat) returns (ghost place: nat)
    requires m.Valid() && i == 4 * a && a < n <= |m.contents|
    modifies m`numAccesses, m`numFaults, m`disk, m`resident, m`useMarker, m`history, m`touched, m`states, m`contents
    modifies m.valid, m.frame, m.marker, m.physical
    ensures m.Valid() && SunkIn(old(m.contents), m.contents, a, n)
    ensures m.contents == SinkInts(old(m.contents), a) && m.touched == SinkTouches(old(m.touched), old(m.contents), a)
    ensures Inserted(old(m.contents), m.contents, place, a)
    ensures |m.touched| == |old(m.touched)| + 6 * (a - place) + if place > 0 then 2 else 0
  {
    hide Simulator.Valid;
    SunkIsIn(m.contents, a, n);
    place := SinkMoves(m.touched, m.contents, a);
    hide Inserted, SunkIn;
    var currPos := i;
    ghost var c: nat := a;
    while currPos > 0
      invariant currPos == 4 * c && c < |m.contents| && m.Valid()
      invariant SinkInts(old(m.contents), a) == SinkInts(m.contents, c)
      invariant SinkTouches(old(m.touched), old(m.contents), a) == SinkTouches(m.touched, m.contents, c)
      decreases c
    {
      var larger := Exceeds(m, currPos - INT_SIZE, currPos, c - 1, c);
      if !larger {
        return;
      }
      Swap(m, currPos - INT_SIZE, currPos, c - 1, c);
      currPos := currPos - INT_SIZE;
      c := c - 1;
    }
  }

  /** insertion_sort */
  method InsertionSort(m: Simulator, n: nat)
    requires m.Valid() && n <= |m.contents|
    modifies m`numAccesses, m`numFaults, m`disk, m`resident, m`useMarker, m`history, m`touched, m`states, m`contents
    modifies m.valid, m.frame, m.marker, m.physical
    ensures m.Valid() && Ascending(m.contents, 0, n) && Shuffled(old(m.contents), m.contents, 0, n)
    ensures m.contents == InsertionInts(old(m.contents), 0, n)
    ensures m.touched == InsertionTouches(old(m.touched), old(m.contents), 0, n)
  {
    hide Simulator.Valid;
    var arraySize := n * INT_SIZE;
    var i := 0;
    ghost var a: nat := 0;
    while i < arraySize
      invariant i == 4 * a && a <= n <= |m.contents| && m.Valid()
      invariant InsertionInts(old(m.contents), 0, n) == InsertionInts(m.contents, a, n)
      invariant InsertionTouches(old(m.touched), old(m.contents), 0, n) == InsertionTouches(m.touched, m.contents, a, n)
      decreases n - a
    {
      var _ := Insert(m, i, a, n);
      i := i + INT_SIZE;
      a := a + 1;
    }
    InsertionSorts(old(m.contents), old(m.contents), 0, n);
  }

  // ---------- heap_sort ----------

  /** (i - 1) / 2, which in C is 0 for i = 0. */
  function Parent(i: nat): nat {
    if i == 0 then 0 else (i - 1) / 2
  }

  function LeftChild(i: nat): nat { 2 * i + 1 }

  function RightChild(i: nat): nat { 2 * i + 2 }

  /** Element j does not exceed its parent. */
  predicate Under(s: seq<int>, j: nat)
    requires j < |s|
  {
    s[Parent(j)] >= s[j]
  }

  /** 0 .. n (n excluded) is a heap. */
  ghost predicate IsHeap(s: seq<int>, n: nat) {
    n <= |s| && forall j :: 1 <= j < n ==> Under(s, j)
  }

  /** 0 .. n is a heap except that element c may exceed its parent; the children of c fit under
      c's parent. */
  ghost predicate Rising(s: seq<int>, c: nat, n: nat) {
    && c < n <= |s|
    && (forall j :: 1 <= j < n && j != c ==> Under(s, j))
    && (forall j :: 1 <= j < n && c > 0 && Parent(j) == c ==> s[Parent(c)] >= s[j])
  }

  lemma RiseStep(s: seq<int>, c: nat, n: nat)
    requires Rising(s, c, n) && c > 0 && s[c] > s[Parent(c)]
    ensures Rising(Swapped(s, c, Parent(c)), Parent(c), n)
  {
    var t := Swapped(s, c, Parent(c));
    forall j | 1 <= j < n && j != Parent(c) ensures Under(t, j) {
      assert j != c ==> Under(s, j);
    }
    forall j | 1 <= j < n && Parent(c) > 0 && Parent(j) == Parent(c) ensures t[Parent(Parent(c))] >= t[j] {
      assert Under(s, Parent(c)) && (j != c ==> Under(s, j));
    }
  }

  lemma RiseDone(s: seq<int>, c: nat, n: nat)
    requires Rising(s, c, n) && (c > 0 ==> s[c] <= s[Parent(c)])
    ensures IsHeap(s, n)
  {
    assert c > 0 ==> Under(s, c);
  }

  /** 0 .. n is a heap except that element c may fall short of its children; they fit under c's
      parent. */
  ghost predicate Falling(s: seq<int>, c: nat, n: nat) {
    && n <= |s|
    && (forall j :: 1 <= j < n && Parent(j) != c ==> Under(s, j))
    && (forall j :: 1 <= j < n && 0 < c < n && Parent(j) == c ==> s[Parent(c)] >= s[j])
  }

  /** k is the larger child of c among 0 .. n, or lies at or above n if c has no child. */
  ghost predicate Larger(s: seq<int>, c: nat, k: nat, n: nat) {
    && n <= |s| && (k == LeftChild(c) || k == RightChild(c))
    && (k >= n ==> LeftChild(c) >= n)
    && (k < n ==> forall j :: 1 <= j < n && Parent(j) == c ==> s[k] >= s[j])
  }

  /** The child biggestChild chooses. */
  function Bigger(s: seq<int>, c: nat, n: nat): nat
    requires n <= |s|
  {
    if RightChild(c) >= n || s[LeftChild(c)] > s[RightChild(c)] then LeftChild(c) else RightChild(c)
  }

  lemma BiggerIsLarger(s: seq<int>, c: nat, n: nat)
    requires n <= |s|
    ensures Larger(s, c, Bigger(s, c, n), n) && Bigger(s, c, n) > c
  {
    forall j | 1 <= j < n && Parent(j) == c ensures j == LeftChild(c) || j == RightChild(c) {
      ChildOf(c, j);
    }
  }

  lemma ChildOf(c: nat, j: nat)
    requires j > 0
    ensures Parent(j) == c <==> j == LeftChild(c) || j == RightChild(c)
  {
  }

  lemma FallStep(s: seq<int>, c: nat, k: nat, n: nat)
    requires Falling(s, c, n) && Larger(s, c, k, n) && k < n && s[c] < s[k]
    ensures Falling(Swapped(s, c, k), k, n)
  {
    var t := Swapped(s, c, k);
    ChildOf(c, k);
    forall j | 1 <= j < n && Parent(j) != k ensures Under(t, j) {
      if Parent(j) == c {
        assert s[k] >= s[j];
      } else {
        assert Under(s, j);
        if j == c { assert Parent(k) == c && s[Parent(c)] >= s[k]; }
      }
    }
    forall j | 1 <= j < n && Parent(j) == k ensures t[Parent(k)] >= t[j] {
      assert Under(s, j);
    }
  }

  lemma FallDone(s: seq<int>, c: nat, k: nat, n: nat)
    requires Falling(s, c, n) && Larger(s, c, k, n) && (k < n ==> s[c] >= s[k])
    ensures IsHeap(s, n)
  {
    forall j | 1 <= j < n ensures Under(s, j) {
      ChildOf(c, j);
    }
  }

  lemma {:induction false} RootIsGreatest(s: seq<int>, n: nat, j: nat)
    requires IsHeap(s, n) && j < n
    ensures s[0] >= s[j]
  {
    if j > 0 {
      assert Under(s, j);
      RootIsGreatest(s, n, Parent(j));
    }
  }

  /** Moving the root of a heap behind it: what follows stays ascending and no smaller than what is
      left, which is a heap but for its root. */
  lemma MoveRoot(s: seq<int>, n: nat, len: nat)
    requires 0 < n < len <= |s| && IsHeap(s, n + 1) && Ascending(s, n + 1, len) && Parted(s, n + 1, len)
    ensures var t := Swapped(s, 0, n);
            Falling(t, 0, n) && Ascending(t, n, len) && Parted(t, n, len)
  {
    var t := Swapped(s, 0, n);
    forall j | 0 <= j <= n ensures s[0] >= s[j] {
      RootIsGreatest(s, n + 1, j);
    }
    forall j | 1 <= j < n && Parent(j) != 0 ensures Under(t, j) {
      assert Under(s, j);
    }
    forall i, j | n <= i < j < len ensures AtMost(t, i, j) {
      assert AtMost(s, if i == n then 0 else i, j);
    }
    forall i, j | 0 <= i < n <= j < len ensures AtMost(t, i, j) {
      if j > n { assert AtMost(s, if i == 0 then n else i, j); }
    }
  }

  /** Rearranging what lies before a keeps it parted from what follows. */
  lemma PartedStays(s: seq<int>, i: nat, j: nat, a: nat, len: nat)
    requires Parted(s, a, len) && Ascending(s, a, len) && i < a && j < a && a <= len
    ensures Parted(Swapped(s, i, j), a, len) && Ascending(Swapped(s, i, j), a, len)
  {
    var t := Swapped(s, i, j);
    forall p, q | a <= p < q < len ensures AtMost(t, p, q) {
      assert AtMost(s, p, q);
    }
    forall p, q | 0 <= p < a <= q < len ensures AtMost(t, p, q) {
      assert AtMost(s, if p == i then j else if p == j then i else p, q);
    }
  }

  /** The element at the start of the path has gone to its end, and those on the path have each moved
      one step toward the start. */
  ghost predicate Moved(s: seq<int>, t: seq<int>, path: seq<nat>) {
    && |path| > 0 && |t| == |s|
    && (forall k :: 0 <= k < |path| ==> path[k] < |s|)
    && (forall k :: 0 <= k < |path| - 1 ==> MovesAt(s, t, path, k))
    && t[path[|path| - 1]] == s[path[0]]
    && (forall j :: 0 <= j < |s| && j !in path ==> t[j] == s[j])
  }

  ghost predicate MovesAt(s: seq<int>, t: seq<int>, path: seq<nat>, k: nat) {
    && k + 1 < |path| && path[k] < |t| && path[k + 1] < |s|
    && t[path[k]] == s[path[k + 1]]
  }

  /** From c to the parent, and its parent, as long as they are smaller than element c. */
  ghost predicate UpPath(s: seq<int>, path: seq<nat>, c: nat) {
    && c < |s| && |path| > 0 && path[0] == c
    && (forall k :: 0 < k < |path| ==> path[k] < c)
    && (forall k :: 0 <= k < |path| - 1 ==> UpAt(s, path, c, k))
    && (path[|path| - 1] > 0 ==> s[(path[|path| - 1] - 1) / 2] >= s[c])
  }

  ghost predicate UpAt(s: seq<int>, path: seq<nat>, c: nat, k: nat) {
    && c < |s| && k + 1 < |path| && path[k] > 0
    && path[k + 1] == (path[k] - 1) / 2 < |s| && s[path[k + 1]] < s[c]
  }

  /** From c to the larger child, and its larger child, as long as they are larger than element c;
      of two equal children the right one. */
  ghost predicate DownPath(s: seq<int>, path: seq<nat>, c: nat, last: nat) {
    && c <= last < |s| && |path| > 0 && path[0] == c
    && (forall k :: 0 < k < |path| ==> c < path[k] <= last)
    && (forall k :: 0 <= k < |path| - 1 ==> DownAt(s, path, c, last, k))
    && (forall j :: path[|path| - 1] < j <= last && (j - 1) / 2 == path[|path| - 1] ==> s[j] <= s[c])
  }

  ghost predicate DownAt(s: seq<int>, path: seq<nat>, c: nat, last: nat, k: nat) {
    && c <= last < |s| && k + 1 < |path| && path[k + 1] <= last
    && (path[k + 1] == 2 * path[k] + 1 || path[k + 1] == 2 * path[k] + 2)
    && (2 * path[k] + 2 <= last ==>
          (path[k + 1] == 2 * path[k] + 1 <==> s[2 * path[k] + 1] > s[2 * path[k] + 2]))
    && s[path[k + 1]] > s[c]
  }

  /** One swap at the start of the path, then the rest of it. */
  lemma MovedMore(s: seq<int>, t: seq<int>, c: nat, path: seq<nat>)
    requires c < |s| && |path| > 0 && path[0] < |s| && path[0] != c
    requires forall k :: 0 < k < |path| ==> path[k] != path[0] && path[k] != c
    requires Moved(Swapped(s, c, path[0]), t, path)
    ensures Moved(s, t, [c] + path)
  {
    var u, more := Swapped(s, c, path[0]), [c] + path;
    assert forall k :: 0 <= k < |path| ==> more[k + 1] == path[k];
    forall k | 0 <= k < |more| - 1 ensures MovesAt(s, t, more, k) {
      if k > 0 { assert MovesAt(u, t, path, k - 1); } else { assert u[c] == t[c]; }
    }
    forall j | 0 <= j < |s| && j !in more ensures t[j] == s[j] {
      assert j !in path && j != c && j != path[0];
    }
  }

  function RiseInts(s: seq<int>, c: nat): (t: seq<int>)
    requires c < |s|
    ensures |t| == |s|
    decreases c
  {
    if c > 0 && s[c] > s[Parent(c)] then RiseInts(Swapped(s, c, Parent(c)), Parent(c)) else s
  }

  function HeapifyInts(s: seq<int>, i: nat, n: nat): (t: seq<int>)
    requires n <= |s|
    ensures |t| == |s|
    decreases n - i
  {
    if i >= n then s else HeapifyInts(RiseInts(s, i), i + 1, n)
  }

  function RiseTouches(t: seq<int>, s: seq<int>, c: nat): seq<int>
    requires c < |s|
    decreases c
  {
    if c == 0 then t
    else if s[c] > s[Parent(c)] then
      RiseTouches(SwapTouches(CompareTouches(t, c, Parent(c)), c, Parent(c)), Swapped(s, c, Parent(c)), Parent(c))
    else CompareTouches(t, c, Parent(c))
  }

  function HeapifyTouches(t: seq<int>, s: seq<int>, i: nat, n: nat): seq<int>
    requires n <= |s|
    decreases n - i
  {
    if i >= n then t else HeapifyTouches(RiseTouches(t, s, i), RiseInts(s, i), i + 1, n)
  }

  lemma {:induction false} RiseHeaps(from: seq<int>, s: seq<int>, c: nat, i: nat, n: nat)
    requires i < n && Shuffled(from, s, 0, n) && Rising(s, c, i + 1)
    ensures IsHeap(RiseInts(s, c), i + 1) && Shuffled(from, RiseInts(s, c), 0, n)
    decreases c
  {
    if c > 0 && s[c] > s[Parent(c)] {
      RiseStep(s, c, i + 1);
      SwapMore(from, s, c, Parent(c), 0, n);
      RiseHeaps(from, Swapped(s, c, Parent(c)), Parent(c), i, n);
    } else {
      RiseDone(s, c, i + 1);
    }
  }

  lemma {:induction false} HeapifyHeaps(from: seq<int>, s: seq<int>, i: nat, n: nat)
    requires Shuffled(from, s, 0, n) && IsHeap(s, if i < n then i else n)
    ensures IsHeap(HeapifyInts(s, i, n), n) && Shuffled(from, HeapifyInts(s, i, n), 0, n)
    decreases n - i
  {
    if i < n {
      RiseHeaps(from, s, i, i, n);
      HeapifyHeaps(from, RiseInts(s, i), i + 1, n);
    }
  }

  /** The places element c takes on its way up. */
  function RisePath(s: seq<int>, c: nat): (path: seq<nat>)
    requires c < |s|
    ensures |path| > 0
    decreases c
  {
    if c > 0 && s[c] > s[Parent(c)] then [c] + RisePath(Swapped(s, c, Parent(c)), Parent(c)) else [c]
  }

  lemma {:induction false} RiseMoves(s: seq<int>, c: nat)
    requires c < |s|
    ensures UpPath(s, RisePath(s, c), c) && Moved(s, RiseInts(s, c), RisePath(s, c))
    decreases c
  {
    hide UpPath, Moved;
    if c > 0 && s[c] > s[Parent(c)] {
      var p := Parent(c);
      RiseMoves(Swapped(s, c, p), p);
      UpPathMore(s, RisePath(Swapped(s, c, p), p), c, p);
      MovedMore(s, RiseInts(s, c), c, RisePath(Swapped(s, c, p), p));
    } else {
      UpPathDone(s, c);
    }
  }

  lemma UpPathDone(s: seq<int>, c: nat)
    requires c < |s| && (c == 0 || s[c] <= s[Parent(c)])
    ensures UpPath(s, [c], c) && Moved(s, s, [c])
  {
  }

  /** A rise costs 6 accesses a swap, and 2 for the comparison that ends it below the root. */
  lemma {:induction false} RiseCosts(t: seq<int>, s: seq<int>, c: nat)
    requires c < |s|
    ensures var path := RisePath(s, c);
            |RiseTouches(t, s, c)| == |t| + 6 * (|path| - 1) + if path[|path| - 1] > 0 then 2 else 0
    decreases c
  {
    if c > 0 && s[c] > s[Parent(c)] {
      var p := Parent(c);
      var rest := RisePath(Swapped(s, c, p), p);
      RiseCosts(SwapTouches(CompareTouches(t, c, p), c, p), Swapped(s, c, p), p);
      assert ([c] + rest)[|rest|] == rest[|rest| - 1];
    }
  }

  lemma UpPathMore(s: seq<int>, rest: seq<nat>, c: nat, p: nat)
    requires 0 < c < |s| && p == Parent(c) && s[c] > s[p] && UpPath(Swapped(s, c, p), rest, p)
    ensures UpPath(s, [c] + rest, c)
    ensures |rest| > 0 && rest[0] == p && forall k :: 0 < k < |rest| ==> rest[k] != rest[0] && rest[k] != c
  {
    var u, path := Swapped(s, c, p), [c] + rest;
    assert forall k :: 0 <= k < |rest| ==> path[k + 1] == rest[k];
    forall k | 0 <= k < |path| - 1 ensures UpAt(s, path, c, k) {
      if k > 0 { assert UpAt(u, rest, p, k - 1); }
    }
    assert path[|path| - 1] == rest[|rest| - 1];
  }

  /** t is s rearranged within 0 .. n and, if 0 .. i was a heap, with element i added to it. */
  ghost predicate RisenIn(s: seq<int>, t: seq<int>, i: nat, n: nat) {
    IsHeap(s, i) ==> IsHeap(t, i + 1) && Shuffled(s, t, 0, n)
  }

  lemma RisenIsIn(s: seq<int>, i: nat, n: nat)
    requires i < n <= |s|
    ensures RisenIn(s, RiseInts(s, i), i, n)
  {
    if IsHeap(s, i) { RiseHeaps(s, s, i, i, n); }
  }

  /** The inner loop of heapify. */
  method SiftUp(m: Simulator, i: nat, ghost n: nat) returns (ghost path: seq<nat>)
    requires m.Valid() && 0 < i < n <= |m.contents|
    modifies m`numAccesses, m`numFaults, m`disk, m`resident, m`useMarker, m`history, m`touched, m`states, m`contents
    modifies m.valid, m.frame, m.marker, m.physical
    ensures m.Valid() && RisenIn(old(m.contents), m.contents, i, n)
    ensures m.contents == RiseInts(old(m.contents), i) && m.touched == RiseTouches(old(m.touched), old(m.contents), i)
    ensures UpPath(old(m.contents), path, i) && Moved(old(m.contents), m.contents, path)
    ensures |m.touched| == |old(m.touched)| + 6 * (|path| - 1) + if path[|path| - 1] > 0 then 2 else 0
  {
    hide Simulator.Valid, UpPath, Moved, RisenIn, RisePath;
    RisenIsIn(m.contents, i, n);
    RiseMoves(m.contents, i);
    RiseCosts(m.touched, m.contents, i);
    path := RisePath(m.contents, i);
    var curr: nat := i;
    var p := Parent(curr);
    while curr > 0
      invariant curr < |m.contents| && p == Parent(curr) && m.Valid()
      invariant RiseInts(old(m.contents), i) == RiseInts(m.contents, curr)
      invariant RiseTouches(old(m.touched), old(m.contents), i) == RiseTouches(m.touched, m.contents, curr)
      decreases curr
    {
      var larger := Exceeds(m, curr * INT_SIZE, p * INT_SIZE, curr, p);
      if !larger {
        return;
      }
      Swap(m, curr * INT_SIZE, p * INT_SIZE, curr, p);
      curr := p;
      p := Parent(curr);
    }
  }

  /** heapify */
  method Heapify(m: Simulator, n: nat)
    requires m.Valid() && n <= |m.contents|
    modifies m`numAccesses, m`numFaults, m`disk, m`resident, m`useMarker, m`history, m`touched, m`states, m`contents
    modifies m.valid, m.frame, m.marker, m.physical
    ensures m.Valid() && IsHeap(m.contents, n) && Shuffled(old(m.contents), m.contents, 0, n)
    ensures m.contents == HeapifyInts(old(m.contents), 1, n)
    ensures m.touched == HeapifyTouches(old(m.touched), old(m.contents), 1, n)
  {
    hide Simulator.Valid;
    HeapifyHeaps(m.contents, m.contents, 1, n);
    var i := 1;
    while i < n
      invariant 1 <= i && n <= |m.contents| && m.Valid()
      invariant HeapifyInts(old(m.contents), 1, n) == HeapifyInts(m.contents, i, n)
      invariant HeapifyTouches(old(m.touched), old(m.contents), 1, n) == HeapifyTouches(m.touched, m.contents, i, n)
    {
      var _ := SiftUp(m, i, n);
      i := i + 1;
    }
  }

  /** What biggestChild touches. */
  function ChildTouches(t: seq<int>, c: nat, last: nat): seq<int> {
    if RightChild(c) > last then t else CompareTouches(t, LeftChild(c), RightChild(c))
  }

  /** biggestChild, for the heap 0 .. last (last included): the larger child of i, or an index above
      last when i has none. */
  method BiggestChild(m: Simulator, i: nat, last: nat) returns (c: nat)
    requires m.Valid() && last < |m.contents|
    modifies m`numAccesses, m`numFaults, m`disk, m`resident, m`useMarker, m`history, m`touched, m`states
    modifies m.valid, m.frame, m.marker, m.physical
    ensures m.Valid() && c == Bigger(m.contents, i, last + 1) && m.touched == ChildTouches(old(m.touched), i, last)
    ensures m.touched == old(m.touched) + if 2 * i + 2 <= last then [2 * i + 1, 2 * i + 2] else []
  {
    hide Simulator.Valid;
    var c1 := LeftChild(i);
    var c2 := RightChild(i);
    if c2 > last {
      return c1;
    }
    var larger := Exceeds(m, c1 * INT_SIZE, c2 * INT_SIZE, c1, c2);
    return if larger then c1 else c2;
  }

  function FallInts(s: seq<int>, c: nat, last: nat): (t: seq<int>)
    requires last < |s|
    ensures |t| == |s|
    decreases if c <= last then last + 1 - c else 0
  {
    var k := Bigger(s, c, last + 1);
    if k <= last && s[k] > s[c] then FallInts(Swapped(s, c, k), k, last) else s
  }

  function DrainInts(s: seq<int>, n: nat): seq<int>
    requires n < |s|
    decreases n
  {
    if n == 0 then s else DrainInts(FallInts(Swapped(s, 0, n), 0, n - 1), n - 1)
  }

  function HeapSortInts(s: seq<int>, len: nat): seq<int>
    requires len <= |s|
  {
    if len == 0 then s else DrainInts(HeapifyInts(s, 1, len), len - 1)
  }

  /** From the point where the child of c is known. */
  function FallTouches(t: seq<int>, s: seq<int>, c: nat, last: nat): seq<int>
    requires last < |s|
    decreases if c <= last then last + 1 - c else 0
  {
    var k := Bigger(s, c, last + 1);
    if k > last then t
    else if s[k] > s[c] then FallTouches(FallOnce(t, c, k, last), Swapped(s, c, k), k, last)
    else CompareTouches(t, k, c)
  }

  /** What one step of the fall from c to k touches. */
  function FallOnce(t: seq<int>, c: nat, k: nat, last: nat): seq<int> {
    ChildTouches(SwapTouches(ChildTouches(CompareTouches(t, k, c), c, last), c, k), k, last)
  }

  function DrainTouches(t: seq<int>, s: seq<int>, n: nat): seq<int>
    requires n < |s|
    decreases n
  {
    if n == 0 then t
    else
      var before := Swapped(s, 0, n);
      DrainTouches(FallTouches(ChildTouches(SwapTouches(t, 0, n), 0, n - 1), before, 0, n - 1),
                   FallInts(before, 0, n - 1), n - 1)
  }

  function HeapSortTouches(t: seq<int>, s: seq<int>, len: nat): seq<int>
    requires len <= |s|
  {
    if len == 0 then t else DrainTouches(HeapifyTouches(t, s, 1, len), HeapifyInts(s, 1, len), len - 1)
  }

  /** While the root falls: t is s with the elements below len rearranged, those above last sorted
      and no smaller than the rest, which is a heap but for element c. */
  ghost predicate FallingIn(s: seq<int>, t: seq<int>, c: nat, last: nat, len: nat) {
    && last + 1 < len && Shuffled(s, t, 0, len) && Falling(t, c, last + 1)
    && Ascending(t, last + 1, len) && Parted(t, last + 1, len)
  }

  ghost predicate HeapIn(s: seq<int>, t: seq<int>, last: nat, len: nat) {
    && last + 1 < len && Shuffled(s, t, 0, len) && IsHeap(t, last + 1)
    && Ascending(t, last + 1, len) && Parted(t, last + 1, len)
  }

  lemma FallInStep(s: seq<int>, t: seq<int>, c: nat, k: nat, last: nat, len: nat)
    requires FallingIn(s, t, c, last, len) && k == Bigger(t, c, last + 1) && k <= last && t[k] > t[c]
    ensures FallingIn(s, Swapped(t, c, k), k, last, len)
  {
    BiggerIsLarger(t, c, last + 1);
    FallStep(t, c, k, last + 1);
    SwapMore(s, t, c, k, 0, len);
    PartedStays(t, c, k, last + 1, len);
  }

  lemma FallInDone(s: seq<int>, t: seq<int>, c: nat, k: nat, last: nat, len: nat)
    requires FallingIn(s, t, c, last, len) && k == Bigger(t, c, last + 1) && (k <= last ==> t[k] <= t[c])
    ensures HeapIn(s, t, last, len)
  {
    BiggerIsLarger(t, c, last + 1);
    FallDone(t, c, k, last + 1);
  }

  lemma {:induction false} FallHeaps(from: seq<int>, s: seq<int>, c: nat, last: nat, len: nat)
    requires FallingIn(from, s, c, last, len)
    ensures HeapIn(from, FallInts(s, c, last), last, len)
    decreases if c <= last then last + 1 - c else 0
  {
    var k := Bigger(s, c, last + 1);
    if k <= last && s[k] > s[c] {
      FallInStep(from, s, c, k, last, len);
      FallHeaps(from, Swapped(s, c, k), k, last, len);
    } else {
      FallInDone(from, s, c, k, last, len);
    }
  }

  lemma {:induction false} DrainSorts(from: seq<int>, s: seq<int>, n: nat, len: nat)
    requires n < len && Shuffled(from, s, 0, len) && IsHeap(s, n + 1)
    requires Ascending(s, n + 1, len) && Parted(s, n + 1, len)
    ensures Ascending(DrainInts(s, n), 0, len) && Shuffled(from, DrainInts(s, n), 0, len)
    decreases n
  {
    if n == 0 {
      AscendingJoin(s, 1, len);
    } else {
      MoveRoot(s, n, len);
      SwapMore(from, s, 0, n, 0, len);
      FallHeaps(from, Swapped(s, 0, n), 0, n - 1, len);
      DrainSorts(from, FallInts(Swapped(s, 0, n), 0, n - 1), n - 1, len);
    }
  }

  lemma HeapSortSorts(s: seq<int>, len: nat)
    requires len <= |s|
    ensures Ascending(HeapSortInts(s, len), 0, len) && Shuffled(s, HeapSortInts(s, len), 0, len)
  {
    HeapifyHeaps(s, s, 1, len);
    if len > 0 { DrainSorts(s, HeapifyInts(s, 1, len), len - 1, len); }
  }

  /** A step of the fall compares the larger child with its parent, looks for the larger child once
      more, swaps, and looks for the larger child below. */
  lemma FallOnceIs(t: seq<int>, c: nat, k: nat, last: nat)
    ensures FallOnce(t, c, k, last) ==
      t + [k, c] + (if 2 * c + 2 <= last then [2 * c + 1, 2 * c + 2] else []) + [c, k, c, k]
        + (if 2 * k + 2 <= last then [2 * k + 1, 2 * k + 2] else [])
  {
  }

  /** One step of the fall costs 6 accesses, and 4 more if there is a right child. */
  lemma FallUnfolds(t: seq<int>, s: seq<int>, c: nat, last: nat) returns (before: seq<int>)
    requires c <= last < |s|
    requires var k := Bigger(s, c, last + 1); k <= last && s[k] > s[c]
    ensures |before| == |t| + 6 + if 2 * c + 2 <= last then 4 else 0
    ensures var k := Bigger(s, c, last + 1);
            FallTouches(ChildTouches(t, c, last), s, c, last) ==
              FallTouches(ChildTouches(before, k, last), Swapped(s, c, k), k, last)
  {
    var k := Bigger(s, c, last + 1);
    before := SwapTouches(ChildTouches(CompareTouches(ChildTouches(t, c, last), k, c), c, last), c, k);
  }

  lemma FallEnds(t: seq<int>, s: seq<int>, c: nat, last: nat)
    requires c <= last < |s|
    requires var k := Bigger(s, c, last + 1); k > last || s[k] <= s[c]
    ensures |FallTouches(ChildTouches(t, c, last), s, c, last)| ==
              |t| + (if 2 * c + 1 <= last then 2 else 0) + (if 2 * c + 2 <= last then 2 else 0)
  {
  }

  /** The places element c takes on its way down. */
  function FallPath(s: seq<int>, c: nat, last: nat): (path: seq<nat>)
    requires last < |s|
    ensures |path| > 0
    decreases if c <= last then last + 1 - c else 0
  {
    var k := Bigger(s, c, last + 1);
    if k <= last && s[k] > s[c] then [c] + FallPath(Swapped(s, c, k), k, last) else [c]
  }

  lemma {:induction false} FallMoves(s: seq<int>, c: nat, last: nat)
    requires c <= last < |s|
    ensures DownPath(s, FallPath(s, c, last), c, last) && Moved(s, FallInts(s, c, last), FallPath(s, c, last))
    decreases last - c
  {
    hide DownPath, Moved;
    var k := Bigger(s, c, last + 1);
    if k <= last && s[k] > s[c] {
      FallMoves(Swapped(s, c, k), k, last);
      DownPathMore(s, FallPath(Swapped(s, c, k), k, last), c, k, last);
      MovedMore(s, FallInts(s, c, last), c, FallPath(Swapped(s, c, k), k, last));
    } else {
      DownPathDone(s, c, last);
    }
  }

  lemma {:induction false} FallPathEnds(s: seq<int>, c: nat, last: nat)
    requires c <= last < |s|
    ensures var path := FallPath(s, c, last); path[|path| - 1] <= last && (|path| > 1 ==> 2 * c + 1 <= last)
    decreases last - c
  {
    var k := Bigger(s, c, last + 1);
    if k <= last && s[k] > s[c] {
      var rest := FallPath(Swapped(s, c, k), k, last);
      FallPathEnds(Swapped(s, c, k), k, last);
      assert ([c] + rest)[|rest|] == rest[|rest| - 1];
    }
  }

  /** What a fall along a path that ends at `place` costs, the first biggestChild included. */
  lemma {:induction false} FallCosts(t: seq<int>, s: seq<int>, c: nat, last: nat)
    requires c <= last < |s|
    ensures var swaps, place := |FallPath(s, c, last)| - 1, FallPath(s, c, last)[|FallPath(s, c, last)| - 1];
            |FallTouches(ChildTouches(t, c, last), s, c, last)| == |t| + 10 * swaps
              - (if swaps > 0 && place == last && last % 2 == 1 then 4 else 0)
              + (if 2 * place + 1 <= last then 2 else 0) + (if 2 * place + 2 <= last then 2 else 0)
    decreases last - c
  {
    hide FallTouches, ChildTouches;
    var k := Bigger(s, c, last + 1);
    if k <= last && s[k] > s[c] {
      var before := FallUnfolds(t, s, c, last);
      var rest := FallPath(Swapped(s, c, k), k, last);
      FallCosts(before, Swapped(s, c, k), k, last);
      FallPathEnds(Swapped(s, c, k), k, last);
      assert ([c] + rest)[|rest|] == rest[|rest| - 1];
    } else {
      FallEnds(t, s, c, last);
    }
  }

  lemma DownPathDone(s: seq<int>, c: nat, last: nat)
    requires c <= last < |s|
    requires var k := Bigger(s, c, last + 1); k > last || s[k] <= s[c]
    ensures DownPath(s, [c], c, last) && Moved(s, s, [c])
  {
  }

  lemma DownAtMore(s: seq<int>, rest: seq<nat>, c: nat, k: nat, last: nat, i: nat)
    requires c < k <= last < |s| && s[k] > s[c] && DownAt(Swapped(s, c, k), rest, k, last, i)
    requires rest[i] >= k
    ensures DownAt(s, [c] + rest, c, last, i + 1)
  {
    var path := [c] + rest;
    assert path[i + 1] == rest[i] && path[i + 2] == rest[i + 1];
  }

  lemma DownPathMore(s: seq<int>, rest: seq<nat>, c: nat, k: nat, last: nat)
    requires c <= last < |s| && k == Bigger(s, c, last + 1) && k <= last && s[k] > s[c]
    requires DownPath(Swapped(s, c, k), rest, k, last)
    ensures DownPath(s, [c] + rest, c, last)
    ensures |rest| > 0 && rest[0] == k > c && forall i :: 0 < i < |rest| ==> rest[i] != rest[0] && rest[i] != c
  {
    hide DownAt;
    var u, path := Swapped(s, c, k), [c] + rest;
    assert forall i :: 0 <= i < |rest| ==> path[i + 1] == rest[i];
    assert DownAt(s, path, c, last, 0) by { DownAtFirst(s, rest, c, k, last); }
    forall i | 0 <= i < |path| - 1 ensures DownAt(s, path, c, last, i) {
      if i > 0 { DownAtMore(s, rest, c, k, last, i - 1); }
    }
    DownLast(s, rest, c, k, last);
  }

  lemma DownLast(s: seq<int>, rest: seq<nat>, c: nat, k: nat, last: nat)
    requires c < k <= last < |s| && DownPath(Swapped(s, c, k), rest, k, last)
    ensures var place := ([c] + rest)[|rest|];
            forall j :: place < j <= last && (j - 1) / 2 == place ==> s[j] <= s[c]
  {
    hide DownAt;
    var u, place := Swapped(s, c, k), ([c] + rest)[|rest|];
    assert place == rest[|rest| - 1];
    forall j | place < j <= last && (j - 1) / 2 == place ensures s[j] <= s[c] {
      assert u[j] <= u[k];
    }
  }

  lemma DownAtFirst(s: seq<int>, rest: seq<nat>, c: nat, k: nat, last: nat)
    requires c <= last < |s| && k == Bigger(s, c, last + 1) && k <= last && s[k] > s[c]
    requires |rest| > 0 && rest[0] == k
    ensures DownAt(s, [c] + rest, c, last, 0)
  {
    assert ([c] + rest)[1] == rest[0];
  }

  /** If only the root was out of place in s, then in t the heap is restored, and what is sorted is
      left alone. */
  ghost predicate FallenIn(s: seq<int>, t: seq<int>, last: nat, len: nat) {
    FallingIn(s, s, 0, last, len) ==> HeapIn(s, t, last, len)
  }

  lemma FallenIsIn(s: seq<int>, last: nat, len: nat)
    requires last < |s|
    ensures FallenIn(s, FallInts(s, 0, last), last, len)
  {
    if FallingIn(s, s, 0, last, len) { FallHeaps(s, s, 0, last, len); }
  }

  /** The inner loop of heap_sort. */
  method SiftDown(m: Simulator, last: nat, ghost len: nat) returns (ghost path: seq<nat>)
    requires m.Valid() && last + 1 < len <= |m.contents|
    modifies m`numAccesses, m`numFaults, m`disk, m`resident, m`useMarker, m`history, m`touched, m`states, m`contents
    modifies m.valid, m.frame, m.marker, m.physical
    ensures m.Valid() && FallenIn(old(m.contents), m.contents, last, len)
    ensures m.contents == FallInts(old(m.contents), 0, last)
    ensures m.touched == FallTouches(ChildTouches(old(m.touched), 0, last), old(m.contents), 0, last)
    ensures DownPath(old(m.contents), path, 0, last) && Moved(old(m.contents), m.contents, path)
    ensures var swaps, place := |path| - 1, path[|path| - 1];
            |m.touched| == |old(m.touched)| + 10 * swaps
              - (if swaps > 0 && place == last && last % 2 == 1 then 4 else 0)
              + (if 2 * place + 1 <= last then 2 else 0) + (if 2 * place + 2 <= last then 2 else 0)
  {
    hide Simulator.Valid, DownPath, Moved, FallenIn, FallPath;
    FallenIsIn(m.contents, last, len);
    FallMoves(m.contents, 0, last);
    FallCosts(m.touched, m.contents, 0, last);
    path := FallPath(m.contents, 0, last);
    var curr: nat := 0;
    var child := BiggestChild(m, curr, last);
    while child <= last
      invariant m.Valid() && curr <= last < |m.contents| && child == Bigger(m.contents, curr, last + 1)
      invariant FallInts(old(m.contents), 0, last) == FallInts(m.contents, curr, last)
      invariant FallTouches(ChildTouches(old(m.touched), 0, last), old(m.contents), 0, last) ==
                FallTouches(m.touched, m.contents, curr, last)
      decreases last + 1 - curr
    {
      var larger := Exceeds(m, child * INT_SIZE, curr * INT_SIZE, child, curr);
      if !larger {
        return;
      }
      var again := BiggestChild(m, curr, last);
      Swap(m, curr * INT_SIZE, again * INT_SIZE, curr, again);
      curr := child;
      child := BiggestChild(m, curr, last);
    }
  }

  // What heap_sort costs, added up over the rises and the falls it consists of.

  function HeapifyCost(s: seq<int>, i: nat, n: nat): nat
    requires n <= |s|
    decreases n - i
  {
    if i >= n then 0
    else
      var path := RisePath(s, i);
      6 * (|path| - 1) + (if path[|path| - 1] > 0 then 2 else 0) + HeapifyCost(RiseInts(s, i), i + 1, n)
  }

  lemma {:induction false} HeapifyCosts(t: seq<int>, s: seq<int>, i: nat, n: nat)
    requires n <= |s|
    ensures |HeapifyTouches(t, s, i, n)| == |t| + HeapifyCost(s, i, n)
    decreases n - i
  {
    hide UpPath, Moved, RisePath, RiseTouches, RiseInts;
    if i < n {
      RiseCosts(t, s, i);
      HeapifyCosts(RiseTouches(t, s, i), RiseInts(s, i), i + 1, n);
    }
  }

  /** A fall of the root of the heap 0 .. last. */
  function FallCost(s: seq<int>, last: nat): int
    requires last < |s|
  {
    var swaps, place := |FallPath(s, 0, last)| - 1, FallPath(s, 0, last)[|FallPath(s, 0, last)| - 1];
    10 * swaps - (if swaps > 0 && place == last && last % 2 == 1 then 4 else 0)
      + (if 2 * place + 1 <= last then 2 else 0) + (if 2 * place + 2 <= last then 2 else 0)
  }

  function DrainCost(s: seq<int>, n: nat): int
    requires n < |s|
    decreases n
  {
    if n == 0 then 0
    else
      var before := Swapped(s, 0, n);
      4 + FallCost(before, n - 1) + DrainCost(FallInts(before, 0, n - 1), n - 1)
  }

  lemma {:induction false} DrainCosts(t: seq<int>, s: seq<int>, n: nat)
    requires n < |s|
    ensures |DrainTouches(t, s, n)| == |t| + DrainCost(s, n)
    decreases n
  {
    hide FallTouches, ChildTouches, FallInts, FallPath;
    if n > 0 {
      var before, moved := Swapped(s, 0, n), SwapTouches(t, 0, n);
      FallCosts(moved, before, 0, n - 1);
      DrainCosts(FallTouches(ChildTouches(moved, 0, n - 1), before, 0, n - 1), FallInts(before, 0, n - 1), n - 1);
    }
  }

  function HeapSortCost(s: seq<int>, len: nat): int
    requires len <= |s|
  {
    if len == 0 then 0 else HeapifyCost(s, 1, len) + DrainCost(HeapifyInts(s, 1, len), len - 1)
  }

  lemma HeapSortCosts(t: seq<int>, s: seq<int>, len: nat)
    requires len <= |s|
    ensures |HeapSortTouches(t, s, len)| == |t| + HeapSortCost(s, len)
  {
    if len > 0 {
      HeapifyCosts(t, s, 1, len);
      DrainCosts(HeapifyTouches(t, s, 1, len), HeapifyInts(s, 1, len), len - 1);
    }
  }

  ghost predicate Constant(s: seq<int>, n: nat, v: int) {
    n <= |s| && forall i :: 0 <= i < n ==> s[i] == v
  }

  lemma {:induction false} ConstantHeapify(s: seq<int>, i: nat, n: nat, v: int)
    requires Constant(s, n, v) && 1 <= i <= n
    ensures HeapifyInts(s, i, n) == s && HeapifyCost(s, i, n) == 2 * (n - i)
    decreases n - i
  {
    if i < n { ConstantHeapify(s, i + 1, n, v); }
  }

  lemma {:induction false} ConstantDrain(s: seq<int>, n: nat, v: int)
    requires Constant(s, n + 1, v)
    ensures DrainCost(s, n) == 4 * n + (if n >= 2 then 2 * (n - 1) else 0) + (if n >= 3 then 2 * (n - 2) else 0)
    decreases n
  {
    if n > 0 {
      assert Swapped(s, 0, n) == s;
      assert FallPath(s, 0, n - 1) == [0] && FallInts(s, 0, n - 1) == s;
      ConstantDrain(s, n - 1, v);
    }
  }

  /** On equal ints, where nothing ever rises or falls, heap_sort makes 10 n - 16 accesses. */
  lemma ConstantHeapSort(s: seq<int>, len: nat, v: int)
    requires Constant(s, len, v) && len >= 3
    ensures |HeapSortTouches([], s, len)| == 10 * len - 16
  {
    HeapSortCosts([], s, len);
    ConstantHeapify(s, 1, len, v);
    ConstantDrain(s, len - 1, v);
  }

  lemma FourHeapify()
    ensures HeapifyInts([1, 2, 3, 4], 1, 4) == [4, 3, 2, 1] && HeapifyCost([1, 2, 3, 4], 1, 4) == 24
  {
    var s1, s2, s3, s4 := [1, 2, 3, 4], [2, 1, 3, 4], [3, 1, 2, 4], [4, 3, 2, 1];
    assert Swapped(s1, 1, 0) == s2 && RisePath(s1, 1) == [1, 0] && RiseInts(s1, 1) == s2;
    assert Swapped(s2, 2, 0) == s3 && RisePath(s2, 2) == [2, 0] && RiseInts(s2, 2) == s3;
    var mid := [3, 4, 2, 1];
    assert Swapped(s3, 3, 1) == mid && Swapped(mid, 1, 0) == s4;
    assert RisePath(mid, 1) == [1, 0] && RiseInts(mid, 1) == s4;
    assert RisePath(s3, 3) == [3, 1, 0] && RiseInts(s3, 3) == s4;
    assert HeapifyInts(s4, 4, 4) == s4 && HeapifyCost(s4, 4, 4) == 0;
    assert HeapifyInts(s3, 3, 4) == s4 && HeapifyCost(s3, 3, 4) == 12;
    assert HeapifyInts(s2, 2, 4) == s4 && HeapifyCost(s2, 2, 4) == 18;
  }

  lemma FourDrain()
    ensures DrainCost([4, 3, 2, 1], 3) == 24
  {
  }

  /** On the ints 1 to 4 it makes 48. */
  lemma FourHeapSort()
    ensures |HeapSortTouches([], [1, 2, 3, 4], 4)| == 48
  {
    HeapSortCosts([], [1, 2, 3, 4], 4);
    FourHeapify();
    FourDrain();
  }

  /** heap_sort */
  method HeapSort(m: Simulator, len: nat)
    requires m.Valid() && len <= |m.contents|
    modifies m`numAccesses, m`numFaults, m`disk, m`resident, m`useMarker, m`history, m`touched, m`states, m`contents
    modifies m.valid, m.frame, m.marker, m.physical
    ensures m.Valid() && Ascending(m.contents, 0, len) && Shuffled(old(m.contents), m.contents, 0, len)
    ensures m.contents == HeapSortInts(old(m.contents), len)
    ensures m.touched == HeapSortTouches(old(m.touched), old(m.contents), len)
    ensures |m.touched| == |old(m.touched)| + HeapSortCost(old(m.contents), len)
  {
    hide Simulator.Valid, HeapSortCost;
    HeapSortCosts(m.touched, m.contents, len);
    Heapify(m, len);
    var n := len - 1;
    while n > 0
      invariant if len == 0 then n == -1 else 0 <= n < len
      invariant m.Valid() && len <= |m.contents|
      invariant HeapSortInts(old(m.contents), len) == if n >= 0 then DrainInts(m.contents, n) else m.contents
      invariant HeapSortTouches(old(m.touched), old(m.contents), len) ==
                if n >= 0 then DrainTouches(m.touched, m.contents, n) else m.touched
      decreases n
    {
      Swap(m, 0, n * INT_SIZE, 0, n);
      n := n - 1;
      var _ := SiftDown(m, n, len);
    }
    HeapSortSorts(old(m.contents), len);
  }

  // ---------- quick_sort ----------

  /** The element partition looks at besides the first and the last. It is not offset by start, so
      it may lie below the window. */
  function Middle(start: nat, end: nat): nat
    requires start <= end
  {
    (end - start) / 2
  }

  datatype Choice = First | Mid | Last

  /** Which of the three elements partition takes for the pivot. */
  function Pivot(v1: int, v2: int, v3: int): Choice {
    if (v2 >= v1 && v1 >= v3) || (v2 <= v1 && v1 <= v3) then First
    else if (v1 >= v2 && v2 >= v3) || (v1 <= v2 && v2 <= v3) then Mid
    else Last
  }

  /** The pivot is a median of the three. */
  lemma PivotIsMedian(v1: int, v2: int, v3: int)
    ensures var p := match Pivot(v1, v2, v3) case First => v1 case Mid => v2 case Last => v3;
            (v1 <= p || v2 <= p) && (v1 <= p || v3 <= p) && (v2 <= p || v3 <= p) &&
            (v1 >= p || v2 >= p) && (v1 >= p || v3 >= p) && (v2 >= p || v3 >= p)
  {
  }

  /** What partition looks at first stays where it is: the first element is a median of the three. */
  predicate FirstIsMedian(s: seq<int>, start: nat, end: nat)
    requires start <= end < |s|
  {
    var first, middle, last := s[start], s[(end - start) / 2], s[end];
    middle <= first <= last || last <= first <= middle
  }

  predicate MiddleIsMedian(s: seq<int>, start: nat, end: nat)
    requires start <= end < |s|
  {
    var first, middle, last := s[start], s[(end - start) / 2], s[end];
    first <= middle <= last || last <= middle <= first
  }

  /** partition reaches below its window: the middle element lies there and is chosen. */
  predicate Strays(s: seq<int>, start: nat, end: nat)
    requires start <= end < |s|
  {
    Middle(start, end) < start && Pivot(s[start], s[Middle(start, end)], s[end]) == Mid
  }

  /** Everything below the window is smaller than everything in it. */
  ghost predicate Bottom(s: seq<int>, start: nat, end: int) {
    end < |s| && forall i, j :: 0 <= i < start <= j <= end ==> Smaller(s, i, j)
  }

  predicate Smaller(s: seq<int>, i: nat, j: nat)
    requires i < |s| && j < |s|
  {
    s[i] < s[j]
  }

  /** It can happen: here the middle of the window 1 .. 2 is element 0. */
  lemma StraysExample()
    ensures Strays([2, 1, 3], 1, 2)
  {
  }

  /** But never above a bottom, which is where quick_sort works. */
  lemma BottomNeverStrays(s: seq<int>, start: nat, end: nat)
    requires start < end < |s| && Bottom(s, start, end)
    ensures !Strays(s, start, end)
  {
    if Middle(start, end) < start {
      assert Smaller(s, Middle(start, end), start) && Smaller(s, Middle(start, end), end);
    }
  }

  /** start .. i before the pivot at i, and j .. end after it, are settled. */
  ghost predicate Dividing(s: seq<int>, start: nat, i: nat, j: nat, end: nat) {
    && start <= i <= j <= end < |s|
    && (forall k :: start <= k < i ==> s[k] <= s[i])
    && (forall k :: j < k <= end ==> s[k] > s[i])
  }

  lemma DivideLow(s: seq<int>, start: nat, i: nat, j: nat, end: nat)
    requires Dividing(s, start, i, j, end) && i < j && s[i + 1] <= s[i]
    ensures Dividing(Swapped(s, i + 1, i), start, i + 1, j, end)
    ensures Shuffled(s, Swapped(s, i + 1, i), start, end + 1)
  {
    SwapShuffles(s, i + 1, i, start, end + 1);
  }

  lemma DivideHigh(s: seq<int>, start: nat, i: nat, j: nat, end: nat)
    requires Dividing(s, start, i, j, end) && i < j && s[i + 1] > s[i]
    ensures Dividing(Swapped(s, i + 1, j), start, i, j - 1, end)
    ensures Shuffled(s, Swapped(s, i + 1, j), start, end + 1)
  {
    SwapShuffles(s, i + 1, j, start, end + 1);
  }

  /** The element that trades places with the one at start. */
  function PivotAt(s: seq<int>, start: nat, end: nat): (k: nat)
    requires start <= end < |s|
    ensures k <= end
  {
    match Pivot(s[start], s[Middle(start, end)], s[end])
    case First => start
    case Mid => Middle(start, end)
    case Last => end
  }

  /** What choosing the pivot does: it comes to start. */
  function Chosen(s: seq<int>, start: nat, end: nat): seq<int>
    requires start <= end < |s|
  {
    Swapped(s, start, PivotAt(s, start, end))
  }

  lemma StrayChanges(s: seq<int>, t: seq<int>, start: nat, end: nat)
    requires start < end < |s| && t == Chosen(s, start, end) && Strays(s, start, end)
    ensures Shuffled(s, t, 0, end + 1) && t[..start] != s[..start]
  {
    var mid := Middle(start, end);
    SwapShuffles(s, start, mid, 0, end + 1);
    assert t[..start][mid] == s[start] && s[..start][mid] == s[mid];
  }

  lemma OtherwiseStays(s: seq<int>, t: seq<int>, start: nat, end: nat)
    requires start < end < |s| && t == Chosen(s, start, end) && !Strays(s, start, end)
    ensures Shuffled(s, t, start, end + 1)
  {
    SwapShuffles(s, start, PivotAt(s, start, end), start, end + 1);
  }

  /** Something below the window changes exactly when partition strays. */
  lemma ChosenIs(s: seq<int>, t: seq<int>, start: nat, end: nat)
    requires start < end < |s| && t == Chosen(s, start, end)
    ensures Shuffled(s, t, 0, end + 1)
    ensures !Strays(s, start, end) ==> Shuffled(s, t, start, end + 1)
    ensures t[..start] == s[..start] <==> !Strays(s, start, end)
    ensures var first, middle, last := s[start], s[(end - start) / 2], s[end];
            t == if middle <= first <= last || last <= first <= middle then s
                 else if first <= middle <= last || last <= middle <= first
                   then s[start := middle][(end - start) / 2 := first]
                 else s[start := last][end := first]
  {
    if Strays(s, start, end) {
      StrayChanges(s, t, start, end);
    } else {
      OtherwiseStays(s, t, start, end);
      ShuffledEnds(s, t, start, end + 1);
      ShuffledWiden(s, t, start, end + 1, 0, end + 1);
    }
  }

  /** The loads at the beginning of partition. */
  method LookAtThree(m: Simulator, start: nat, end: nat) returns (v1: int, v2: int, v3: int)
    requires m.Valid() && start < end < |m.contents|
    modifies m`numAccesses, m`numFaults, m`disk, m`resident, m`useMarker, m`history, m`touched, m`states
    modifies m.valid, m.frame, m.marker, m.physical
    ensures m.Valid() && v1 == m.contents[start] && v2 == m.contents[Middle(start, end)] && v3 == m.contents[end]
    ensures m.touched == CompareTouches(old(m.touched), start, Middle(start, end)) + [end]
    ensures m.touched == old(m.touched) + [start, (end - start) / 2, end]
  {
    hide Simulator.Valid;
    v1 := m.Load(start * INT_SIZE, start);
    v2 := m.Load((end - start) / 2 * INT_SIZE, Middle(start, end));
    v3 := m.Load(end * INT_SIZE, end);
  }

  function ChooseTouches(t: seq<int>, s: seq<int>, start: nat, end: nat): seq<int>
    requires start <= end < |s|
  {
    var mid := Middle(start, end);
    var looked := CompareTouches(t, start, mid) + [end];
    match Pivot(s[start], s[mid], s[end])
    case First => looked
    case Mid => SwapTouches(looked, start, mid)
    case Last => SwapTouches(looked, start, end)
  }

  lemma ChooseCosts(t: seq<int>, s: seq<int>, start: nat, end: nat)
    requires start <= end < |s|
    ensures |ChooseTouches(t, s, start, end)| == |t| + if FirstIsMedian(s, start, end) then 3 else 7
  {
  }

  /** The first half of partition. */
  method ChoosePivot(m: Simulator, start: nat, end: nat)
    requires m.Valid() && start < end < |m.contents|
    modifies m`numAccesses, m`numFaults, m`disk, m`resident, m`useMarker, m`history, m`touched, m`states, m`contents
    modifies m.valid, m.frame, m.marker, m.physical
    ensures m.Valid() && m.contents == Chosen(old(m.contents), start, end)
    ensures m.touched == ChooseTouches(old(m.touched), old(m.contents), start, end)
    ensures var s := old(m.contents);
            var first, middle, last := s[start], s[(end - start) / 2], s[end];
            m.contents == if middle <= first <= last || last <= first <= middle then s
                          else if first <= middle <= last || last <= middle <= first
                            then s[start := middle][(end - start) / 2 := first]
                          else s[start := last][end := first]
    ensures |m.touched| == |old(m.touched)| + if FirstIsMedian(old(m.contents), start, end) then 3 else 7
  {
    hide Simulator.Valid;
    ChooseCosts(m.touched, m.contents, start, end);
    var v1, v2, v3 := LookAtThree(m, start, end);
    if (v2 >= v1 && v1 >= v3) || (v2 <= v1 && v1 <= v3) {
      assert Swapped(m.contents, start, start) == m.contents;
    } else if (v1 >= v2 && v2 >= v3) || (v1 <= v2 && v2 <= v3) {
      Swap(m, start * INT_SIZE, (end - start) / 2 * INT_SIZE, start, Middle(start, end));
    } else {
      Swap(m, start * INT_SIZE, end * INT_SIZE, start, end);
    }
  }

  function NextTouches(t: seq<int>, i: nat): seq<int> {
    CompareTouches(CompareTouches(t, i + 1, i), i + 1, i)
  }

  /** load((i + 1)) <= load(i), after the two loads whose results are not used. */
  method NextIsLow(m: Simulator, i: nat) returns (low: bool)
    requires m.Valid() && i + 1 < |m.contents|
    modifies m`numAccesses, m`numFaults, m`disk, m`resident, m`useMarker, m`history, m`touched, m`states
    modifies m.valid, m.frame, m.marker, m.physical
    ensures m.Valid() && low == (m.contents[i + 1] <= m.contents[i])
    ensures m.touched == NextTouches(old(m.touched), i) == old(m.touched) + [i + 1, i, i + 1, i]
  {
    hide Simulator.Valid;
    var _ := m.Load((i + 1) * INT_SIZE, i + 1);
    var _ := m.Load(i * INT_SIZE, i);
    var larger := Exceeds(m, (i + 1) * INT_SIZE, i * INT_SIZE, i + 1, i);
    return !larger;
  }

  /** The loop of partition: each element after the pivot moves before it, or to the far end. */
  function DivideInts(s: seq<int>, i: nat, j: nat): (t: seq<int>)
    requires i <= j < |s|
    ensures |t| == |s|
    decreases j - i
  {
    if i == j then s
    else if s[i + 1] <= s[i] then DivideInts(Swapped(s, i + 1, i), i + 1, j)
    else DivideInts(Swapped(s, i + 1, j), i, j - 1)
  }

  function DivideTouches(t: seq<int>, s: seq<int>, i: nat, j: nat): seq<int>
    requires i <= j < |s|
    decreases j - i
  {
    if i == j then t
    else if s[i + 1] <= s[i] then
      DivideTouches(SwapTouches(NextTouches(t, i), i + 1, i), Swapped(s, i + 1, i), i + 1, j)
    else DivideTouches(SwapTouches(NextTouches(t, i), i + 1, j), Swapped(s, i + 1, j), i, j - 1)
  }

  /** Where the loop leaves the pivot. */
  function DivideAt(s: seq<int>, i: nat, j: nat): (k: nat)
    requires i <= j < |s|
    ensures i <= k <= j
    decreases j - i
  {
    if i == j then i
    else if s[i + 1] <= s[i] then DivideAt(Swapped(s, i + 1, i), i + 1, j)
    else DivideAt(Swapped(s, i + 1, j), i, j - 1)
  }

  lemma {:induction false} DivideDivides(from: seq<int>, s: seq<int>, start: nat, i: nat, j: nat, end: nat)
    requires Shuffled(from, s, start, end + 1) && Dividing(s, start, i, j, end)
    ensures var t, k := DivideInts(s, i, j), DivideAt(s, i, j);
            Dividing(t, start, k, k, end) && Shuffled(from, t, start, end + 1) && t[k] == s[i]
    decreases j - i
  {
    if i < j {
      if s[i + 1] <= s[i] {
        DivideLow(s, start, i, j, end);
        ShuffledTrans(from, s, Swapped(s, i + 1, i), start, end + 1);
        DivideDivides(from, Swapped(s, i + 1, i), start, i + 1, j, end);
      } else {
        DivideHigh(s, start, i, j, end);
        ShuffledTrans(from, s, Swapped(s, i + 1, j), start, end + 1);
        DivideDivides(from, Swapped(s, i + 1, j), start, i, j - 1, end);
      }
    }
  }

  /** Four accesses to look at the next element, four to swap it. */
  lemma {:induction false} DivideCosts(t: seq<int>, s: seq<int>, i: nat, j: nat)
    requires i <= j < |s|
    ensures |DivideTouches(t, s, i, j)| == |t| + 8 * (j - i)
    decreases j - i
  {
    if i < j {
      if s[i + 1] <= s[i] {
        DivideCosts(SwapTouches(NextTouches(t, i), i + 1, i), Swapped(s, i + 1, i), i + 1, j);
      } else {
        DivideCosts(SwapTouches(NextTouches(t, i), i + 1, j), Swapped(s, i + 1, j), i, j - 1);
      }
    }
  }

  /** The second half: everything up to the pivot goes before it, the rest after it. */
  method Divide(m: Simulator, start: nat, end: nat) returns (i: nat)
    requires m.Valid() && start < end < |m.contents|
    modifies m`numAccesses, m`numFaults, m`disk, m`resident, m`useMarker, m`history, m`touched, m`states, m`contents
    modifies m.valid, m.frame, m.marker, m.physical
    ensures m.Valid() && Dividing(m.contents, start, i, i, end)
    ensures Shuffled(old(m.contents), m.contents, start, end + 1) && m.contents[i] == old(m.contents)[start]
    ensures m.contents == DivideInts(old(m.contents), start, end) && i == DivideAt(old(m.contents), start, end)
    ensures m.touched == DivideTouches(old(m.touched), old(m.contents), start, end)
    ensures |m.touched| == |old(m.touched)| + 8 * (end - start)
  {
    hide Simulator.Valid;
    DivideCosts(m.touched, m.contents, start, end);
    i := start;
    var j: nat := end;
    while i < j
      invariant m.Valid() && i <= j < |m.contents|
      invariant DivideInts(old(m.contents), start, end) == DivideInts(m.contents, i, j)
      invariant DivideTouches(old(m.touched), old(m.contents), start, end) == DivideTouches(m.touched, m.contents, i, j)
      invariant DivideAt(old(m.contents), start, end) == DivideAt(m.contents, i, j)
      decreases j - i
    {
      var low := NextIsLow(m, i);
      if low {
        Swap(m, (i + 1) * INT_SIZE, i * INT_SIZE, i + 1, i);
        i := i + 1;
      } else {
        Swap(m, (i + 1) * INT_SIZE, j * INT_SIZE, i + 1, j);
        j := j - 1;
      }
    }
    DivideDivides(old(m.contents), old(m.contents), start, start, end, end);
  }

  function PartitionInts(s: seq<int>, start: nat, end: nat): (t: seq<int>)
    requires start <= end < |s|
    ensures |t| == |s|
  {
    DivideInts(Chosen(s, start, end), start, end)
  }

  function PartitionAt(s: seq<int>, start: nat, end: nat): (k: nat)
    requires start <= end < |s|
    ensures start <= k <= end
  {
    DivideAt(Chosen(s, start, end), start, end)
  }

  function PartitionTouches(t: seq<int>, s: seq<int>, start: nat, end: nat): seq<int>
    requires start <= end < |s|
  {
    DivideTouches(ChooseTouches(t, s, start, end), Chosen(s, start, end), start, end)
  }

  /** x is a median of a, b and c. */
  predicate Median(x: int, a: int, b: int, c: int) {
    && (x == a || x == b || x == c)
    && (x <= a || x <= b) && (x <= a || x <= c) && (x <= b || x <= c)
    && (a <= x || b <= x) && (a <= x || c <= x) && (b <= x || c <= x)
  }

  lemma PartitionPivots(s: seq<int>, start: nat, end: nat)
    requires start < end < |s|
    ensures var t, i := PartitionInts(s, start, end), PartitionAt(s, start, end);
            && Median(t[i], s[start], s[(end - start) / 2], s[end])
            && (t[..start] == s[..start] <==>
                  !(end < 3 * start && MiddleIsMedian(s, start, end) && !FirstIsMedian(s, start, end)))
  {
    PartitionDivides(s, start, end);
  }

  lemma PartitionCosts(t: seq<int>, s: seq<int>, start: nat, end: nat)
    requires start <= end < |s|
    ensures |PartitionTouches(t, s, start, end)| ==
              |t| + 8 * (end - start) + if FirstIsMedian(s, start, end) then 3 else 7
  {
    hide ChooseTouches, DivideTouches, FirstIsMedian;
    ChooseCosts(t, s, start, end);
    DivideCosts(ChooseTouches(t, s, start, end), Chosen(s, start, end), start, end);
  }

  /** partition: the window is divided at the returned index, around a median of three elements,
      and nothing below it changes unless partition strays. */
  method Partition(m: Simulator, start: nat, end: nat) returns (i: nat)
    requires m.Valid() && start < end < |m.contents|
    modifies m`numAccesses, m`numFaults, m`disk, m`resident, m`useMarker, m`history, m`touched, m`states, m`contents
    modifies m.valid, m.frame, m.marker, m.physical
    ensures m.Valid() && Partitioned(old(m.contents), m.contents, start, i, end)
    ensures m.contents == PartitionInts(old(m.contents), start, end)
    ensures m.touched == PartitionTouches(old(m.touched), old(m.contents), start, end)
    ensures i == PartitionAt(old(m.contents), start, end)
    ensures Median(m.contents[i], old(m.contents)[start], old(m.contents)[(end - start) / 2], old(m.contents)[end])
    ensures m.contents[..start] == old(m.contents)[..start] <==>
            !(end < 3 * start && MiddleIsMedian(old(m.contents), start, end)
              && !FirstIsMedian(old(m.contents), start, end))
    ensures |m.touched| ==
      |old(m.touched)| + 8 * (end - start) + if FirstIsMedian(old(m.contents), start, end) then 3 else 7
  {
    PartitionPivots(m.contents, start, end);
    hide Simulator.Valid, Partitioned, Median, MiddleIsMedian, FirstIsMedian;
    PartitionCosts(m.touched, m.contents, start, end);
    PartitionDivides(m.contents, start, end);
    ChoosePivot(m, start, end);
    i := Divide(m, start, end);
  }

  /** Shuffling the window after choosing the pivot adds no change below it. */
  lemma DividedAfter(s: seq<int>, t: seq<int>, v: seq<int>, start: nat, end: nat, strays: bool)
    requires start < end < |s| && Shuffled(s, t, 0, end + 1) && Shuffled(t, v, start, end + 1)
    requires !strays ==> Shuffled(s, t, start, end + 1)
    requires t[..start] == s[..start] <==> !strays
    ensures Shuffled(s, v, 0, end + 1)
    ensures !strays ==> Shuffled(s, v, start, end + 1)
    ensures v[..start] == s[..start] <==> !strays
  {
    ShuffledEnds(t, v, start, end + 1);
    ShuffledWiden(t, v, start, end + 1, 0, end + 1);
    ShuffledTrans(s, t, v, 0, end + 1);
    if !strays { ShuffledTrans(s, t, v, start, end + 1); }
  }

  /** Shuffling a window keeps it above its bottom. */
  lemma BottomStays(s: seq<int>, t: seq<int>, start: nat, end: int)
    requires start <= end + 1 <= |s| && Bottom(s, start, end) && Shuffled(s, t, start, end + 1)
    ensures Bottom(t, start, end)
  {
    forall i, j | 0 <= i < start <= j <= end ensures Smaller(t, i, j) {
      var j' := ShuffledHas(s, t, start, end + 1, j);
      assert Smaller(s, i, j');
      assert t[i] == t[..start][i] == s[..start][i] == s[i];
    }
  }

  /** Once the left part is sorted, everything up to the pivot is a bottom for the right part. */
  lemma BottomOfRight(s: seq<int>, t: seq<int>, start: nat, mid: nat, end: nat)
    requires Bottom(s, start, end) && Dividing(s, start, mid, mid, end) && Shuffled(s, t, start, mid)
    ensures Bottom(t, mid + 1, end) && t[mid] == s[mid]
    ensures forall k :: start <= k < mid ==> t[k] <= t[mid]
  {
    assert forall k :: mid <= k < |s| ==> t[k] == t[mid..][k - mid] == s[mid..][k - mid] == s[k];
    assert forall k :: 0 <= k < start ==> t[k] == t[..start][k] == s[..start][k] == s[k];
    forall k | start <= k < mid ensures t[k] <= t[mid] {
      var k' := ShuffledHas(s, t, start, mid, k);
    }
    forall i, j | 0 <= i < mid + 1 <= j <= end ensures Smaller(t, i, j) {
      assert i < start ==> Smaller(s, i, j);
    }
  }

  /** Left part, pivot and right part in order. */
  lemma SortedTogether(s: seq<int>, t: seq<int>, start: nat, mid: nat, end: nat)
    requires start <= mid <= end < |s| && Ascending(s, start, mid) && Shuffled(s, t, mid + 1, end + 1)
    requires Ascending(t, mid + 1, end + 1) && Bottom(s, mid + 1, end)
    requires forall k :: start <= k < mid ==> s[k] <= s[mid]
    ensures Ascending(t, start, end + 1)
  {
    BottomStays(s, t, mid + 1, end);
    assert forall k :: 0 <= k <= mid ==> t[k] == t[..mid + 1][k] == s[..mid + 1][k] == s[k];
    forall i, j | start <= i < j < end + 1 ensures AtMost(t, i, j) {
      if j < mid { assert AtMost(s, i, j); } else if i > mid { assert AtMost(t, i, j); }
      if i <= mid < j { assert Smaller(t, i, j); }
    }
  }

  lemma QuickShuffles(s: seq<int>, t: seq<int>, u: seq<int>, v: seq<int>, start: nat, mid: nat, end: nat)
    requires start <= mid <= end < |s|
    requires Shuffled(s, t, 0, end + 1) && Shuffled(t, u, 0, mid) && Shuffled(u, v, 0, end + 1)
    ensures Shuffled(s, v, 0, end + 1)
  {
    ShuffledWiden(t, u, 0, mid, 0, end + 1);
    ShuffledTrans(s, t, u, 0, end + 1);
    ShuffledTrans(s, u, v, 0, end + 1);
  }

  lemma QuickSorts(s: seq<int>, t: seq<int>, u: seq<int>, v: seq<int>, start: nat, mid: nat, end: nat)
    requires start < end < |s| && Bottom(s, start, end)
    requires Shuffled(s, t, start, end + 1) && Dividing(t, start, mid, mid, end)
    requires Bottom(t, start, mid - 1) ==> Ascending(u, start, mid) && Shuffled(t, u, start, mid)
    requires Bottom(u, mid + 1, end) ==> Ascending(v, mid + 1, end + 1) && Shuffled(u, v, mid + 1, end + 1)
    ensures Ascending(v, start, end + 1) && Shuffled(s, v, start, end + 1)
  {
    hide Outline;
    BottomStays(s, t, start, end);
    BottomOfRight(t, u, start, mid, end);
    SortedTogether(u, v, start, mid, end);
    ShuffledWiden(t, u, start, mid, start, end + 1);
    ShuffledWiden(u, v, mid + 1, end + 1, start, end + 1);
    ShuffledTrans(s, t, u, start, end + 1);
    ShuffledTrans(s, u, v, start, end + 1);
  }

  function QuickInts(s: seq<int>, start: nat, end: int): (t: seq<int>)
    requires -1 <= end < |s|
    ensures |t| == |s|
    decreases end + 1 - start
  {
    if start >= end then s
    else
      var middle: int := PartitionAt(s, start, end);
      QuickInts(QuickInts(PartitionInts(s, start, end), start, middle - 1), middle + 1, end)
  }

  function QuickTouches(t: seq<int>, s: seq<int>, start: nat, end: int): seq<int>
    requires -1 <= end < |s|
    decreases end + 1 - start
  {
    if start >= end then t
    else
      var middle: int := PartitionAt(s, start, end);
      var parts := PartitionInts(s, start, end);
      var left := QuickTouches(PartitionTouches(t, s, start, end), parts, start, middle - 1);
      QuickTouches(left, QuickInts(parts, start, middle - 1), middle + 1, end)
  }

  /** t is s divided at i around the chosen pivot, with nothing changed but the order of the window;
      only if partition strays does anything below the window change. */
  ghost predicate Partitioned(s: seq<int>, t: seq<int>, start: nat, i: nat, end: nat) {
    && start < end < |s| && Dividing(t, start, i, i, end) && t[i] == Chosen(s, start, end)[start]
    && Shuffled(s, t, 0, end + 1)
    && (!Strays(s, start, end) ==> Shuffled(s, t, start, end + 1))
    && (t[..start] == s[..start] <==> !Strays(s, start, end))
  }

  lemma PartitionDivides(s: seq<int>, start: nat, end: nat)
    requires start < end < |s|
    ensures Partitioned(s, PartitionInts(s, start, end), start, PartitionAt(s, start, end), end)
  {
    var c := Chosen(s, start, end);
    ChosenIs(s, c, start, end);
    DivideDivides(c, c, start, start, end, end);
    DividedAfter(s, c, PartitionInts(s, start, end), start, end, Strays(s, start, end));
  }

  /** t is s with what lies at or below end rearranged, and above a bottom, with just the window
      start .. end sorted. */
  ghost predicate QuickSorted(s: seq<int>, t: seq<int>, start: nat, end: int) {
    && -1 <= end < |s| && Shuffled(s, t, 0, end + 1)
    && (Bottom(s, start, end) && start <= end + 1 ==>
          Ascending(t, start, end + 1) && Shuffled(s, t, start, end + 1))
  }

  /** Partitioning, then two recursive calls. */
  lemma QuickJoins(s: seq<int>, q: seq<int>, u: seq<int>, v: seq<int>, start: nat, mid: nat, end: nat)
    requires Partitioned(s, q, start, mid, end)
    requires QuickSorted(q, u, start, mid - 1) && QuickSorted(u, v, mid + 1, end)
    ensures QuickSorted(s, v, start, end)
  {
    QuickShuffles(s, q, u, v, start, mid, end);
    if Bottom(s, start, end) {
      BottomNeverStrays(s, start, end);
      QuickSorts(s, q, u, v, start, mid, end);
    }
  }

  lemma QuickBase(s: seq<int>, start: nat, end: int)
    requires -1 <= end < |s| && start >= end
    ensures QuickSorted(s, s, start, end)
  {
  }

  lemma {:induction false} QuickIntsSorted(s: seq<int>, start: nat, end: int)
    requires -1 <= end < |s|
    ensures QuickSorted(s, QuickInts(s, start, end), start, end)
    decreases end + 1 - start
  {
    hide PartitionInts, PartitionAt, QuickSorted, Partitioned;
    if start >= end {
      QuickBase(s, start, end);
    } else {
      var q, mid: int := PartitionInts(s, start, end), PartitionAt(s, start, end);
      var u := QuickInts(q, start, mid - 1);
      PartitionDivides(s, start, end);
      QuickIntsSorted(q, start, mid - 1);
      QuickIntsSorted(u, mid + 1, end);
      QuickJoins(s, q, u, QuickInts(u, mid + 1, end), start, mid, end);
    }
  }

  /** What quick_sort costs: 8 accesses for each int of a window but one, and 3 or 7 to choose the
      pivot, for each window divided. */
  function QuickCost(s: seq<int>, start: nat, end: int): nat
    requires -1 <= end < |s|
    decreases end + 1 - start
  {
    if start >= end then 0
    else
      var middle: int := PartitionAt(s, start, end);
      var parts := PartitionInts(s, start, end);
      8 * (end - start) + (if FirstIsMedian(s, start, end) then 3 else 7) + QuickCost(parts, start, middle - 1)
        + QuickCost(QuickInts(parts, start, middle - 1), middle + 1, end)
  }

  lemma {:induction false} QuickCosts(t: seq<int>, s: seq<int>, start: nat, end: int)
    requires -1 <= end < |s|
    ensures |QuickTouches(t, s, start, end)| == |t| + QuickCost(s, start, end)
    decreases end + 1 - start
  {
    hide PartitionInts, PartitionAt, PartitionTouches, FirstIsMedian;
    if start < end {
      var q, mid: int := PartitionInts(s, start, end), PartitionAt(s, start, end);
      var t' := PartitionTouches(t, s, start, end);
      PartitionCosts(t, s, start, end);
      QuickCosts(t', q, start, mid - 1);
      QuickCosts(QuickTouches(t', q, start, mid - 1), QuickInts(q, start, mid - 1), mid + 1, end);
    }
  }

  /** What dividing windows of n, n - 1, and so on to 2 ints costs, with c for each pivot. */
  function Shrinking(n: nat, c: nat): nat {
    if n <= 1 then 0 else Shrinking(n - 1, c) + 8 * (n - 1) + c
  }

  lemma {:induction false} ShrinkingIs(n: nat, c: nat)
    requires n >= 1
    ensures Shrinking(n, c) == (n - 1) * (4 * n + c)
  {
    if n > 1 {
      ShrinkingIs(n - 1, c);
      assert (n - 1) * (4 * n + c) == (n - 2) * (4 * (n - 1) + c) + 8 * (n - 1) + c;
    }
  }

  /** Two parts never cost more than one as large as both. */
  lemma {:induction false} ShrinkingJoins(a: nat, b: nat, n: nat, c: nat)
    requires a + b <= n
    ensures Shrinking(a, c) + Shrinking(b, c) <= Shrinking(n, c)
    decreases n
  {
    if a > 1 {
      ShrinkingJoins(a - 1, b, n - 1, c);
    } else if b > 1 {
      ShrinkingJoins(a, b - 1, n - 1, c);
    }
  }

  /** However it divides, quick_sort of n ints makes at most (n - 1) (4 n + 7) accesses. */
  lemma QuickAtMost(s: seq<int>, start: nat, end: int, n: nat)
    requires -1 <= end < |s| && n >= 1 && end + 1 - start <= n
    ensures |QuickTouches([], s, start, end)| <= (n - 1) * (4 * n + 7)
  {
    hide QuickTouches, QuickCost;
    QuickCosts([], s, start, end);
    QuickCostAtMost(s, start, end, n);
    ShrinkingIs(n, 7);
  }

  lemma {:induction false} QuickCostAtMost(s: seq<int>, start: nat, end: int, n: nat)
    requires -1 <= end < |s| && end + 1 - start <= n
    ensures QuickCost(s, start, end) <= Shrinking(n, 7)
    decreases end + 1 - start
  {
    hide PartitionInts, PartitionAt, FirstIsMedian;
    if start < end {
      var q, mid: int := PartitionInts(s, start, end), PartitionAt(s, start, end);
      QuickCostAtMost(q, start, mid - 1, mid - start);
      QuickCostAtMost(QuickInts(q, start, mid - 1), mid + 1, end, end - mid);
      ShrinkingJoins(mid - start, end - mid, n - 1, 7);
    }
  }

  lemma {:induction false} ConstantDivide(s: seq<int>, i: nat, j: nat, n: nat, v: int)
    requires Constant(s, n, v) && i <= j < n
    ensures DivideInts(s, i, j) == s && DivideAt(s, i, j) == j
    decreases j - i
  {
    if i < j {
      assert Swapped(s, i + 1, i) == s;
      ConstantDivide(s, i + 1, j, n, v);
    }
  }

  /** On equal ints, where every pivot ends up last, it makes (n - 1) (4 n + 3). */
  lemma ConstantQuickSort(s: seq<int>, len: nat, v: int)
    requires Constant(s, len, v) && len >= 1
    ensures |QuickTouches([], s, 0, len - 1)| == (len - 1) * (4 * len + 3)
  {
    hide QuickTouches, QuickCost;
    QuickCosts([], s, 0, len - 1);
    ConstantQuick(s, len, v);
    ShrinkingIs(len, 3);
  }

  /** What quick_sort touches of three ints, in order, the first of which belongs in the middle. */
  lemma ThreeQuickSort(s: seq<int>)
    requires |s| == 3 && s[1] <= s[0] < s[2]
    ensures QuickTouches([], s, 0, 2) == [0, 1, 2] + [1, 0, 1, 0, 1, 0, 1, 0] + [2, 1, 2, 1, 2, 2, 2, 2]
    ensures QuickInts(s, 0, 2) == [s[1], s[0], s[2]]
  {
    hide PartitionInts, PartitionAt, PartitionTouches;
    ThreePartition(s);
  }

  lemma ThreePartition(s: seq<int>)
    requires |s| == 3 && s[1] <= s[0] < s[2]
    ensures PartitionTouches([], s, 0, 2) == [0, 1, 2] + [1, 0, 1, 0, 1, 0, 1, 0] + [2, 1, 2, 1, 2, 2, 2, 2]
    ensures PartitionInts(s, 0, 2) == [s[1], s[0], s[2]] && PartitionAt(s, 0, 2) == 1
  {
    assert Chosen(s, 0, 2) == s && ChooseTouches([], s, 0, 2) == [0, 1, 2];
    hide Chosen, ChooseTouches;
    ThreeDivide([0, 1, 2], s);
  }

  lemma ThreeDivide(t: seq<int>, s: seq<int>)
    requires |s| == 3 && s[1] <= s[0] < s[2]
    ensures DivideTouches(t, s, 0, 2) == t + [1, 0, 1, 0, 1, 0, 1, 0] + [2, 1, 2, 1, 2, 2, 2, 2]
    ensures DivideInts(s, 0, 2) == [s[1], s[0], s[2]] && DivideAt(s, 0, 2) == 1
  {
    var u, t' := [s[1], s[0], s[2]], SwapTouches(NextTouches(t, 0), 1, 0);
    assert Swapped(s, 1, 0) == u && Swapped(u, 2, 2) == u;
    DivideStep(t, s, 0, 2);
    DivideStep(t', u, 1, 2);
    hide DivideInts, DivideAt, DivideTouches;
    DivideStop(SwapTouches(NextTouches(t', 1), 2, 2), u, 1);
  }

  lemma DivideStep(t: seq<int>, s: seq<int>, i: nat, j: nat)
    requires i < j < |s|
    ensures var low := s[i + 1] <= s[i];
            var u, i', j' := Swapped(s, i + 1, if low then i else j), if low then i + 1 else i, if low then j else j - 1;
            && DivideInts(s, i, j) == DivideInts(u, i', j') && DivideAt(s, i, j) == DivideAt(u, i', j')
            && DivideTouches(t, s, i, j) ==
                 DivideTouches(SwapTouches(NextTouches(t, i), i + 1, if low then i else j), u, i', j')
  {
  }

  lemma DivideStop(t: seq<int>, s: seq<int>, i: nat)
    requires i < |s|
    ensures DivideInts(s, i, i) == s && DivideAt(s, i, i) == i && DivideTouches(t, s, i, i) == t
  {
  }

  lemma ConstantPartition(s: seq<int>, len: nat, v: int)
    requires Constant(s, len, v) && len > 1
    ensures PartitionInts(s, 0, len - 1) == s && PartitionAt(s, 0, len - 1) == len - 1
    ensures FirstIsMedian(s, 0, len - 1)
  {
    assert Chosen(s, 0, len - 1) == s;
    ConstantDivide(s, 0, len - 1, len, v);
  }

  lemma {:induction false} ConstantQuick(s: seq<int>, len: nat, v: int)
    requires Constant(s, len, v) && len >= 1
    ensures QuickInts(s, 0, len - 1) == s && QuickCost(s, 0, len - 1) == Shrinking(len, 3)
    decreases len
  {
    if len > 1 {
      ConstantPartition(s, len, v);
      ConstantQuick(s, len - 1, v);
      hide PartitionInts, PartitionAt, FirstIsMedian;
    }
  }

  lemma WholeSorted(s: seq<int>, t: seq<int>, len: nat)
    requires QuickSorted(s, t, 0, len - 1)
    ensures Ascending(t, 0, len) && Shuffled(s, t, 0, len)
  {
    assert Bottom(s, 0, len - 1);
  }

  /** quick_sort: it rearranges what lies at or below end, and above a bottom, as when it is called
      on a whole array, it sorts its window and changes nothing else. */
  method QuickSort(m: Simulator, start: nat, end: int)
    requires m.Valid() && -1 <= end < |m.contents|
    modifies m`numAccesses, m`numFaults, m`disk, m`resident, m`useMarker, m`history, m`touched, m`states, m`contents
    modifies m.valid, m.frame, m.marker, m.physical
    ensures m.Valid() && QuickSorted(old(m.contents), m.contents, start, end)
    ensures m.contents == QuickInts(old(m.contents), start, end)
    ensures m.touched == QuickTouches(old(m.touched), old(m.contents), start, end)
    ensures |m.touched| == |old(m.touched)| + QuickCost(old(m.contents), start, end)
    decreases end + 1 - start
  {
    hide Simulator.Valid, PartitionInts, PartitionAt, PartitionTouches, QuickSorted, Partitioned, QuickCost;
    hide Median, FirstIsMedian, MiddleIsMedian;
    QuickCosts(m.touched, m.contents, start, end);
    QuickIntsSorted(m.contents, start, end);
    if start < end {
      var middle: int := Partition(m, start, end);
      QuickSort(m, start, middle - 1);
      QuickSort(m, middle + 1, end);
    }
  }

  // ---------- No program touches anything outside its ints ----------

  ghost predicate Within(t: seq<int>, n: nat) {
    forall k :: 0 <= k < |t| ==> 0 <= t[k] < n
  }

  lemma SwapWithin(t: seq<int>, i: nat, j: nat, n: nat)
    requires Within(t, n) && i < n && j < n
    ensures Within(CompareTouches(t, i, j), n) && Within(SwapTouches(t, i, j), n)
  {
  }

  lemma {:induction false} LeastWithin(t: seq<int>, s: seq<int>, least: nat, b: nat, n: nat)
    requires Within(t, n) && least < n && b <= n <= |s|
    ensures Within(LeastTouches(t, s, least, b, n), n)
    decreases n - b
  {
    hide Within;
    if b < n {
      SwapWithin(t, least, b, n);
      LeastWithin(CompareTouches(t, least, b), s, if s[least] > s[b] then b else least, b + 1, n);
    }
  }

  lemma {:induction false} SelectionWithin(t: seq<int>, s: seq<int>, a: nat, n: nat)
    requires Within(t, n) && n <= |s|
    ensures Within(SelectionTouches(t, s, a, n), n)
    decreases n - a
  {
    hide Within;
    if a < n {
      var least := LeastOf(s, a, a, n);
      LeastWithin(t, s, a, a, n);
      SwapWithin(LeastTouches(t, s, a, a, n), a, least, n);
      SelectionWithin(SwapTouches(LeastTouches(t, s, a, a, n), a, least), Swapped(s, a, least), a + 1, n);
    }
  }

  lemma {:induction false} SinkWithin(t: seq<int>, s: seq<int>, c: nat, n: nat)
    requires Within(t, n) && c < n <= |s|
    ensures Within(SinkTouches(t, s, c), n)
    decreases c
  {
    hide Within;
    if c > 0 {
      SwapWithin(t, c - 1, c, n);
      if s[c - 1] > s[c] {
        SwapWithin(CompareTouches(t, c - 1, c), c - 1, c, n);
        SinkWithin(SwapTouches(CompareTouches(t, c - 1, c), c - 1, c), Swapped(s, c - 1, c), c - 1, n);
      }
    }
  }

  lemma {:induction false} InsertionWithin(t: seq<int>, s: seq<int>, a: nat, n: nat)
    requires Within(t, n) && n <= |s|
    ensures Within(InsertionTouches(t, s, a, n), n)
    decreases n - a
  {
    hide Within;
    if a < n {
      SinkWithin(t, s, a, n);
      InsertionWithin(SinkTouches(t, s, a), SinkInts(s, a), a + 1, n);
    }
  }

  lemma {:induction false} RiseWithin(t: seq<int>, s: seq<int>, c: nat, n: nat)
    requires Within(t, n) && c < n <= |s|
    ensures Within(RiseTouches(t, s, c), n)
    decreases c
  {
    hide Within;
    if c > 0 {
      var p := Parent(c);
      SwapWithin(t, c, p, n);
      if s[c] > s[p] {
        SwapWithin(CompareTouches(t, c, p), c, p, n);
        RiseWithin(SwapTouches(CompareTouches(t, c, p), c, p), Swapped(s, c, p), p, n);
      }
    }
  }

  lemma {:induction false} HeapifyWithin(t: seq<int>, s: seq<int>, i: nat, n: nat)
    requires Within(t, n) && n <= |s|
    ensures Within(HeapifyTouches(t, s, i, n), n)
    decreases n - i
  {
    hide Within;
    if i < n {
      RiseWithin(t, s, i, n);
      HeapifyWithin(RiseTouches(t, s, i), RiseInts(s, i), i + 1, n);
    }
  }

  lemma FallOnceWithin(t: seq<int>, c: nat, k: nat, last: nat, n: nat)
    requires Within(t, n) && c < n && k <= last < n
    ensures Within(ChildTouches(t, c, last), n) && Within(CompareTouches(t, k, c), n)
    ensures Within(FallOnce(t, c, k, last), n)
  {
    ChildWithin(t, c, last, n);
    SwapWithin(t, k, c, n);
    var looked := ChildTouches(CompareTouches(t, k, c), c, last);
    hide Within;
    ChildWithin(CompareTouches(t, k, c), c, last, n);
    SwapWithin(looked, c, k, n);
    ChildWithin(SwapTouches(looked, c, k), k, last, n);
  }

  lemma ChildWithin(t: seq<int>, c: nat, last: nat, n: nat)
    requires Within(t, n) && last < n
    ensures Within(ChildTouches(t, c, last), n)
  {
  }

  lemma {:induction false} FallWithin(t: seq<int>, s: seq<int>, c: nat, last: nat, n: nat)
    requires Within(t, n) && c < n && last < n <= |s|
    ensures Within(FallTouches(t, s, c, last), n)
    decreases if c <= last then last + 1 - c else 0
  {
    hide Within;
    var k := Bigger(s, c, last + 1);
    if k <= last {
      FallOnceWithin(t, c, k, last, n);
      if s[k] > s[c] { FallWithin(FallOnce(t, c, k, last), Swapped(s, c, k), k, last, n); }
    }
  }

  lemma {:induction false} DrainWithin(t: seq<int>, s: seq<int>, m: nat, n: nat)
    requires Within(t, n) && m < n <= |s|
    ensures Within(DrainTouches(t, s, m), n)
    decreases m
  {
    hide Within;
    if m > 0 {
      var before, moved := Swapped(s, 0, m), SwapTouches(t, 0, m);
      SwapWithin(t, 0, m, n);
      ChildWithin(moved, 0, m - 1, n);
      FallWithin(ChildTouches(moved, 0, m - 1), before, 0, m - 1, n);
      DrainWithin(FallTouches(ChildTouches(moved, 0, m - 1), before, 0, m - 1), FallInts(before, 0, m - 1), m - 1, n);
    }
  }

  lemma HeapSortWithin(t: seq<int>, s: seq<int>, len: nat)
    requires Within(t, len) && len <= |s|
    ensures Within(HeapSortTouches(t, s, len), len)
  {
    if len > 0 {
      HeapifyWithin(t, s, 1, len);
      DrainWithin(HeapifyTouches(t, s, 1, len), HeapifyInts(s, 1, len), len - 1, len);
    }
  }

  lemma {:induction false} DivideWithin(t: seq<int>, s: seq<int>, i: nat, j: nat, n: nat)
    requires Within(t, n) && i <= j < n <= |s|
    ensures Within(DivideTouches(t, s, i, j), n)
    decreases j - i
  {
    hide Within;
    if i < j {
      SwapWithin(t, i + 1, i, n);
      SwapWithin(CompareTouches(t, i + 1, i), i + 1, i, n);
      if s[i + 1] <= s[i] {
        SwapWithin(NextTouches(t, i), i + 1, i, n);
        DivideWithin(SwapTouches(NextTouches(t, i), i + 1, i), Swapped(s, i + 1, i), i + 1, j, n);
      } else {
        SwapWithin(NextTouches(t, i), i + 1, j, n);
        DivideWithin(SwapTouches(NextTouches(t, i), i + 1, j), Swapped(s, i + 1, j), i, j - 1, n);
      }
    }
  }

  lemma PartitionWithin(t: seq<int>, s: seq<int>, start: nat, end: nat, n: nat)
    requires Within(t, n) && start <= end < n <= |s|
    ensures Within(PartitionTouches(t, s, start, end), n)
  {
    var mid := Middle(start, end);
    var looked := CompareTouches(t, start, mid) + [end];
    assert Within(looked, n);
    SwapWithin(looked, start, mid, n);
    SwapWithin(looked, start, end, n);
    hide Within;
    DivideWithin(ChooseTouches(t, s, start, end), Chosen(s, start, end), start, end, n);
  }

  lemma {:induction false} QuickWithin(t: seq<int>, s: seq<int>, start: nat, end: int, n: nat)
    requires Within(t, n) && -1 <= end < n <= |s|
    ensures Within(QuickTouches(t, s, start, end), n)
    decreases end + 1 - start
  {
    hide Within, PartitionTouches, PartitionInts, PartitionAt;
    if start < end {
      var q, mid: int := PartitionInts(s, start, end), PartitionAt(s, start, end);
      var t' := PartitionTouches(t, s, start, end);
      PartitionWithin(t, s, start, end, n);
      QuickWithin(t', q, start, mid - 1, n);
      QuickWithin(QuickTouches(t', q, start, mid - 1), QuickInts(q, start, mid - 1), mid + 1, end, n);
    }
  }
}
