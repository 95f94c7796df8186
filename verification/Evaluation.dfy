/** evaluate of vm.c: sorting freshly initialized memory, and counting accesses and misses. */
module Evaluation {
  import opened Arrays
  import opened Pages
  import opened Lru
  import opened Paging
  import Sorting

  datatype Program = HeapSort | QuickSort

  /** The ints a program touches, in order, when memory holds s. */
  function SortTouches(program: Program, s: seq<int>, len: nat): seq<int>
    requires len <= |s|
  {
    match program
    case HeapSort => Sorting.HeapSortTouches([], s, len)
    case QuickSort => Sorting.QuickTouches([], s, 0, len - 1)
  }

  /** How many they are, added up over the swaps and comparisons made. */
  lemma SortCosts(program: Program, s: seq<int>, len: nat)
    requires len <= |s|
    ensures |SortTouches(program, s, len)| ==
      match program
      case HeapSort => Sorting.HeapSortCost(s, len)
      case QuickSort => Sorting.QuickCost(s, 0, len - 1)
    ensures program == QuickSort && len >= 1 ==> |SortTouches(program, s, len)| <= (len - 1) * (4 * len + 7)
  {
    hide Sorting.HeapSortTouches, Sorting.HeapSortCost, Sorting.QuickTouches, Sorting.QuickCost;
    match program
    case HeapSort => Sorting.HeapSortCosts([], s, len);
    case QuickSort =>
      Sorting.QuickCosts([], s, 0, len - 1);
      if len >= 1 { Sorting.QuickAtMost(s, 0, len - 1, len); }
  }

  /** They all lie among the len ints sorted. */
  lemma SortWithin(program: Program, s: seq<int>, len: nat)
    requires len <= |s|
    ensures Sorting.Within(SortTouches(program, s, len), len)
  {
    match program
    case HeapSort => Sorting.HeapSortWithin([], s, len);
    case QuickSort => if len > 0 { Sorting.QuickWithin([], s, 0, len - 1, len); }
  }

  method Sort(m: Simulator, program: Program, len: nat)
    requires m.Valid() && m.touched == [] && len <= |m.contents|
    modifies m`numAccesses, m`numFaults, m`disk, m`resident, m`useMarker, m`history, m`touched, m`states, m`contents
    modifies m.valid, m.frame, m.marker, m.physical
    ensures m.Valid() && Ascending(m.contents, 0, len) && Shuffled(old(m.contents), m.contents, 0, len)
    ensures m.touched == SortTouches(program, old(m.contents), len)
  {
    hide Simulator.Valid;
    match program {
      case HeapSort => Sorting.HeapSort(m, len);
      case QuickSort =>
        Sorting.QuickSort(m, 0, len - 1);
        Sorting.WholeSorted(old(m.contents), m.contents, len);
    }
  }

  /** Memory as initialize leaves it. */
  ghost predicate Starts(m: Simulator, data: seq<int>, len: nat, files: map<nat, seq<int>>, start: seq<int>)
    requires m.pageInts > 0
  {
    && |start| == PagesFor(m.pageInts, len) * m.pageInts && len <= |start|
    && forall i :: 0 <= i < |start| ==> start[i] == m.Origin(data, files, i)
  }

  /** Every int touched is one access counted, and use_marker has moved by one for each access and for
      each page loaded at first. */
  lemma Counted(m: Simulator)
    requires m.Valid() && m.base == 0 && m.origin == Initial(m.Loaded(m.inUse))
    ensures m.numAccesses == |m.touched|
    ensures m.useMarker == m.birth + m.Loaded(m.inUse) + m.numAccesses
  {
    RecordIs(m.states, m.touched, m.pageInts, m.strategy == LRU);
  }

  /** When the pages in use fit into the frames, touching them costs nothing, whatever the strategy. */
  lemma NoMisses(m: Simulator, len: nat)
    requires m.Valid() && m.origin == Initial(m.Loaded(m.inUse)) && m.inUse <= m.numFrames
    requires Sorting.Within(m.touched, len) && m.inUse == PagesFor(m.pageInts, len)
    ensures m.numFaults == 0
  {
    PagesForBounds(m.pageInts, len);
    forall k | 0 <= k < |m.touched| ensures PageOf(m.pageInts, m.touched[k]) in m.origin.resident {
      PageInRange(m.pageInts, m.inUse, m.touched[k]);
    }
    RecordStays(m.states, m.touched, m.pageInts, m.strategy == LRU);
  }

  lemma StartsNow(m: Simulator, data: seq<int>, len: nat, files: map<nat, seq<int>>)
    requires m.Valid() && m.inUse == PagesFor(m.pageInts, len) && len <= |m.contents|
    requires forall i :: 0 <= i < |m.contents| ==> m.contents[i] == m.Origin(data, files, i)
    ensures m.pageInts > 0 && Starts(m, data, len, files, m.contents)
  {
  }

  /** Before each measurement: the strategy is chosen, memory initialized and the counts reset. */
  method Prepare(m: Simulator, strategy: Strategy, data: seq<int>, len: nat, files: map<nat, seq<int>>)
    requires m.Allocated() && 0 < len <= m.numPages * m.pageInts && m.physical.Length <= |data|
    requires forall p :: m.numFrames <= p < PagesFor(m.pageInts, len) ==> p in files && |files[p]| == m.pageInts
    modifies m, m.valid, m.frame, m.marker, m.physical
    ensures m.Valid() && m.strategy == strategy && Starts(m, data, len, files, m.contents)
    ensures m.inUse == PagesFor(m.pageInts, len) && m.origin == Initial(m.Loaded(m.inUse))
    ensures m.touched == [] && m.base == 0 && m.birth == old(m.useMarker) && len <= |m.contents|
  {
    hide Simulator.Valid, Starts;
    m.strategy := strategy;
    m.Initialize(data, len, files);
    StartsNow(m, data, len, files);
    m.ResetCounts();
  }

  /** One measurement: initialize, reset the counts, sort. The number of accesses depends on the
      program and on what memory held, not on the strategy. */
  method Measure(m: Simulator, strategy: Strategy, program: Program, data: seq<int>, len: nat,
                 files: map<nat, seq<int>>)
    returns (misses: nat, accesses: nat, ghost start: seq<int>)
    requires m.Allocated() && 0 < len <= m.numPages * m.pageInts && m.physical.Length <= |data|
    requires forall p :: m.numFrames <= p < PagesFor(m.pageInts, len) ==> p in files && |files[p]| == m.pageInts
    modifies m, m.valid, m.frame, m.marker, m.physical
    ensures m.Valid() && m.strategy == strategy && Starts(m, data, len, files, start)
    ensures Ascending(m.contents, 0, len) && Shuffled(start, m.contents, 0, len)
    ensures m.inUse == PagesFor(m.pageInts, len) && m.origin == Initial(m.Loaded(m.inUse))
    ensures m.touched == SortTouches(program, start, len)
    ensures misses == m.numFaults && accesses == |SortTouches(program, start, len)|
    ensures accesses == match program
                        case HeapSort => Sorting.HeapSortCost(start, len)
                        case QuickSort => Sorting.QuickCost(start, 0, len - 1)
    ensures program == QuickSort ==> accesses <= (len - 1) * (4 * len + 7)
    ensures Sorting.Within(m.touched, len)
    ensures m.inUse <= m.numFrames ==> misses == 0
    ensures m.useMarker == old(m.useMarker) + m.Loaded(m.inUse) + accesses
  {
    hide Simulator.Valid, SortTouches, Starts;
    Prepare(m, strategy, data, len, files);
    start := m.contents;
    Sort(m, program, len);
    misses, accesses := m.numFaults, m.numAccesses;
    Counted(m);
    SortWithin(program, start, len);
    SortCosts(program, start, len);
    if m.inUse <= m.numFrames { NoMisses(m, len); }
  }

  /** The arrays of two simulators are different ones. */
  ghost predicate Separate(few: Simulator, many: Simulator) {
    && few != many && few.valid != many.valid
    && {few.frame, few.marker, few.physical} !! {many.frame, many.marker, many.physical}
  }

  lemma SameStart(few: Simulator, many: Simulator, data: seq<int>, len: nat, files: map<nat, seq<int>>,
                  files': map<nat, seq<int>>, start: seq<int>, start': seq<int>)
    requires 0 < few.pageInts == many.pageInts
    requires Starts(few, data, len, files, start) && Starts(many, data, len, files', start')
    requires forall i: nat :: i < PagesFor(few.pageInts, len) * few.pageInts ==>
      few.Origin(data, files, i) == many.Origin(data, files', i)
    ensures start == start'
  {
  }

  /** The measurement under LRU with more frames, of the same program on the same memory, does not
      count more misses. */
  method CompareFrames(few: Simulator, many: Simulator, program: Program, data: seq<int>, len: nat,
                       files: map<nat, seq<int>>, files': map<nat, seq<int>>)
    returns (fewMisses: nat, manyMisses: nat)
    requires Separate(few, many) && few.Allocated() && many.Allocated()
    requires few.pageInts == many.pageInts && few.numPages == many.numPages && few.numFrames <= many.numFrames
    requires 0 < len <= few.numPages * few.pageInts && many.physical.Length <= |data| && few.physical.Length <= |data|
    requires forall p :: few.numFrames <= p < PagesFor(few.pageInts, len) ==> p in files && |files[p]| == few.pageInts
    requires forall p :: many.numFrames <= p < PagesFor(many.pageInts, len) ==> p in files' && |files'[p]| == many.pageInts
    requires forall i: nat :: i < PagesFor(few.pageInts, len) * few.pageInts ==>
      few.Origin(data, files, i) == many.Origin(data, files', i)
    modifies few, few.valid, few.frame, few.marker, few.physical
    modifies many, many.valid, many.frame, many.marker, many.physical
    ensures manyMisses <= fewMisses && fewMisses == few.numFaults && manyMisses == many.numFaults
    ensures few.touched == many.touched && few.resident <= many.resident
  {
    hide Simulator.Valid, SortTouches, Starts, Sorting.Within;
    var fewAccesses, manyAccesses;
    ghost var start, start';
    fewMisses, fewAccesses, start := Measure(few, LRU, program, data, len, files);
    manyMisses, manyAccesses, start' := Measure(many, LRU, program, data, len, files');
    SameStart(few, many, data, len, files, files', start, start');
    MoreFramesNeverHurt(few, many);
  }
}
