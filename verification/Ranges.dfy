/** The driver's linked list of live payload extents. */
module Ranges {
  import opened HeapLayout

  class RangeNode {
    var lo: int
    var hi: int
    var next: RangeNode?

    constructor (lo: int, hi: int, next: RangeNode?)
      ensures this.lo == lo && this.hi == hi && this.next == next
    {
      this.lo, this.hi, this.next := lo, hi, next;
    }
  }

  /** The contents without the first range that starts at lo. */
  function Without(s: seq<Range>, lo: int): seq<Range> {
    if s == [] then []
    else if s[0].lo == lo then s[1..]
    else [s[0]] + Without(s[1..], lo)
  }

  /** Removing by start removes exactly the range that starts there, when starts are distinct. */
  lemma {:induction false} WithoutIs(s: seq<Range>, lo: int)
    requires forall i, j :: 0 <= i < j < |s| ==> s[i].lo != s[j].lo
    ensures forall r :: r in Without(s, lo) <==> r in s && r.lo != lo
    ensures forall i, j :: 0 <= i < j < |Without(s, lo)| ==> Without(s, lo)[i].lo != Without(s, lo)[j].lo
  {
    if s != [] && s[0].lo != lo {
      WithoutIs(s[1..], lo);
      assert forall r :: r in s[1..] ==> r.lo != s[0].lo;
    }
  }

  lemma {:induction false} WithoutAt(s: seq<Range>, lo: int, k: nat)
    requires k < |s| && s[k].lo == lo && forall i :: 0 <= i < k ==> s[i].lo != lo
    ensures Without(s, lo) == RemoveAt(s, k)
  {
    if k > 0 {
      WithoutAt(s[1..], lo, k - 1);
    }
  }

  lemma {:induction false} WithoutNone(s: seq<Range>, lo: int)
    requires forall i :: 0 <= i < |s| ==> s[i].lo != lo
    ensures Without(s, lo) == s
  {
    if s != [] { WithoutNone(s[1..], lo); }
  }

  /** One of the new range's end points falls in r: all that add_range looks at. */
  predicate Hits(lo: int, hi: int, r: Range) {
    (r.lo <= lo <= r.hi) || (r.lo <= hi <= r.hi)
  }

  class RangeList {
    var head: RangeNode?
    ghost var nodes: seq<RangeNode>
    ghost var contents: seq<Range>

    ghost predicate Valid()
      reads this, nodes
    {
      && |nodes| == |contents|
      && head == (if nodes == [] then null else nodes[0])
      && (forall i :: 0 <= i < |nodes| ==> nodes[i].lo == contents[i].lo && nodes[i].hi == contents[i].hi)
      && (forall i {:trigger nodes[i].next} :: 0 <= i < |nodes| ==>
            nodes[i].next == if i + 1 < |nodes| then nodes[i + 1] else null)
      && (forall i, j :: 0 <= i < j < |nodes| ==> nodes[i] != nodes[j])
    }

    constructor ()
      ensures Valid() && contents == [] && nodes == []
    {
      head, nodes, contents := null, [], [];
    }

    /** add_range: refuses a range that is misaligned, leaves heapLo .. heapHi, or has an end point
        in a listed range; otherwise lists it first. */
    method Add(lo: int, size: int, heapLo: int, heapHi: int) returns (ok: bool)
      requires Valid() && size > 0
      modifies this
      ensures Valid()
      ensures ok <==> lo % 8 == 0 && heapLo <= lo && lo + size - 1 <= heapHi &&
                      forall i :: 0 <= i < |old(contents)| ==>
                        var r := old(contents)[i];
                        !(r.lo <= lo <= r.hi) && !(r.lo <= lo + size - 1 <= r.hi)
      ensures contents == if ok then [Range(lo, lo + size - 1)] + old(contents) else old(contents)
      ensures ok ==> |nodes| == |old(nodes)| + 1 && fresh(nodes[0]) && nodes[1..] == old(nodes)
      ensures !ok ==> nodes == old(nodes)
    {
      var hi := lo + size - 1;
      if lo % 8 != 0 {
        return false;
      }
      if lo < heapLo || lo > heapHi || hi < heapLo || hi > heapHi {
        return false;
      }
      var p := head;
      ghost var k := 0;
      while p != null
        invariant 0 <= k <= |nodes| && p == (if k < |nodes| then nodes[k] else null)
        invariant forall i :: 0 <= i < k ==> !Hits(lo, hi, contents[i])
        decreases |nodes| - k
      {
        if (lo >= p.lo && lo <= p.hi) || (hi >= p.lo && hi <= p.hi) {
          assert Hits(lo, hi, contents[k]);
          return false;
        }
        p := p.next;
        k := k + 1;
      }
      var n := new RangeNode(lo, hi, head);
      head := n;
      nodes := [n] + nodes;
      contents := [Range(lo, hi)] + contents;
      return true;
    }

    /** Takes node k out of the list. */
    method Unlink(prev: RangeNode?, p: RangeNode, ghost k: nat)
      requires Valid() && k < |nodes| && p == nodes[k] && prev == if k == 0 then null else nodes[k - 1]
      modifies this, nodes
      ensures Valid() && nodes == RemoveAt(old(nodes), k) && contents == RemoveAt(old(contents), k)
    {
      if prev == null {
        head := p.next;
      } else {
        prev.next := p.next;
      }
      nodes := RemoveAt(nodes, k);
      contents := RemoveAt(contents, k);
    }

    /** remove_range: unlinks the first node that starts at lo, if there is one. */
    method Remove(lo: int)
      requires Valid()
      modifies this, nodes
      ensures Valid() && contents == Without(old(contents), lo)
      ensures forall n :: n in nodes ==> n in old(nodes)
    {
      var p, prev: RangeNode? := head, null;
      ghost var k := 0;
      while p != null
        invariant 0 <= k <= |nodes| && p == (if k < |nodes| then nodes[k] else null)
        invariant prev == if k == 0 then null else nodes[k - 1]
        invariant forall i :: 0 <= i < k ==> contents[i].lo != lo
        decreases |nodes| - k
      {
        if p.lo == lo {
          WithoutAt(contents, lo, k);
          Unlink(prev, p, k);
          return;
        }
        prev := p;
        p := p.next;
        k := k + 1;
      }
      WithoutNone(contents, lo);
    }

    /** clear_ranges */
    method Clear()
      modifies this
      ensures Valid() && contents == [] && nodes == []
    {
      head, nodes, contents := null, [], [];
    }
  }
}
