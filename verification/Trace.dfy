/** Traces of allocator requests, and what it means for one to be well formed. */
module Trace {
  /** The driver keeps request sizes in an int. */
  type Size = n: nat | n < 0x8000_0000

  datatype Op = Alloc(id: nat, size: Size) | Free(id: nat) | Realloc(id: nat, size: Size)

  /** The ids allocated and not yet freed, with their sizes. */
  function Outstanding(ops: seq<Op>): map<nat, Size> {
    if ops == [] then map[]
    else
      var m := Outstanding(ops[..|ops| - 1]);
      match ops[|ops| - 1]
      case Alloc(id, size) => m[id := size]
      case Free(id) => m - {id}
      case Realloc(_, _) => m
  }

  /** An id is allocated only while it is not outstanding, and freed or reallocated only while it
      is. */
  predicate Allowed(op: Op, out: set<nat>) {
    if op.Alloc? then op.id !in out else op.id in out
  }

  ghost predicate WellFormed(ops: seq<Op>) {
    forall k :: 0 <= k < |ops| ==> Allowed(ops[k], Outstanding(ops[..k]).Keys)
  }

  /** A request mm.c serves: a free, or an allocation of at least one byte. */
  predicate Served(op: Op) {
    op.Free? || (op.Alloc? && op.size > 0)
  }

  predicate Plain(ops: seq<Op>) {
    forall k :: 0 <= k < |ops| ==> Served(ops[k])
  }

  lemma PrefixOfPrefix<T>(s: seq<T>, j: nat, k: nat)
    requires j <= k <= |s|
    ensures s[..k][..j] == s[..j]
  {
  }

  lemma WellFormedPrefix(ops: seq<Op>, k: nat)
    requires WellFormed(ops) && k <= |ops|
    ensures WellFormed(ops[..k])
  {
    forall j | 0 <= j < k
      ensures Allowed(ops[..k][j], Outstanding(ops[..k][..j]).Keys)
    {
      PrefixOfPrefix(ops, j, k);
      assert Allowed(ops[j], Outstanding(ops[..j]).Keys);
    }
  }

  lemma PlainStep(ops: seq<Op>, k: nat)
    requires k < |ops|
    ensures Plain(ops[..k + 1]) <==> Plain(ops[..k]) && Served(ops[k])
  {
    assert ops[..k + 1] == ops[..k] + [ops[k]];
  }
}
