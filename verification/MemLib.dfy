/** The bytes of an 8-byte word, lowest first. */
module WordBytes {
  import opened HeapLayout

  type Byte = b: nat | b < 256

  function ByteOf(w: nat, k: nat): Byte {
    if k == 0 then w % 256 else ByteOf(w / 256, k - 1)
  }

  function SetByte(w: nat, k: nat, v: Byte): nat {
    if k == 0 then w - w % 256 + v else 256 * SetByte(w / 256, k - 1, v) + w % 256
  }

  /** 256 to the power n. */
  function Limit(n: nat): nat {
    if n == 0 then 1 else 256 * Limit(n - 1)
  }

  lemma {:induction false} SetByteReads(w: nat, k: nat, v: Byte, j: nat)
    ensures ByteOf(SetByte(w, k, v), j) == if j == k then v else ByteOf(w, j)
  {
    if k > 0 && j > 0 {
      SetByteReads(w / 256, k - 1, v, j - 1);
      assert (256 * SetByte(w / 256, k - 1, v) + w % 256) / 256 == SetByte(w / 256, k - 1, v);
    }
  }

  lemma {:induction false} SetByteFits(w: nat, k: nat, v: Byte, n: nat)
    requires k < n && w < Limit(n)
    ensures SetByte(w, k, v) < Limit(n)
  {
    if k > 0 {
      SetByteFits(w / 256, k - 1, v, n - 1);
    }
  }

  lemma WordLimit()
    ensures Limit(8) == WORD_RANGE
  {
    assert Limit(2) == 0x1_0000;
    assert Limit(4) == 0x1_0000_0000;
    assert Limit(6) == 0x1_0000_0000_0000;
  }

  /** The byte at address a. */
  function ByteAt(w: seq<Word>, a: nat): Byte
    requires a < 8 * |w|
  {
    ByteOf(w[a / 8], a % 8)
  }
}

/** memlib.c: the simulated break pointer, over a word-addressed memory.

    Memory is an array of 8-byte words indexed by address / 8, so every word of the address space
    up to the largest heap address is present, also the one below the heap. */
module MemLib {
  import opened HeapLayout
  import opened WordBytes

  const MAX_HEAP: nat := 40 * 1024 * 1024

  class Memory {
    const startBrk: nat
    const maxAddr: nat
    const words: array<Word>
    var brk: nat

    ghost predicate Valid()
      reads this
    {
      8 <= startBrk <= brk <= maxAddr == startBrk + MAX_HEAP <= 8 * words.Length <= WORD_RANGE
    }

    /** mem_init: the system grants MAX_HEAP bytes at some address `start`. */
    constructor (start: nat)
      requires 8 <= start && start + MAX_HEAP + 8 <= WORD_RANGE
      ensures Valid() && brk == startBrk == start && maxAddr == start + 41943040 && fresh(words)
    {
      startBrk, maxAddr, brk := start, start + MAX_HEAP, start;
      words := new Word[(start + MAX_HEAP + 7) / 8];
    }

    method ResetBrk()
      requires Valid()
      modifies this
      ensures Valid() && brk == startBrk
    {
      brk := startBrk;
    }

    /** Returns the old break, or -1 and changes nothing when the request is negative or does not
        fit. */
    method Sbrk(incr: int) returns (r: int)
      requires Valid() && -0x8000_0000 <= incr < 0x8000_0000
      modifies this
      ensures Valid()
      ensures r == -1 <==> incr < 0 || old(brk) + incr > maxAddr
      ensures r == -1 ==> brk == old(brk)
      ensures r != -1 ==> r == old(brk) && brk == old(brk) + incr
    {
      var oldBrk := brk;
      if incr < 0 || brk + incr > maxAddr {
        return -1;
      }
      brk := brk + incr;
      return oldBrk;
    }

    function HeapLo(): int { startBrk }

    function HeapHi(): int
      reads this
    {
      brk - 1
    }

    function HeapSize(): int
      reads this
    {
      brk - startBrk
    }

    /** A client's memset: the bytes p .. p + size become v, no other byte changes. */
    method Memset(p: nat, v: Byte, size: nat)
      requires p + size <= 8 * words.Length
      modifies words
      ensures forall a {:trigger ByteAt(words[..], a)} :: 0 <= a < 8 * words.Length ==>
                ByteAt(words[..], a) == if p <= a < p + size then v else ByteAt(old(words[..]), a)
      ensures forall q :: 0 <= q < words.Length && !(p < 8 * q + 8 && 8 * q < p + size) ==> words[q] == old(words[q])
    {
      for j := 0 to size
        invariant forall a {:trigger ByteAt(words[..], a)} :: 0 <= a < 8 * words.Length ==>
                    ByteAt(words[..], a) == if p <= a < p + j then v else ByteAt(old(words[..]), a)
        invariant forall q :: 0 <= q < words.Length && !(p < 8 * q + 8 && 8 * q < p + j) ==> words[q] == old(words[q])
      {
        Poke(p + j, v);
      }
    }

    method Poke(a: nat, v: Byte)
      requires a < 8 * words.Length
      modifies words
      ensures forall b {:trigger ByteAt(words[..], b)} :: 0 <= b < 8 * words.Length ==>
                ByteAt(words[..], b) == if b == a then v else ByteAt(old(words[..]), b)
      ensures forall q :: 0 <= q < words.Length && q != a / 8 ==> words[q] == old(words[q])
    {
      WordLimit();
      SetByteFits(words[a / 8], a % 8, v, 8);
      words[a / 8] := SetByte(words[a / 8], a % 8, v);
      forall b | 0 <= b < 8 * words.Length
        ensures ByteAt(words[..], b) == if b == a then v else ByteAt(old(words[..]), b)
      {
        SetByteReads(old(words[..])[a / 8], a % 8, v, b % 8);
      }
    }
  }
}
