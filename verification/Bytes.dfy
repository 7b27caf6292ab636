/** Words as eight little-endian bytes, for the copies that move part of a word. */
module Bytes {
  import opened BoundaryTags

  type Byte = b: nat | b < 256

  function Pow256(n: nat): (p: nat)
    ensures p > 0
  {
    if n == 0 then 1 else 256 * Pow256(n - 1)
  }

  /** Byte `k` of a word, the lowest first. */
  function ByteOf(w: nat, k: nat): Byte {
    if k == 0 then w % 256 else ByteOf(w / 256, k - 1)
  }

  /** `dst` with its low `n` bytes replaced by those of `src`: what a store of `n` bytes leaves in the word. */
  function LowBytes(src: nat, dst: nat, n: nat): nat {
    if n == 0 then dst else src % 256 + 256 * LowBytes(src / 256, dst / 256, n - 1)
  }

  lemma {:induction false} LowBytesBelow(src: nat, dst: nat, n: nat, j: nat)
    requires src < Pow256(j) && dst < Pow256(j) && n <= j
    ensures LowBytes(src, dst, n) < Pow256(j)
  {
    if n > 0 {
      LowBytesBelow(src / 256, dst / 256, n - 1, j - 1);
    }
  }

  lemma WordIsEightBytes()
    ensures Pow256(8) == WORD_LIMIT
  {
    assert Pow256(4) == 0x1_0000_0000;
  }

  /** The low `n` bytes come from `src`, the others stay. */
  lemma {:induction false} LowBytesAt(src: nat, dst: nat, n: nat, k: nat)
    ensures ByteOf(LowBytes(src, dst, n), k) == if k < n then ByteOf(src, k) else ByteOf(dst, k)
  {
    if n > 0 && k > 0 {
      LowBytesAt(src / 256, dst / 256, n - 1, k - 1);
    }
  }

  /** A word is determined by its eight bytes. */
  lemma {:induction false} BytesDetermine(v: nat, w: nat, j: nat)
    requires v < Pow256(j) && w < Pow256(j) && forall k | 0 <= k < j :: ByteOf(v, k) == ByteOf(w, k)
    ensures v == w
  {
    if j > 0 {
      assert ByteOf(v, 0) == ByteOf(w, 0);
      forall k | 0 <= k < j - 1 ensures ByteOf(v / 256, k) == ByteOf(w / 256, k) {
        assert ByteOf(v, k + 1) == ByteOf(w, k + 1);
      }
      BytesDetermine(v / 256, w / 256, j - 1);
    }
  }

  ghost predicate HighBytesKept(v: Word, w: Word, n: nat) {
    forall k | n <= k < 8 :: ByteOf(w, k) == ByteOf(v, k)
  }

  /** Byte `i` of the memory that starts at word `base`. */
  ghost function ByteAt(m: seq<Word>, base: nat, i: nat): nat
    requires base + i / 8 < |m|
  {
    ByteOf(m[base + i / 8], i % 8)
  }

  /** `memcpy` between word-aligned addresses: whole words, then the low bytes of the last one. */
  method CopyBytes(mem: array<Word>, dst: nat, src: nat, bytes: nat)
    requires src + (bytes + 7) / 8 <= dst || dst + (bytes + 7) / 8 <= src
    requires src + (bytes + 7) / 8 <= mem.Length && dst + (bytes + 7) / 8 <= mem.Length
    modifies mem
    ensures forall k | 0 <= k < mem.Length && !(dst <= k < dst + (bytes + 7) / 8) :: mem[k] == old(mem[k])
    ensures forall i | 0 <= i < bytes :: ByteAt(mem[..], dst, i) == old(ByteAt(mem[..], src, i))
    ensures bytes % 8 != 0 ==> HighBytesKept(old(mem[dst + bytes / 8]), mem[dst + bytes / 8], bytes % 8)
  {
    var left, from, to := bytes, src, dst;
    while left >= 8
      invariant 0 <= left <= bytes && from - src == to - dst == (bytes - left) / 8 && (bytes - left) % 8 == 0
      invariant forall k | 0 <= k < mem.Length && !(dst <= k < to) :: mem[k] == old(mem[k])
      invariant forall k | dst <= k < to :: mem[k] == old(mem[k - dst + src])
    {
      mem[to] := mem[from];
      left := left - 8;
      from, to := from + 1, to + 1;
    }
    if left > 0 {
      WordIsEightBytes();
      LowBytesBelow(mem[from], mem[to], left, 8);
      forall k: nat
        ensures ByteOf(LowBytes(mem[from], mem[to], left), k) ==
                if k < left then ByteOf(mem[from], k) else ByteOf(mem[to], k)
      {
        LowBytesAt(mem[from], mem[to], left, k);
      }
      assert mem[from] == old(mem[from]);
      mem[to] := LowBytes(mem[from], mem[to], left);
    }
    forall i | 0 <= i < bytes ensures ByteAt(mem[..], dst, i) == old(ByteAt(mem[..], src, i)) {
      if dst + i / 8 < to {
        assert mem[dst + i / 8] == old(mem[dst + i / 8 - dst + src]);
      } else {
        assert i / 8 == bytes / 8 && i % 8 < left;
      }
    }
  }

  /** `memset(dst, 0, bytes)` at a word-aligned address. */
  method ZeroBytes(mem: array<Word>, dst: nat, bytes: nat)
    requires dst + (bytes + 7) / 8 <= mem.Length
    modifies mem
    ensures forall k | 0 <= k < mem.Length && !(dst <= k < dst + (bytes + 7) / 8) :: mem[k] == old(mem[k])
    ensures forall i | 0 <= i < bytes :: ByteAt(mem[..], dst, i) == 0
  {
    var left, to := bytes, dst;
    forall k: nat ensures ByteOf(0, k) == 0 { ZeroByte(k); }
    while left >= 8
      invariant 0 <= left <= bytes && to - dst == (bytes - left) / 8 && (bytes - left) % 8 == 0
      invariant forall k | 0 <= k < mem.Length && !(dst <= k < to) :: mem[k] == old(mem[k])
      invariant forall k | dst <= k < to :: mem[k] == 0
    {
      mem[to] := 0;
      left := left - 8;
      to := to + 1;
    }
    if left > 0 {
      WordIsEightBytes();
      LowBytesBelow(0, mem[to], left, 8);
      forall k: nat ensures ByteOf(LowBytes(0, mem[to], left), k) == if k < left then 0 else ByteOf(mem[to], k) {
        LowBytesAt(0, mem[to], left, k);
      }
      mem[to] := LowBytes(0, mem[to], left);
    }
    forall i | 0 <= i < bytes ensures ByteAt(mem[..], dst, i) == 0 {
      if dst + i / 8 >= to {
        assert i / 8 == bytes / 8 && i % 8 < left;
      }
    }
  }

  lemma {:induction false} ZeroByte(k: nat)
    ensures ByteOf(0, k) == 0
  {
    if k > 0 {
      ZeroByte(k - 1);
    }
  }
}
