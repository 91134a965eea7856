// Memory seen byte by byte: byte i of a word is its i-th digit to base 256,
// which is how memcpy sees the words of tlsf-3.0/tlsf.c.
module Bytes {

  // Byte j of memory: byte j % 8 of word j / 8.
  function ByteAt(m: seq<nat>, j: nat): nat
    requires j / 8 < |m|
  {
    ByteOf(m[j / 8], j % 8)
  }

  function ByteOf(w: nat, i: nat): nat {
    if i == 0 then w % 256 else ByteOf(w / 256, i - 1)
  }

  // dst with its n low bytes taken from src.
  function Merge(dst: nat, src: nat, n: nat): nat {
    if n == 0 then dst else 256 * Merge(dst / 256, src / 256, n - 1) + src % 256
  }

  lemma {:induction false} MergeBytes(dst: nat, src: nat, n: nat, i: nat)
    ensures ByteOf(Merge(dst, src, n), i) == if i < n then ByteOf(src, i) else ByteOf(dst, i)
  {
    if n != 0 {
      var r := Merge(dst, src, n);
      assert r / 256 == Merge(dst / 256, src / 256, n - 1) && r % 256 == src % 256;
      if i != 0 {
        MergeBytes(dst / 256, src / 256, n - 1, i - 1);
      }
    }
  }

  ghost predicate SameByte(m: seq<nat>, src: nat, m': seq<nat>, dst: nat, j: nat)
    requires 8 * src + j < 8 * |m| && 8 * dst + j < 8 * |m'|
  {
    ByteAt(m', 8 * dst + j) == ByteAt(m, 8 * src + j)
  }

  // n bytes from word address dst of m' are the n bytes from word address src of m.
  ghost predicate SameBytes(m: seq<nat>, src: nat, m': seq<nat>, dst: nat, n: nat) {
    && 8 * src + n <= 8 * |m| && 8 * dst + n <= 8 * |m'|
    && forall j :: 0 <= j < n ==> SameByte(m, src, m', dst, j)
  }

  // Whole words, and the low bytes of a last one merged into w.
  lemma SameBytesOfWords(m: seq<nat>, src: nat, m': seq<nat>, dst: nat, n: nat, w: nat)
    requires 8 * src + n <= 8 * |m| && 8 * dst + n <= 8 * |m'|
    requires forall k :: dst <= k < dst + n / 8 ==> m'[k] == m[src + (k - dst)]
    requires n % 8 != 0 ==> m'[dst + n / 8] == Merge(w, m[src + n / 8], n % 8)
    ensures SameBytes(m, src, m', dst, n)
  {
    forall j | 0 <= j < n ensures SameByte(m, src, m', dst, j) {
      var i, r := j / 8, j % 8;
      assert (8 * dst + j) / 8 == dst + i && (8 * dst + j) % 8 == r;
      assert (8 * src + j) / 8 == src + i && (8 * src + j) % 8 == r;
      if i == n / 8 {
        MergeBytes(w, m[src + i], n % 8, r);
      } else {
        assert m'[dst + i] == m[src + i];
      }
    }
  }

  lemma SameBytesTrans(m: seq<nat>, a: nat, m': seq<nat>, b: nat, m'': seq<nat>, c: nat, n: nat)
    requires SameBytes(m, a, m', b, n) && SameBytes(m', b, m'', c, n)
    ensures SameBytes(m, a, m'', c, n)
  {
    forall j | 0 <= j < n ensures SameByte(m, a, m'', c, j) {
      assert SameByte(m, a, m', b, j) && SameByte(m', b, m'', c, j);
    }
  }

  // memcpy of n bytes between disjoint word-aligned regions.
  method MemCopy(mem: array<nat>, dst: nat, src: nat, n: nat)
    requires src + (n + 7) / 8 <= mem.Length && dst + (n + 7) / 8 <= mem.Length
    requires src + (n + 7) / 8 <= dst || dst + (n + 7) / 8 <= src
    modifies mem
    ensures SameBytes(old(mem[..]), src, mem[..], dst, n)
    ensures forall k :: 0 <= k < mem.Length && !(dst <= k < dst + (n + 7) / 8) ==> mem[k] == old(mem[k])
  {
    ghost var m := mem[..];
    for i := 0 to n / 8
      invariant forall k :: 0 <= k < mem.Length && !(dst <= k < dst + i) ==> mem[k] == m[k]
      invariant forall k :: dst <= k < dst + i ==> mem[k] == m[src + (k - dst)]
    {
      mem[dst + i] := mem[src + i];
    }
    ghost var w := 0;
    if n % 8 != 0 {
      w := mem[dst + n / 8];
      mem[dst + n / 8] := Merge(mem[dst + n / 8], mem[src + n / 8], n % 8);
    }
    SameBytesOfWords(m, src, mem[..], dst, n, w);
  }
}
