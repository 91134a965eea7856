// The bit manipulation of tlsf-3.0/tlsfbits.h (the generic variants).
//
// Machine words are modelled as naturals below 2^32 or 2^64.  The bitwise
// operators are defined digit by digit, so a mask means what it means in C and
// no bit-vector reasoning is needed.
module Bits {

  function Pow2(n: nat): (r: nat)
    ensures r >= 1
  {
    if n == 0 then 1 else 2 * Pow2(n - 1)
  }

  const TWO_32: nat := 0x1_0000_0000
  const TWO_64: nat := 0x1_0000_0000_0000_0000

  // Is bit i of w set?
  predicate Bit(w: nat, i: nat) {
    if i == 0 then w % 2 == 1 else Bit(w / 2, i - 1)
  }

  function And(a: nat, b: nat): (r: nat)
    ensures r <= a && r <= b
  {
    if a == 0 || b == 0 then 0
    else 2 * And(a / 2, b / 2) + (if a % 2 == 1 && b % 2 == 1 then 1 else 0)
  }

  function Or(a: nat, b: nat): nat
    decreases a + b
  {
    if a == 0 then b else if b == 0 then a
    else 2 * Or(a / 2, b / 2) + (if a % 2 == 1 || b % 2 == 1 then 1 else 0)
  }

  function Xor(a: nat, b: nat): nat
    decreases a + b
  {
    if a == 0 then b else if b == 0 then a
    else 2 * Xor(a / 2, b / 2) + (if a % 2 != b % 2 then 1 else 0)
  }

  // The complement of w in a machine word of the given width.
  function Not(width: nat, w: nat): nat
    requires w < Pow2(width)
  {
    Pow2(width) - 1 - w
  }

  // Index of the highest set bit, -1 for zero: floor(log2(n)).
  function Fls(n: nat): (r: int)
    ensures r >= -1 && (r == -1 <==> n == 0)
  {
    if n == 0 then -1 else 1 + Fls(n / 2)
  }

  // ---------------------------------------------------------------- powers

  lemma {:induction false} Pow2Add(a: nat, b: nat)
    ensures Pow2(a + b) == Pow2(a) * Pow2(b)
  {
    if a != 0 {
      Pow2Add(a - 1, b);
      assert Pow2(a + b) == 2 * Pow2(a - 1 + b);
    }
  }

  lemma Pow2Step(n: nat)
    requires n > 0
    ensures Pow2(n) == 2 * Pow2(n - 1)
  {
  }

  lemma Pow2Small()
    ensures Pow2(0) == 1 && Pow2(1) == 2 && Pow2(2) == 4 && Pow2(3) == 8 && Pow2(4) == 16 && Pow2(5) == 32
  {
  }

  lemma Pow2Values()
    ensures Pow2(0) == 1 && Pow2(1) == 2 && Pow2(2) == 4 && Pow2(3) == 8 && Pow2(4) == 16 && Pow2(5) == 32 &&
            Pow2(8) == 256
    ensures Pow2(6) == 64 && Pow2(16) == 0x1_0000 && Pow2(31) == 0x8000_0000
    ensures Pow2(32) == TWO_32 && Pow2(64) == TWO_64
  {
    hide Pow2;
    Pow2Small();
    Pow2Add(4, 4);
    Pow2Add(8, 8);
    Pow2Add(16, 16);
    Pow2Add(32, 32);
    Pow2Step(6);
    Pow2Step(32);
  }

  lemma {:induction false} Pow2Mono(a: nat, b: nat)
    requires a <= b
    ensures Pow2(a) <= Pow2(b)
  {
    if a < b {
      Pow2Mono(a, b - 1);
    }
  }

  // ---------------------------------------------------------------- bitwise operators, bit by bit

  lemma {:induction false} BitOfZero(i: nat)
    ensures !Bit(0, i)
  {
    if i != 0 {
      BitOfZero(i - 1);
    }
  }

  lemma {:induction false} AndBit(a: nat, b: nat, i: nat)
    ensures Bit(And(a, b), i) <==> Bit(a, i) && Bit(b, i)
  {
    if a == 0 || b == 0 {
      BitOfZero(i);
    } else {
      var r := And(a, b);
      assert r / 2 == And(a / 2, b / 2) && (r % 2 == 1 <==> a % 2 == 1 && b % 2 == 1);
      if i != 0 {
        AndBit(a / 2, b / 2, i - 1);
      }
    }
  }

  lemma {:induction false} OrBit(a: nat, b: nat, i: nat)
    ensures Bit(Or(a, b), i) <==> Bit(a, i) || Bit(b, i)
    decreases i
  {
    if a == 0 || b == 0 {
      BitOfZero(i);
    } else {
      var r := Or(a, b);
      assert r / 2 == Or(a / 2, b / 2) && (r % 2 == 1 <==> a % 2 == 1 || b % 2 == 1);
      if i != 0 {
        OrBit(a / 2, b / 2, i - 1);
      }
    }
  }

  lemma {:induction false} OrBound(a: nat, b: nat, n: nat)
    requires a < Pow2(n) && b < Pow2(n)
    ensures Or(a, b) < Pow2(n)
  {
    if a != 0 && b != 0 {
      OrBound(a / 2, b / 2, n - 1);
    }
  }

  lemma {:induction false} NotBit(width: nat, w: nat, i: nat)
    requires w < Pow2(width) && i < width
    ensures Bit(Not(width, w), i) <==> !Bit(w, i)
  {
    var r := Not(width, w);
    assert w / 2 < Pow2(width - 1);
    assert r / 2 == Not(width - 1, w / 2) && r % 2 == 1 - w % 2;
    if i != 0 {
      NotBit(width - 1, w / 2, i - 1);
    }
  }

  lemma {:induction false} Pow2Bit(k: nat, i: nat)
    ensures Bit(Pow2(k), i) <==> i == k
  {
    if k == 0 {
      if i != 0 {
        BitOfZero(i - 1);
      }
    } else if i != 0 {
      assert Pow2(k) / 2 == Pow2(k - 1);
      Pow2Bit(k - 1, i - 1);
    }
  }

  // A word with a set bit is not zero, and a non-zero word has one.
  lemma {:induction false} NonZeroBit(w: nat, i: nat)
    requires Bit(w, i)
    ensures w >= Pow2(i)
  {
    if i != 0 {
      NonZeroBit(w / 2, i - 1);
    }
  }

  lemma {:induction false} ZeroIffNoBit(w: nat, width: nat)
    requires w < Pow2(width)
    ensures w == 0 ==> forall i :: 0 <= i < width ==> !Bit(w, i)
    ensures w != 0 ==> exists i :: 0 <= i < width && Bit(w, i)
  {
    if w == 0 {
      forall i | 0 <= i < width ensures !Bit(w, i) {
        BitOfZero(i);
      }
    } else {
      var i := LowestBit(w);
      NonZeroBit(w, i);
      assert i < width by {
        if i >= width {
          Pow2Mono(width, i);
        }
      }
      assert Bit(w, i);
    }
  }

  // Two words of one width with the same bits are the same word.
  lemma {:induction false} SameBits(v: nat, w: nat, width: nat)
    requires v < Pow2(width) && w < Pow2(width)
    requires forall i :: 0 <= i < width ==> (Bit(v, i) <==> Bit(w, i))
    ensures v == w
  {
    if width != 0 {
      forall i | 0 <= i < width - 1 ensures Bit(v / 2, i) <==> Bit(w / 2, i) {
        assert Bit(v, i + 1) <==> Bit(w, i + 1);
      }
      SameBits(v / 2, w / 2, width - 1);
      assert Bit(v, 0) <==> Bit(w, 0);
    }
  }

  // The mask ~0 << k selects exactly the bits from k up.
  function MaskFrom(k: nat): nat
    requires k <= 32
  {
    Pow2Mono(k, 32);
    Pow2(32) - Pow2(k)
  }

  lemma {:induction false} HighMaskBit(width: nat, k: nat, i: nat)
    requires k <= width && i < width
    ensures Pow2(k) <= Pow2(width)
    ensures Bit(Pow2(width) - Pow2(k), i) <==> k <= i
  {
    Pow2Mono(k, width);
    if k == 0 {
      NotBit(width, 0, i);
      BitOfZero(i);
    } else {
      Pow2Mono(k - 1, width - 1);
      assert (Pow2(width) - Pow2(k)) / 2 == Pow2(width - 1) - Pow2(k - 1);
      if i != 0 {
        HighMaskBit(width - 1, k - 1, i - 1);
      }
    }
  }

  lemma MaskedBit(w: nat, k: nat, i: nat)
    requires k <= 32 && i < 32
    ensures Bit(And(w, MaskFrom(k)), i) <==> Bit(w, i) && k <= i
  {
    hide And, Bit, Pow2;
    AndBit(w, MaskFrom(k), i);
    HighMaskBit(32, k, i);
  }

  // Masking with ~(2^k - 1) rounds down to a multiple of 2^k.
  // And with mask clears what is below d.
  ghost predicate Clears(x: nat, mask: nat, d: nat)
    requires d >= 1
  {
    And(x, mask) == x - x % d
  }

  lemma RoundDownStep(x: nat, p: nat, d: nat, mask: nat)
    requires p >= 1 && d == 2 * p && mask % 2 == 0 && Clears(x / 2, mask / 2, p)
    ensures Clears(x, mask, d)
  {
    AndStep(x, mask);
    hide And;
    HalfMod(x, p);
  }

  lemma HighMaskHalves(width: nat, k: nat)
    requires 0 < k <= width
    ensures Pow2(k) == 2 * Pow2(k - 1) <= Pow2(width) == 2 * Pow2(width - 1) && Pow2(k - 1) <= Pow2(width - 1)
    ensures var mask := Not(width, Pow2(k) - 1);
            mask % 2 == 0 && mask / 2 == Not(width - 1, Pow2(k - 1) - 1)
  {
    hide Pow2;
    Pow2Mono(k - 1, width - 1);
    Pow2Step(k);
    Pow2Step(width);
  }

  lemma {:induction false} AndHighMask(x: nat, width: nat, k: nat)
    requires k <= width && x < Pow2(width)
    ensures Pow2(k) <= Pow2(width)
    ensures Clears(x, Not(width, Pow2(k) - 1), Pow2(k))
  {
    hide And, Pow2, Not, Clears;
    Pow2Mono(k, width);
    if k == 0 {
      NoLowMask(x, width);
    } else {
      HighMaskHalves(width, k);
      AndHighMask(x / 2, width - 1, k - 1);
      RoundDownStep(x, Pow2(k - 1), Pow2(k), Not(width, Pow2(k) - 1));
    }
  }

  lemma NoLowMask(x: nat, width: nat)
    requires x < Pow2(width)
    ensures Clears(x, Not(width, Pow2(0) - 1), Pow2(0))
  {
    AndAllOnes(x, width);
  }

  lemma {:induction false} AndAllOnes(x: nat, width: nat)
    requires x < Pow2(width)
    ensures And(x, Pow2(width) - 1) == x
  {
    if x != 0 {
      AndAllOnes(x / 2, width - 1);
      assert (Pow2(width) - 1) / 2 == Pow2(width - 1) - 1;
    }
  }

  lemma AndStep(a: nat, b: nat)
    ensures And(a, b) == 2 * And(a / 2, b / 2) + (if a % 2 == 1 && b % 2 == 1 then 1 else 0)
  {
  }

  lemma HalfMod(x: nat, d: nat)
    requires d >= 1
    ensures x % (2 * d) == 2 * (x / 2 % d) + x % 2
  {
    var q := x / 2 / d;
    var r := x / 2 % d;
    assert x == 2 * (d * q + r) + x % 2;
    assert x == 2 * d * q + (2 * r + x % 2);
    DivModUnique(x, 2 * d, q, 2 * r + x % 2);
  }

  lemma {:induction false} MulMono(d: nat, a: nat, b: nat)
    requires a <= b
    ensures d * a <= d * b
  {
    if a < b {
      MulMono(d, a, b - 1);
      assert d * b == d * (b - 1) + d;
    }
  }

  lemma DivModUnique(x: nat, d: nat, q: nat, r: nat)
    requires d >= 1 && x == d * q + r && r < d
    ensures x / d == q && x % d == r
  {
    var q', r' := x / d, x % d;
    assert x == d * q' + r' && r' < d;
    if q > q' {
      MulMono(d, q' + 1, q);
    } else if q < q' {
      MulMono(d, q + 1, q');
    }
  }

  // ---------------------------------------------------------------- fls

  // Fls is floor(log2): the defining bounds, which determine it.
  lemma FlsStep(n: nat)
    requires n > 0
    ensures Fls(n) == 1 + Fls(n / 2) && Fls(1) == 0
  {
  }

  lemma {:induction false} FlsBounds(n: nat)
    requires n > 0
    ensures Fls(n) >= 0 && Pow2(Fls(n)) <= n < Pow2(Fls(n) + 1)
  {
    hide Fls, Pow2;
    FlsStep(n);
    Pow2Values();
    if n > 1 {
      FlsBounds(n / 2);
      Pow2Step(Fls(n));
      Pow2Step(Fls(n) + 1);
    }
  }

  lemma FlsUnique(n: nat, f: nat)
    requires Pow2(f) <= n < Pow2(f + 1)
    ensures Fls(n) == f
  {
    FlsBounds(n);
    if Fls(n) < f {
      Pow2Mono(Fls(n) + 1, f);
    } else if f < Fls(n) {
      Pow2Mono(f + 1, Fls(n));
    }
  }

  lemma FlsDouble(m: nat)
    requires m > 0
    ensures Fls(2 * m) == Fls(m) + 1
  {
    assert 2 * m / 2 == m;
  }

  lemma MulTwo(n: nat, p: nat)
    ensures n * (2 * p) == 2 * (n * p)
  {
  }

  lemma {:induction false} FlsShift(n: nat, k: nat)
    requires n > 0
    ensures n * Pow2(k) > 0 && Fls(n * Pow2(k)) == Fls(n) + k
  {
    if k == 0 {
      assert n * Pow2(k) == n;
    } else {
      FlsShift(n, k - 1);
      MulTwo(n, Pow2(k - 1));
      FlsDouble(n * Pow2(k - 1));
    }
  }

  // tlsf_fls_generic: one plus the index of the highest set bit.  A test such as
  // !(word & 0xffff0000) on a 32-bit word asks whether its upper bits are zero.
  method FlsGeneric(w: nat) returns (bit: int)
    requires w < TWO_32
    ensures bit == Fls(w) + 1
  {
    hide Fls, Pow2;
    var word := w;
    bit := 32;
    Pow2Values();
    if word == 0 { bit := bit - 1; }
    if word / 0x1_0000 == 0 { ShiftStep(word, 16, 0x1_0000); word, bit := word * 0x1_0000, bit - 16; }
    if word / 0x100_0000 == 0 { ShiftStep(word, 8, 0x100); word, bit := word * 0x100, bit - 8; }
    if word / 0x1000_0000 == 0 { ShiftStep(word, 4, 0x10); word, bit := word * 0x10, bit - 4; }
    if word / 0x4000_0000 == 0 { ShiftStep(word, 2, 4); word, bit := word * 4, bit - 2; }
    if word / 0x8000_0000 == 0 { ShiftStep(word, 1, 2); word, bit := word * 2, bit - 1; }
    if word != 0 {
      FlsUnique(word, 31);
    }
  }

  // Shifting a non-zero word left moves its highest set bit along.
  lemma ShiftStep(word: nat, k: nat, factor: nat)
    requires factor == Pow2(k)
    ensures word != 0 ==> Fls(word * factor) == Fls(word) + k
  {
    if word != 0 {
      FlsShift(word, k);
    }
  }

  // tlsf_fls
  method FlsWord(word: nat) returns (r: int)
    requires word < TWO_32
    ensures r == Fls(word)
  {
    var bit := FlsGeneric(word);
    r := bit - 1;
  }

  lemma HighPart(size: nat, lo: nat, hi: nat)
    requires lo <= size / TWO_32 < hi
    ensures TWO_32 * lo <= size < TWO_32 * hi
  {
  }

  // tlsf_fls_sizet
  method FlsSizet(size: nat) returns (bits: int)
    requires size < TWO_64
    ensures bits == Fls(size)
  {
    hide Fls, Pow2;
    var high := size / TWO_32;
    bits := 0;
    if high != 0 {
      var f := FlsWord(high);
      bits := 32 + f;
      Pow2Values();
      FlsBounds(high);
      Pow2Add(32, f);
      Pow2Add(32, f + 1);
      HighPart(size, Pow2(f), Pow2(f + 1));
      FlsUnique(size, 32 + f);
    } else {
      bits := FlsWord(size % TWO_32);
    }
  }

  // ---------------------------------------------------------------- ffs

  function LowestBit(w: nat): (i: nat)
    requires w > 0
    ensures Bit(w, i) && forall j :: 0 <= j < i ==> !Bit(w, j)
  {
    if w % 2 == 1 then 0 else
      var i := 1 + LowestBit(w / 2);
      assert forall j :: 0 < j < i ==> !Bit(w / 2, j - 1) ==> !Bit(w, j);
      i
  }

  // x and its complement share no bit.
  lemma {:induction false} AndComplement(x: nat, width: nat)
    requires x < Pow2(width)
    ensures And(x, Not(width, x)) == 0
  {
    var y := Not(width, x);
    if x != 0 && y != 0 {
      assert y / 2 == Not(width - 1, x / 2) && y % 2 == 1 - x % 2;
      AndComplement(x / 2, width - 1);
    }
  }

  // word & (~word + 1) isolates the lowest set bit.
  lemma {:induction false} IsolateLowest(w: nat, width: nat)
    requires 0 < w < Pow2(width)
    ensures And(w, Pow2(width) - w) == Pow2(LowestBit(w))
  {
    var m := Pow2(width) - w;
    if w % 2 == 1 {
      assert m % 2 == 1 && m / 2 == Not(width - 1, w / 2);
      AndComplement(w / 2, width - 1);
    } else {
      assert m % 2 == 0 && m / 2 == Pow2(width - 1) - w / 2;
      IsolateLowest(w / 2, width - 1);
    }
  }

  // tlsf_ffs: the index of the lowest set bit, -1 if there is none.
  method Ffs(word: nat) returns (r: int)
    requires word < TWO_32
    ensures word == 0 ==> r == -1
    ensures word != 0 ==> 0 <= r < 32 && Bit(word, r) && forall j :: 0 <= j < r ==> !Bit(word, j)
  {
    hide And, Pow2, Fls;
    Pow2Values();
    var isolated := And(word, (Not(32, word) + 1) % TWO_32);
    r := FlsWord(isolated);
    if word != 0 {
      IsolateLowest(word, 32);
      var i := LowestBit(word);
      Pow2Step(i + 1);
      FlsUnique(isolated, i);
      NonZeroBit(word, i);
      if i >= 32 {
        Pow2Mono(32, i);
      }
    }
  }
}
