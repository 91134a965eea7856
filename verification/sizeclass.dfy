// Request rounding and the two-level size classes of tlsf-3.0/tlsf.c
// (64-bit constants).  All sizes in this file are in bytes.
module SizeClass {
  import opened Bits

  const ALIGN_SIZE: nat := 8
  const SL_INDEX_COUNT_LOG2: nat := 5
  const SL_INDEX_COUNT: nat := 32
  const FL_INDEX_SHIFT: nat := 8
  const FL_INDEX_COUNT: nat := 25
  const SMALL_BLOCK_SIZE: nat := 256
  const BLOCK_OVERHEAD: nat := 8
  const BLOCK_HEADER_SIZE: nat := 32
  const BLOCK_SIZE_MIN: nat := 24
  const BLOCK_SIZE_MAX: nat := 0x1_0000_0000

  // A first-level and a second-level list index.
  datatype Class = Class(fl: nat, sl: nat) {
    predicate InTable() {
      fl < FL_INDEX_COUNT && sl < SL_INDEX_COUNT
    }

    // The lexicographic order in which the bitmaps are searched.
    predicate Le(that: Class) {
      fl < that.fl || (fl == that.fl && sl <= that.sl)
    }

    predicate Lt(that: Class) {
      fl < that.fl || (fl == that.fl && sl < that.sl)
    }

    // The class that follows in that order.
    function Succ(): Class {
      if sl + 1 < SL_INDEX_COUNT then Class(fl, sl + 1) else Class(fl + 1, 0)
    }

    // The sizes of a class are the interval [Lo, Lo + Width).
    function Lo(): nat {
      if fl == 0 then 8 * sl else (32 + sl) * Pow2(fl + 2)
    }

    function Width(): (w: nat)
      ensures w >= 1
    {
      if fl == 0 then 8 else Pow2(fl + 2)
    }
  }

  // align_up, align_down: align is a power of two.
  function AlignUp(x: nat, align: nat): nat
    requires 0 < align <= TWO_64
  {
    Pow2Values();
    And(x + (align - 1), Not(64, align - 1))
  }

  function AlignDown(x: nat, align: nat): nat
    requires 0 < align
  {
    x - And(x, align - 1)
  }

  // adjust_request_size: 0 for a request that is empty or too large.
  function AdjustRequest(size: nat, align: nat): nat
    requires 0 < align <= TWO_64
  {
    if size != 0 && size < BLOCK_SIZE_MAX then
      var aligned := AlignUp(size, align);
      if aligned > BLOCK_SIZE_MIN then aligned else BLOCK_SIZE_MIN
    else
      0
  }

  // mapping_insert
  function MappingInsert(size: nat): Class {
    if size < SMALL_BLOCK_SIZE then
      Class(0, size / (SMALL_BLOCK_SIZE / SL_INDEX_COUNT))
    else
      FlsOfLarge(size);
      var fl := Fls(size);
      Class(fl - (FL_INDEX_SHIFT - 1), Xor(size / Pow2(fl - SL_INDEX_COUNT_LOG2), 32))
  }

  lemma FlsAtLeast(size: nat, k: nat)
    requires size >= Pow2(k)
    ensures Fls(size) >= k
  {
    hide Fls, Pow2;
    FlsBounds(size);
    if Fls(size) + 1 <= k {
      Pow2Mono(Fls(size) + 1, k);
    }
  }

  lemma FlsOfLarge(size: nat)
    requires size >= 32
    ensures Fls(size) >= 5
    ensures size >= 256 ==> Fls(size) >= 8
  {
    hide Fls, Pow2;
    Pow2Values();
    FlsAtLeast(size, 5);
    if size >= 256 {
      FlsAtLeast(size, 8);
    }
  }

  // The size that mapping_search looks up: rounded up so that every block of
  // the class found is large enough.
  function Rounded(size: nat): (r: nat)
    ensures r >= size
  {
    if size >= 32 then
      FlsOfLarge(size);
      size + (Pow2(Fls(size) - SL_INDEX_COUNT_LOG2) - 1)
    else
      size
  }

  // mapping_search
  function MappingSearch(size: nat): Class {
    MappingInsert(Rounded(size))
  }

  // ---------------------------------------------------------------- alignment

  lemma Pow2AtMost(k: nat)
    requires k < 64
    ensures Pow2(k) < TWO_64
  {
    Pow2Mono(k, 63);
    Pow2Values();
    assert Pow2(64) == 2 * Pow2(63);
  }

  // align_up yields the least multiple of a power of two that is not below x.
  lemma AlignUpLeast(x: nat, k: nat)
    requires k < 64 && x + Pow2(k) <= TWO_64
    ensures 0 < Pow2(k) <= TWO_64
    ensures var r := AlignUp(x, Pow2(k));
            r % Pow2(k) == 0 && x <= r < x + Pow2(k)
  {
    Pow2AtMost(k);
    RoundUpMask(x, k, Pow2(k));
  }

  lemma RoundUpMask(x: nat, k: nat, align: nat)
    requires k < 64 && align == Pow2(k) && x + align <= TWO_64
    ensures align <= TWO_64
    ensures var r := AlignUp(x, align); r % align == 0 && x <= r < x + align
  {
    hide And, Pow2, Not;
    var y := x + (align - 1);
    Pow2Values();
    AndHighMask(y, 64, k);
    RoundDown(y, align);
  }

  lemma RoundDown(y: nat, d: nat)
    requires d >= 1
    ensures var r := y - y % d; r % d == 0 && r <= y < r + d
  {
    assert y == d * (y / d) + y % d;
    DivModUnique(y - y % d, d, y / d, 0);
  }

  lemma {:induction false} AndLowMask(x: nat, k: nat)
    ensures Keeps(x, Pow2(k) - 1, Pow2(k))
  {
    hide And, Pow2, Keeps;
    if k == 0 {
      KeepsNothing(x);
    } else {
      Pow2Step(k);
      AndLowMask(x / 2, k - 1);
      KeepStep(x, Pow2(k - 1), Pow2(k), Pow2(k) - 1);
    }
  }

  // And with mask keeps what is below d.
  ghost predicate Keeps(x: nat, mask: nat, d: nat)
    requires d >= 1
  {
    And(x, mask) == x % d
  }

  lemma KeepsNothing(x: nat)
    ensures Keeps(x, Pow2(0) - 1, Pow2(0))
  {
  }

  lemma KeepStep(x: nat, p: nat, d: nat, mask: nat)
    requires p >= 1 && d == 2 * p && mask == d - 1 && Keeps(x / 2, p - 1, p)
    ensures Keeps(x, mask, d)
  {
    AndStep(x, mask);
    hide And;
    HalfMod(x, p);
  }

  // align_down yields the greatest multiple of a power of two that is not above x.
  lemma AlignDownGreatest(x: nat, k: nat)
    ensures var r := AlignDown(x, Pow2(k));
            r % Pow2(k) == 0 && r <= x < r + Pow2(k)
  {
    hide And, Pow2;
    AndLowMask(x, k);
    RoundDown(x, Pow2(k));
  }

  // A request for malloc becomes the least multiple of 8 that holds it and a
  // free block's links, or 0 when it is empty or not below 2^32.
  lemma AdjustedRequest(size: nat)
    ensures var adjust := AdjustRequest(size, 8);
            && (adjust == 0 <==> size == 0 || size >= BLOCK_SIZE_MAX)
            && (adjust != 0 ==> adjust % 8 == 0 && adjust >= 24 && adjust >= size && adjust <= BLOCK_SIZE_MAX
                                && (adjust < size + 8 || adjust == 24))
  {
    Pow2Values();
    if size != 0 && size < BLOCK_SIZE_MAX {
      AlignUpLeast(size, 3);
    }
  }

  // ---------------------------------------------------------------- classes are intervals

  // Flipping bit 5 of a value in [32, 64) takes 32 off it.
  lemma XorTop(v: nat)
    requires 32 <= v < 64
    ensures Xor(v, 32) == v - 32
  {
    assert v / 32 == 1;
    assert Xor(v / 32, 1) == 0;
    assert Xor(v / 16, 2) == v / 16 - 2;
    assert Xor(v / 8, 4) == v / 8 - 4;
    assert v / 8 / 2 == v / 16 && v / 4 / 2 == v / 8 && v / 2 / 2 == v / 4;
    assert Xor(v / 4, 8) == v / 4 - 8;
    assert Xor(v / 2, 16) == v / 2 - 16;
  }

  // For a large size, mapping_insert takes the position of the top bit and the five bits below it.
  lemma LargeClass(size: nat)
    requires size >= SMALL_BLOCK_SIZE
    ensures Fls(size) >= 8
    ensures var f := Fls(size); var q := size / Pow2(f - 5);
            32 <= q < 64 && MappingInsert(size) == Class(f - 7, q - 32)
  {
    hide Fls, Pow2;
    FlsOfLarge(size);
    FlsBounds(size);
    var f := Fls(size);
    var d := Pow2(f - 5);
    Pow2Values();
    Pow2Add(5, f - 5);
    Pow2Add(6, f - 5);
    assert 32 * d <= size < 64 * d;
    DivBounds(size, d, 32, 64);
    XorTop(size / d);
  }

  lemma DivBounds(x: nat, d: nat, lo: nat, hi: nat)
    requires d >= 1 && lo * d <= x < hi * d
    ensures lo <= x / d < hi
  {
    var q := x / d;
    assert x == d * q + x % d;
    if q < lo {
      MulMono(d, q + 1, lo);
    } else if q >= hi {
      MulMono(d, hi, q);
    }
  }

  lemma DivExact(x: nat, d: nat, q: nat)
    requires d >= 1
    ensures x / d == q <==> q * d <= x < (q + 1) * d
  {
    if q * d <= x < (q + 1) * d {
      DivBounds(x, d, q, q + 1);
    } else {
      assert x == d * (x / d) + x % d;
    }
  }

  lemma InsertSecondLevel(size: nat)
    ensures MappingInsert(size).sl < SL_INDEX_COUNT
  {
    if size >= SMALL_BLOCK_SIZE {
      LargeClass(size);
    }
  }

  // mapping_insert sends a size to a class exactly when the size lies in the class's interval.
  lemma ClassInterval(size: nat, c: Class)
    requires c.sl < SL_INDEX_COUNT
    ensures MappingInsert(size) == c <==> c.Lo() <= size < c.Lo() + c.Width()
  {
    if size < SMALL_BLOCK_SIZE {
      if c.fl != 0 {
        LowestLarge(c);
      }
    } else {
      LargeClass(size);
      if c.fl != 0 {
        LargeInterval(size, c);
      }
    }
  }

  lemma LargeInterval(size: nat, c: Class)
    requires size >= SMALL_BLOCK_SIZE && c.fl != 0 && c.sl < SL_INDEX_COUNT
    ensures MappingInsert(size) == c <==> c.Lo() <= size < c.Lo() + c.Width()
  {
    LargeClass(size);
    var d := Pow2(c.fl + 2);
    Distribute(32 + c.sl, d);
    DivExact(size, d, 32 + c.sl);
    if c.fl != Fls(size) - 7 && c.Lo() <= size < c.Lo() + c.Width() {
      TopBitOfClass(size, c);
    }
  }

  lemma Distribute(a: nat, d: nat)
    ensures a * d + d == (a + 1) * d
  {
  }

  lemma TopBitOfClass(size: nat, c: Class)
    requires c.fl != 0 && c.sl < SL_INDEX_COUNT
    requires c.Lo() <= size < c.Lo() + c.Width()
    ensures Fls(size) == c.fl + 7
  {
    hide Fls, Pow2;
    var d := Pow2(c.fl + 2);
    Distribute(32 + c.sl, d);
    ClassFloor(c);
    Pow2Values();
    Pow2Add(6, c.fl + 2);
    MulMono(d, 33 + c.sl, 64);
    FlsUnique(size, c.fl + 7);
  }

  lemma LowestLarge(c: Class)
    requires c.fl != 0
    ensures c.Lo() >= SMALL_BLOCK_SIZE
  {
    Pow2Values();
    Pow2Mono(3, c.fl + 2);
    MulMono(Pow2(c.fl + 2), 32, 32 + c.sl);
  }

  // Consecutive classes meet exactly: no size is skipped and none is in two classes.
  lemma Contiguous(c: Class)
    requires c.sl < SL_INDEX_COUNT
    ensures c.Succ().Lo() == c.Lo() + c.Width()
  {
    hide Pow2;
    Pow2Values();
    if c.fl != 0 {
      var d := Pow2(c.fl + 2);
      Distribute(32 + c.sl, d);
      Pow2Step(c.fl + 3);
    }
  }

  // A lower class lies entirely below a higher one.
  lemma {:induction false} LoOrder(c: Class, d: Class)
    requires c.sl < SL_INDEX_COUNT && d.sl < SL_INDEX_COUNT && c.Lt(d)
    ensures c.Lo() + c.Width() <= d.Lo()
    decreases 32 * (d.fl - c.fl) + d.sl - c.sl
  {
    Contiguous(c);
    if c.Succ() != d {
      LoOrder(c.Succ(), d);
    }
  }

  lemma InsertBounds(size: nat)
    ensures var c := MappingInsert(size);
            c.sl < SL_INDEX_COUNT && c.Lo() <= size < c.Lo() + c.Width()
  {
    InsertSecondLevel(size);
    ClassInterval(size, MappingInsert(size));
  }

  // mapping_insert is monotone.
  lemma InsertMonotone(a: nat, b: nat)
    requires a <= b
    ensures MappingInsert(a).Le(MappingInsert(b))
  {
    InsertBounds(a);
    InsertBounds(b);
    var c, d := MappingInsert(a), MappingInsert(b);
    if !c.Le(d) {
      LoOrder(d, c);
    }
  }

  // mapping_insert stays inside the table exactly for sizes below 2^32.
  lemma InsertInTable(size: nat)
    ensures MappingInsert(size).InTable() <==> size < BLOCK_SIZE_MAX
  {
    InsertBounds(size);
    var c, top := MappingInsert(size), Class(FL_INDEX_COUNT, 0);
    Pow2Values();
    Pow2Add(5, 27);
    assert top.Lo() == BLOCK_SIZE_MAX;
    if c.InTable() {
      LoOrder(c, top);
    } else if c != top {
      LoOrder(top, c);
    }
  }

  // ---------------------------------------------------------------- good fit

  // The least size of the class that mapping_search picks is not below an aligned request.
  lemma SearchLo(size: nat)
    requires size % 8 == 0
    ensures MappingSearch(size).sl < SL_INDEX_COUNT
    ensures size <= MappingSearch(size).Lo() <= Rounded(size)
  {
    InsertBounds(Rounded(size));
    if size < SMALL_BLOCK_SIZE {
      SmallRounding(size);
    } else {
      LargeSearchLo(size);
    }
  }

  lemma LargeSearchLo(size: nat)
    requires size >= SMALL_BLOCK_SIZE
    ensures size <= MappingSearch(size).Lo()
  {
    hide Fls, Pow2, MappingInsert, Class.Lo;
    var r, c := Rounded(size), MappingSearch(size);
    InsertBounds(r);
    LargeClass(size);
    var _ := LargeClassTop(r);
    FlsMonotone(size, r);
    if Fls(r) > Fls(size) {
      RoundedPast(size, r, c);
    } else {
      RoundedWithin(size, Fls(size), r, c);
    }
  }

  lemma LargeClassTop(size: nat) returns (f: nat)
    requires size >= SMALL_BLOCK_SIZE
    ensures f == Fls(size) && f >= 8 && MappingInsert(size).fl == f - 7
  {
    LargeClass(size);
    f := Fls(size);
  }

  // Rounding that reaches the next power of two.
  lemma RoundedPast(size: nat, r: nat, c: Class)
    requires size > 0 && c.fl != 0 && c.fl == Fls(r) - 7
    requires Fls(r) > Fls(size)
    ensures size <= c.Lo()
  {
    FlsBounds(size);
    Pow2Mono(Fls(size) + 1, Fls(r));
    ClassFloor(c);
  }

  // Rounding that stays below it: all classes there have the width that was added.
  lemma RoundedWithin(size: nat, f: nat, r: nat, c: Class)
    requires f >= 8 && r == size + Pow2(f - 5) - 1
    requires c.fl == f - 7 && r < c.Lo() + c.Width()
    ensures size <= c.Lo()
  {
  }

  // No size of a large class is below the power of two that the class subdivides.
  lemma ClassFloor(c: Class)
    requires c.fl != 0
    ensures Pow2(c.fl + 7) <= c.Lo()
  {
    Pow2Values();
    Pow2Add(5, c.fl + 2);
    MulMono(Pow2(c.fl + 2), 32, 32 + c.sl);
  }

  lemma FlsMonotone(a: nat, b: nat)
    requires 0 < a <= b
    ensures Fls(a) <= Fls(b)
  {
    FlsBounds(a);
    FlsBounds(b);
    if Fls(b) < Fls(a) {
      Pow2Mono(Fls(b) + 1, Fls(a));
    }
  }

  // A small aligned request is not rounded out of its class.
  lemma SmallRounding(size: nat)
    requires size % 8 == 0 && size < SMALL_BLOCK_SIZE
    ensures Rounded(size) < size + 4 && MappingSearch(size) == Class(0, size / 8)
  {
    hide Fls, Pow2;
    if size >= 32 {
      FlsOfLarge(size);
      FlsBounds(size);
      Pow2Values();
      if Fls(size) >= 8 {
        Pow2Mono(8, Fls(size));
      }
      Pow2Mono(Fls(size) - 5, 2);
    }
  }

  // mapping_search is exact: the classes whose blocks are all large enough for an
  // aligned request are the class it returns and those above it, and no other.
  lemma SearchExact(size: nat, c: Class)
    requires size % 8 == 0 && c.sl < SL_INDEX_COUNT
    ensures size <= c.Lo() <==> MappingSearch(size).Le(c)
  {
    SearchLo(size);
    var d := MappingSearch(size);
    if d.Le(c) {
      if d != c {
        LoOrder(d, c);
      }
    } else {
      LoOrder(c, d);
      if size < SMALL_BLOCK_SIZE {
        SmallRounding(size);
      } else {
        LowerClassTooSmall(size, c);
      }
    }
  }

  lemma LowerClassTooSmall(size: nat, c: Class)
    requires size >= SMALL_BLOCK_SIZE && c.sl < SL_INDEX_COUNT
    requires c.Lo() + c.Width() <= Rounded(size)
    ensures c.Lo() < size
  {
    hide Fls, MappingInsert, Pow2;
    var f := LargeClassTop(size);
    if c.fl < f - 7 {
      LoOrder(c, Class(f - 7, 0));
      ClassFloor(Class(f - 7, 0));
      FlsBounds(size);
      assert Class(f - 7, 0).Lo() == 32 * Pow2(f - 5);
      Pow2Values();
      Pow2Add(5, f - 5);
    } else {
      Pow2Mono(f - 5, c.fl + 2);
      Pow2Values();
    }
  }

  // Good fit: a block in the class found, or in a higher one, is large enough.
  lemma GoodFit(request: nat, size: nat)
    requires request % 8 == 0 && MappingSearch(request).Le(MappingInsert(size))
    ensures request <= size
  {
    InsertBounds(size);
    SearchExact(request, MappingInsert(size));
  }

  // Bounded rounding: a block of at least the rounded size is always found.
  lemma RoundedFits(request: nat, size: nat)
    requires Rounded(request) <= size
    ensures MappingSearch(request).Le(MappingInsert(size))
  {
    InsertMonotone(Rounded(request), size);
  }

  // The rounding adds less than 1/32 of the request.
  lemma RoundingLoss(size: nat)
    ensures size > 0 ==> 32 * (Rounded(size) - size) < size
    ensures size == 0 ==> Rounded(size) == 0
  {
    if size >= 32 {
      FlsOfLarge(size);
      FlsBounds(size);
      Pow2Values();
      Pow2Add(5, Fls(size) - 5);
    }
  }

  // The largest request whose search stays inside the table: 2^32 - 2^26.
  const LARGEST_REQUEST: nat := 0xFC00_0000

  // mapping_search leaves the table for larger requests; nothing in tlsf.c checks it.
  lemma SearchInTable(size: nat)
    requires size % 8 == 0 && size <= BLOCK_SIZE_MAX
    ensures MappingSearch(size).InTable() <==> size <= LARGEST_REQUEST
  {
    hide Pow2, Fls, MappingInsert, Class.InTable;
    InsertInTable(Rounded(size));
    Pow2Values();
    if size >= 0x8000_0000 {
      if size < BLOCK_SIZE_MAX {
        FlsUnique(size, 31);
        Pow2Add(16, 10);
        Pow2Add(5, 5);
      }
    } else {
      RoundingLoss(size);
    }
  }

  // A request that malloc accepts and that indexes first-level row 25 of a table with 25 rows.
  lemma LargeRequestLeavesTable()
    ensures AdjustRequest(0xFC00_0001, 8) == 0xFC00_0008
    ensures MappingSearch(0xFC00_0008).fl == FL_INDEX_COUNT
  {
    hide AlignUp, Pow2, Fls;
    Pow2Values();
    AlignUpLeast(0xFC00_0001, 3);
    FlsUnique(0xFC00_0008, 31);
    Pow2Add(16, 10);
    Pow2Add(5, 5);
    Pow2Step(33);
    var r := Rounded(0xFC00_0008);
    FlsUnique(r, 32);
    LargeClass(r);
  }

  // ---------------------------------------------------------------- pools

  // align_down(bytes - pool_overhead, 8), in 64-bit arithmetic.
  function PoolBytes(bytes: nat): nat
    requires bytes < TWO_64
  {
    AlignDown((bytes + TWO_64 - 16) % TWO_64, 8)
  }

  // The tests of tlsf_add_pool.
  predicate PoolAccepted(addr: nat, bytes: nat)
    requires bytes < TWO_64
  {
    addr % 8 == 0 && BLOCK_SIZE_MIN <= PoolBytes(bytes) <= BLOCK_SIZE_MAX
  }

  // On the arguments themselves: aligned memory of 40 bytes and more, up to 2^32 + 23.
  lemma PoolAcceptedExactly(addr: nat, bytes: nat)
    requires bytes < TWO_64
    ensures PoolAccepted(addr, bytes) <==> addr % 8 == 0 && 40 <= bytes < 0x1_0000_0018
    ensures bytes >= 16 ==> PoolBytes(bytes) / 8 == (bytes - 16) / 8
  {
    hide PoolBytes;
    PoolBytesAligned(bytes);
  }

  lemma PoolBytesAligned(bytes: nat)
    requires bytes < TWO_64
    ensures PoolBytes(bytes) % 8 == 0
    ensures bytes >= 16 ==> bytes - 16 - 8 < PoolBytes(bytes) <= bytes - 16
    ensures bytes < 16 ==> PoolBytes(bytes) > BLOCK_SIZE_MAX
  {
    hide AlignDown, Pow2;
    Pow2Values();
    AlignDownGreatest((bytes + TWO_64 - 16) % TWO_64, 3);
    if bytes >= 16 {
      assert (bytes + TWO_64 - 16) % TWO_64 == bytes - 16;
    }
  }
}
