// tlsf_memalign: the alignment gap always fits, and the result is aligned.
module Aligned {
  import opened Bits
  import opened SizeClass
  import opened Heap
  import opened Policy

  // Byte addresses stay below this.
  const TWO_62: nat := 0x4000_0000_0000_0000

  lemma Pow2At61()
    ensures 2 * Pow2(61) == TWO_62
  {
    Pow2Values();
    Pow2Add(61, 3);
  }

  predicate Multiple(x: nat, d: nat) {
    d >= 1 && x % d == 0
  }

  lemma MulAssoc(a: nat, b: nat, c: nat)
    ensures a * b * c == a * (b * c)
  {
  }

  lemma FactorOfMultiple(x: nat, f: nat)
    requires f >= 1 && Multiple(x, 8 * f)
    ensures x % 8 == 0
  {
    var q := x / (8 * f);
    assert x == 8 * f * q;
    MulAssoc(8, f, q);
    DivModUnique(x, 8, f * q, 0);
  }

  lemma MultipleOfEight(x: nat, k: nat)
    requires k >= 3 && Multiple(x, Pow2(k))
    ensures x % 8 == 0
  {
    Pow2Values();
    Pow2Add(3, k - 3);
    FactorOfMultiple(x, Pow2(k - 3));
  }

  lemma MultiplesApart(a: nat, b: nat, d: nat)
    requires Multiple(a, d) && Multiple(b, d) && a <= b < a + d
    ensures a == b
  {
    DivModUnique(b, d, a / d, b - a);
  }

  lemma NextMultiple(a: nat, d: nat)
    requires Multiple(a, d)
    ensures Multiple(a + d, d)
  {
    assert a + d == d * (a / d + 1);
    DivModUnique(a + d, d, a / d + 1, 0);
  }

  lemma AlignUpMultiple(x: nat, k: nat)
    requires k < 64 && x + Pow2(k) <= TWO_64
    ensures 0 < Pow2(k) <= TWO_64
    ensures var r := AlignUp(x, Pow2(k)); Multiple(r, Pow2(k)) && x <= r < x + Pow2(k)
  {
    AlignUpLeast(x, k);
  }

  // The step that tlsf_memalign takes when the first gap is too small.
  function Offset(gap: nat, align: nat): nat
    requires gap < BLOCK_HEADER_SIZE
  {
    if BLOCK_HEADER_SIZE - gap > align then BLOCK_HEADER_SIZE - gap else align
  }

  // From an aligned address it reaches the next boundary, or the second one for 16-byte alignment.
  lemma NextAligned(aligned: nat, gap: nat, k: nat)
    requires 3 < k < 62 && Multiple(aligned, Pow2(k)) && aligned < TWO_62
    requires 0 < gap < BLOCK_HEADER_SIZE && gap % 8 == 0 && gap < Pow2(k)
    ensures 16 <= Pow2(k) <= TWO_64
    ensures var r := AlignUp(aligned + Offset(gap, Pow2(k)), Pow2(k));
            Multiple(r, Pow2(k)) && r == aligned + (if Offset(gap, Pow2(k)) == Pow2(k) then Pow2(k) else 32)
  {
    hide AlignUp, Pow2, Multiple;
    Pow2Values();
    Pow2Mono(4, k);
    Pow2Mono(k, 61);
    Pow2At61();
    var offset := Offset(gap, Pow2(k));
    AlignUpMultiple(aligned + offset, k);
    if offset == Pow2(k) {
      NextMultiple(aligned, Pow2(k));
      MultiplesApart(aligned + offset, AlignUp(aligned + offset, Pow2(k)), Pow2(k));
    } else {
      assert k == 4 by {
        if k > 4 {
          Pow2Mono(5, k);
        }
      }
      SixteenApart(aligned, AlignUp(aligned + offset, Pow2(k)));
    }
  }

  lemma SixteenApart(a: nat, r: nat)
    requires Multiple(a, 16) && Multiple(r, 16) && a + 24 <= r < a + 40
    ensures r == a + 32
  {
  }

  // The gap is empty or has room for a free block, ends at an aligned
  // address, and is at most align + 24 bytes.
  lemma GapBounds(ptr: nat, k: nat)
    requires 3 < k < 62 && ptr % 8 == 0 && ptr + Pow2(k) < TWO_62
    ensures 0 < Pow2(k) <= TWO_64
    ensures var gap := AlignGap(ptr, Pow2(k));
            && (gap == 0 || gap >= BLOCK_HEADER_SIZE) && gap <= Pow2(k) + 24
            && gap % 8 == 0 && Multiple(ptr + gap, Pow2(k))
  {
    hide AlignUp, Pow2, Multiple;
    Pow2Values();
    Pow2Mono(4, k);
    AlignUpMultiple(ptr, k);
    MultipleOfEight(AlignUp(ptr, Pow2(k)), k);
    if 0 < AlignUp(ptr, Pow2(k)) - ptr < BLOCK_HEADER_SIZE {
      SecondGap(ptr, k);
    }
  }

  lemma EvenGap(r: nat, ptr: nat)
    requires r % 8 == 0 && ptr % 8 == 0 && ptr <= r
    ensures (r - ptr) % 8 == 0
  {
  }

  lemma SecondGap(ptr: nat, k: nat)
    requires 3 < k < 62 && ptr % 8 == 0 && ptr + Pow2(k) < TWO_62
    requires 16 <= Pow2(k) <= TWO_64
    requires var aligned := AlignUp(ptr, Pow2(k));
             Multiple(aligned, Pow2(k)) && aligned % 8 == 0 && 0 < aligned - ptr < BLOCK_HEADER_SIZE &&
                 aligned - ptr < Pow2(k)
    ensures var gap := AlignGap(ptr, Pow2(k));
            && BLOCK_HEADER_SIZE <= gap <= Pow2(k) + 24
            && gap % 8 == 0 && Multiple(ptr + gap, Pow2(k))
  {
    hide AlignUp, Pow2, Multiple, AlignGap;
    var aligned := AlignUp(ptr, Pow2(k));
    var r := AlignUp(aligned + Offset(aligned - ptr, Pow2(k)), Pow2(k));
    EvenGap(aligned, ptr);
    NextAligned(aligned, aligned - ptr, k);
    MultipleOfEight(r, k);
    EvenGap(r, ptr);
    GapStep(ptr, Pow2(k));
    GapSize(ptr, aligned, r, Pow2(k));
    assert ptr + (r - ptr) == r;
  }

  lemma GapStep(ptr: nat, align: nat)
    requires 0 < align <= TWO_64 && 0 < AlignUp(ptr, align) - ptr < BLOCK_HEADER_SIZE
    ensures var aligned := AlignUp(ptr, align);
            AlignGap(ptr, align) == AlignUp(aligned + Offset(aligned - ptr, align), align) - ptr
  {
    hide AlignUp;
  }

  lemma GapSize(ptr: nat, aligned: nat, r: nat, align: nat)
    requires 0 < aligned - ptr < BLOCK_HEADER_SIZE && aligned - ptr < align && (aligned - ptr) % 8 == 0 && align >= 16
    requires r == aligned + (if Offset(aligned - ptr, align) == align then align else 32)
    ensures BLOCK_HEADER_SIZE <= r - ptr <= align + 24
  {
    var g := (aligned - ptr) / 8;
    assert aligned - ptr == 8 * g && 1 <= g <= 3;
  }

  lemma SmallPowers(ptr: nat, k: nat)
    requires k <= 3 && ptr % 8 == 0
    ensures 1 <= Pow2(k) <= 8 && Multiple(ptr, Pow2(k))
  {
    Pow2Values();
    assert Pow2(0) == 1;
    hide Pow2;
    assert k == 0 || k == 1 || k == 2 || k == 3;
    assert ptr == 8 * (ptr / 8);
  }

  // A payload starts at a multiple of 8, so for a small alignment there is no gap to leave.
  lemma SmallAlignment(ptr: nat, k: nat)
    requires k <= 3 && ptr % 8 == 0 && ptr < TWO_62
    ensures 0 < Pow2(k) <= 8 && AlignGap(ptr, Pow2(k)) == 0 && Multiple(ptr, Pow2(k))
  {
    hide AlignUp, Pow2, Multiple;
    Pow2Values();
    SmallPowers(ptr, k);
    AlignUpMultiple(ptr, k);
    MultiplesApart(ptr, AlignUp(ptr, Pow2(k)), Pow2(k));
  }

  // r is the first place for an aligned payload in a block whose payload starts
  // at ptr: at ptr itself, or behind room for a free block.
  ghost predicate LeastAligned(ptr: nat, r: nat, align: nat) {
    && Multiple(r, align) && (r == ptr || r >= ptr + BLOCK_HEADER_SIZE)
    && forall a: nat {:trigger Multiple(a, align)} ::
         Multiple(a, align) && (a == ptr || a >= ptr + BLOCK_HEADER_SIZE) ==> r <= a
  }

  // The gap is the least one that leaves no room or enough of it.
  lemma GapLeast(ptr: nat, k: nat)
    requires k < 62 && ptr % 8 == 0 && ptr + Pow2(k) < TWO_62
    ensures 0 < Pow2(k) <= TWO_64 && AlignGap(ptr, Pow2(k)) >= 0
    ensures LeastAligned(ptr, ptr + AlignGap(ptr, Pow2(k)), Pow2(k))
  {
    hide AlignUp, Pow2, Multiple, AlignGap;
    if k <= 3 {
      SmallAlignment(ptr, k);
    } else {
      GapBounds(ptr, k);
      var r := ptr + AlignGap(ptr, Pow2(k));
      forall a: nat | Multiple(a, Pow2(k)) && (a == ptr || a >= ptr + BLOCK_HEADER_SIZE) ensures r <= a {
        GapBelow(ptr, k, a);
      }
    }
  }

  lemma GapBelow(ptr: nat, k: nat, a: nat)
    requires 3 < k < 62 && ptr % 8 == 0 && ptr + Pow2(k) < TWO_62
    requires Multiple(a, Pow2(k)) && (a == ptr || a >= ptr + BLOCK_HEADER_SIZE)
    ensures 0 < Pow2(k) <= TWO_64 && ptr + AlignGap(ptr, Pow2(k)) <= a
  {
    hide AlignUp, Pow2, Multiple, AlignGap;
    Pow2Values();
    Pow2Mono(4, k);
    AlignUpMultiple(ptr, k);
    MultipleOfEight(AlignUp(ptr, Pow2(k)), k);
    var aligned := AlignUp(ptr, Pow2(k));
    if a < aligned {
      MultiplesApart(a, aligned, Pow2(k));
    }
    if 0 < aligned - ptr < BLOCK_HEADER_SIZE {
      EvenGap(aligned, ptr);
      NextAligned(aligned, aligned - ptr, k);
      GapStep(ptr, Pow2(k));
      FarMultiple(aligned, a, k, ptr);
    } else {
      GapDirect(ptr, Pow2(k));
    }
  }

  lemma GapDirect(ptr: nat, align: nat)
    requires 0 < align <= TWO_64 && !(0 < AlignUp(ptr, align) - ptr < BLOCK_HEADER_SIZE)
    ensures AlignGap(ptr, align) == AlignUp(ptr, align) - ptr
  {
    hide AlignUp;
  }

  // A multiple that is not the first one is a whole alignment further, or two if
  // one does not give enough room.
  lemma FarMultiple(aligned: nat, a: nat, k: nat, ptr: nat)
    requires 3 < k && 16 <= Pow2(k) && Multiple(aligned, Pow2(k)) && Multiple(a, Pow2(k)) && aligned <= a
    requires 0 < aligned - ptr < BLOCK_HEADER_SIZE && aligned - ptr < Pow2(k) && (aligned - ptr) % 8 == 0
    requires a >= ptr + BLOCK_HEADER_SIZE
    ensures a >= aligned + (if Offset(aligned - ptr, Pow2(k)) == Pow2(k) then Pow2(k) else 32)
  {
    hide Pow2, Multiple;
    if a < aligned + Pow2(k) {
      MultiplesApart(aligned, a, Pow2(k));
    }
    if Offset(aligned - ptr, Pow2(k)) != Pow2(k) {
      assert k == 4 by {
        if k > 4 {
          Pow2Values();
          Pow2Mono(5, k);
        }
      }
      Pow2Values();
      SixteenFar(aligned, a, ptr);
    }
  }

  lemma SixteenFar(aligned: nat, a: nat, ptr: nat)
    requires Multiple(aligned, 16) && Multiple(a, 16) && a >= ptr + 32
    requires 0 < aligned - ptr < 16 && (aligned - ptr) % 8 == 0
    ensures a >= aligned + 32
  {
    assert aligned - ptr == 8;
  }

  // ---------------------------------------------------------------- the request

  lemma Pow2Below32(k: nat)
    requires Pow2(k) < BLOCK_SIZE_MAX
    ensures k < 32
  {
    Pow2Values();
    if k >= 32 {
      Pow2Mono(32, k);
    }
  }

  // A positive answer to tlsf_memalign's search leaves room for the request,
  // the alignment and one block header.
  lemma RequestRoom(k: nat, size: nat)
    requires 3 < k < 64 && AdjustRequest(size, 8) != 0
    ensures 0 < Pow2(k) <= TWO_64
    ensures var w := AlignedRequest(Pow2(k), size);
            w != 0 ==> 8 * w >= AdjustRequest(size, 8) + Pow2(k) + 32 && Pow2(k) < BLOCK_SIZE_MAX
  {
    hide AlignUp, Pow2, Multiple;
    Pow2AtMost(k);
    Pow2Values();
    Pow2Mono(4, k);
    AdjustedRequest(size);
    var x := AdjustRequest(size, 8) + Pow2(k) + BLOCK_HEADER_SIZE;
    if x < BLOCK_SIZE_MAX {
      AlignUpMultiple(x, k);
      MultipleOfEight(AlignUp(x, Pow2(k)), k);
    }
  }

  // What tlsf_memalign searches for: the adjusted request, or for an alignment
  // above 8 the least multiple of it that holds the request, the alignment and a
  // block header, unless that is 2^32 or more.
  lemma AlignedWords(k: nat, size: nat)
    requires k < 64
    ensures 0 < Pow2(k) <= TWO_64
    ensures var bytes, x := 8 * AlignedRequest(Pow2(k), size), AdjustRequest(size, 8) + Pow2(k) + 32;
            if k <= 3 then bytes == AdjustRequest(size, 8)
            else if x >= BLOCK_SIZE_MAX then bytes == 0
            else Multiple(bytes, Pow2(k)) && x <= bytes < x + Pow2(k)
  {
    hide AlignUp, Pow2, Multiple;
    Pow2AtMost(k);
    Pow2Values();
    AdjustedRequest(size);
    if k <= 3 {
      Pow2Mono(k, 3);
    } else {
      Pow2Mono(4, k);
      var x := AdjustRequest(size, 8) + Pow2(k) + BLOCK_HEADER_SIZE;
      if x < BLOCK_SIZE_MAX {
        AlignUpMultiple(x, k);
        MultipleOfEight(AlignUp(x, Pow2(k)), k);
      }
    }
  }

  // Addresses are such that byte arithmetic does not leave the address space.
  ghost predicate Addressable(t: Tiling) {
    forall a :: a in t ==> 8 * a < TWO_62 / 2
  }

  // For every power of two and every request that adjusts to a size, a
  // successful tlsf_memalign returns an aligned payload with room for the
  // request, keeps the invariant, and never runs into block_can_split's refusal.
  lemma MemalignInv(h: State, k: nat, size: nat)
    requires 0 < Pow2(k) <= TWO_64 && Fits(AlignedRequest(Pow2(k), size))
    requires Inv(h, {}) && Addressable(h.t) && k < 64 && (AdjustRequest(size, 8) != 0 || k <= 3)
    ensures var m := Memalign(h, Pow2(k), size);
            && Inv(m.h, {})
            && (m.b == NULL ==> m.h == h)
            && (m.b != NULL ==>
                  && m.b in m.h.t && !m.h.t[m.b].free && 8 * m.h.t[m.b].words >= AdjustRequest(size, 8)
                  && Multiple(8 * (m.b + 2), Pow2(k)))
  {
    RequestCases(k, size);
    hide *;
    var w := AlignedRequest(Pow2(k), size);
    LocateEither(h, w);
    if LocateFree(h, w).b != NULL {
      MemalignFound(h, k, size);
    } else {
      MemalignNone(h, Pow2(k), size);
    }
  }

  lemma RequestCases(k: nat, size: nat)
    requires k < 64 && (AdjustRequest(size, 8) != 0 || k <= 3)
    ensures 0 < Pow2(k) <= TWO_64
    ensures AdjustRequest(size, 8) % 8 == 0
    ensures var w, n := AlignedRequest(Pow2(k), size), AdjustRequest(size, 8) / 8;
            w != 0 ==> n >= 3 && if k <= 3 then w == n else 8 * w >= 8 * n + Pow2(k) + 32 && Pow2(k) < BLOCK_SIZE_MAX
  {
    hide AlignUp, Pow2, Multiple, AdjustRequest;
    Pow2AtMost(k);
    AdjustedRequest(size);
    Pow2Values();
    if k <= 3 {
      Pow2Mono(k, 3);
    } else {
      RequestRoom(k, size);
    }
  }

  lemma LocateEither(h: State, w: nat)
    requires Fits(w) && Inv(h, {})
    ensures LocateFree(h, w).b != NULL ==> w != 0
    ensures LocateFree(h, w).b == NULL ==> LocateFree(h, w).h == h
  {
    hide Inv;
    if w != 0 {
      LocateFacts(h, w);
    }
  }

  lemma MemalignNone(h: State, align: nat, size: nat)
    requires 0 < align <= TWO_64 && Fits(AlignedRequest(align, size))
    requires LocateFree(h, AlignedRequest(align, size)) == Outcome(h, NULL)
    ensures Memalign(h, align, size) == Outcome(h, NULL)
  {
  }

  lemma MemalignFound(h: State, k: nat, size: nat)
    requires Inv(h, {}) && Addressable(h.t) && k < 64 && 0 < Pow2(k) <= TWO_64
    requires var w, n := AlignedRequest(Pow2(k), size), AdjustRequest(size, 8) / 8;
             && Fits(w) && w != 0 && n >= 3 && LocateFree(h, w).b != NULL
             && (if k <= 3 then w == n else 8 * w >= 8 * n + Pow2(k) + 32 && Pow2(k) < BLOCK_SIZE_MAX)
    ensures var m := Memalign(h, Pow2(k), size);
            && Inv(m.h, {}) && m.b != NULL
            && m.b in m.h.t && !m.h.t[m.b].free && m.h.t[m.b].words >= AdjustRequest(size, 8) / 8
            && Multiple(8 * (m.b + 2), Pow2(k))
  {
    hide AlignUp, Pow2, Multiple, Inv, AlignedRequest, AdjustRequest, LocateFree, TrimLeading;
    var w, n := AlignedRequest(Pow2(k), size), AdjustRequest(size, 8) / 8;
    LocateFacts(h, w);
    LocateInv(h, w);
    var l := LocateFree(h, w);
    FreeAlone(h, l.b);
    PrevBelow(h, {}, l.b);
    assert l.h.t == h.t;
    GapFits(h.t, l.b, k, n);
    var gap := AlignGap(8 * (l.b + 2), Pow2(k));
    hide AlignGap;
    if gap >= 8 {
      TrimLeadingInv(l.h, l.b, gap / 8);
      TrimLeadingShape(l.h, l.b, gap / 8);
      var m := TrimLeading(l.h, l.b, gap / 8);
      Finish(m.h, m.b, n);
    } else {
      Finish(l.h, l.b, n);
    }
  }

  // The payload it returns is at the first place for it in the block located.
  lemma MemalignLeast(h: State, k: nat, size: nat)
    requires 0 < Pow2(k) <= TWO_64 && Fits(AlignedRequest(Pow2(k), size))
    requires Inv(h, {}) && Addressable(h.t) && k < 64 && (AdjustRequest(size, 8) != 0 || k <= 3)
    ensures var l, m := LocateFree(h, AlignedRequest(Pow2(k), size)), Memalign(h, Pow2(k), size);
            (m.b == NULL <==> l.b == NULL) &&
            (m.b != NULL ==> LeastAligned(8 * (l.b + 2), 8 * (m.b + 2), Pow2(k)))
  {
    hide Inv, Pow2, AlignedRequest, AdjustRequest, LocateFree, TrimLeading, PrepareUsed, AlignGap, Addressable,
         Memalign, Multiple, CanSplit, LeastAligned;
    var w, n := AlignedRequest(Pow2(k), size), AdjustRequest(size, 8) / 8;
    MemalignSteps(h, Pow2(k), size, w, n);
    LocateEither(h, w);
    var l := LocateFree(h, w);
    if l.b != NULL {
      RequestCases(k, size);
      LocateFacts(h, w);
      GapFits(h.t, l.b, k, n);
      PlaceLeast(h.t, l.b, k);
      var gap := AlignGap(8 * (l.b + 2), Pow2(k));
      if gap >= 8 {
        LeadingPlace(l.h, l.b, gap / 8);
      }
    }
  }

  lemma PlaceLeast(t: Tiling, b: nat, k: nat)
    requires Addressable(t) && b in t && k < 64 && 0 < Pow2(k) <= TWO_64 && (k <= 3 || Pow2(k) < BLOCK_SIZE_MAX)
    ensures AlignGap(8 * (b + 2), Pow2(k)) >= 0
    ensures LeastAligned(8 * (b + 2), 8 * (b + 2) + AlignGap(8 * (b + 2), Pow2(k)), Pow2(k))
  {
    hide Pow2, AlignGap, LeastAligned;
    if k > 3 {
      Pow2Below32(k);
    }
    Pow2Values();
    Pow2Mono(k, 32);
    GapLeast(8 * (b + 2), k);
  }

  lemma LeadingPlace(h: State, b: nat, gap: nat)
    requires gap > 0 && CanSplit(h.t, b, gap)
    ensures TrimLeading(h, b, gap).b == b + gap
  {
  }

  lemma Finish(h: State, b: nat, n: nat)
    requires Inv(h, {b}) && b in h.t && h.t[b].free && h.t[b].words >= n >= 3 && !At(h.t, Next(h.t, b)).free
    ensures var h' := PrepareUsed(h, b, n);
            Inv(h', {}) && b in h'.t && !h'.t[b].free && h'.t[b].words >= n
  {
    hide Inv;
    PrepareUsedInv(h, b, n);
    TrimFreeShape(h, {b}, b, n);
  }

  // The block found has room for the gap, a header and the request, whatever the gap.
  lemma GapFits(t: Tiling, b: nat, k: nat, n: nat)
    requires Addressable(t) && b in t && k < 64 && 0 < Pow2(k) <= TWO_64 && n >= 3
    requires if k <= 3 then t[b].words >= n else 8 * t[b].words >= 8 * n + Pow2(k) + 32 && Pow2(k) < BLOCK_SIZE_MAX
    ensures var gap := AlignGap(8 * (b + 2), Pow2(k));
            && Multiple(8 * (b + 2) + gap, Pow2(k))
            && (gap == 0 ==> t[b].words >= n)
            && (gap != 0 ==> gap >= 32 && gap % 8 == 0 && CanSplit(t, b, gap / 8) && t[b].words - gap / 8 >= n)
  {
    hide AlignUp, Pow2, Multiple;
    if k <= 3 {
      SmallAlignment(8 * (b + 2), k);
    } else {
      Pow2Below32(k);
      GapBounds(8 * (b + 2), k);
    }
  }

  // tlsf_memalign in terms of its steps.
  lemma MemalignSteps(h: State, align: nat, size: nat, w: nat, n: nat)
    requires 0 < align <= TWO_64 && w == AlignedRequest(align, size) && Fits(w) && n == AdjustRequest(size, 8) / 8
    ensures var l, r := LocateFree(h, w), Memalign(h, align, size);
            && (l.b == NULL ==> r.b == NULL)
            && (l.b != NULL ==>
                  var gap := AlignGap(8 * (l.b + 2), align);
                  var m := if gap >= 8 then TrimLeading(l.h, l.b, gap / 8) else l;
                  r == Outcome(PrepareUsed(m.h, m.b, n), m.b))
  {
    hide LocateFree, TrimLeading, PrepareUsed, AlignGap, AlignedRequest, AdjustRequest;
  }
}
