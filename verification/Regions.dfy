/**
  The region bitmap of a small run: a sequence of 32-bit words in which a set bit
  marks a free region.  Words are numbers; bit `i` of `w` is the i-th binary digit.
 */
module Regions {
  import opened Prelude

  const BITS := 32

  /** Is bit `i` of `w` set? */
  predicate Bit(w: nat, i: nat)
    decreases i
  {
    if i == 0 then w % 2 == 1 else Bit(w / 2, i - 1)
  }

  /** `ffs(w) - 1`: the lowest set bit. */
  function LowestBit(w: nat): (i: nat)
    requires w > 0
    ensures Bit(w, i) && forall j: nat :: j < i ==> !Bit(w, j)
  {
    if w % 2 == 1 then 0 else
      assert forall j: nat :: j > 0 ==> (Bit(w, j) <==> Bit(w / 2, j - 1));
      1 + LowestBit(w / 2)
  }

  /** A word has no bits beyond its width. */
  lemma {:induction false} BitBound(w: nat, n: nat, i: nat)
    requires w < Pow2(n) && Bit(w, i)
    ensures i < n
    decreases n
  {
    if n == 0 {
      ZeroHasNoBits(i);
    } else if i > 0 {
      BitBound(w / 2, n - 1, i - 1);
    }
  }

  lemma {:induction false} ZeroHasNoBits(i: nat)
    ensures !Bit(0, i)
  {
    if i > 0 { ZeroHasNoBits(i - 1); }
  }

  /** `w ^ (1 << i)` when bit `i` is set. */
  lemma {:induction false} ClearBit(w: nat, i: nat, j: nat)
    requires Bit(w, i)
    ensures Pow2(i) <= w && (Bit(w - Pow2(i), j) <==> Bit(w, j) && j != i)
    decreases i
  {
    if i > 0 {
      ClearBit(w / 2, i - 1, if j > 0 then j - 1 else 0);
      assert (w - Pow2(i)) / 2 == w / 2 - Pow2(i - 1);
    } else if j > 0 {
      assert (w - 1) / 2 == w / 2;
    }
  }

  /** `w | (1 << i)` when bit `i` is clear. */
  lemma {:induction false} SetBit(w: nat, i: nat, j: nat)
    requires !Bit(w, i)
    ensures Bit(w + Pow2(i), j) <==> Bit(w, j) || j == i
    decreases i
  {
    if i > 0 {
      SetBit(w / 2, i - 1, if j > 0 then j - 1 else 0);
      assert (w + Pow2(i)) / 2 == w / 2 + Pow2(i - 1);
    } else if j > 0 {
      assert (w + 1) / 2 == w / 2;
    }
  }

  /** Setting a clear bit inside the width stays inside the width. */
  lemma {:induction false} SetBitBound(w: nat, i: nat, n: nat)
    requires !Bit(w, i) && w < Pow2(n) && i < n
    ensures w + Pow2(i) < Pow2(n)
    decreases n
  {
    if i > 0 { SetBitBound(w / 2, i - 1, n - 1); }
  }

  /** `UINT_MAX >> (32 - r)`: the low `r` bits are set, the others clear. */
  lemma {:induction false} OnesBits(r: nat, i: nat)
    ensures Pow2(r) > 0 && (Bit(Pow2(r) - 1, i) <==> i < r)
    decreases r
  {
    if r == 0 {
      ZeroHasNoBits(i);
    } else {
      PowPositive(r - 1);
      if i > 0 { OnesBits(r - 1, i - 1); }
      DoubleLess(Pow2(r - 1));
    }
  }

  lemma DoubleLess(p: nat)
    requires p > 0
    ensures (2 * p - 1) / 2 == p - 1 && (2 * p - 1) % 2 == 1
  {
  }

  /** The regions below `n`. */
  function UpTo(n: nat): (s: set<nat>)
    ensures |s| == n && forall i: nat :: i in s <==> i < n
  {
    if n == 0 then {} else assert n - 1 !in UpTo(n - 1); UpTo(n - 1) + {n - 1}
  }

  // ---------- masks ----------

  predicate Words(mask: seq<nat>) {
    forall k :: 0 <= k < |mask| ==> mask[k] < Pow2(BITS)
  }

  predicate IsFree(mask: seq<nat>, i: nat) {
    i / BITS < |mask| && Bit(mask[i / BITS], i % BITS)
  }

  /** The free regions that a mask stands for. */
  ghost function FreeRegs(mask: seq<nat>): set<nat> {
    set i: nat | i < BITS * |mask| && IsFree(mask, i)
  }

  lemma FreeIn(mask: seq<nat>, i: nat)
    ensures i in FreeRegs(mask) <==> IsFree(mask, i)
  {
  }

  /** Clearing the bit of region `i`. */
  lemma MaskClear(mask: seq<nat>, i: nat)
    requires Words(mask) && IsFree(mask, i)
    ensures Pow2(i % BITS) <= mask[i / BITS]
    ensures var mask' := mask[i / BITS := mask[i / BITS] - Pow2(i % BITS)];
            Words(mask') && FreeRegs(mask') == FreeRegs(mask) - {i}
  {
    hide Pow2, Bit;
    var e, b := i / BITS, i % BITS;
    ClearBit(mask[e], b, b);
    var mask' := mask[e := mask[e] - Pow2(b)];
    PowPositive(b);
    forall j: nat | j < BITS * |mask|
      ensures IsFree(mask', j) <==> IsFree(mask, j) && j != i
    {
      if j / BITS == e { ClearBit(mask[e], b, j % BITS); }
    }
  }

  /** Setting the bit of region `i`. */
  lemma MaskSet(mask: seq<nat>, i: nat)
    requires Words(mask) && i / BITS < |mask| && !IsFree(mask, i)
    ensures var mask' := mask[i / BITS := mask[i / BITS] + Pow2(i % BITS)];
            Words(mask') && FreeRegs(mask') == FreeRegs(mask) + {i}
  {
    hide Pow2, Bit;
    var e, b := i / BITS, i % BITS;
    var mask' := mask[e := mask[e] + Pow2(b)];
    SetBitBound(mask[e], b, BITS);
    forall j: nat | j < BITS * |mask|
      ensures IsFree(mask', j) <==> IsFree(mask, j) || j == i
    {
      if j / BITS == e { SetBit(mask[e], b, j % BITS); }
    }
  }

  // ---------- the header of a small run ----------

  /** What `arena_bin_run_size_calc` settles for one size class (sizes in bytes). */
  datatype Bin = Bin(regSize: nat, runSize: nat, nregs: nat, nelms: nat, reg0: nat)

  datatype Header = Header(bin: nat, mask: seq<nat>, minelm: nat, nfree: nat)

  predicate BinShape(b: Bin) {
    0 < b.nregs && 0 < b.nelms && b.nregs <= BITS * b.nelms && BITS * (b.nelms - 1) < b.nregs
  }

  /** The mask, the hint and the count agree with one set of free regions. */
  ghost predicate HeaderOk(h: Header, b: Bin) {
    && Words(h.mask) && |h.mask| == b.nelms && BinShape(b)
    && (forall i :: i in FreeRegs(h.mask) ==> i < b.nregs)
    && h.minelm < b.nelms && (forall k :: 0 <= k < h.minelm ==> h.mask[k] == 0)
    && h.nfree == |FreeRegs(h.mask)|
  }

  /** The mask of a new run: all regions free, spare bits of the last word unset. */
  method InitMask(b: Bin) returns (mask: seq<nat>)
    requires BinShape(b)
    ensures Words(mask) && |mask| == b.nelms
    ensures FreeRegs(mask) == UpTo(b.nregs)
  {
    hide Pow2, Bit;
    mask := [];
    PowPositive(BITS);
    while |mask| < b.nelms - 1
      invariant |mask| <= b.nelms - 1
      invariant forall k :: 0 <= k < |mask| ==> mask[k] == Pow2(BITS) - 1
    {
      mask := mask + [Pow2(BITS) - 1];
    }
    var remainder := b.nregs % BITS;
    var r := if remainder == 0 then BITS else remainder;
    PowPositive(r);
    PowMonotone(r, BITS);
    mask := mask + [Pow2(r) - 1];
    forall i: nat | i < BITS * |mask|
      ensures IsFree(mask, i) <==> i < b.nregs
    {
      OnesBits(BITS, i % BITS);
      OnesBits(r, i % BITS);
    }
  }

  /** `arena_run_reg_alloc` together with the decrement of `nfree`. */
  method RegAlloc(h: Header, b: Bin) returns (h': Header, regind: nat)
    requires HeaderOk(h, b) && h.nfree > 0
    ensures regind in FreeRegs(h.mask) && forall i :: i in FreeRegs(h.mask) ==> regind <= i
    ensures HeaderOk(h', b) && h'.bin == h.bin && h'.nfree == h.nfree - 1
    ensures FreeRegs(h'.mask) == FreeRegs(h.mask) - {regind}
  {
    hide Pow2, Bit, FreeRegs;
    var i := h.minelm;
    SomeWord(h, b);
    while h.mask[i] == 0
      invariant h.minelm <= i < b.nelms && forall k :: 0 <= k < i ==> h.mask[k] == 0
      invariant exists k :: i <= k < b.nelms && h.mask[k] != 0
      decreases b.nelms - i
    {
      i := i + 1;
    }
    var bit := LowestBit(h.mask[i]);
    BitBound(h.mask[i], BITS, bit);
    regind := BITS * i + bit;
    assert regind / BITS == i && regind % BITS == bit;
    LeastFree(h.mask, i, regind);
    MaskClear(h.mask, regind);
    h' := Header(h.bin, h.mask[i := h.mask[i] - Pow2(bit)], i, h.nfree - 1);
    Cleared(h, b, h', regind);
  }

  lemma Cleared(h: Header, b: Bin, h': Header, r: nat)
    requires HeaderOk(h, b) && r in FreeRegs(h.mask) && FreeRegs(h'.mask) == FreeRegs(h.mask) - {r}
    requires Words(h'.mask) && |h'.mask| == b.nelms && h'.minelm < b.nelms && h'.nfree == h.nfree - 1
    requires forall k :: 0 <= k < h'.minelm ==> h'.mask[k] == 0
    ensures HeaderOk(h', b)
  {
    hide Pow2, Bit, IsFree, FreeRegs;
  }

  lemma SomeWord(h: Header, b: Bin)
    requires HeaderOk(h, b) && h.nfree > 0
    ensures exists k :: h.minelm <= k < b.nelms && h.mask[k] != 0
  {
    var i :| i in FreeRegs(h.mask);
    if h.mask[i / BITS] == 0 { ZeroHasNoBits(i % BITS); }
  }

  lemma LeastFree(mask: seq<nat>, e: nat, r: nat)
    requires e < |mask| && mask[e] > 0 && r == BITS * e + LowestBit(mask[e]) && r % BITS == LowestBit(mask[e])
    requires forall k :: 0 <= k < e ==> mask[k] == 0
    ensures r in FreeRegs(mask) && forall i :: i in FreeRegs(mask) ==> r <= i
  {
    forall i | i in FreeRegs(mask)
      ensures r <= i
    {
      if i / BITS < e { ZeroHasNoBits(i % BITS); }
    }
  }

  /** The part of `arena_run_reg_dalloc` after the index is known, with the increment of `nfree`. */
  method RegFree(h: Header, b: Bin, regind: nat) returns (h': Header)
    requires HeaderOk(h, b) && regind < b.nregs && regind !in FreeRegs(h.mask)
    ensures HeaderOk(h', b) && h'.bin == h.bin && h'.nfree == h.nfree + 1
    ensures FreeRegs(h'.mask) == FreeRegs(h.mask) + {regind}
  {
    hide Pow2, Bit;
    FreeIn(h.mask, regind);
    var elm := regind / BITS;
    var minelm := if elm < h.minelm then elm else h.minelm;
    var bit := regind - elm * BITS;
    assert bit == regind % BITS;
    MaskSet(h.mask, regind);
    h' := Header(h.bin, h.mask[elm := h.mask[elm] + Pow2(bit)], minelm, h.nfree + 1);
    Restored(h, b, h', regind);
  }

  lemma Restored(h: Header, b: Bin, h': Header, r: nat)
    requires HeaderOk(h, b) && r < b.nregs && r !in FreeRegs(h.mask) && FreeRegs(h'.mask) == FreeRegs(h.mask) + {r}
    requires Words(h'.mask) && |h'.mask| == b.nelms && h'.minelm < b.nelms && h'.nfree == h.nfree + 1
    requires forall k :: 0 <= k < h'.minelm ==> h'.mask[k] == 0
    ensures HeaderOk(h', b)
  {
    hide Pow2, Bit, IsFree, FreeRegs;
  }

  /** Freeing the region just handed out restores the set of free regions. */
  method AllocThenFree(h: Header, b: Bin) returns (h': Header)
    requires HeaderOk(h, b) && h.nfree > 0
    ensures HeaderOk(h', b) && FreeRegs(h'.mask) == FreeRegs(h.mask) && h'.nfree == h.nfree
  {
    var h1, r := RegAlloc(h, b);
    h' := RegFree(h1, b, r);
  }
}
