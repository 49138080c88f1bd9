/**
  How a small run is laid out (`arena_bin_run_size_calc`), and how the index of a
  region is recovered from its distance to the first one (`arena_run_reg_dalloc`).
 */
module RunLayout {
  import opened Prelude
  import opened Regions

  const RUN_BFP := 12
  const RUN_MAX_OVRHD := 0x3d
  const RUN_MAX_OVRHD_RELAX := 0x1800
  const RUN_MAX_SMALL := 32768
  const WORD_BYTES := 4

  /** Mask words needed for `n` regions. */
  function MaskWords(n: nat): nat { n / BITS + if n % BITS != 0 then 1 else 0 }

  /** The header, whose size `header` includes one mask word, leaves room for `n` regions. */
  predicate HeaderFits(header: nat, regSize: nat, runSize: nat, n: nat) {
    header + WORD_BYTES * (MaskWords(n) - 1) + n * regSize <= runSize
  }

  /** Regions fill the run from its end; the header fits before the first one. */
  predicate LayoutOk(b: Bin, header: nat) {
    && BinShape(b) && 0 < b.regSize && b.reg0 + b.nregs * b.regSize == b.runSize
    && header + WORD_BYTES * (b.nelms - 1) <= b.reg0
  }

  lemma MaskWordsCover(n: nat)
    requires 0 < n
    ensures 0 < MaskWords(n) && n <= BITS * MaskWords(n) && BITS * (MaskWords(n) - 1) < n
  {
  }

  /** Start with what fits without a mask, and drop regions until the mask fits too. */
  method FitRegions(runSize: nat, regSize: nat, header: nat) returns (nregs: nat, nelms: nat, reg0: nat)
    requires 0 < regSize && header + regSize <= runSize
    ensures 0 < nregs && nelms == MaskWords(nregs) && reg0 + nregs * regSize == runSize
    ensures HeaderFits(header, regSize, runSize, nregs)
    // No larger number of regions would fit.
    ensures forall n: nat :: n > nregs ==> !HeaderFits(header, regSize, runSize, n)
  {
    hide MaskWords;
    nregs := (runSize - header) / regSize;
    FirstTry(runSize - header, regSize);
    forall n: nat | n > nregs
      ensures !HeaderFits(header, regSize, runSize, n)
    {
      TooMany(runSize - header, regSize, nregs, n);
    }
    nelms := MaskWords(nregs);
    OneWord();
    while header + WORD_BYTES * (nelms - 1) > runSize - nregs * regSize
      invariant 0 < nregs && nelms == MaskWords(nregs)
      invariant forall n: nat :: n > nregs ==> !HeaderFits(header, regSize, runSize, n)
      decreases nregs
    {
      assert nregs != 1;
      nregs := nregs - 1;
      nelms := MaskWords(nregs);
    }
    MaskWordsCover(nregs);
    reg0 := runSize - nregs * regSize;
  }

  lemma OneWord()
    ensures MaskWords(1) == 1
  {
  }

  lemma FirstTry(room: nat, regSize: nat)
    requires 0 < regSize <= room
    ensures 0 < room / regSize
  {
    var q := room / regSize;
    assert regSize * q == room - room % regSize;
    assert regSize * q > 0;
  }

  lemma TooMany(room: nat, regSize: nat, most: nat, n: nat)
    requires 0 < regSize && most == room / regSize && n > most
    ensures n * regSize > room && MaskWords(n) >= 1
  {
    hide MaskWords;
    assert room == regSize * most + room % regSize;
    MulMono(most + 1, n, regSize);
    Distribute(most, 1, regSize);
    MaskWordsCover(n);
  }

  /** The greatest number of at most `n` regions that fits, if any does. */
  function MostRegs(header: nat, regSize: nat, runSize: nat, n: nat): nat {
    if n == 0 || HeaderFits(header, regSize, runSize, n) then n else MostRegs(header, regSize, runSize, n - 1)
  }

  lemma {:induction false} MostIs(header: nat, regSize: nat, runSize: nat, n: nat, most: nat)
    requires most <= n && HeaderFits(header, regSize, runSize, most)
    requires forall k: nat :: k > most ==> !HeaderFits(header, regSize, runSize, k)
    ensures MostRegs(header, regSize, runSize, n) == most
    decreases n
  {
    if n > most { MostIs(header, regSize, runSize, n - 1, most); }
  }

  lemma FewRegs(regSize: nat, runSize: nat, n: nat)
    requires 0 < regSize && n * regSize <= runSize
    ensures n <= runSize
  {
    MulMono(1, regSize, n);
  }

  /** Regions of a run of `run` bytes, and the offset of the first one. */
  function Regs(header: nat, regSize: nat, run: nat): nat { MostRegs(header, regSize, run, run) }

  function Reg0(header: nat, regSize: nat, run: nat): int { run - Regs(header, regSize, run) * regSize }

  /** The search goes on after trying `run` bytes: the limits are kept, and the share of the run
      before its first region is still more than 61 / 4096, which is only asked of classes of
      more than 12 bytes. */
  predicate GoesOn(header: nat, regSize: nat, maxClass: nat, run: nat) {
    && run <= maxClass && run <= 32768 && 61 * 8 * regSize > 6144
    && Reg0(header, regSize, run) * 4096 > 61 * run
  }

  /** Every size from `least` up to `run`, page by page, let the search go on. */
  ghost predicate Reached(header: nat, regSize: nat, page: nat, maxClass: nat, least: nat, run: nat)
    requires 0 < page
    decreases run
  {
    run == least
    || (least + page <= run && GoesOn(header, regSize, maxClass, run)
        && Reached(header, regSize, page, maxClass, least, run - page))
  }

  /** The layout that the search settles on, from runs of `least` bytes on: the one before the
      first that ends it. */
  ghost predicate SettledOn(b: Bin, header: nat, page: nat, maxClass: nat, least: nat) {
    && 0 < page && b.nregs == Regs(header, b.regSize, b.runSize) && b.reg0 == Reg0(header, b.regSize, b.runSize)
    && b.nelms == MaskWords(b.nregs)
    && Reached(header, b.regSize, page, maxClass, least, b.runSize)
    && !GoesOn(header, b.regSize, maxClass, b.runSize + page)
  }

  lemma FitIsMost(header: nat, regSize: nat, run: nat, n: nat, reg0: nat)
    requires 0 < regSize && HeaderFits(header, regSize, run, n) && 0 < n && reg0 + n * regSize == run
    requires forall k: nat :: k > n ==> !HeaderFits(header, regSize, run, k)
    ensures n == Regs(header, regSize, run) && reg0 == Reg0(header, regSize, run)
  {
    hide MaskWords, HeaderFits;
    FewRegs(regSize, run, n);
    MostIs(header, regSize, run, run, n);
  }

  lemma ConstantsAre()
    ensures Pow2(RUN_BFP) == 4096 && RUN_MAX_OVRHD == 61 && RUN_MAX_OVRHD_RELAX == 6144 && RUN_MAX_SMALL == 32768
  {
    PowAdd(6, 6);
    assert Pow2(6) == 64;
  }

  /** The best layout of a run of `run` bytes. */
  ghost predicate Fitted(b: Bin, header: nat, regSize: nat, run: nat) {
    && LayoutOk(b, header) && b.regSize == regSize && b.runSize == run && b.nelms == MaskWords(b.nregs)
    && b.nregs == Regs(header, regSize, run) && b.reg0 == Reg0(header, regSize, run)
    && forall n: nat :: n > b.nregs ==> !HeaderFits(header, regSize, run, n)
  }

  method TryRun(run: nat, regSize: nat, header: nat) returns (b: Bin)
    requires 0 < regSize && header + regSize <= run
    ensures Fitted(b, header, regSize, run)
  {
    hide MaskWords, HeaderFits, LayoutOk, Regs, Reg0;
    var nregs, nelms, reg0 := FitRegions(run, regSize, header);
    Laid(header, regSize, run, nregs, nelms, reg0);
    FitIsMost(header, regSize, run, nregs, reg0);
    b := Bin(regSize, run, nregs, nelms, reg0);
  }

  /** The condition of the search loop, on the layout just tried. */
  predicate Continues(b: Bin, maxClass: nat) {
    && b.runSize <= maxClass && b.runSize <= RUN_MAX_SMALL
    && RUN_MAX_OVRHD * (b.regSize * 8) > RUN_MAX_OVRHD_RELAX
    && b.reg0 * Pow2(RUN_BFP) > RUN_MAX_OVRHD * b.runSize
  }

  lemma ContinuesIs(b: Bin, header: nat, maxClass: nat)
    requires Fitted(b, header, b.regSize, b.runSize)
    ensures Continues(b, maxClass) <==> GoesOn(header, b.regSize, maxClass, b.runSize)
  {
    hide MaskWords, HeaderFits, LayoutOk, Regs, Reg0, Pow2;
    ConstantsAre();
  }

  /** `arena_bin_run_size_calc`; `maxClass` is `arena_maxclass`, sizes are in bytes. */
  method RunSizeCalc(regSize: nat, minRunSize: nat, header: nat, pageSize: nat, maxClass: nat) returns (b: Bin)
    requires 0 < regSize && 0 < pageSize && header + regSize <= minRunSize
    requires minRunSize % pageSize == 0 && minRunSize <= maxClass && minRunSize <= RUN_MAX_SMALL
    ensures LayoutOk(b, header) && b.regSize == regSize
    ensures minRunSize <= b.runSize <= maxClass && b.runSize <= RUN_MAX_SMALL && b.runSize % pageSize == 0
    ensures forall n: nat :: n > b.nregs ==> !HeaderFits(header, regSize, b.runSize, n)
    ensures SettledOn(b, header, pageSize, maxClass, minRunSize)
  {
    hide MaskWords, HeaderFits, LayoutOk, Regs, Reg0, Continues, GoesOn;
    var next := TryRun(minRunSize, regSize, header);
    b := next;
    var more := true;
    while more
      invariant Fitted(b, header, regSize, b.runSize) && Fitted(next, header, regSize, next.runSize)
      invariant minRunSize <= b.runSize <= maxClass && b.runSize <= RUN_MAX_SMALL && b.runSize % pageSize == 0
      invariant minRunSize <= next.runSize && next.runSize % pageSize == 0
      invariant more ==> next.runSize <= maxClass && next.runSize <= RUN_MAX_SMALL
      invariant more ==> Reached(header, regSize, pageSize, maxClass, minRunSize, next.runSize)
      invariant !more ==> SettledOn(b, header, pageSize, maxClass, minRunSize)
      decreases more, RUN_MAX_SMALL - next.runSize
    {
      // The last layout that was tried is good.
      b := next;
      AddPage(b.runSize, pageSize);
      next := TryRun(b.runSize + pageSize, regSize, header);
      more := Continues(next, maxClass);
      ContinuesIs(next, header, maxClass);
      Limits(next, maxClass);
    }
  }

  lemma Limits(b: Bin, maxClass: nat)
    ensures Continues(b, maxClass) ==> b.runSize <= maxClass && b.runSize <= RUN_MAX_SMALL
  {
  }

  lemma Laid(header: nat, regSize: nat, run: nat, nregs: nat, nelms: nat, reg0: nat)
    requires 0 < regSize && 0 < nregs && nelms == MaskWords(nregs) && reg0 + nregs * regSize == run
    requires HeaderFits(header, regSize, run, nregs)
    ensures LayoutOk(Bin(regSize, run, nregs, nelms, reg0), header)
  {
    MaskWordsCover(nregs);
  }

  lemma AddPage(n: nat, p: nat)
    requires 0 < p && n % p == 0
    ensures (n + p) % p == 0
  {
    assert n == p * (n / p);
    assert n + p == (n / p + 1) * p;
    Decompose(n / p + 1, 0, p);
  }

  /** A region is aligned to every divisor of the region size that divides the end of the run. */
  lemma RegionAligned(base: nat, b: Bin, header: nat, i: nat, a: nat)
    requires LayoutOk(b, header) && i < b.nregs && 0 < a && b.regSize % a == 0 && (base + b.runSize) % a == 0
    ensures (base + b.reg0 + i * b.regSize) % a == 0
  {
    var k := b.nregs - i;
    Distribute(k, i, b.regSize);
    MulSign(i, b.regSize);
    AlignedFromEnd(base + b.reg0 + i * b.regSize, base + b.runSize, k, b.regSize, a);
  }

  lemma AlignedFromEnd(x: int, end: int, k: int, size: int, a: int)
    requires 0 < a && size % a == 0 && end % a == 0 && x + k * size == end && 0 <= x
    ensures x % a == 0
  {
    var q, e := size / a, end / a;
    BackFrom(a, e, k, q);
    NonNegative(e - k * q, a);
    Decompose(e - k * q, 0, a);
  }

  lemma BackFrom(a: int, e: int, k: int, q: int)
    ensures a * e - k * (a * q) == (e - k * q) * a
  {
  }

  lemma NonNegative(x: int, a: nat)
    requires 0 < a && 0 <= x * a
    ensures 0 <= x
  {
  }

  // ---------- the index of a region ----------

  const TWO_21 := 0x20_0000

  /** `SIZE_INV` of a class of `size` bytes. */
  function SizeInv(size: nat): nat
    requires 0 < size
  {
    TWO_21 / size + 1
  }

  /** The entry of `log2_table` for the divisor `n`: its logarithm if it is a power of two. */
  function Log2Entry(n: nat): nat {
    if n == 2 then 1 else if n == 4 then 2 else if n == 8 then 3 else if n == 16 then 4
    else if n == 32 then 5 else if n == 64 then 6 else if n == 128 then 7 else 0
  }

  /** `x >> k`. */
  function Shr(x: nat, k: nat): nat
    decreases k
  {
    if k == 0 then x else Shr(x / 2, k - 1)
  }

  lemma {:induction false} ShrDivides(x: nat, k: nat)
    ensures Pow2(k) > 0 && Shr(x, k) == x / Pow2(k)
    decreases k
  {
    PowPositive(k);
    if k > 0 {
      ShrDivides(x / 2, k - 1);
      HalveThenDivide(x, Pow2(k - 1));
    }
  }

  lemma HalveThenDivide(x: nat, p: nat)
    requires 0 < p
    ensures (x / 2) / p == x / (2 * p)
  {
    var q, r := x / (2 * p), x % (2 * p);
    assert x == 2 * (p * q) + r;
    assert x / 2 == q * p + r / 2;
    assert q == Quot(x, 2 * p);
    Decompose(q, r / 2, p);
  }

  /** Entries in `size_invs`, for the platform's `QUANTUM_2POW_MIN`. */
  function InvEntries(quantumMin2: nat): nat { if quantumMin2 < 4 then 61 else 29 }

  /** `(n & (n - 1)) == 0`. */
  predicate IsPower(n: nat) { n == 1 || (n > 0 && n % 2 == 0 && IsPower(n / 2)) }

  function Log2(n: nat): (e: nat)
    requires IsPower(n)
    ensures Pow2(e) == n
  {
    if n == 1 then 0 else 1 + Log2(n / 2)
  }

  /** The index as it is computed, with 32-bit arithmetic. */
  function RegIndex(size: nat, diff: nat, quantumMin2: nat): nat
    requires IsPower(size) || Pow2(quantumMin2) <= size
  {
    PowPositive(quantumMin2);
    if IsPower(size) then
      if size <= 128 then Shr(diff, Log2Entry(size))
      else if size <= 32768 then Shr(diff, 8 + Log2Entry(size / 256))
      else Quot(diff, size)
    else if size <= InvEntries(quantumMin2) * Pow2(quantumMin2) + 2 then
      InvProduct(TableInv(size, quantumMin2), diff)
    else
      Quot(diff, size)
  }

  /** The entry of `size_invs` at index `(size >> QUANTUM_2POW_MIN) - 3`. */
  function TableInv(size: nat, quantumMin2: nat): nat
    requires Pow2(quantumMin2) <= size
  {
    PowPositive(quantumMin2);
    FirstTry(size, Pow2(quantumMin2));
    SizeInv(Quot(size, Pow2(quantumMin2)) * Pow2(quantumMin2))
  }

  /** The 32-bit product, shifted right by `SIZE_INV_SHIFT`. */
  function InvProduct(inv: nat, diff: nat): nat { ((inv * diff) % TWO_32) / TWO_21 }

  lemma TableEntry(e: nat)
    requires e <= 7
    ensures Pow2(e) <= 128 && Log2Entry(Pow2(e)) == e
  {
    assert Pow2(1) == 2 && Pow2(2) == 4 && Pow2(3) == 8 && Pow2(4) == 16;
    assert Pow2(5) == 32 && Pow2(6) == 64 && Pow2(7) == 128;
  }

  /** Multiplying by the rounded-up reciprocal and shifting divides exactly, and the
      product does not overflow 32 bits. */
  lemma ReciprocalExact(size: nat, k: nat)
    requires 17 <= size && k * size < RUN_MAX_SMALL
    ensures SizeInv(size) * (k * size) < TWO_32
    ensures (SizeInv(size) * (k * size)) / TWO_21 == k
  {
    var e := size - TWO_21 % size;
    InvTimes(size);
    Rescale(SizeInv(size), k, size, e);
    MulMono(17, size, k);
    MulMono(e, size, k);
    MulSign(e, k);
    Decompose(k, k * e, TWO_21);
  }

  lemma InvTimes(size: nat)
    requires 0 < size
    ensures SizeInv(size) * size == TWO_21 + (size - TWO_21 % size)
  {
    Distribute(TWO_21 / size, 1, size);
  }

  lemma Rescale(inv: int, k: int, size: int, e: int)
    requires inv * size == TWO_21 + e
    ensures inv * (k * size) == k * TWO_21 + k * e
  {
    assert inv * (k * size) == k * (inv * size);
    Distribute(TWO_21, e, k);
  }

  lemma PowerIndex(size: nat, diff: nat, quantumMin2: nat)
    requires IsPower(size)
    ensures size > 0 && RegIndex(size, diff, quantumMin2) == diff / size
  {
    hide Pow2, IsPower, Shr, Log2Entry, InvProduct, TableInv;
    PowerNonzero(size);
    var e := Log2(size);
    if size <= 128 {
      SmallPower(e);
      TableEntry(e);
      ShrDivides(diff, e);
    } else if size <= 32768 {
      PowerBound(e);
      PowAdd(e - 8, 8);
      Decompose(Pow2(e - 8), 0, 256);
      TableEntry(e - 8);
      ShrDivides(diff, e);
    }
  }

  lemma SmallPower(e: nat)
    requires Pow2(e) <= 128
    ensures e <= 7
  {
    assert Pow2(8) == 256;
    if e > 7 { PowMonotone(8, e); }
  }

  lemma PowerBound(e: nat)
    requires 128 < Pow2(e) <= 32768
    ensures 8 <= e <= 15 && 256 <= Pow2(e) && Pow2(8) == 256
  {
    assert Pow2(7) == 128 && Pow2(8) == 256;
    assert Pow2(16) == 65536 by { PowAdd(8, 8); }
    if e <= 7 { PowMonotone(e, 7); }
    if e >= 16 { PowMonotone(16, e); }
    PowMonotone(8, e);
  }

  lemma ExactMultiple(size: nat, p: nat)
    requires 0 < p && size % p == 0
    ensures Quot(size, p) * p == size
  {
  }

  lemma InvIndex(size: nat, k: nat, quantumMin2: nat)
    requires Pow2(quantumMin2) > 0 && size % Pow2(quantumMin2) == 0 && Pow2(quantumMin2) <= size && 17 <= size
    requires k * size < RUN_MAX_SMALL
    ensures InvProduct(TableInv(size, quantumMin2), k * size) == k
  {
    hide Pow2, SizeInv;
    ExactMultiple(size, Pow2(quantumMin2));
    ReciprocalExact(size, k);
    Reduced(SizeInv(size), k * size);
  }

  lemma Reduced(inv: nat, diff: nat)
    requires inv * diff < TWO_32
    ensures InvProduct(inv, diff) == (inv * diff) / TWO_21
  {
    MulSign(inv, diff);
  }

  /** The computed index is the quotient, for every size class and every distance that
      occurs in a run. */
  lemma RegIndexExact(size: nat, k: nat, quantumMin2: nat)
    requires IsPower(size) || (Pow2(quantumMin2) > 0 && size % Pow2(quantumMin2) == 0
        && Pow2(quantumMin2) <= size && 17 <= size)
    requires k * size < RUN_MAX_SMALL
    ensures RegIndex(size, k * size, quantumMin2) == k
  {
    hide Pow2, IsPower, InvProduct, TableInv, Shr, Log2Entry;
    if IsPower(size) {
      PowerIndex(size, k * size, quantumMin2);
      PowerNonzero(size);
      Decompose(k, 0, size);
    } else {
      Decompose(k, 0, size);
      InvIndex(size, k, quantumMin2);
    }
  }

  lemma PowerNonzero(size: nat)
    requires IsPower(size)
    ensures size > 0
  {
  }
}
