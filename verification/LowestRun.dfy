/**
  The comment in `arena_dalloc_small` that `runcur` always refers to the lowest
  non-full run of its bin, if there is one: what each operation on a bin does to it.
 */
module LowestRun {
  import opened Prelude
  import opened PageMap
  import R = Regions
  import opened SmallRuns

  /** All runs of the bin that have a free region. */
  ghost function AllNonFull(hdrs: Headers, b: nat): set<Page> { NonFull(hdrs, None, b) }

  /** `runcur` is the lowest non-full run, if there is a non-full run. */
  ghost predicate Lowest(hdrs: Headers, cur: Option<Page>, b: nat) {
    forall q :: q in AllNonFull(hdrs, b) ==>
      cur.Some? && cur.value in AllNonFull(hdrs, b) && (cur.value == q || Before(cur.value, q))
  }

  // ---------- handing out a region ----------

  /** The current run has room for one more region only, and another run has room too. */
  ghost predicate TakeLoses(hdrs: Headers, p: Page, b: nat) {
    p in hdrs && hdrs[p].nfree == 1 && NonFull(hdrs, Some(p), b) != {}
  }

  lemma TakeKeeps(hdrs: Headers, p: Page, h: R.Header, b: nat)
    requires Lowest(hdrs, Some(p), b) && p in hdrs && hdrs[p].bin == b == h.bin && h.nfree + 1 == hdrs[p].nfree
    ensures Lowest(hdrs[p := h], Some(p), b) <==> !TakeLoses(hdrs, p, b)
  {
    var hdrs' := hdrs[p := h];
    assert AllNonFull(hdrs, b) == NonFull(hdrs, Some(p), b) + {p};
    assert AllNonFull(hdrs', b) == NonFull(hdrs, Some(p), b) + if h.nfree > 0 then {p} else {};
    if TakeLoses(hdrs, p, b) {
      var q :| q in NonFull(hdrs, Some(p), b);
      assert q in AllNonFull(hdrs', b) && p !in AllNonFull(hdrs', b);
    }
  }

  /** A run that becomes current when no run of the bin has a free region. */
  lemma NewKeeps(hdrs: Headers, p: Page, h: R.Header, b: nat)
    requires AllNonFull(hdrs, b) == {}
    ensures Lowest(hdrs[p := h], Some(p), b)
  {
    assert AllNonFull(hdrs[p := h], b) <= AllNonFull(hdrs, b) + {p};
  }

  // ---------- giving a region back ----------

  /** `runcur` after a region of the run `p`, which stays allocated, has come back. */
  function CurAfter(hdrs: Headers, cur: Option<Page>, p: Page): Option<Page> {
    if p in hdrs && hdrs[p].nfree == 0 && (cur.None? || Before(p, cur.value)) then Some(p) else cur
  }

  /** A full run gets a free region while the current run is full and lower. */
  ghost predicate ReturnLoses(hdrs: Headers, cur: Option<Page>, p: Page) {
    && p in hdrs && hdrs[p].nfree == 0 && cur.Some? && cur.value in hdrs && hdrs[cur.value].nfree == 0
    && Before(cur.value, p)
  }

  lemma ReturnKeeps(hdrs: Headers, cur: Option<Page>, p: Page, h: R.Header, b: nat)
    requires Lowest(hdrs, cur, b) && CurOk(hdrs, cur, b)
    requires p in hdrs && hdrs[p].bin == b == h.bin && h.nfree == hdrs[p].nfree + 1
    ensures Lowest(hdrs[p := h], CurAfter(hdrs, cur, p), b) <==> !ReturnLoses(hdrs, cur, p)
  {
    var hdrs', cur' := hdrs[p := h], CurAfter(hdrs, cur, p);
    assert AllNonFull(hdrs', b) == AllNonFull(hdrs, b) + {p};
    if ReturnLoses(hdrs, cur, p) {
      assert cur.value !in AllNonFull(hdrs', b) && p in AllNonFull(hdrs', b);
    } else {
      forall q | q in AllNonFull(hdrs', b)
        ensures cur'.Some? && cur'.value in AllNonFull(hdrs', b) && (cur'.value == q || Before(cur'.value, q))
      {
        assert q != p ==> q in AllNonFull(hdrs, b);
        assert hdrs[p].nfree > 0 ==> p in AllNonFull(hdrs, b);
        assert cur.Some? && hdrs[cur.value].nfree > 0 ==> cur.value in AllNonFull(hdrs, b);
      }
    }
  }

  /** The completely free run that goes was current, and another run has room. */
  ghost predicate ReleaseLoses(hdrs: Headers, cur: Option<Page>, p: Page, b: nat) {
    cur == Some(p) && NonFull(hdrs, cur, b) != {}
  }

  lemma ReleaseKeeps(hdrs: Headers, cur: Option<Page>, p: Page, b: nat)
    requires Lowest(hdrs, cur, b) && CurOk(hdrs, cur, b) && p in hdrs && hdrs[p].bin == b
    ensures Lowest(hdrs - {p}, if cur == Some(p) then None else cur, b) <==> !ReleaseLoses(hdrs, cur, p, b)
  {
    assert AllNonFull(hdrs - {p}, b) == AllNonFull(hdrs, b) - {p};
    if cur == Some(p) { assert AllNonFull(hdrs - {p}, b) == NonFull(hdrs, cur, b); }
  }

  // ---------- states in which it is lost ----------

  /** Runs of two regions. */
  function Pair(): R.Bin { R.Bin(16, 4096, 2, 1, 4064) }

  function Full(): R.Header { R.Header(0, [0], 0, 0) }
  function OneFree(): R.Header { R.Header(0, [1], 0, 1) }

  lemma PairHeaders()
    ensures R.HeaderOk(Full(), Pair()) && R.HeaderOk(OneFree(), Pair())
    ensures R.FreeRegs(OneFree().mask) == R.FreeRegs(Full().mask) + {0} && R.FreeRegs(Full().mask) == {}
  {
    hide Pow2;
    NoBits();
    PowPositive(R.BITS);
    PowStrict(0, R.BITS);
    PowZero();
    R.MaskSet([0], 0);
    assert [0][0 := 0 + Pow2(0)] == [1];
  }

  /** The headers are consistent. */
  ghost predicate AllOk(hdrs: Headers) { forall p :: p in hdrs ==> R.HeaderOk(hdrs[p], Pair()) }

  lemma PowZero()
    ensures Pow2(0) == 1
  {
  }

  lemma NoBits()
    ensures R.FreeRegs([0]) == {} && !R.IsFree([0], 0)
  {
    forall i: nat | i < R.BITS
      ensures !R.IsFree([0], i)
    {
      R.ZeroHasNoBits(i);
    }
  }

  /** Three runs at increasing addresses. */
  function A(): Page { Page(0, 1) }
  function B(): Page { Page(0, 2) }
  function C(): Page { Page(0, 3) }

  /** All runs are full and A is current; a region of B comes back.  B is the only non-full
      run then, and A stays current. */
  lemma FreeLoses()
    ensures var hdrs := map[A() := Full(), B() := Full(), C() := Full()];
            && Lowest(hdrs, Some(A()), 0) && ReturnLoses(hdrs, Some(A()), B())
            && CurAfter(hdrs, Some(A()), B()) == Some(A()) && !Lowest(hdrs[B() := OneFree()], Some(A()), 0)
            && AllNonFull(hdrs[B() := OneFree()], 0) == {B()} && AllOk(hdrs) && AllOk(hdrs[B() := OneFree()])
  {
    hide R.HeaderOk;
    PairHeaders();
    var hdrs := map[A() := Full(), B() := Full(), C() := Full()];
    ReturnKeeps(hdrs, Some(A()), B(), OneFree(), 0);
  }

  /** A is current, B has a free region and C is full.  A is released, then a region of C
      comes back: C becomes current although B is lower and not full. */
  lemma ReleaseLosesRun()
    ensures var hdrs := map[A() := OneFree(), B() := OneFree(), C() := Full()];
            var after := hdrs - {A()};
            && Lowest(hdrs, Some(A()), 0) && ReleaseLoses(hdrs, Some(A()), A(), 0) && !Lowest(after, None, 0)
            && CurAfter(after, None, C()) == Some(C()) && !Lowest(after[C() := OneFree()], Some(C()), 0)
            && AllOk(hdrs) && AllOk(after[C() := OneFree()])
  {
    hide R.HeaderOk;
    PairHeaders();
    var hdrs := map[A() := OneFree(), B() := OneFree(), C() := Full()];
    assert B() in NonFull(hdrs, Some(A()), 0);
    ReleaseKeeps(hdrs, Some(A()), A(), 0);
    var last := (hdrs - {A()})[C() := OneFree()];
    assert B() in AllNonFull(last, 0);
  }

  /** A is current with one free region, B has one too; A's region is handed out. */
  lemma TakeLosesRun()
    ensures var hdrs := map[A() := OneFree(), B() := OneFree()];
            && Lowest(hdrs, Some(A()), 0) && TakeLoses(hdrs, A(), 0) && !Lowest(hdrs[A() := Full()], Some(A()), 0)
            && AllOk(hdrs) && AllOk(hdrs[A() := Full()])
  {
    hide R.HeaderOk;
    PairHeaders();
    var hdrs := map[A() := OneFree(), B() := OneFree()];
    assert B() in NonFull(hdrs, Some(A()), 0);
    TakeKeeps(hdrs, A(), Full(), 0);
  }
}
