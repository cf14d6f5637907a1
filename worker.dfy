/**
 * The worker of ksm.c:105-150 as imperative code over its region: `memset` and `docopy`
 * fill the region in place, and each check cycle runs the zero scan and `verifycopy`.
 * The globals `filecontents`, `filesize` and `ncopies` become parameters and results.
 */
module Worker {
  import opened Sizes
  import opened Region

  /** `memset(m, 0, n)` (ksm.c:126). */
  method ZeroFill(m: array<byte>, n: nat)
    requires n <= m.Length
    modifies m
    ensures m[..] == ZeroPrefix(old(m[..]), n)
  {
    forall p | 0 <= p < n {
      m[p] := 0;
    }
    assert m[..] == ZeroPrefix(old(m[..]), n) by {
      forall p | 0 <= p < m.Length ensures m[..][p] == ZeroPrefix(old(m[..]), n)[p] {
        if p >= n {
          assert ZeroPrefix(old(m[..]), n)[n..][p - n] == old(m[..])[n..][p - n];
        }
      }
    }
  }

  /** `memcpy(m + off, c, |c|)` (ksm.c:76). */
  method CopyInto(m: array<byte>, off: nat, c: seq<byte>)
    requires off + |c| <= m.Length
    modifies m
    ensures m[..] == Overwrite(old(m[..]), off, c)
  {
    forall p | off <= p < off + |c| {
      m[p] := c[p - off];
    }
  }

  /**
   * `docopy` (ksm.c:45-79) once the file is read: `ncopies = filesize / half`, then tile `i`
   * is copied to offset `i * filesize`, starting at offset 0. The tiles must fit in the
   * region; C does not check this.
   */
  method DoCopy(m: array<byte>, half: nat, c: seq<byte>) returns (ncopies: nat)
    requires half > 0 && TilesFit(|c|, half, m.Length)
    modifies m
    ensures ncopies == NCopies(|c|, half)
    ensures m[..] == Tiled(old(m[..]), c, ncopies)
  {
    ncopies := NCopies(|c|, half);
    var i: nat := 0;
    while i < ncopies
      invariant i <= ncopies && i * |c| <= m.Length
      invariant m[..] == Tiled(old(m[..]), c, i)
    {
      TileBelow(i, ncopies, |c|);
      MulSucc(i, |c|);
      CopyInto(m, i * |c|, c);
      i := i + 1;
    }
  }

  /** The zero-scan loop of ksm.c:141-147: the first nonzero byte of `[0, half)`. */
  method ScanZeroHalf(m: array<byte>, half: nat) returns (r: Verdict)
    requires half <= m.Length
    ensures r == ZeroScan(m[..], half)
  {
    var p: nat := 0;
    while p < half
      invariant p <= half
      invariant ZeroScan(m[..], half) == ZeroScanFrom(m[..], half, p)
    {
      if m[p] != 0 {
        return ZeroHalfCorrupt(p);
      }
      p := p + 1;
    }
    return Intact;
  }

  /** `verifycopy` (ksm.c:81-96): compare every tile with the contents, stop at the first mismatch. */
  method VerifyCopy(m: array<byte>, c: seq<byte>, ncopies: nat) returns (r: Verdict)
    requires ncopies * |c| <= m.Length
    ensures r == VerifyTiles(m[..], c, ncopies)
  {
    var i: nat := 0;
    while i < ncopies
      invariant i <= ncopies
      invariant VerifyTilesFrom(m[..], c, ncopies, 0) == VerifyTilesFrom(m[..], c, ncopies, i)
    {
      TileBelow(i, ncopies, |c|);
      var off := i * |c|;
      if m[off .. off + |c|] != c {
        return TileCorrupt(i, off, off + |c| - 1);
      }
      i := i + 1;
    }
    return Intact;
  }

  /** One iteration of the check loop (ksm.c:140-148), without the `sleep(60)`. */
  method CheckCycle(m: array<byte>, half: nat, c: seq<byte>, ncopies: nat) returns (r: Verdict)
    requires half <= m.Length && ncopies * |c| <= m.Length
    ensures r == CycleVerdict(m[..], half, c, ncopies)
  {
    r := ScanZeroHalf(m, half);
    if r.Intact? {
      r := VerifyCopy(m, c, ncopies);
    }
  }

  /**
   * The check loop of ksm.c:138-149, cut off after `cycles` iterations. The checks only
   * read the region, so every cycle reaches the verdict of the first: a region that
   * passes once passes every time, and a corrupt one stops the worker after one cycle.
   */
  method WatchRegion(m: array<byte>, half: nat, c: seq<byte>, ncopies: nat, cycles: nat)
    returns (r: Verdict, ran: nat)
    requires half <= m.Length && ncopies * |c| <= m.Length
    ensures cycles == 0 ==> r == Intact && ran == 0
    ensures cycles > 0 ==> r == CycleVerdict(m[..], half, c, ncopies)
    ensures cycles > 0 ==> ran == if r == Intact then cycles else 1
  {
    r, ran := Intact, 0;
    while ran < cycles && r == Intact
      invariant ran <= cycles
      invariant ran > 0 ==> r == CycleVerdict(m[..], half, c, ncopies)
      invariant ran == 0 ==> r == Intact
      invariant r != Intact ==> ran == 1
    {
      r := CheckCycle(m, half, c, ncopies);
      ran := ran + 1;
    }
  }

  // ---------------------------------------------------------------------------
  // Region setup (ksm.c:111-127) and what the first check cycle then sees
  // ---------------------------------------------------------------------------

  /**
   * The region after `memset(m, 0, half)` and `docopy` (ksm.c:126-127), from whatever `s0`
   * it held before: every tile holds the file contents; every byte of `[0, half)` outside
   * the tiles is zero; bytes beyond both the zero half and the tiles are untouched.
   */
  function SetupImage(s0: seq<byte>, half: nat, c: seq<byte>): (r: seq<byte>)
    requires 0 < half <= |s0| && TilesFit(|c|, half, |s0|)
    ensures |r| == |s0|
    ensures forall j | 0 <= j < NCopies(|c|, half) :: TileMatches(r, c, j)
    ensures forall p | NCopies(|c|, half) * |c| <= p < half :: r[p] == 0
    ensures forall p | half <= p < |s0| && NCopies(|c|, half) * |c| <= p :: r[p] == s0[p]
  {
    var z := ZeroPrefix(s0, half);
    assert forall p | half <= p < |s0| :: z[p] == z[half..][p - half] == s0[half..][p - half];
    Tiled(z, c, NCopies(|c|, half))
  }

  /**
   * In a region of `sz == 2 * half` bytes there is at most one tile, and because it starts
   * at offset 0 the first check cycle passes exactly when there is no tile or the first
   * `half` bytes of the file are zero; otherwise it reports the first nonzero byte of the
   * file as corruption of the zero half.
   */
  lemma {:induction false} SetupVerdict(s0: seq<byte>, half: nat, c: seq<byte>)
    requires half > 0 && |s0| == 2 * half && TilesFit(|c|, half, |s0|)
    ensures NCopies(|c|, half) <= 1
    ensures CycleVerdict(SetupImage(s0, half, c), half, c, NCopies(|c|, half))
            == if NCopies(|c|, half) == 0 then Intact else ZeroScan(c, half)
  {
    var k := NCopies(|c|, half);
    TilesFitIff(|c|, half, |s0|);
    var z := ZeroPrefix(s0, half);
    var img := SetupImage(s0, half, c);
    TiledVerifies(z, c, k);
    if k == 1 {
      assert img == Overwrite(z, 0, c);
      ZeroScanLocal(img, c, half, 0);
    }
  }

  /**
   * Region setup of `run_ksm_test` (ksm.c:111-127): `sz = mem * 1000000`, `half = sz / 2`,
   * a fresh mapping of `sz` bytes, the first half zeroed, then `docopy`. The mapping's
   * initial contents are not assumed to be zero.
   */
  method SetUpRegion(mem: nat, c: seq<byte>) returns (m: array<byte>, half: nat, ncopies: nat)
    requires mem < ULongModulus && Half(RegionSize(mem)) > 0
    requires TilesFit(|c|, Half(RegionSize(mem)), RegionSize(mem))
    ensures fresh(m) && m.Length == RegionSize(mem)
    ensures half == Half(RegionSize(mem)) && ncopies == NCopies(|c|, half)
    ensures exists s0: seq<byte> | |s0| == m.Length :: m[..] == SetupImage(s0, half, c)
  {
    var sz := RegionSize(mem);
    half := Half(sz);
    m := new byte[sz];
    ghost var s0 := m[..];
    ZeroFill(m, half);
    ncopies := DoCopy(m, half, c);
    assert m[..] == SetupImage(s0, half, c);
  }

  /**
   * `run_ksm_test` (ksm.c:105-150) with the check loop cut off after `cycles` iterations.
   * With the tiles written from offset 0, the worker stops with a zero-half corruption
   * report whenever there is a tile and the file has a nonzero byte below `half`.
   */
  method RunKsmTest(mem: nat, c: seq<byte>, cycles: nat)
    returns (m: array<byte>, ncopies: nat, r: Verdict, ran: nat)
    requires mem < ULongModulus && Half(RegionSize(mem)) > 0
    requires TilesFit(|c|, Half(RegionSize(mem)), RegionSize(mem))
    ensures fresh(m) && m.Length == RegionSize(mem)
    ensures ncopies == NCopies(|c|, Half(RegionSize(mem))) && ncopies <= 1
    ensures forall j | 0 <= j < ncopies :: TileMatches(m[..], c, j)
    ensures forall p | ncopies * |c| <= p < Half(RegionSize(mem)) :: m[p] == 0
    ensures r == if cycles == 0 || ncopies == 0 then Intact else ZeroScan(c, Half(RegionSize(mem)))
    ensures ran == if r == Intact then cycles else 1
  {
    var half;
    m, half, ncopies := SetUpRegion(mem, c);
    ghost var s0: seq<byte> :| |s0| == m.Length && m[..] == SetupImage(s0, half, c);
    SetupVerdict(s0, half, c);
    r, ran := WatchRegion(m, half, c, ncopies, cycles);
  }
}
