/**
 * A worker's test region and the byte-level work done on it (ksm.c:45-96, ksm.c:126-147):
 * zeroing the first half, tiling the file contents from offset 0, and the two scans of
 * a check cycle. Offsets are relative to the start `m` of the mapping.
 */
module Region {
  import opened Sizes

  newtype byte = b: int | 0 <= b < 256

  /** What one check cycle concludes; the two failures are the two `exit(1)` diagnostics. */
  datatype Verdict =
    | Intact
      /** "byte <offset> is not 0" (ksm.c:143) */
    | ZeroHalfCorrupt(offset: nat)
      /** "file corruption at m+first..m+last" for tile number `tile` (ksm.c:89-91) */
    | TileCorrupt(tile: nat, first: nat, last: nat)

  /** Every byte of `s[lo..hi]` is zero. */
  predicate AllZero(s: seq<byte>, lo: nat, hi: nat)
    requires lo <= hi <= |s|
  {
    forall p | lo <= p < hi :: s[p] == 0
  }

  /** Tile `i` (the `|c|` bytes at offset `i * |c|`) lies in `s` and holds exactly `c`. */
  predicate TileMatches(s: seq<byte>, c: seq<byte>, i: nat)
  {
    i * |c| + |c| <= |s| && s[i * |c| .. i * |c| + |c|] == c
  }

  lemma MulSucc(i: nat, n: nat)
    ensures (i + 1) * n == i * n + n
  {
  }

  /** Tile `i` of `n` bytes ends no later than tile `k` starts, for `i < k`. */
  lemma TileBelow(i: nat, k: nat, n: nat)
    requires i < k
    ensures 0 <= i * n && i * n + n <= k * n
  {
    MulSucc(i, n);
    MulMono(i + 1, k, n);
  }

  // ---------------------------------------------------------------------------
  // Specification functions
  // ---------------------------------------------------------------------------

  /** `memset(m, 0, n)`: the first `n` bytes become zero, the rest is kept. */
  function ZeroPrefix(s: seq<byte>, n: nat): (r: seq<byte>)
    requires n <= |s|
    ensures |r| == |s|
    ensures AllZero(r, 0, n)
    ensures r[n..] == s[n..]
  {
    seq(n, _ => 0 as byte) + s[n..]
  }

  /** `memcpy(m + off, c, |c|)`: bytes `[off, off + |c|)` become `c`, the rest is kept. */
  function Overwrite(s: seq<byte>, off: nat, c: seq<byte>): (r: seq<byte>)
    requires off + |c| <= |s|
    ensures |r| == |s|
    ensures forall p | 0 <= p < |s| :: r[p] == if off <= p < off + |c| then c[p - off] else s[p]
  {
    s[..off] + c + s[off + |c|..]
  }

  /**
   * The region after the first `k` iterations of the `docopy` loop (ksm.c:75-76): tile `i`
   * written at `i * |c|`. Every tile `j < k` then holds the file contents, and no byte at
   * or beyond `k * |c|` has changed.
   */
  function Tiled(s: seq<byte>, c: seq<byte>, k: nat): (r: seq<byte>)
    requires k * |c| <= |s|
    ensures |r| == |s|
    ensures forall j | 0 <= j < k :: TileMatches(r, c, j)
    ensures forall p | k * |c| <= p < |s| :: r[p] == s[p]
  {
    if k == 0 then s
    else
      MulSucc(k - 1, |c|);
      var t := Tiled(s, c, k - 1);
      CopyTileStep(s, t, c, k - 1);
      Overwrite(t, (k - 1) * |c|, c)
  }

  /** The zero scan from offset `p` on: the first nonzero byte of `s[p..half]`, if any. */
  function ZeroScanFrom(s: seq<byte>, half: nat, p: nat): (r: Verdict)
    requires p <= half <= |s|
    decreases half - p
    ensures r.Intact? <==> AllZero(s, p, half)
    ensures r.Intact? || r.ZeroHalfCorrupt?
    ensures r.ZeroHalfCorrupt? ==> p <= r.offset < half && s[r.offset] != 0 && AllZero(s, p, r.offset)
  {
    if p == half then Intact
    else if s[p] != 0 then ZeroHalfCorrupt(p)
    else ZeroScanFrom(s, half, p + 1)
  }

  /**
   * The zero-scan loop of ksm.c:141-147 over `[0, half)`: it fails exactly when some byte
   * of `[0, half)` is nonzero, and then reports the smallest such offset.
   */
  function ZeroScan(s: seq<byte>, half: nat): (r: Verdict)
    requires half <= |s|
    ensures r == Intact <==> forall p | 0 <= p < half :: s[p] == 0
    ensures r != Intact ==>
              r.ZeroHalfCorrupt? && r.offset < half && s[r.offset] != 0
              && forall q | 0 <= q < r.offset :: s[q] == 0
  {
    ZeroScanFrom(s, half, 0)
  }

  /** The `verifycopy` loop from tile `i` on: the first tile below `ncopies` that differs from `c`. */
  function VerifyTilesFrom(s: seq<byte>, c: seq<byte>, ncopies: nat, i: nat): (r: Verdict)
    requires ncopies * |c| <= |s| && i <= ncopies
    decreases ncopies - i
    ensures r.Intact? <==> forall j | i <= j < ncopies :: TileMatches(s, c, j)
    ensures r.Intact? || r.TileCorrupt?
    ensures r.TileCorrupt? ==>
              i <= r.tile < ncopies && !TileMatches(s, c, r.tile)
              && (forall j | i <= j < r.tile :: TileMatches(s, c, j))
              && r.first == r.tile * |c| && r.last == r.first + |c| - 1
  {
    if i == ncopies then Intact
    else
      TileBelow(i, ncopies, |c|);
      if !TileMatches(s, c, i) then
        TileCorrupt(i, i * |c|, i * |c| + |c| - 1)
      else
        VerifyTilesFrom(s, c, ncopies, i + 1)
  }

  /**
   * The `verifycopy` loop of ksm.c:87-94 over tiles `0 .. ncopies-1`: it fails exactly when
   * some tile below `ncopies` differs from the contents, and then reports the first such
   * tile with its byte range; with no tiles it passes.
   */
  function VerifyTiles(s: seq<byte>, c: seq<byte>, ncopies: nat): (r: Verdict)
    requires ncopies * |c| <= |s|
    ensures r != Intact <==> exists j | 0 <= j < ncopies :: !TileMatches(s, c, j)
    ensures ncopies == 0 ==> r == Intact
    ensures r != Intact ==>
              r.TileCorrupt? && r.tile < ncopies && !TileMatches(s, c, r.tile)
              && (forall j | 0 <= j < r.tile :: TileMatches(s, c, j))
              && r.first == r.tile * |c| && r.last == r.first + |c| - 1
  {
    VerifyTilesFrom(s, c, ncopies, 0)
  }

  /**
   * One check cycle of ksm.c:140-148: the zero scan, then, only if it passed, the tile check.
   * It passes iff the zero half is all zero and every tile matches; a tile is reported only
   * when the zero half is clean.
   */
  function CycleVerdict(s: seq<byte>, half: nat, c: seq<byte>, ncopies: nat): (r: Verdict)
    requires half <= |s| && ncopies * |c| <= |s|
    ensures r.Intact? <==> AllZero(s, 0, half) && forall j | 0 <= j < ncopies :: TileMatches(s, c, j)
    ensures r.ZeroHalfCorrupt? <==> !AllZero(s, 0, half)
    ensures r.TileCorrupt? ==> AllZero(s, 0, half) && r.tile < ncopies && !TileMatches(s, c, r.tile)
  {
    var z := ZeroScan(s, half);
    if z.Intact? then VerifyTiles(s, c, ncopies) else z
  }

  // ---------------------------------------------------------------------------
  // Properties of the specification
  // ---------------------------------------------------------------------------

  /** Overwriting a range leaves every tile that lies wholly below it as it was. */
  lemma OverwriteKeepsTileBelow(t: seq<byte>, c: seq<byte>, j: nat, k: nat)
    requires j < k && k * |c| + |c| <= |t|
    requires TileMatches(t, c, j)
    ensures TileMatches(Overwrite(t, k * |c|, c), c, j)
  {
    TileBelow(j, k, |c|);
    var r := Overwrite(t, k * |c|, c);
    var lo := j * |c|;
    assert r[lo .. lo + |c|] == t[lo .. lo + |c|] by {
      forall q | lo <= q < lo + |c| ensures r[q] == t[q] { }
    }
  }

  /**
   * One iteration of the `docopy` loop: if tiles `j < k` hold the contents and the bytes
   * from `k * |c|` on are still the original ones, then copying tile `k` leaves tiles
   * `j < k + 1` holding the contents and the bytes from `(k + 1) * |c|` on untouched.
   */
  lemma {:induction false} CopyTileStep(s: seq<byte>, t: seq<byte>, c: seq<byte>, k: nat)
    requires |t| == |s| && k * |c| + |c| <= |t|
    requires forall j | 0 <= j < k :: TileMatches(t, c, j)
    requires forall p | k * |c| <= p < |s| :: t[p] == s[p]
    ensures forall j | 0 <= j < k + 1 :: TileMatches(Overwrite(t, k * |c|, c), c, j)
    ensures forall p | k * |c| + |c| <= p < |s| :: Overwrite(t, k * |c|, c)[p] == s[p]
  {
    var n := |c|;
    var r := Overwrite(t, k * n, c);
    forall j | 0 <= j < k + 1 ensures TileMatches(r, c, j) {
      if j < k {
        OverwriteKeepsTileBelow(t, c, j, k);
      } else {
        assert r[k * n .. k * n + n] == c;
      }
    }
  }

  /** Round trip: tiling `k` copies and then checking those `k` tiles finds no corruption. */
  lemma TiledVerifies(s: seq<byte>, c: seq<byte>, k: nat)
    requires k * |c| <= |s|
    ensures VerifyTiles(Tiled(s, c, k), c, k) == Intact
  {
  }

  /** The zero scan reads only `[0, half)`: sequences that agree there get the same verdict. */
  lemma {:induction false} ZeroScanLocal(s: seq<byte>, t: seq<byte>, half: nat, p: nat)
    requires p <= half <= |s| && half <= |t|
    requires forall q | p <= q < half :: s[q] == t[q]
    decreases half - p
    ensures ZeroScanFrom(s, half, p) == ZeroScanFrom(t, half, p)
  {
    if p < half {
      ZeroScanLocal(s, t, half, p + 1);
    }
  }
}
