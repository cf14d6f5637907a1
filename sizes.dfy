/**
 * The size arithmetic of a worker's test region (ksm.c:61, ksm.c:111-112).
 * `mem` and `sz` are C `unsigned long`s, so `mem * 1000000` wraps modulo 2^64.
 */
module Sizes {
  const ULongModulus: nat := 0x1_0000_0000_0000_0000
  const BytesPerMegabyte: nat := 1000000

  /** `sz = mem * 1000000` in unsigned long arithmetic: the product wraps, and is always even. */
  function RegionSize(mem: nat): (sz: nat)
    requires mem < ULongModulus
    ensures sz < ULongModulus
    ensures sz % 2 == 0
    ensures mem * BytesPerMegabyte < ULongModulus ==> sz == mem * BytesPerMegabyte
  {
    var product := mem * BytesPerMegabyte;
    assert product == 2 * (mem * 500000);
    WrapEven(product);
    product % ULongModulus
  }

  /** Reducing an even number modulo 2^64 gives an even number below 2^64, the number itself if it is below. */
  lemma WrapEven(x: nat)
    requires x % 2 == 0
    ensures x % ULongModulus < ULongModulus && (x % ULongModulus) % 2 == 0
    ensures x < ULongModulus ==> x % ULongModulus == x
  {
    var q := x / ULongModulus;
    assert x == q * ULongModulus + x % ULongModulus;
    assert q * ULongModulus == 2 * (q * 0x8000_0000_0000_0000);
  }

  /** `half = sz / 2`: two halves fill the region, with at most one byte left over. */
  function Half(sz: nat): (half: nat)
    ensures 2 * half <= sz <= 2 * half + 1
    ensures sz % 2 == 0 ==> sz == 2 * half
  {
    sz / 2
  }

  /**
   * `ncopies = st_size / half` (ksm.c:61): the number of WHOLE halves that fit in the file,
   * not the number of copies of the file that fit in a half. `half == 0` means `sz == 0`,
   * for which the worker's zero-length `mmap` has already failed, so it is excluded here.
   */
  function NCopies(filesize: nat, half: nat): (ncopies: nat)
    requires half > 0
    ensures ncopies * half <= filesize < ncopies * half + half
  {
    filesize / half
  }

  /** The tile writes of `docopy` stay inside the `sz`-byte region. */
  predicate TilesFit(filesize: nat, half: nat, sz: nat)
    requires half > 0
  {
    NCopies(filesize, half) * filesize <= sz
  }

  /** Multiplication by a natural number is monotone. */
  lemma MulMono(a: nat, b: nat, n: nat)
    requires a <= b
    ensures a * n <= b * n
  {
  }

  /**
   * In a region of `sz == 2 * half` bytes the tiles fit exactly when the file is smaller
   * than the whole region, and then there is at most one tile: with the division written
   * `filesize / half`, a second copy is never placed in bounds.
   */
  lemma {:induction false} TilesFitIff(filesize: nat, half: nat, sz: nat)
    requires half > 0 && sz == 2 * half
    ensures TilesFit(filesize, half, sz) <==> filesize < sz
    ensures TilesFit(filesize, half, sz) ==> NCopies(filesize, half) <= 1
    ensures NCopies(filesize, half) == 0 <==> filesize < half
  {
    var k := NCopies(filesize, half);
    if k >= 2 {
      MulMono(2, k, filesize);
      MulMono(2, k, half);
      assert k * filesize >= 2 * filesize >= 2 * (k * half) >= 4 * half;
      assert !TilesFit(filesize, half, sz);
      assert filesize >= 2 * half;
    } else if k == 1 {
      assert half <= filesize < 2 * half;
    } else {
      assert k == 0;
      assert filesize < half;
    }
  }

  /** The region sizes a worker computes from `mem` give tiles in bounds iff the file is shorter than the region. */
  lemma WorkerTilesFit(mem: nat, filesize: nat)
    requires mem < ULongModulus && Half(RegionSize(mem)) > 0
    ensures TilesFit(filesize, Half(RegionSize(mem)), RegionSize(mem)) <==> filesize < RegionSize(mem)
    ensures TilesFit(filesize, Half(RegionSize(mem)), RegionSize(mem)) ==> NCopies(filesize, Half(RegionSize(mem))) <= 1
  {
    TilesFitIff(filesize, Half(RegionSize(mem)), RegionSize(mem));
  }
}
