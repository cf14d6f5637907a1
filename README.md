# ksmtest: worker region setup and integrity check

ksmtest stress-tests Linux kernel samepage merging (KSM). The orchestrator checks two KSM
sysfs flags and picks a filler file, by default the first `/boot/initrd*` entry. It then
forks workers. Each worker maps `mem` megabytes of anonymous memory, zeroes the first half,
tiles copies of the filler file into the region and marks the region mergeable. Every 60
seconds the worker checks that the zero half is still zero and that every tile still equals
the file. On the first corruption it prints the offending offset or range and exits with
status 1.

This project models that logic in Dafny:

- `Sizes` (`sizes.dfy`): the size arithmetic. `sz = mem * 1000000` is computed in 64-bit
  unsigned arithmetic, then `half = sz / 2` and `ncopies = filesize / half`.
- `Region` (`region.dfy`): the region as a sequence of bytes. It holds specification
  functions for `memset`, `memcpy`, the tiling loop, the zero scan and the tile check, and
  lemmas about them.
- `Worker` (`worker.dfy`): the same operations as methods over an `array<byte>`. The
  source's loops become `while` loops with invariants; the bulk `memset`/`memcpy` become
  `forall` statements. Each method is proved equal to its specification function.
  `RunKsmTest` composes setup and a bounded number of check cycles.
- `Startup` (`startup.dfy`): the acceptance rule for the `run` and `merge_across_nodes`
  flags, and the default filler-file choice.
- `Wrappers` (`wrappers.dfy`): `Option` and `Result`. Failures that the C code handles with
  `exit(1)` are returned as values (`Verdict`, `Result`).

The model follows the code, not the comment at `ksm.c:121-124`. The comment says the upper
half holds copies of the file. The code computes `ncopies = st_size / half` (`ksm.c:61`),
the number of halves that fit in the file, and writes tile `i` at offset `i * filesize`
from the start of the region (`ksm.c:76`). The lemmas make the consequences explicit:

- `Sizes.TilesFitIff` and `Sizes.WorkerTilesFit`: with `sz == 2 * half` (which always
  holds, since `sz` is even), the tiles stay in bounds exactly when the file is shorter than
  the region. There is then at most one tile.
- `ncopies == 0` exactly when the file is shorter than `half`. Nothing is copied, and the
  tile check passes vacuously.
- When there is a tile, it starts at offset 0 and covers the whole zero half.
  `Worker.SetupVerdict` proves that the first check cycle then reports the first nonzero byte
  among the file's first `half` bytes as "corruption" of the zero half. It passes only if
  those bytes are all zero.

## Model

| member | source | states |
|---|---|---|
| `Sizes.RegionSize` | ksm.c:111 | `sz` computed in unsigned long arithmetic is below 2^64 and always even, and it is the exact product `mem * 1000000` whenever that product does not overflow (the wrapped value on overflow is fixed by the definition, not stated by the contract) |
| `Sizes.Half` | ksm.c:112 | `half = sz / 2` satisfies `2*half <= sz <= 2*half + 1`, and `sz == 2*half` for even `sz` |
| `Sizes.NCopies` | ksm.c:61 | `ncopies = filesize / half` is the number of whole halves in the file: `ncopies*half <= filesize < ncopies*half + half` |
| `Sizes.TilesFitIff` | ksm.c:61-76 | in a region of `2*half` bytes, `ncopies*filesize <= sz` holds iff `filesize < sz`, and then `ncopies <= 1`; `ncopies == 0` iff `filesize < half` |
| `Sizes.WorkerTilesFit` | ksm.c:111-112 | for the sizes a worker computes from `mem`, the tile writes stay inside the mapping iff the file is shorter than the region, and then at most one tile is written |
| `Region.ZeroPrefix` | ksm.c:126 | after `memset(m, 0, half)` the first `half` bytes are zero, the length is kept and every later byte is unchanged |
| `Region.Overwrite` | ksm.c:76 | after one `memcpy` of the contents to offset `off`, byte `p` is `c[p - off]` inside `[off, off+|c|)` and unchanged elsewhere |
| `Region.ZeroScanFrom` | ksm.c:141-146 | the zero scan passes iff every byte of `[p, half)` is zero; otherwise it reports an offset in that range whose byte is nonzero, with every earlier byte zero |
| `Region.VerifyTilesFrom` | ksm.c:87-94 | the tile check passes iff every tile `j` with `i <= j < ncopies` equals the contents; otherwise it reports the first differing tile and its range `tile*filesize .. tile*filesize + filesize - 1` |
| `Region.OverwriteKeepsTileBelow` | ksm.c:75-76 | copying tile `k` does not disturb an earlier tile `j < k` |
| `Region.Tiled` | ksm.c:75-76 | after `k` iterations of the copy loop the length is kept, every tile `j < k` holds the contents and every byte at or after `k*filesize` is unchanged |
| `Region.CopyTileStep` | ksm.c:75-76 | one iteration of the copy loop keeps the earlier tiles, adds tile `k`, and leaves every byte from `(k+1)*filesize` on as it was |
| `Region.TiledVerifies` | ksm.c:75-94 | round trip: checking the `k` tiles just written finds no mismatch |
| `Region.VerifyTiles` | ksm.c:87-92 | the tile check fails iff some tile `j < ncopies` differs from the contents, reporting the first such tile with its range `tile*filesize .. tile*filesize + filesize - 1`; with `ncopies == 0` it passes |
| `Region.ZeroScan` | ksm.c:141-146 | the zero scan fails iff some byte of `[0, half)` is nonzero, and then it reports the smallest such offset |
| `Region.CycleVerdict` | ksm.c:140-148 | a check cycle passes iff the zero half is all zero and every tile matches; it reports the zero half iff that half has a nonzero byte, and a tile only when the zero half is clean |
| `Region.ZeroScanLocal` | ksm.c:141-142 | the zero scan reads only `[0, half)`: two regions that agree there get the same verdict |
| `Worker.ZeroFill` | ksm.c:126 | the array after `memset` is `ZeroPrefix` of the old array |
| `Worker.CopyInto` | ksm.c:76 | the array after `memcpy` is `Overwrite` of the old array |
| `Worker.DoCopy` | ksm.c:61-76 | returns `ncopies = filesize / half` and leaves the array as the old array with `ncopies` tiles written from offset 0; requires the tiles to fit |
| `Worker.ScanZeroHalf` | ksm.c:141-147 | the pointer loop returns the zero-scan verdict of the current region, without modifying it |
| `Worker.VerifyCopy` | ksm.c:81-96 | the compare loop with early exit returns the tile-check verdict of the current region, without modifying it |
| `Worker.CheckCycle` | ksm.c:140-148 | one cycle: the zero scan, then the tile check only if the scan passed |
| `Worker.WatchRegion` | ksm.c:138-149 | the checks are read-only, so every cycle gives the verdict of the first; the loop runs all cycles while the region is intact and stops after one cycle if it is not |
| `Worker.SetupImage` | ksm.c:126-127 | after zero fill and tiling, from any prior contents: tiles hold the file contents, bytes of `[0, half)` outside the tiles are zero, bytes past both the zero half and the tiles are unchanged |
| `Worker.SetupVerdict` | ksm.c:126-127 | in a region of `2*half` bytes, setup writes at most one tile, and the first check passes iff `ncopies == 0` or the file's first `half` bytes are zero, otherwise reporting the first nonzero one |
| `Worker.SetUpRegion` | ksm.c:111-127 | allocates a fresh `sz`-byte region and leaves it zero-filled then tiled, whatever it held before |
| `Worker.RunKsmTest` | ksm.c:105-150 | a worker ends with `ncopies <= 1`, its tiles holding the contents, the rest of the zero half zero, and a verdict that is corruption exactly when there is a tile and a nonzero byte in the file's first `half` bytes |
| `Startup.ScanCount` | ksm.c:154-159 | `ret` is 1 exactly when the file was opened and `fscanf` parsed one integer; an unopened file keeps `ret == 0` |
| `Startup.CheckFlag` | ksm.c:157-163 | a flag is accepted iff `fscanf` parsed exactly one integer and it is 0 or 1; it reads as enabled iff that integer is 1 |
| `Startup.CheckKsmFlags` | ksm.c:284-285 | `run` is checked before `merge_across_nodes`; the first bogus one is reported and both must be accepted to continue |
| `Startup.StrncmpPrefix` | ksm.c:242 | C `strncmp` of a NUL-terminated name against a NUL-free pattern over the pattern's length succeeds iff the name begins with the pattern |
| `Startup.HasInitrdPrefix` | ksm.c:242 | the entry test holds iff `strncmp(name, "initrd", 6)`, modelled over NUL-terminated strings, returns 0; a name shorter than six characters never matches |
| `Startup.FirstInitrd` | ksm.c:241-244 | the `readdir` loop stops at the first entry whose name starts with "initrd", or finds none iff no entry does |
| `Startup.PathBufferSize` | ksm.c:246 | the `strlen(name)+7` bytes allocated equal the length of "/boot/" plus the name, plus one for the NUL |
| `Startup.GetFileToMap` | ksm.c:234-252 | yields "/boot/" plus the first "initrd*" entry, whose path with its NUL exactly fills the `strlen(name)+7`-byte buffer; yields nothing iff `opendir` failed or no entry matches |

## Left out

- `mmap` and `madvise` (ksm.c:114-135) are kernel calls. The mapping is a freshly
  allocated array with arbitrary initial contents. The kernel's zero fill of anonymous pages
  is not assumed, so nothing is claimed about bytes beyond both the zero half and the tiles.
  Mapping and advice failures are not modelled.
- Process management is left out: `fork`, `kill`, `waitpid`, the SIGINT handler
  `stop_tests` and `verify_pids_alive` (ksm.c:26-38, ksm.c:220-232, ksm.c:295-307).
- `sleep` and the endless loops (ksm.c:139, ksm.c:309-313) are left out. A check loop is
  modelled for a given number of cycles.
- File and directory I/O is left out. The filler file's bytes are an input, so `open`,
  `fstat`, `read` and their failures in `docopy` are not modelled. The `/boot` listing is an
  input, and `None` stands for a failed `opendir`. Each sysfs flag read is an input
  `FlagRead`.
- `print_ksm_shared` (ksm.c:182-218) only reads counters that default to 0 and prints them.
  It is not modelled.
- Option parsing with `getopt` (ksm.c:259-274) is not modelled. Its optstring `"n:m:"` never
  yields `'f'`, so the default file is always the one `get_filetomap` chooses. The
  "no initrd found" usage exit (ksm.c:278-282) and the 20-second pause for more than 100
  tasks (ksm.c:287-291) are not modelled.
- `close(fd)` on an uninitialised descriptor in `verifycopy` (ksm.c:95) is undefined I/O and
  is omitted.
- `malloc` failures and all `printf` diagnostics are left out.
- `Worker.DoCopy`, `Worker.SetUpRegion` and `Worker.RunKsmTest` require
  `ncopies * filesize <= sz`. C does not check this: a larger file makes `docopy` write past
  the mapping, which is undefined behaviour.
- `Sizes.NCopies`, `Worker.SetUpRegion` and `Worker.RunKsmTest` require `half > 0`. Since
  `sz` is even, this excludes exactly the inputs with `sz == 0`: `mem == 0`, and every `mem`
  that is a multiple of 2^58, where `mem * 1000000` wraps to 0. For those the source fails
  earlier, at the zero-length `mmap` (ksm.c:114-118), and exits before `docopy` runs;
  `mmap` failures are not modelled.
- `Sizes.NCopies` stores `ncopies` without truncating it to a 32-bit `int`. Under the
  in-bounds requirement `ncopies <= 1`, so the truncation never matters there.
- Worker.WatchRegion: changes made to the region between check cycles by anything other
  than the worker's own code are not modelled. This includes corruption from the kernel's page
  merging after `madvise`, which the program exists to detect. Only the worker writes the
  region, and the checks only read it. The result "a corrupt region stops the worker after one
  cycle, an intact one passes every cycle" depends on this.
- `Startup.PathBufferSize`, `Startup.HasInitrdPrefix` and `Startup.GetFileToMap` treat
  directory entry names as Dafny strings, which are sequences of Unicode characters. `strlen`
  counts bytes, so the buffer size is exact only for single-byte characters. Names that are
  not valid UTF-8 cannot be represented.
- `Startup.CheckFlag` treats the parsed value as an unbounded integer. The 32-bit overflow of
  `fscanf("%d")` on out-of-range text is not modelled.
