/**
 * Start-up decisions of the orchestrator: the validity rule for the two KSM sysfs
 * flags (ksm.c:152-180) and the default filler file under /boot (ksm.c:234-252).
 */
module Startup {
  import opened Wrappers

  /** What `fopen` + `fscanf(f, "%d", &v)` produced for one flag file. */
  datatype FlagRead =
    | Unopened                         // fopen failed: `ret` keeps its initial 0
    | Scanned(count: int, value: int)  // fscanf returned `count`, stored `value` when count == 1

  /** The sysfs file whose contents were rejected ("... seems bogus", then exit(1)). */
  datatype BogusFlag = RunBogus | MergeAcrossNodesBogus

  /** The value `ret` holds after the read (ksm.c:154-159). */
  function ScanCount(f: FlagRead): (ret: int)
    ensures ret == 1 <==> f.Scanned? && f.count == 1
    ensures f.Unopened? ==> ret == 0
  {
    match f
    case Unopened => 0
    case Scanned(count, _) => count
  }

  /**
   * The acceptance rule of ksm.c:160 and ksm.c:175: the flag is fatal unless exactly one
   * integer was parsed and it is 0 or 1; an accepted flag is "enabled" when it is 1.
   * Exactly two readings are accepted.
   */
  function CheckFlag(f: FlagRead): (r: Option<bool>)
    ensures r.Some? <==> f == Scanned(1, 0) || f == Scanned(1, 1)
    ensures r == Some(true) <==> f == Scanned(1, 1)
  {
    if ScanCount(f) != 1 || (f.value != 0 && f.value != 1) then None
    else Some(f.value == 1)
  }

  /**
   * `print_ksmenabled` then `print_numaenabled` (ksm.c:284-285): the first bogus flag
   * ends the program, so `merge_across_nodes` is judged only once `run` is accepted.
   * On success, the two flags as booleans.
   */
  function CheckKsmFlags(run: FlagRead, acrossNodes: FlagRead): (r: Result<(bool, bool), BogusFlag>)
    ensures r.Success? <==> CheckFlag(run).Some? && CheckFlag(acrossNodes).Some?
    ensures r.Success? ==> r.value == (run == Scanned(1, 1), acrossNodes == Scanned(1, 1))
    ensures r == Failure(RunBogus) <==> CheckFlag(run).None?
    ensures r == Failure(MergeAcrossNodesBogus) <==> CheckFlag(run).Some? && CheckFlag(acrossNodes).None?
  {
    match CheckFlag(run)
    case None => Failure(RunBogus)
    case Some(enabled) =>
      match CheckFlag(acrossNodes)
      case None => Failure(MergeAcrossNodesBogus)
      case Some(across) => Success((enabled, across))
  }

  const BootDir: string := "/boot/"
  const InitrdPrefix: string := "initrd"

  /**
   * C `strncmp(a, b, n) == 0` over NUL-terminated strings: the first `n` characters agree,
   * where the comparison stops early, as equal, once both strings reach their NUL.
   */
  function StrncmpEq(a: string, b: string, n: nat): bool
  {
    n == 0
    || (|a| > 0 && |b| > 0 && a[0] == b[0] && (a[0] == '\0' || StrncmpEq(a[1..], b[1..], n - 1)))
  }

  /**
   * Comparing a NUL-terminated name with a NUL-free pattern `p` over `|p|` characters
   * succeeds exactly when the name begins with `p`; a name that ends, or holds a NUL,
   * within the first `|p|` characters fails there.
   */
  lemma {:induction false} StrncmpPrefix(a: string, p: string)
    requires forall i | 0 <= i < |p| :: p[i] != '\0'
    ensures StrncmpEq(a + "\0", p + "\0", |p|) <==> |a| >= |p| && a[..|p|] == p
  {
    if p != [] && a != [] {
      assert (a + "\0")[1..] == a[1..] + "\0";
      assert (p + "\0")[1..] == p[1..] + "\0";
      StrncmpPrefix(a[1..], p[1..]);
      if |a| >= |p| {
        assert a[..|p|] == [a[0]] + a[1..][..|p| - 1];
        assert p == [p[0]] + p[1..];
      }
    }
  }

  /**
   * The test `strncmp(name, "initrd", 6) == 0` of ksm.c:242 on the NUL-terminated entry
   * name: it holds exactly when the name begins with "initrd".
   */
  predicate HasInitrdPrefix(name: string)
    ensures HasInitrdPrefix(name) <==> StrncmpEq(name + "\0", InitrdPrefix + "\0", 6)
    ensures |name| < 6 ==> !HasInitrdPrefix(name)
  {
    StrncmpPrefix(name, InitrdPrefix);
    |name| >= |InitrdPrefix| && name[..|InitrdPrefix|] == InitrdPrefix
  }

  /** The `readdir` loop of ksm.c:241-244: the position of the first "initrd*" entry. */
  function FirstInitrd(names: seq<string>): (r: Option<nat>)
    ensures r.None? <==> forall i | 0 <= i < |names| :: !HasInitrdPrefix(names[i])
    ensures r.Some? ==> r.value < |names| && HasInitrdPrefix(names[r.value])
                        && forall i | 0 <= i < r.value :: !HasInitrdPrefix(names[i])
  {
    if names == [] then None
    else if HasInitrdPrefix(names[0]) then Some(0)
    else
      match FirstInitrd(names[1..])
      case None => None
      case Some(k) => Some(k + 1)
  }

  /** Bytes `malloc`ed for the path of entry `name` (ksm.c:246): the formatted path and its NUL. */
  function PathBufferSize(name: string): (size: nat)
    ensures size == |BootDir + name| + 1
  {
    |name| + 7
  }

  /**
   * `get_filetomap` (ksm.c:234-252) over the entries of /boot in `readdir` order; `None`
   * for the directory means `opendir` failed. The result is "/boot/" followed by the
   * first entry whose name starts with "initrd", and the path with its terminating NUL
   * exactly fills the buffer allocated for it; with no such entry the file stays unset.
   */
  function GetFileToMap(dir: Option<seq<string>>): (path: Option<string>)
    ensures path.Some? <==> dir.Some? && exists i | 0 <= i < |dir.value| :: HasInitrdPrefix(dir.value[i])
    ensures path.Some? ==>
              exists i | 0 <= i < |dir.value| ::
                path.value == BootDir + dir.value[i] && HasInitrdPrefix(dir.value[i])
                && (forall j | 0 <= j < i :: !HasInitrdPrefix(dir.value[j]))
                && |path.value| + 1 == PathBufferSize(dir.value[i])
  {
    match dir
    case None => None
    case Some(names) =>
      match FirstInitrd(names)
      case None => None
      case Some(i) => Some(BootDir + names[i])
  }
}
