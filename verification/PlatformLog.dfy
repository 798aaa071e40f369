/** The platform log: one current file, numbered older files, rotation by size, retention by count and by age.
    Files hold whole lines; index 0 is the file being written, index i the file with suffix `.i`. */
module PlatformLog {

  datatype LogFile = LogFile(lines: seq<string>, modified: int)

  type Directory = map<nat, LogFile>

  datatype LogPolicy = LogPolicy(logLevel: string, maxFileBytes: nat, retentionFiles: nat, retentionDays: nat)

  datatype AppendResult = Written | LevelDisabled | InvalidPolicy

  function Size(lines: seq<string>): nat {
    if lines == [] then 0 else |lines[0]| + Size(lines[1..])
  }

  function CurrentSize(files: Directory): nat {
    if 0 in files then Size(files[0].lines) else 0
  }

  predicate IsLevel(level: string) {
    level in {"error", "warn", "info", "debug", "trace"}
  }

  function Rank(level: string): int {
    match level
    case "error" => 1
    case "warn" => 2
    case "info" => 3
    case "debug" => 4
    case "trace" => 5
    case _ => 3
  }

  predicate LevelEnabled(configured: string, level: string) {
    Rank(level) <= Rank(configured)
  }

  predicate ValidPolicy(policy: LogPolicy) {
    && IsLevel(policy.logLevel)
    && 1 <= policy.maxFileBytes <= 1024 * 1024 * 1024
    && 1 <= policy.retentionFiles <= 100
    && policy.retentionDays <= 3650
  }

  // ---------------------------------------------------------------- what the operations do to the directory

  predicate MustRotate(files: Directory, policy: LogPolicy, incoming: nat) {
    CurrentSize(files) + incoming > policy.maxFileBytes
  }

  /** Renaming replaces the target and does nothing when there is no file to rename. */
  function Renamed(files: Directory, from: nat, to: nat): Directory {
    if from in files then (files - {from})[to := files[from]] else files
  }

  /** Which file stands at index `j` after the files `low .. r` moved up by one; the last one overwrites. */
  function MovedFrom(files: Directory, low: nat, r: nat, j: nat): int {
    if j < low || j > r + 1 then j
    else if j == r + 1 then if low <= r && r in files then r else j
    else if j == low then -1
    else j - 1
  }

  function Shifted(files: Directory, low: nat, r: nat): Directory {
    map j: nat | j in files.Keys + (set i: nat | i in files.Keys :: i + 1) && MovedFrom(files, low, r, j) in files.Keys
      :: files[MovedFrom(files, low, r, j)]
  }

  function Rotated(files: Directory, r: nat): Directory {
    Shifted(files, 0, r)
  }

  predicate Expired(file: LogFile, policy: LogPolicy, now: int) {
    policy.retentionDays > 0 && file.modified < now - policy.retentionDays * 86400
  }

  predicate Retained(files: Directory, policy: LogPolicy, now: int, j: nat)
    requires j in files
  {
    || j == 0
    || j > policy.retentionFiles + 20
    || (j <= policy.retentionFiles && !Expired(files[j], policy, now))
  }

  function Cleaned(files: Directory, policy: LogPolicy, now: int): Directory {
    map j: nat | j in files && Retained(files, policy, now, j) :: files[j]
  }

  function WithLine(files: Directory, line: string, now: int): Directory {
    files[0 := LogFile((if 0 in files then files[0].lines else []) + [line], now)]
  }

  function Outcome(policy: LogPolicy, level: string): AppendResult {
    if !LevelEnabled(policy.logLevel, level) then LevelDisabled
    else if !ValidPolicy(policy) then InvalidPolicy
    else Written
  }

  function Appended(files: Directory, policy: LogPolicy, line: string, now: int): Directory {
    var rotated := if MustRotate(files, policy, |line|) then Rotated(files, policy.retentionFiles) else files;
    Cleaned(WithLine(rotated, line, now), policy, now)
  }

  const LEVELS := ["error", "warn", "info", "debug", "trace"]

  /** Each level lets itself and the more severe ones through; an unknown word counts as "info" on either side. */
  lemma LevelsInOrder(a: nat, b: nat, unknown: string, level: string)
    requires a < 5 && b < 5 && !IsLevel(unknown)
    ensures LevelEnabled(LEVELS[a], LEVELS[b]) <==> b <= a
    ensures LevelEnabled(unknown, level) <==> LevelEnabled("info", level)
    ensures LevelEnabled(level, unknown) <==> LevelEnabled(level, "info")
  {
    assert Rank(LEVELS[a]) == a + 1 && Rank(LEVELS[b]) == b + 1;
  }

  // ---------------------------------------------------------------- the operations

  class LogDirectory {
    var files: Directory

    constructor ()
      ensures files == map[]
    {
      files := map[];
    }

    method RotateIfNeeded(policy: LogPolicy, incoming: nat)
      modifies this
      ensures files == if MustRotate(old(files), policy, incoming) then Rotated(old(files), policy.retentionFiles)
                       else old(files)
    {
      hide Shifted;
      if CurrentSize(files) + incoming <= policy.maxFileBytes {
        return;
      }
      ghost var before := files;
      var r := policy.retentionFiles;
      NothingShifted(before, r);
      var index := r;
      while index >= 1
        invariant 0 <= index <= r
        invariant files == Shifted(before, index + 1, r)
      {
        RenameStep(before, index, r);
        Rename(index, index + 1);
        index := index - 1;
      }
      RenameStep(before, 0, r);
      Rename(0, 1);
    }

    method Rename(from: nat, to: nat)
      requires from != to
      modifies this
      ensures files == Renamed(old(files), from, to)
    {
      if from in files {
        files := (files - {from})[to := files[from]];
      }
    }

    method CleanupRetention(policy: LogPolicy, now: int)
      modifies this
      ensures files == Cleaned(old(files), policy, now)
      ensures forall j :: j in files ==> j in old(files) && files[j] == old(files)[j]
      ensures forall j :: j in old(files) ==>
                (j in files <==>
                  || j == 0
                  || j > policy.retentionFiles + 20
                  || (j <= policy.retentionFiles &&
                      (policy.retentionDays == 0 ||
                       old(files)[j].modified + policy.retentionDays * 86400 >= now)))
    {
      ghost var before := files;
      var r := policy.retentionFiles;
      var index := r + 1;
      while index <= r + 20
        invariant r + 1 <= index <= r + 21
        invariant files == map j: nat | j in before && !(r < j < index) :: before[j]
      {
        files := files - {index};
        index := index + 1;
      }
      if policy.retentionDays == 0 {
        return;
      }
      var cutoff := now - policy.retentionDays * 86400;
      index := 1;
      while index <= r + 20
        invariant 1 <= index <= r + 21
        invariant files == map j: nat | j in before && !(r < j <= r + 20) &&
                                        !(1 <= j < index && before[j].modified < cutoff) :: before[j]
      {
        if index in files && files[index].modified < cutoff {
          files := files - {index};
        }
        index := index + 1;
      }
    }

    method Append(policy: LogPolicy, level: string, line: string, now: int) returns (result: AppendResult)
      modifies this
      ensures result == Outcome(policy, level)
      ensures result == LevelDisabled <==> !LevelEnabled(policy.logLevel, level)
      ensures result == Written ==>
                policy.logLevel in LEVELS && 1 <= policy.maxFileBytes <= 1_073_741_824
                && 1 <= policy.retentionFiles <= 100 && policy.retentionDays <= 3650
      ensures LevelEnabled(policy.logLevel, level) && policy.logLevel in LEVELS
              && 1 <= policy.maxFileBytes <= 1_073_741_824 && 1 <= policy.retentionFiles <= 100
              && policy.retentionDays <= 3650 ==>
                result == Written
      ensures files == if result == Written then Appended(old(files), policy, line, now) else old(files)
    {
      if !LevelEnabled(policy.logLevel, level) {
        return LevelDisabled;
      }
      if !ValidPolicy(policy) {
        return InvalidPolicy;
      }
      RotateIfNeeded(policy, |line|);
      files := WithLine(files, line, now);
      CleanupRetention(policy, now);
      return Written;
    }
  }

  lemma NothingShifted(files: Directory, r: nat)
    ensures Shifted(files, r + 1, r) == files
  {
  }

  /** Renaming file `i` to `i + 1` extends the shift by one file; a missing file leaves its place empty. */
  lemma RenameStep(before: Directory, i: nat, r: nat)
    requires i <= r
    ensures Shifted(before, i, r) == Renamed(Shifted(before, i + 1, r), i, i + 1)
  {
  }
}
