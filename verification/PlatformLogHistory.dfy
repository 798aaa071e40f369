/** What a directory of log files says about everything ever written to it. */
module PlatformLogHistory {
  import opened PlatformLog

  /** One written line, with the policy and the clock of its append. */
  datatype Entry = Entry(policy: LogPolicy, line: string, now: int)

  function DirectoryAfter(entries: seq<Entry>): Directory {
    if entries == [] then map[]
    else
      var e := entries[|entries| - 1];
      Appended(DirectoryAfter(entries[..|entries| - 1]), e.policy, e.line, e.now)
  }

  function Lines(entries: seq<Entry>): seq<string> {
    if entries == [] then [] else Lines(entries[..|entries| - 1]) + [entries[|entries| - 1].line]
  }

  /** Valid policies, a clock that does not run backwards, and no cut of the file count by more than 20 at once. */
  ghost predicate Orderly(entries: seq<Entry>) {
    && (forall i :: 0 <= i < |entries| ==> ValidPolicy(entries[i].policy))
    && (forall i, j :: 0 <= i < j < |entries| ==> entries[i].now <= entries[j].now)
    && (forall i :: 0 < i < |entries| ==> entries[i - 1].policy.retentionFiles <= entries[i].policy.retentionFiles + 20)
  }

  // ---------------------------------------------------------------- files in a row

  /** The directory holds exactly the files `fs`, the current one first: there is no gap among the indices. */
  ghost predicate Holds(files: Directory, fs: seq<LogFile>) {
    && (forall j: nat :: j in files <==> j < |fs|)
    && (forall j: nat :: j in files ==> files[j] == fs[j])
  }

  /** The lines of all files, oldest first. */
  function Text(fs: seq<LogFile>): seq<string> {
    if fs == [] then [] else Text(fs[1..]) + fs[0].lines
  }

  ghost predicate IsSuffix<T(!new)>(a: seq<T>, b: seq<T>) {
    exists front: seq<T> :: b == front + a
  }

  /** Older files were written no later, and none was written after `now`. */
  ghost predicate Aged(fs: seq<LogFile>, now: int) {
    && (forall j :: 0 <= j < |fs| ==> fs[j].modified <= now)
    && (forall j, k :: 0 <= j < k < |fs| ==> fs[k].modified <= fs[j].modified)
  }

  /** The files once a line is written and before the cleanup. */
  function WrittenFiles(fs: seq<LogFile>, max: nat, line: string, now: int): seq<LogFile> {
    if fs == [] || Size(fs[0].lines) + |line| > max then [LogFile([line], now)] + fs
    else [LogFile(fs[0].lines + [line], now)] + fs[1..]
  }

  // ---------------------------------------------------------------- one append on a directory without gap

  /** Up to index `top` the directory holds the files `fs`; its higher indices end below `top` + 20. */
  ghost predicate HoldsUpTo(files: Directory, fs: seq<LogFile>, top: nat) {
    && (forall j: nat :: j <= top ==> (j in files <==> j < |fs|))
    && (forall j: nat :: j <= top && j in files ==> files[j] == fs[j])
    && (forall j: nat :: j in files ==> j <= top + 20)
  }

  lemma RotationShifts(files: Directory, fs: seq<LogFile>, r: nat, file: LogFile)
    requires Holds(files, fs) && |fs| <= r + 21
    ensures HoldsUpTo(Rotated(files, r)[0 := file], [file] + fs, r)
  {
    var moved := Rotated(files, r)[0 := file];
    forall j: nat | j <= r
      ensures j in moved <==> j < |fs| + 1
      ensures j in moved ==> moved[j] == ([file] + fs)[j]
    {
      if 0 < j <= |fs| {
        var i: nat := j - 1;
        assert i in files.Keys && i + 1 == j;
        assert MovedFrom(files, 0, r, j) == i;
      }
    }
  }

  lemma WriteHolds(files: Directory, fs: seq<LogFile>, policy: LogPolicy, line: string, now: int)
    requires Holds(files, fs) && |fs| <= policy.retentionFiles + 21 && ValidPolicy(policy)
    ensures HoldsUpTo(WithLine(if MustRotate(files, policy, |line|)
                               then Rotated(files, policy.retentionFiles) else files, line, now),
                      WrittenFiles(fs, policy.maxFileBytes, line, now), policy.retentionFiles)
  {
    var r := policy.retentionFiles;
    if MustRotate(files, policy, |line|) {
      RotationShifts(files, fs, r, LogFile([line], now));
      assert [] + [line] == [line] && 0 !in Rotated(files, r);
    } else if fs == [] {
      assert [] + [line] == [line];
    }
  }

  /** The cleanup keeps a row of the newest files and leaves no more than the policy allows. */
  lemma CleanupKeepsNewest(files: Directory, fs: seq<LogFile>, policy: LogPolicy, now: int) returns (k: nat)
    requires ValidPolicy(policy) && HoldsUpTo(files, fs, policy.retentionFiles) && Aged(fs, now) && fs != []
    ensures 1 <= k <= |fs| && k <= policy.retentionFiles + 1 && Holds(Cleaned(files, policy, now), fs[..k])
    ensures forall j :: 0 < j < |fs| ==> (j < k <==> j <= policy.retentionFiles && !Expired(fs[j], policy, now))
    ensures policy.retentionDays == 0 ==>
              k == if |fs| <= policy.retentionFiles + 1 then |fs| else policy.retentionFiles + 1
  {
    k := if |fs| <= policy.retentionFiles + 1 then |fs| else policy.retentionFiles + 1;
    while k > 1 && Expired(fs[k - 1], policy, now)
      invariant 1 <= k <= |fs| && k <= policy.retentionFiles + 1
      invariant forall j :: k <= j < |fs| && j <= policy.retentionFiles ==> Expired(fs[j], policy, now)
      invariant policy.retentionDays == 0 ==>
                  k == if |fs| <= policy.retentionFiles + 1 then |fs| else policy.retentionFiles + 1
    {
      k := k - 1;
    }
  }

  /** An append writes the line to the newest file and keeps a row of the newest files: exactly those within the count
      that are not expired, so that age, too, removes only the oldest ones. */
  lemma AppendHolds(files: Directory, fs: seq<LogFile>, policy: LogPolicy, line: string, now: int) returns (k: nat)
    requires ValidPolicy(policy) && Holds(files, fs) && Aged(fs, now) && |fs| <= policy.retentionFiles + 21
    ensures var w := WrittenFiles(fs, policy.maxFileBytes, line, now);
            && 1 <= k <= |w| && k <= policy.retentionFiles + 1 && Aged(w, now)
            && Holds(Appended(files, policy, line, now), w[..k])
            && (forall j :: 0 < j < |w| ==> (j < k <==> j <= policy.retentionFiles && !Expired(w[j], policy, now)))
            && (policy.retentionDays == 0 ==>
                  k == if |w| <= policy.retentionFiles + 1 then |w| else policy.retentionFiles + 1)
  {
    WriteHolds(files, fs, policy, line, now);
    var rotated := if MustRotate(files, policy, |line|) then Rotated(files, policy.retentionFiles) else files;
    var written := WithLine(rotated, line, now);
    k := CleanupKeepsNewest(written, WrittenFiles(fs, policy.maxFileBytes, line, now), policy, now);
  }

  // ---------------------------------------------------------------- text

  lemma TextOfWritten(fs: seq<LogFile>, max: nat, line: string, now: int)
    ensures Text(WrittenFiles(fs, max, line, now)) == Text(fs) + [line]
  {
    var w := WrittenFiles(fs, max, line, now);
    if fs == [] || Size(fs[0].lines) + |line| > max {
      assert w[1..] == fs;
    } else {
      assert w[1..] == fs[1..];
      assert Text(w) == Text(fs[1..]) + (fs[0].lines + [line]);
    }
  }

  lemma {:induction false} TextOfNewest(fs: seq<LogFile>, k: nat)
    requires k <= |fs|
    ensures IsSuffix(Text(fs[..k]), Text(fs))
    ensures k == |fs| ==> Text(fs[..k]) == Text(fs)
  {
    if k == |fs| {
      assert fs[..k] == fs;
      assert Text(fs) == [] + Text(fs);
    } else if k == 0 {
      assert Text(fs) == Text(fs) + [];
    } else {
      TextOfNewest(fs[1..], k - 1);
      assert fs[..k][1..] == fs[1..][..k - 1];
      var front :| Text(fs[1..]) == front + Text(fs[1..][..k - 1]);
      assert Text(fs) == front + Text(fs[..k]);
    }
  }

  lemma SuffixStep<T(!new)>(a: seq<T>, b: seq<T>, x: T, c: seq<T>)
    requires IsSuffix(a, b) && IsSuffix(c, a + [x])
    ensures IsSuffix(c, b + [x])
  {
    var front :| b == front + a;
    var dropped :| a + [x] == dropped + c;
    assert b + [x] == front + (a + [x]) == (front + dropped) + c;
  }

  // ---------------------------------------------------------------- whole runs

  lemma {:induction false} RunHolds(entries: seq<Entry>) returns (fs: seq<LogFile>)
    requires Orderly(entries)
    ensures Holds(DirectoryAfter(entries), fs) && IsSuffix(Text(fs), Lines(entries))
    ensures entries == [] ==> fs == []
    ensures entries != [] ==>
              1 <= |fs| <= entries[|entries| - 1].policy.retentionFiles + 1 && Aged(fs, entries[|entries| - 1].now)
  {
    if entries == [] {
      fs := [];
      assert [] == [] + Text(fs);
    } else {
      var front, e := entries[..|entries| - 1], entries[|entries| - 1];
      var fs0 := RunHolds(front);
      var k := AppendHolds(DirectoryAfter(front), fs0, e.policy, e.line, e.now);
      var w := WrittenFiles(fs0, e.policy.maxFileBytes, e.line, e.now);
      fs := w[..k];
      TextOfWritten(fs0, e.policy.maxFileBytes, e.line, e.now);
      TextOfNewest(w, k);
      SuffixStep(Text(fs0), Lines(front), e.line, Text(fs));
    }
  }

  lemma {:induction false} HoldsCount(files: Directory, fs: seq<LogFile>)
    requires Holds(files, fs)
    ensures |files| == |fs|
  {
    if fs == [] {
      assert files == map[];
    } else {
      var n := |fs| - 1;
      HoldsCount(files - {n}, fs[..n]);
      assert files == (files - {n})[n := files[n]];
    }
  }

  /** The files of a directory without gap, in order. */
  ghost function InOrder(files: Directory): seq<LogFile>
    requires forall j: nat :: j < |files| ==> j in files
  {
    seq(|files|, j requires 0 <= j < |files| => files[j])
  }

  lemma InOrderAre(files: Directory, fs: seq<LogFile>)
    requires Holds(files, fs)
    ensures |files| == |fs| && (forall j: nat :: j in files <==> j < |files|) && InOrder(files) == fs
  {
    HoldsCount(files, fs);
  }

  /** Over every orderly run: no gap among the files, never more than the current file and the allowed older ones,
      and the files read from the oldest to the current one are exactly the end of everything written. */
  lemma RetainedTextIsSuffix(entries: seq<Entry>)
    requires Orderly(entries) && entries != []
    ensures var files := DirectoryAfter(entries);
            && 1 <= |files| <= entries[|entries| - 1].policy.retentionFiles + 1
            && (forall j: nat :: j in files <==> j < |files|)
            && IsSuffix(Text(InOrder(files)), Lines(entries))
  {
    var fs := RunHolds(entries);
    InOrderAre(DirectoryAfter(entries), fs);
    hide *;
  }

  /** One append on gap-free files keeps them gap-free and within the count exactly when the highest index was not
      more than 20 above the count of the policy. */
  lemma ShrinkLimit(files: Directory, fs: seq<LogFile>, policy: LogPolicy, line: string, now: int)
    requires ValidPolicy(policy) && Holds(files, fs) && Aged(fs, now)
    ensures (exists fs' :: Holds(Appended(files, policy, line, now), fs') && |fs'| <= policy.retentionFiles + 1)
            <==> |fs| <= policy.retentionFiles + 21
  {
    var appended := Appended(files, policy, line, now);
    if |fs| <= policy.retentionFiles + 21 {
      var k := AppendHolds(files, fs, policy, line, now);
    } else {
      var leaked: nat := policy.retentionFiles + 21;
      assert leaked in files && MovedFrom(files, 0, policy.retentionFiles, leaked) == leaked;
      assert leaked in appended;
    }
  }

  // ---------------------------------------------------------------- sizes

  /** No file is empty, and a file above the limit holds a single line. */
  ghost predicate FilesFit(fs: seq<LogFile>, max: nat) {
    forall j :: 0 <= j < |fs| ==> fs[j].lines != [] && (Size(fs[j].lines) <= max || |fs[j].lines| == 1)
  }

  /** A file was closed only because the first line of the next one did not fit into it any more. */
  ghost predicate ClosedWhenFull(fs: seq<LogFile>, max: nat)
    requires FilesFit(fs, max)
  {
    forall j :: 0 < j < |fs| ==> Size(fs[j].lines) + |fs[j - 1].lines[0]| > max
  }

  lemma {:induction false} SizeConcat(a: seq<string>, b: seq<string>)
    ensures Size(a + b) == Size(a) + Size(b)
  {
    if a == [] {
      assert a + b == b;
    } else {
      assert (a + b)[1..] == a[1..] + b;
      SizeConcat(a[1..], b);
    }
  }

  lemma SizeOfOne(line: string)
    ensures Size([line]) == |line|
  {
  }

  lemma FirstLineSize(lines: seq<string>)
    ensures lines != [] ==> Size(lines) >= |lines[0]|
  {
  }

  lemma SizesOfWritten(fs: seq<LogFile>, max: nat, line: string, now: int)
    requires FilesFit(fs, max) && ClosedWhenFull(fs, max)
    ensures FilesFit(WrittenFiles(fs, max, line, now), max) && ClosedWhenFull(WrittenFiles(fs, max, line, now), max)
  {
    hide Size;
    SizeOfOne(line);
    if fs != [] {
      SizeConcat(fs[0].lines, [line]);
    }
  }

  /** Any two neighbouring files hold more than the limit together, and so all files hold more than that for every
      pair. */
  lemma {:induction false} PairsExceed(fs: seq<LogFile>, max: nat)
    requires FilesFit(fs, max) && ClosedWhenFull(fs, max)
    ensures forall j :: 0 < j < |fs| ==> Size(fs[j].lines) + Size(fs[j - 1].lines) > max
    ensures |fs| >= 2 ==> Size(Text(fs)) > max * (|fs| / 2)
  {
    hide Size;
    forall j | 0 < j < |fs| ensures Size(fs[j].lines) + Size(fs[j - 1].lines) > max {
      FirstLineSize(fs[j - 1].lines);
    }
    if |fs| >= 2 {
      var newer, older, rest := fs[0].lines, fs[1].lines, fs[2..];
      assert fs[1..][1..] == rest;
      assert Text(fs) == Text(rest) + older + newer;
      SizeConcat(Text(rest) + older, newer);
      SizeConcat(Text(rest), older);
      PairsExceed(rest, max);
      OnePairMore(max, |fs|);
    }
  }

  lemma OnePairMore(max: nat, n: nat)
    requires n >= 2
    ensures max * (n / 2) == max * ((n - 2) / 2) + max
    ensures n < 4 ==> max * ((n - 2) / 2) == 0
  {
    assert n / 2 == (n - 2) / 2 + 1;
  }

  ghost predicate SamePolicy(entries: seq<Entry>, policy: LogPolicy) {
    forall i :: 0 <= i < |entries| ==> entries[i].policy == policy
  }

  lemma NothingWritten()
    ensures Text([]) == [] && Lines([]) == []
  {
  }

  lemma WrittenGrows(fs: seq<LogFile>, max: nat, line: string, now: int)
    ensures |WrittenFiles(fs, max, line, now)| >= |fs|
  {
  }

  lemma {:induction false} RunSizes(entries: seq<Entry>, policy: LogPolicy) returns (fs: seq<LogFile>)
    requires Orderly(entries) && SamePolicy(entries, policy) && ValidPolicy(policy)
    ensures Holds(DirectoryAfter(entries), fs) && |fs| <= policy.retentionFiles + 1
    ensures entries != [] ==> Aged(fs, entries[|entries| - 1].now)
    ensures entries == [] ==> fs == []
    ensures FilesFit(fs, policy.maxFileBytes) && ClosedWhenFull(fs, policy.maxFileBytes)
    ensures policy.retentionDays == 0 ==> |fs| == policy.retentionFiles + 1 || Text(fs) == Lines(entries)
  {
    hide Appended, WrittenFiles, Text, Size, ValidPolicy;
    if entries == [] {
      fs := [];
      NothingWritten();
    } else {
      var front, e := entries[..|entries| - 1], entries[|entries| - 1];
      var fs0 := RunSizes(front, policy);
      var k := AppendHolds(DirectoryAfter(front), fs0, policy, e.line, e.now);
      var w := WrittenFiles(fs0, policy.maxFileBytes, e.line, e.now);
      fs := w[..k];
      WrittenGrows(fs0, policy.maxFileBytes, e.line, e.now);
      TextOfWritten(fs0, policy.maxFileBytes, e.line, e.now);
      TextOfNewest(w, k);
      SizesOfWritten(fs0, policy.maxFileBytes, e.line, e.now);
    }
  }

  lemma {:induction false} LineOfText(fs: seq<LogFile>, j: nat, line: string)
    requires j < |fs| && line in fs[j].lines
    ensures line in Text(fs)
  {
    if j > 0 {
      LineOfText(fs[1..], j - 1, line);
    }
  }

  /** Under one policy, a file is larger than the limit only when it holds one line that is. */
  lemma FileSizeLimit(entries: seq<Entry>, policy: LogPolicy)
    requires Orderly(entries) && SamePolicy(entries, policy) && entries != []
    ensures var files := DirectoryAfter(entries);
            forall j: nat :: j in files ==>
              Size(files[j].lines) <= policy.maxFileBytes ||
                (exists line :: line in Lines(entries) && files[j].lines == [line])
  {
    hide ValidPolicy, Text, Size, Lines, DirectoryAfter;
    assert entries[0].policy == policy;
    var fs := RunSizes(entries, policy);
    var fs' := RunHolds(entries);
    var files := DirectoryAfter(entries);
    assert fs == fs' by { HoldsCount(files, fs); HoldsCount(files, fs'); }
    LargeFileHoldsOneLine(fs, policy.maxFileBytes, Lines(entries));
  }

  lemma LargeFileHoldsOneLine(fs: seq<LogFile>, max: nat, all: seq<string>)
    requires FilesFit(fs, max) && IsSuffix(Text(fs), all)
    ensures forall j :: 0 <= j < |fs| ==>
              Size(fs[j].lines) <= max || (exists line :: line in all && fs[j].lines == [line])
  {
    forall j | 0 <= j < |fs| && Size(fs[j].lines) > max
      ensures exists line :: line in all && fs[j].lines == [line]
    {
      var line := fs[j].lines[0];
      LineOfText(fs, j, line);
      assert line in all && fs[j].lines == [line];
    }
  }

  /** Without retention by age any two neighbouring files exceed the limit together, and either nothing was ever
      dropped, or the full number of files is there and holds more than the limit for every pair of files. */
  lemma DroppedOnlyWhenFull(entries: seq<Entry>, policy: LogPolicy)
    requires Orderly(entries) && SamePolicy(entries, policy) && ValidPolicy(policy) && policy.retentionDays == 0
    ensures var files := DirectoryAfter(entries);
            && (forall j: nat :: j in files <==> j < |files|)
            && (forall j: nat :: j > 0 && j in files ==>
                  Size(files[j].lines) + Size(files[j - 1].lines) > policy.maxFileBytes)
            && (Text(InOrder(files)) != Lines(entries) ==>
                 && |files| == policy.retentionFiles + 1
                 && Size(Text(InOrder(files))) > policy.maxFileBytes * ((policy.retentionFiles + 1) / 2))
  {
    hide Text, Size, Lines, FilesFit;
    var fs := RunSizes(entries, policy);
    var files := DirectoryAfter(entries);
    HoldsCount(files, fs);
    assert InOrder(files) == fs;
    PairsExceed(fs, policy.maxFileBytes);
    assert forall j: nat :: j in files ==> files[j] == fs[j];
    assert |fs| == policy.retentionFiles + 1 ==> |fs| / 2 == (policy.retentionFiles + 1) / 2;
  }
}
