/**
 The access log and its rotated copies, src/request_logger.cpp. A file system is a map from
 names to contents; name 0 is the live log and name i the copy with suffix ".i".
 */
module LogFiles {
  const MAX_LOG_BYTES: nat := 1024 * 1024
  const ROTATION_KEEP: nat := 3
  const LIVE: nat := 0

  type Files = map<nat, string>

  function Content(fs: Files, n: nat): string {
    if n in fs then fs[n] else ""
  }

  /** rename(2): a missing source changes nothing, an existing target is replaced. */
  function Renamed(fs: Files, from: nat, to: nat): Files
    requires from != to
  {
    if from in fs then fs[to := fs[from]] - {from} else fs
  }

  function Appended(fs: Files, entry: string): Files {
    fs[LIVE := Content(fs, LIVE) + entry]
  }

  predicate NeedsRotation(fs: Files) {
    LIVE in fs && |fs[LIVE]| >= MAX_LOG_BYTES
  }

  predicate HasYounger(fs: Files, n: nat) {
    n >= 1 && n - 1 in fs
  }

  /** What one rotation makes of the log's files: every name moves up by one, the oldest copy goes. */
  function Rotated(fs: Files): Files {
    if !NeedsRotation(fs) then fs
    else map n: nat | n <= ROTATION_KEEP && HasYounger(fs, n) :: fs[n - 1]
  }

  /** One synchronous log call: rotate if needed, then append. */
  function Logged(fs: Files, entry: string): Files {
    Appended(Rotated(fs), entry)
  }

  /** Everything still on disk, oldest first. */
  function Retained(fs: Files): string {
    Content(fs, 3) + Content(fs, 2) + Content(fs, 1) + Content(fs, LIVE)
  }

  ghost predicate IsSuffix(s: string, all: string) {
    |s| <= |all| && all[|all| - |s|..] == s
  }

  /** Numbered copies have no gap from .1 up and are all full. */
  ghost predicate WellRotated(fs: Files) {
    && (forall n :: n in fs ==> n <= ROTATION_KEEP)
    && (forall n :: 2 <= n <= ROTATION_KEEP && n in fs ==> n - 1 in fs)
    && (forall n :: 1 <= n <= ROTATION_KEEP && n in fs ==> |fs[n]| >= MAX_LOG_BYTES)
  }

  /** What is kept is a suffix of everything logged; anything lost was lost with three full copies kept. */
  ghost predicate KeepsSuffix(fs: Files, all: string) {
    && IsSuffix(Retained(fs), all)
    && (Retained(fs) != all ==> ROTATION_KEEP in fs)
  }

  lemma SuffixAppend(s: string, all: string, e: string)
    requires IsSuffix(s, all)
    ensures IsSuffix(s + e, all + e)
  {
    assert (all + e)[|all + e| - |s + e|..] == all[|all| - |s|..] + e;
  }

  lemma SuffixTrans(s: string, t: string, all: string)
    requires IsSuffix(t, all) && |s| <= |t| && t[|t| - |s|..] == s
    ensures IsSuffix(s, all)
  {
    assert all[|all| - |s|..] == all[|all| - |t|..][|t| - |s|..];
  }

  lemma RotatedNames(fs: Files, n: nat)
    requires NeedsRotation(fs)
    ensures n in Rotated(fs) <==> 1 <= n <= ROTATION_KEEP && n - 1 in fs
    ensures Content(Rotated(fs), n) == if 1 <= n <= ROTATION_KEEP then Content(fs, n - 1) else ""
  {
  }

  lemma RotatedWellRotated(fs: Files)
    requires WellRotated(fs)
    ensures WellRotated(Rotated(fs))
  {
  }

  /** A rotation drops exactly the content of the oldest copy. */
  lemma RotatedRetained(fs: Files)
    requires NeedsRotation(fs)
    ensures Retained(fs) == Content(fs, 3) + Retained(Rotated(fs))
    ensures 2 in fs <==> 3 in Rotated(fs)
  {
    hide Content, Rotated, NeedsRotation;
    RotatedNames(fs, 0);
    RotatedNames(fs, 1);
    RotatedNames(fs, 2);
    RotatedNames(fs, 3);
  }

  lemma RotatedKeepsSuffix(fs: Files, all: string)
    requires WellRotated(fs) && KeepsSuffix(fs, all)
    ensures KeepsSuffix(Rotated(fs), all)
  {
    if NeedsRotation(fs) {
      RotatedRetained(fs);
      SuffixTrans(Retained(Rotated(fs)), Retained(fs), all);
      if 3 !in fs {
        assert Retained(fs) == Retained(Rotated(fs));
      }
    }
  }

  lemma AppendedRetained(fs: Files, entry: string)
    ensures Retained(Appended(fs, entry)) == Retained(fs) + entry
    ensures ROTATION_KEEP in Appended(fs, entry) <==> ROTATION_KEEP in fs
  {
    var after := Appended(fs, entry);
    assert Content(after, 3) == Content(fs, 3) && Content(after, 2) == Content(fs, 2);
    assert Content(after, 1) == Content(fs, 1) && Content(after, LIVE) == Content(fs, LIVE) + entry;
    hide Content, Appended;
    ConcatTail(Content(fs, 3) + Content(fs, 2) + Content(fs, 1), Content(fs, LIVE), entry);
  }

  lemma ConcatTail(s: string, t: string, e: string)
    ensures s + (t + e) == s + t + e
  {
  }

  lemma AppendedWellRotated(fs: Files, entry: string)
    requires WellRotated(fs)
    ensures WellRotated(Appended(fs, entry))
  {
    hide Content;
  }

  lemma AppendedKeepsSuffix(fs: Files, all: string, entry: string)
    requires WellRotated(fs) && KeepsSuffix(fs, all)
    ensures WellRotated(Appended(fs, entry)) && KeepsSuffix(Appended(fs, entry), all + entry)
  {
    hide WellRotated, Retained, Appended, IsSuffix;
    AppendedWellRotated(fs, entry);
    AppendedRetained(fs, entry);
    SuffixAppend(Retained(fs), all, entry);
  }

  /** One synchronous call keeps the rotation invariant. */
  lemma LoggedKeepsSuffix(fs: Files, all: string, entry: string)
    requires WellRotated(fs) && KeepsSuffix(fs, all)
    ensures WellRotated(Logged(fs, entry)) && KeepsSuffix(Logged(fs, entry), all + entry)
  {
    RotatedWellRotated(fs);
    RotatedKeepsSuffix(fs, all);
    hide KeepsSuffix;
    AppendedKeepsSuffix(Rotated(fs), all, entry);
  }

  lemma LoggedBounded(fs: Files, entry: string)
    ensures |Content(Logged(fs, entry), LIVE)| < MAX_LOG_BYTES + |entry|
  {
    if NeedsRotation(fs) {
      RotatedNames(fs, LIVE);
    }
  }

  /** Nothing is lost before three full copies exist. */
  lemma RetainsThreeCopies(fs: Files, all: string)
    requires WellRotated(fs) && KeepsSuffix(fs, all)
    ensures Retained(fs) == all || |Retained(fs)| >= 3 * MAX_LOG_BYTES
  {
    if Retained(fs) != all {
      assert 2 in fs && 1 in fs;
    }
  }

  // ---- The rotation loop

  /** The files while name i is free: names above it have moved up, names below it have not. */
  function Gap(fs: Files, i: nat): Files {
    map n: nat | n <= ROTATION_KEEP && n != i && MovesTo(fs, n, i) :: if n < i then fs[n] else fs[n - 1]
  }

  predicate MovesTo(fs: Files, n: nat, i: nat) {
    if n < i then n in fs else n > i && n - 1 in fs
  }

  lemma NotRotated(fs: Files)
    requires !NeedsRotation(fs)
    ensures Rotated(fs) == fs
  {
  }

  lemma GapAtOldest(fs: Files)
    requires forall n :: n in fs ==> n <= ROTATION_KEEP
    ensures fs - {ROTATION_KEEP} == Gap(fs, ROTATION_KEEP)
  {
  }

  /** Renaming i to i + 1 moves the gap down by one. */
  lemma GapMoves(fs: Files, i: nat)
    requires i < ROTATION_KEEP
    ensures Renamed(Gap(fs, i + 1), i, i + 1) == Gap(fs, i)
  {
    var before, after := Gap(fs, i + 1), Gap(fs, i);
    var r := Renamed(before, i, i + 1);
    forall n: nat ensures n in r <==> n in after {
      assert MovesTo(fs, n, i) || !MovesTo(fs, n, i);
    }
  }

  lemma GapAtLive(fs: Files)
    requires NeedsRotation(fs)
    ensures Gap(fs, LIVE) == Rotated(fs)
  {
  }

  /** The log directory as the logger's system calls see it. */
  class LogDirectory {
    var files: Files

    constructor ()
      ensures files == map[]
    {
      files := map[];
    }

    method Rename(from: nat, to: nat)
      requires from != to
      modifies this
      ensures files == Renamed(old(files), from, to)
    {
      if from in files {
        files := files[to := files[from]] - {from};
      }
    }

    method RotateLogIfNeeded()
      requires forall n :: n in files ==> n <= ROTATION_KEEP
      modifies this
      ensures files == Rotated(old(files))
    {
      hide Rotated, Renamed, Gap;
      if LIVE !in files || |files[LIVE]| < MAX_LOG_BYTES {
        NotRotated(files);
        return;
      }
      GapAtOldest(files);
      files := files - {ROTATION_KEEP};
      for i := ROTATION_KEEP downto 1
        invariant files == Gap(old(files), i)
      {
        GapMoves(old(files), i);
        Rename(i, i + 1);
      }
      GapMoves(old(files), 0);
      GapAtLive(old(files));
      Rename(LIVE, 1);
    }

    method Append(entry: string)
      modifies this
      ensures files == Appended(old(files), entry)
    {
      files := files[LIVE := (if LIVE in files then files[LIVE] else "") + entry];
    }
  }
}
