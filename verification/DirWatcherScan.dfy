/** What a scan reports, what it leaves in the list, and when a second scan of the same directory is silent. */
module DirWatcherScan {
  import opened DirWatcher
  import opened FileList
  import opened Runs

  // ---------- looking up after a change ----------

  lemma {:induction false} IndexOfAppend(q: seq<FileInfo>, f: FileInfo, hash: nat)
    ensures IndexOf(q + [f], hash) ==
            if IndexOf(q, hash).Some? then IndexOf(q, hash) else if Matches(f, hash) then Some(|q|) else None
  {
    if q == [] {
      assert q + [f] == [f];
    } else {
      assert (q + [f])[1..] == q[1..] + [f];
      IndexOfAppend(q[1..], f, hash);
    }
  }

  lemma {:induction false} IndexOfUpdate(q: seq<FileInfo>, i: nat, f: FileInfo, hash: nat)
    requires i < |q| && (Matches(f, hash) <==> Matches(q[i], hash))
    ensures IndexOf(q[i := f], hash) == IndexOf(q, hash)
  {
    if i == 0 {
      assert q[i := f][1..] == q[1..];
    } else {
      assert q[i := f][1..] == q[1..][i - 1 := f];
      IndexOfUpdate(q[1..], i - 1, f, hash);
    }
  }

  /** The recorded time, or None for a hash that is not tracked. */
  function Time(q: seq<FileInfo>, hash: nat): Option<int> {
    if Tracked(q, hash) then Some(TimeOf(q, hash)) else None
  }

  /** One entry records its own time, if it is tracked or there is room, and changes nothing for other hashes. */
  lemma OneEntry(q: seq<FileInfo>, e: DirEntry, hash: nat)
    ensures var q' := ScanOne(q, e).q;
            && |q| <= |q'|
            && Time(q', hash) ==
               if e.eligible && hash == e.hash != 0 && (Tracked(q, hash) || |q| < CAPACITY) then Some(e.time)
               else Time(q, hash)
  {
    if e.eligible {
      if !Tracked(q, e.hash) {
        IndexOfAppend(q, Info(e), hash);
      } else {
        var i := IndexOf(q, e.hash).value;
        IndexOfUpdate(q, i, q[i].(path := e.path, hash := e.hash, time := e.time), hash);
      }
    }
  }

  predicate Names(e: DirEntry, hash: nat) {
    e.eligible && e.hash == hash
  }

  /** A scan never forgets, touches only hashes it met, and leaves out a file it met only if the list is full. */
  lemma {:induction false} ScanTracks(q: seq<FileInfo>, es: seq<DirEntry>, hash: nat)
    ensures var q' := ScanAll(q, es).q;
            && |q| <= |q'|
            && (Tracked(q, hash) ==> Tracked(q', hash))
            && ((forall e :: e in es ==> !Names(e, hash)) ==> Time(q', hash) == Time(q, hash))
            && ((exists e :: e in es && Names(e, hash)) && hash != 0 ==> Tracked(q', hash) || |q'| >= CAPACITY)
    decreases |es|
  {
    if es == [] {
    } else {
      OneEntry(q, es[0], hash);
      ScanTracks(ScanOne(q, es[0]).q, es[1..], hash);
      assert es[0] in es && forall e :: e in es <==> e == es[0] || e in es[1..];
      assert Names(es[0], hash) || !Names(es[0], hash);
    }
  }

  /** What is recorded for a hash the scan met is the time of one of the files it met. */
  lemma {:induction false} ScanRecords(q: seq<FileInfo>, es: seq<DirEntry>, hash: nat)
    requires Tracked(ScanAll(q, es).q, hash)
    ensures Time(ScanAll(q, es).q, hash) == Time(q, hash)
            || exists e :: e in es && Names(e, hash) && Time(ScanAll(q, es).q, hash) == Some(e.time)
    ensures (exists e :: e in es && Names(e, hash)) ==>
              exists e :: e in es && Names(e, hash) && Time(ScanAll(q, es).q, hash) == Some(e.time)
    decreases |es|
  {
    if es == [] {
    } else {
      var q1 := ScanOne(q, es[0]).q;
      OneEntry(q, es[0], hash);
      ScanRecords(q1, es[1..], hash);
      ScanTracks(q1, es[1..], hash);
      assert es[0] in es && forall e :: e in es[1..] ==> e in es;
    }
  }

  // ---------- the list stays well-formed ----------

  lemma {:induction false} ScanKeepsWellFormed(q: seq<FileInfo>, es: seq<DirEntry>)
    requires WellFormed(q)
    ensures WellFormed(ScanAll(q, es).q)
    decreases |es|
  {
    if es == [] {
    } else {
      ScanKeepsWellFormed(ScanOne(q, es[0]).q, es[1..]);
    }
  }

  lemma {:induction false} FetchKeepsWellFormed(q: seq<FileInfo>, es: seq<DirEntry>, success: bool)
    requires WellFormed(q)
    ensures WellFormed(FetchAll(q, es, success).0)
    decreases |es|
  {
    if es == [] {
    } else {
      var ok := es[0].eligible && |q| < CAPACITY && !Tracked(q, es[0].hash);
      FetchKeepsWellFormed(if ok then q + [Info(es[0])] else q, es[1..], if es[0].eligible then ok else success);
    }
  }

  /** What the watcher does to its list over its life. */
  datatype Pass = Fetch(entries: seq<DirEntry>) | Clean(at: Snapshot) | Scan(entries: seq<DirEntry>)

  function AfterPass(q: seq<FileInfo>, p: Pass): Option<seq<FileInfo>> {
    match p
    case Fetch(entries) => Some(FetchAll(q, entries, true).0)
    case Clean(at) => Some(q[CleanedCount(q, at)..])
    case Scan(entries) => Some(ScanAll(q, entries).q)
  }

  /** After any sequence of passes over any snapshots: at most 10000 entries, none marked deleted, no two with the same
      hash other than 0. */
  lemma PassesKeepWellFormed(passes: seq<Pass>)
    ensures Exec(AfterPass, [], passes).Some? ==> WellFormed(Exec(AfterPass, [], passes).value)
  {
    forall q: seq<FileInfo>, p: Pass | WellFormed(q) ensures WellFormed(AfterPass(q, p).value) {
      match p
      case Fetch(entries) => FetchKeepsWellFormed(q, entries, true);
      case Clean(_) =>
      case Scan(entries) => ScanKeepsWellFormed(q, entries);
    }
    InvariantHolds(AfterPass, (q: seq<FileInfo>) => WellFormed(q), [], passes);
  }

  // ---------- exactly what a scan reports ----------

  /** Different eligible files have different hashes, and none is 0. */
  ghost predicate DistinctHashes(es: seq<DirEntry>) {
    && (forall i :: 0 <= i < |es| && es[i].eligible ==> es[i].hash != 0)
    && (forall i, j :: 0 <= i < j < |es| && es[i].eligible && es[j].eligible ==> es[i].hash != es[j].hash)
  }

  /** What one file should be reported as, given only the list before the scan and the list after it. */
  function Report(before: seq<FileInfo>, after: seq<FileInfo>, e: DirEntry): seq<Event> {
    if !e.eligible then []
    else
      match Time(before, e.hash)
      case None => if Tracked(after, e.hash) then [Created(Info(e).(fs := IsCreated))] else []
      case Some(time) => if time != e.time then [Modified(Info(e).(fs := IsModified))] else []
  }

  function Reports(before: seq<FileInfo>, after: seq<FileInfo>, es: seq<DirEntry>): seq<Event> {
    if es == [] then [] else Report(before, after, es[0]) + Reports(before, after, es[1..])
  }

  lemma ReportDependsOnHash(q: seq<FileInfo>, q1: seq<FileInfo>, after: seq<FileInfo>, e: DirEntry)
    requires e.eligible ==> Time(q, e.hash) == Time(q1, e.hash)
    ensures Report(q, after, e) == Report(q1, after, e)
  {
  }

  lemma {:induction false} ReportsDependOnHashes(
      q: seq<FileInfo>, q1: seq<FileInfo>, after: seq<FileInfo>, es: seq<DirEntry>)
    requires forall e :: e in es && e.eligible ==> Time(q, e.hash) == Time(q1, e.hash)
    ensures Reports(q, after, es) == Reports(q1, after, es)
  {
    if es == [] {
    } else {
      assert es[0] in es && forall e :: e in es[1..] ==> e in es;
      ReportDependsOnHash(q, q1, after, es[0]);
      ReportsDependOnHashes(q, q1, after, es[1..]);
    }
  }

  /** A scan of files with distinct hashes other than 0 fires, file by file: created exactly if the file was not tracked
      and now is, modified exactly if it was tracked with another time. Afterwards every tracked file it met carries
      the scanned time, and a file it met is left out only because the list is full. */
  lemma {:induction false} ScanReportsExactly(q: seq<FileInfo>, es: seq<DirEntry>)
    requires DistinctHashes(es)
    ensures var r := ScanAll(q, es);
            && r.events == Reports(q, r.q, es)
            && forall e :: e in es && e.eligible ==>
                 if Tracked(r.q, e.hash) then Time(r.q, e.hash) == Some(e.time) else |r.q| >= CAPACITY
    decreases |es|
  {
    if es == [] {
    } else {
      var e, rest := es[0], es[1..];
      var q1, q' := ScanOne(q, e).q, ScanAll(q, es).q;
      ScanReportsExactly(q1, rest);
      assert forall d :: d in es <==> d == e || d in rest;
      if e.eligible {
        OneEntry(q, e, e.hash);
        assert forall d :: d in rest ==> !Names(d, e.hash);
        ScanTracks(q1, rest, e.hash);
      }
      forall d | d in rest && d.eligible ensures Time(q, d.hash) == Time(q1, d.hash) {
        OneEntry(q, e, d.hash);
      }
      ReportsDependOnHashes(q, q1, q', rest);
    }
  }

  // ---------- scanning again ----------

  /** An entry that the list `q` has nothing to report about. */
  predicate Quiet(q: seq<FileInfo>, e: DirEntry) {
    e.eligible ==> if Tracked(q, e.hash) then TimeOf(q, e.hash) == e.time else |q| >= CAPACITY
  }

  lemma {:induction false} SilentIffQuiet(q: seq<FileInfo>, es: seq<DirEntry>)
    ensures ScanAll(q, es).events == [] <==> forall e :: e in es ==> Quiet(q, e)
    ensures ScanAll(q, es).events == [] ==> ScanAll(q, es).q == q
    decreases |es|
  {
    if es == [] {
    } else {
      assert forall e :: e in es <==> e == es[0] || e in es[1..];
      if Quiet(q, es[0]) {
        SilentIffQuiet(q, es[1..]);
      }
    }
  }

  /** Scanning an unchanged directory again fires nothing, exactly when no file was scanned with hash 0 unless the list
      is full, and files with the same tracked hash have the same time. */
  lemma RescanSilentIff(q: seq<FileInfo>, es: seq<DirEntry>)
    ensures var q' := ScanAll(q, es).q;
            ScanAll(q', es).events == [] <==>
            && (forall e :: e in es && Names(e, 0) ==> |q'| >= CAPACITY)
            && (forall d, e :: d in es && e in es && Names(d, e.hash) && e.eligible && Tracked(q', e.hash) ==>
                  d.time == e.time)
  {
    var q' := ScanAll(q, es).q;
    SilentIffQuiet(q', es);
    forall e | e in es && e.eligible
      ensures Tracked(q', e.hash) || e.hash == 0 || |q'| >= CAPACITY
      ensures Tracked(q', e.hash) ==> exists d :: d in es && Names(d, e.hash) && Time(q', e.hash) == Some(d.time)
    {
      assert Names(e, e.hash);
      ScanTracks(q, es, e.hash);
      if Tracked(q', e.hash) {
        ScanRecords(q, es, e.hash);
      }
    }
  }

  /** A file with hash 0 is reported as created again. */
  lemma HashZeroIsReportedAgain(e: DirEntry)
    requires e.eligible && e.hash == 0
    ensures ScanAll(ScanAll([], [e]).q, [e]).events == [Created(Info(e).(fs := IsCreated))]
  {
    assert [e][1..] == [];
  }

  lemma ScanOfTwo(q: seq<FileInfo>, d: DirEntry, e: DirEntry)
    ensures var first := ScanOne(q, d);
            var second := ScanOne(first.q, e);
            ScanAll(q, [d, e]) == Outcome(second.q, first.events + second.events)
  {
    assert [d, e][1..] == [e] && [e][1..] == [];
    var second := ScanOne(ScanOne(q, d).q, e);
    assert ScanAll(second.q, []) == Outcome(second.q, []);
    assert ScanAll(ScanOne(q, d).q, [e]) == second;
  }

  /** Two files with the same hash and different times are both reported as modified, for ever. */
  lemma CollisionIsReportedAgain(d: DirEntry, e: DirEntry)
    requires d.eligible && e.eligible && d.hash == e.hash != 0 && d.time != e.time
    ensures ScanAll(ScanAll([], [d, e]).q, [d, e]).events ==
            [Modified(Info(d).(fs := IsModified)), Modified(Info(e).(fs := IsModified))]
    ensures ScanAll(ScanAll([], [d, e]).q, [d, e]).q == ScanAll([], [d, e]).q
  {
    var q1 := [Info(d)];
    var q2 := [Info(e)];
    ScanOfTwo([], d, e);
    ScanOfTwo(q2, d, e);
    assert ScanOne([], d).q == q1;
    assert ScanOne(q1, e) == Outcome(q2, [Modified(Info(e).(fs := IsModified))]);
    assert ScanOne(q2, d) == Outcome(q1, [Modified(Info(d).(fs := IsModified))]);
  }

  /** With distinct hashes other than 0 a second scan is always silent and changes nothing, full list or not. */
  lemma RescanSilent(q: seq<FileInfo>, es: seq<DirEntry>)
    requires DistinctHashes(es)
    ensures ScanAll(ScanAll(q, es).q, es) == Outcome(ScanAll(q, es).q, [])
  {
    ScanReportsExactly(q, es);
    SilentIffQuiet(ScanAll(q, es).q, es);
  }

  // ---------- the initial fetch ----------

  lemma {:induction false} FetchOfUnknownIsScan(q: seq<FileInfo>, es: seq<DirEntry>, success: bool)
    requires DistinctHashes(es) && forall e :: e in es && e.eligible ==> !Tracked(q, e.hash)
    ensures FetchAll(q, es, success).0 == ScanAll(q, es).q
    decreases |es|
  {
    if es == [] {
    } else {
      var e, rest := es[0], es[1..];
      assert e in es && forall d :: d in rest ==> d in es;
      forall d | d in rest && d.eligible ensures !Tracked(ScanOne(q, e).q, d.hash) {
        OneEntry(q, e, d.hash);
      }
      var ok := |q| < CAPACITY && !Tracked(q, e.hash);
      FetchOfUnknownIsScan(ScanOne(q, e).q, rest, if e.eligible then ok else success);
    }
  }

  /** GetFiles fills the list so that the first scan of the same directory is silent. */
  lemma ScanAfterFetchSilent(es: seq<DirEntry>)
    requires DistinctHashes(es)
    ensures var q := FetchAll([], es, true).0; ScanAll(q, es) == Outcome(q, [])
  {
    FetchOfUnknownIsScan([], es, true);
    RescanSilent([], es);
  }

  /** A fetch forgets nothing, and leaves out a file only if the list is full. */
  lemma {:induction false} FetchTracks(q: seq<FileInfo>, es: seq<DirEntry>, success: bool, hash: nat)
    requires hash != 0
    ensures var q' := FetchAll(q, es, success).0;
            && |q| <= |q'| && (Tracked(q, hash) ==> Tracked(q', hash))
            && ((exists e :: e in es && Names(e, hash)) ==> Tracked(q', hash) || |q'| >= CAPACITY)
    decreases |es|
  {
    if es == [] {
    } else {
      var e := es[0];
      var ok := |q| < CAPACITY && !Tracked(q, e.hash);
      IndexOfAppend(q, Info(e), hash);
      FetchTracks(if e.eligible && ok then q + [Info(e)] else q, es[1..], if e.eligible then ok else success, hash);
      assert e in es && forall d :: d in es <==> d == e || d in es[1..];
      assert Names(e, hash) || !Names(e, hash);
    }
  }

  /** The eligible files with hash 0, which the list never recognises. */
  function ZeroFiles(es: seq<DirEntry>): seq<FileInfo> {
    if es == [] then [] else (if Names(es[0], 0) then [Info(es[0])] else []) + ZeroFiles(es[1..])
  }

  /** The hash of the last eligible file. */
  function LastHash(es: seq<DirEntry>): Option<nat> {
    if es == [] then None
    else if LastHash(es[1..]).Some? then LastHash(es[1..])
    else if es[0].eligible then Some(es[0].hash)
    else None
  }

  lemma {:induction false} LastHashTells(es: seq<DirEntry>)
    ensures LastHash(es) == None ==> ZeroFiles(es) == []
    ensures LastHash(es) == Some(0) ==> ZeroFiles(es) != []
  {
    if es == [] {
    } else {
      LastHashTells(es[1..]);
    }
  }

  /** As many of the files as the list has room for. */
  function Fitting(q: seq<FileInfo>, files: seq<FileInfo>): seq<FileInfo>
    requires |q| <= CAPACITY
  {
    if |q| + |files| <= CAPACITY then files else files[..CAPACITY - |q|]
  }

  /** Every file is tracked, or has hash 0, or finds the list full. */
  ghost predicate Known(q: seq<FileInfo>, es: seq<DirEntry>) {
    forall e :: e in es && e.eligible && e.hash != 0 ==> Tracked(q, e.hash) || |q| >= CAPACITY
  }

  lemma KnownStays(q: seq<FileInfo>, f: FileInfo, es: seq<DirEntry>)
    requires Known(q, es)
    ensures Known(q + [f], es)
  {
    forall e | e in es && e.eligible && e.hash != 0 ensures Tracked(q + [f], e.hash) || |q + [f]| >= CAPACITY {
      IndexOfAppend(q, f, e.hash);
    }
  }

  lemma FittingMore(q: seq<FileInfo>, f: FileInfo, files: seq<FileInfo>)
    requires |q| <= CAPACITY
    ensures if |q| < CAPACITY then q + Fitting(q, [f] + files) == (q + [f]) + Fitting(q + [f], files)
            else Fitting(q, [f] + files) == Fitting(q, files) == []
  {
  }

  lemma {:induction false} FetchOfKnown(q: seq<FileInfo>, es: seq<DirEntry>, success: bool)
    requires |q| <= CAPACITY && Known(q, es)
    ensures FetchAll(q, es, success).0 == q + Fitting(q, ZeroFiles(es))
    ensures FetchAll(q, es, success).1 <==>
            if LastHash(es) == None then success else LastHash(es) == Some(0) && |q| + |ZeroFiles(es)| <= CAPACITY
    decreases |es|
  {
    if es == [] {
    } else {
      var e, rest := es[0], es[1..];
      assert e in es && forall d :: d in rest ==> d in es;
      if Names(e, 0) {
        var room := |q| < CAPACITY;
        FittingMore(q, Info(e), ZeroFiles(rest));
        KnownStays(q, Info(e), rest);
        FetchOfKnown(if room then q + [Info(e)] else q, rest, room);
        LastHashTells(rest);
      } else {
        assert [] + ZeroFiles(rest) == ZeroFiles(rest);
        FetchOfKnown(q, rest, if e.eligible then false else success);
      }
    }
  }

  /** Fetching again, as a restarted watcher does, adds only files with hash 0, while there is room, and reports success
      exactly when the directory has no eligible file, or the last one has hash 0 and there is room up to it. */
  lemma RefetchFailsIff(es: seq<DirEntry>)
    ensures var q := FetchAll([], es, true).0;
            && |q| <= CAPACITY && FetchAll(q, es, true).0 == q + Fitting(q, ZeroFiles(es))
            && (FetchAll(q, es, true).1 <==>
                LastHash(es) == None || (LastHash(es) == Some(0) && |q| + |ZeroFiles(es)| <= CAPACITY))
  {
    var q := FetchAll([], es, true).0;
    FetchKeepsWellFormed([], es, true);
    forall e | e in es && e.eligible && e.hash != 0 ensures Tracked(q, e.hash) || |q| >= CAPACITY {
      assert Names(e, e.hash);
      FetchTracks([], es, true, e.hash);
    }
    FetchOfKnown(q, es, true);
  }

  /** A directory with one file: the first fetch succeeds, the second fails. */
  lemma RefetchCanFail(e: DirEntry)
    requires e.eligible && e.hash != 0
    ensures FetchAll([], [e], true) == ([Info(e)], true) && FetchAll([Info(e)], [e], true) == ([Info(e)], false)
  {
    assert [e][1..] == [];
    assert Tracked([Info(e)], e.hash) && !Tracked([], e.hash);
    assert FetchAll([Info(e)], [], true) == ([Info(e)], true) && FetchAll([Info(e)], [], false) == ([Info(e)], false);
    assert [] + [Info(e)] == [Info(e)];
  }
}
