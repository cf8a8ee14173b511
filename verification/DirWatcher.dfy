/** NESESLIB/DirWatcher.hpp: WatchRoutine, each of its turns over a fixed snapshot of the file system.

    A snapshot gives the watched directory, the paths that exist, and the directory's entries in iteration order. The
    callbacks are a log of events.
 */
module DirWatcher {
  import opened FileList
  import opened Runs

  /** `eligible`: a regular file with an allowed extension. */
  datatype DirEntry = DirEntry(path: Path, eligible: bool, hash: nat, time: int)

  datatype Event =
    | Unavailable                 // the message that the watched path is not valid
    | MovedAway(file: FileInfo)   // the message about a path change
    | Erased(file: FileInfo)
    | Created(file: FileInfo)
    | Modified(file: FileInfo)

  datatype Snapshot = Snapshot(dir: string, existing: set<Path>)

  // ---------- the cleanup loop ----------

  predicate Stale(f: FileInfo, at: Snapshot) {
    f.path.parent != at.dir || f.isDeleted || f.path !in at.existing
  }

  /** What is fired for a stale entry that is popped: nothing if it was only marked deleted. */
  function Verdict(f: FileInfo, at: Snapshot): seq<Event> {
    if f.path.parent != at.dir then [MovedAway(f.(isDeleted := true, fs := IsErased))]
    else if f.isDeleted then []
    else [Erased(f.(isDeleted := true, fs := IsErased))]
  }

  function Verdicts(fs: seq<FileInfo>, at: Snapshot): seq<Event> {
    if fs == [] then [] else Verdict(fs[0], at) + Verdicts(fs[1..], at)
  }

  lemma {:induction false} VerdictsAppend(fs: seq<FileInfo>, f: FileInfo, at: Snapshot)
    ensures Verdicts(fs + [f], at) == Verdicts(fs, at) + Verdict(f, at)
  {
    if fs == [] {
      assert fs + [f] == [f];
      assert Verdicts([f][1..], at) == [];
    } else {
      assert (fs + [f])[1..] == fs[1..] + [f];
      VerdictsAppend(fs[1..], f, at);
    }
  }

  /** The events that the cleanup owes for the entries `fs`, in terms of the entries alone: in list order, one MovedAway
      for each that is not in the watched directory, one Erased for each that is and is not marked deleted, and nothing
      for the others. `index` says which entry each event is about. */
  ghost predicate Tells(events: seq<Event>, fs: seq<FileInfo>, at: Snapshot, index: seq<nat>) {
    && |index| == |events|
    && (forall j :: 0 <= j < |index| ==> index[j] < |fs|)
    && (forall j, k :: 0 <= j < k < |index| ==> index[j] < index[k])
    && (forall i :: 0 <= i < |fs| ==> (i in index <==> fs[i].path.parent != at.dir || !fs[i].isDeleted))
    && forall j :: 0 <= j < |index| ==>
         var f := fs[index[j]];
         var told := FileInfo(f.path, f.hash, f.time, IsErased, true);
         events[j] == if f.path.parent != at.dir then MovedAway(told) else Erased(told)
  }

  lemma IndexOfMore(index: seq<nat>, n: nat, more: bool, i: nat)
    requires forall j :: 0 <= j < |index| ==> index[j] < n
    ensures i < n ==> (i in index + (if more then [n] else []) <==> i in index)
    ensures n in index + (if more then [n] else []) <==> more
  {
  }

  lemma TellsMore(events: seq<Event>, fs: seq<FileInfo>, at: Snapshot, index: seq<nat>, f: FileInfo)
    returns (index': seq<nat>)
    requires Tells(events, fs, at, index)
    ensures Tells(events + Verdict(f, at), fs + [f], at, index')
  {
    var all, more := fs + [f], f.path.parent != at.dir || !f.isDeleted;
    index' := index + if more then [|fs|] else [];
    forall i | 0 <= i < |all| ensures i in index' <==> all[i].path.parent != at.dir || !all[i].isDeleted {
      IndexOfMore(index, |fs|, more, i);
      assert i < |fs| ==> all[i] == fs[i];
    }
    assert forall j :: 0 <= j < |index| ==> index'[j] == index[j] && all[index[j]] == fs[index[j]];
  }

  lemma {:induction false} VerdictsTell(fs: seq<FileInfo>, at: Snapshot) returns (index: seq<nat>)
    ensures Tells(Verdicts(fs, at), fs, at, index)
  {
    if fs == [] {
      return [];
    }
    var front, last := fs[..|fs| - 1], fs[|fs| - 1];
    assert fs == front + [last];
    index := VerdictsTell(front, at);
    VerdictsAppend(front, last, at);
    index := TellsMore(Verdicts(front, at), front, at, index, last);
  }

  /** The length of the run of stale entries at the front. */
  function StalePrefix(q: seq<FileInfo>, at: Snapshot): (r: nat)
    ensures r <= |q|
    ensures forall i :: 0 <= i < r ==> Stale(q[i], at)
    ensures r < |q| ==> !Stale(q[r], at)
  {
    if q == [] || !Stale(q[0], at) then 0 else 1 + StalePrefix(q[1..], at)
  }

  /** How many entries the cleanup loop removes. Its index grows while the list shrinks: it looks at half the list. */
  function CleanedCount(q: seq<FileInfo>, at: Snapshot): nat {
    var half := (|q| + 1) / 2;
    if StalePrefix(q, at) <= half then StalePrefix(q, at) else half
  }

  /** A pass leaves no stale entry behind exactly when the stale entries are at the front of the list and are at most
      half of it. */
  lemma CleanupCompleteIff(q: seq<FileInfo>, at: Snapshot)
    ensures (forall i :: CleanedCount(q, at) <= i < |q| ==> !Stale(q[i], at))
            <==> && StalePrefix(q, at) <= (|q| + 1) / 2
                 && forall i :: StalePrefix(q, at) <= i < |q| ==> !Stale(q[i], at)
  {
    var half := (|q| + 1) / 2;
    if half < StalePrefix(q, at) {
      assert Stale(q[half], at);
    }
  }

  /** Both ways to fail: three stale entries, of which two are removed, and a stale entry behind a live one. */
  lemma CleanupCanLeaveStale(stale: FileInfo, live: FileInfo, at: Snapshot)
    requires Stale(stale, at) && !Stale(live, at)
    ensures CleanedCount([stale, stale, stale], at) == 2 && CleanedCount([live, stale], at) == 0
  {
    assert StalePrefix([live, stale], at) == 0;
  }

  // ---------- the scan loop ----------

  datatype Outcome = Outcome(q: seq<FileInfo>, events: seq<Event>)

  function Info(e: DirEntry): FileInfo {
    FileInfo(e.path, e.hash, e.time, Unknown, false)
  }

  /** The effect of one directory entry on the list. */
  function ScanOne(q: seq<FileInfo>, e: DirEntry): Outcome {
    if !e.eligible then Outcome(q, [])
    else if !Tracked(q, e.hash) then
      if |q| < CAPACITY then Outcome(q + [Info(e)], [Created(Info(e).(fs := IsCreated))]) else Outcome(q, [])
    else
      var i := IndexOf(q, e.hash).value;
      if q[i].time != e.time then
        Outcome(q[i := q[i].(path := e.path, hash := e.hash, time := e.time)], [Modified(Info(e).(fs := IsModified))])
      else Outcome(q, [])
  }

  function ScanAll(q: seq<FileInfo>, es: seq<DirEntry>): Outcome
    decreases |es|
  {
    if es == [] then Outcome(q, [])
    else
      var first := ScanOne(q, es[0]);
      var rest := ScanAll(first.q, es[1..]);
      Outcome(rest.q, first.events + rest.events)
  }

  /** GetFiles: adds every eligible entry; reports how the last addition went. */
  function FetchAll(q: seq<FileInfo>, es: seq<DirEntry>, success: bool): (seq<FileInfo>, bool)
    decreases |es|
  {
    if es == [] then (q, success)
    else if !es[0].eligible then FetchAll(q, es[1..], success)
    else
      var ok := |q| < CAPACITY && !Tracked(q, es[0].hash);
      FetchAll(if ok then q + [Info(es[0])] else q, es[1..], ok)
  }

  // ---------- turns of WatchRoutine ----------

  /** What one turn meets: whether the watched path is valid, the snapshot, its entries, and what the two reads of the
      stop flag inside the turn say. */
  datatype Turn = Turn(
    valid: bool, at: Snapshot, entries: seq<DirEntry>, stopAfterCleanup: bool, stopAfterScan: bool)

  function Cleaned(q: seq<FileInfo>, at: Snapshot): Outcome {
    Outcome(q[CleanedCount(q, at)..], Verdicts(q[..CleanedCount(q, at)], at))
  }

  /** A cleanup and a scan of the same snapshot. */
  function AfterTurn(q: seq<FileInfo>, at: Snapshot, es: seq<DirEntry>): Outcome {
    var clean := Cleaned(q, at);
    var scan := ScanAll(clean.q, es);
    Outcome(scan.q, clean.events + scan.events)
  }

  function Watched(q: seq<FileInfo>, turns: seq<Turn>): Outcome
    decreases |turns|
  {
    if turns == [] then Outcome(q, [])
    else
      var t := turns[0];
      if t.valid && t.stopAfterCleanup then Cleaned(q, t.at)
      else
        var turn := if t.valid then AfterTurn(q, t.at, t.entries) else Outcome(q, [Unavailable]);
        if t.valid && t.stopAfterScan then turn
        else
          var rest := Watched(turn.q, turns[1..]);
          Outcome(rest.q, turn.events + rest.events)
  }

  predicate EndsWatch(t: Turn) {
    t.valid && (t.stopAfterCleanup || t.stopAfterScan)
  }

  /** What one turn does: nothing but a message if the path is not valid; the cleanup alone if the stop flag is up after
      it; otherwise the cleanup and then the scan. */
  lemma WatchedOne(q: seq<FileInfo>, t: Turn)
    ensures !t.valid ==> Watched(q, [t]) == Outcome(q, [Unavailable])
    ensures t.valid && t.stopAfterCleanup ==>
              Watched(q, [t]) == Outcome(q[CleanedCount(q, t.at)..], Verdicts(q[..CleanedCount(q, t.at)], t.at))
    ensures t.valid && !t.stopAfterCleanup ==>
              var clean := q[CleanedCount(q, t.at)..];
              Watched(q, [t]) == Outcome(ScanAll(clean, t.entries).q,
                                         Verdicts(q[..CleanedCount(q, t.at)], t.at) + ScanAll(clean, t.entries).events)
  {
    assert [t][1..] == [];
    var turn := if t.valid then AfterTurn(q, t.at, t.entries) else Outcome(q, [Unavailable]);
    assert turn.events + [] == turn.events;
    assert Watched(turn.q, []) == Outcome(turn.q, []);
  }

  /** A turn that reads the stop flag up is the last one; every other turn, an unavailable path included, is followed by
      the next. */
  lemma WatchedGoesOn(q: seq<FileInfo>, t: Turn, rest: seq<Turn>)
    ensures var first := Watched(q, [t]);
            var later := Watched(first.q, rest);
            Watched(q, [t] + rest) ==
            if EndsWatch(t) then first else Outcome(later.q, first.events + later.events)
  {
    assert ([t] + rest)[1..] == rest;
    WatchedOne(q, t);
  }

  class Watcher {
    const files: List
    var fired: seq<Event>

    constructor ()
      ensures fresh(files) && files.q == [] && fired == []
    {
      files := new List();
      fired := [];
    }

    /** The body of the cleanup loop. */
    method CleanFront(at: Snapshot)
      requires files.q != []
      modifies this, files
      ensures var fi := old(files.q)[0];
              if Stale(fi, at) then files.q == old(files.q)[1..] && fired == old(fired) + Verdict(fi, at)
              else files.q == old(files.q) && fired == old(fired)
    {
      var fi := files.Front();
      if fi.path.parent != at.dir {
        fi := fi.(isDeleted := true, fs := IsErased);
        files.PopFront();
        fired := fired + [MovedAway(fi)];
      } else if fi.isDeleted {
        files.PopFront();
      } else if fi.path !in at.existing {
        fi := fi.(isDeleted := true, fs := IsErased);
        files.PopFront();
        fired := fired + [Erased(fi)];
      }
    }

    /** The cleanup loop pops entries that have moved away, are marked deleted or do not exist, from the front, up to
        the first that has not, is not and does, or to half of the list, and tells what it owes for them. */
    method Cleanup(at: Snapshot) returns (ghost popped: nat, ghost index: seq<nat>)
      modifies this, files
      ensures popped <= |old(files.q)| && files.q == old(files.q)[popped..]
      ensures forall i :: 0 <= i < popped ==>
                var f := old(files.q)[i]; f.path.parent != at.dir || f.isDeleted || f.path !in at.existing
      ensures popped <= (|old(files.q)| + 1) / 2
      ensures popped < (|old(files.q)| + 1) / 2 && popped < |old(files.q)| ==>
                var f := old(files.q)[popped]; f.path.parent == at.dir && !f.isDeleted && f.path in at.existing
      ensures old(fired) <= fired && Tells(fired[|old(fired)|..], old(files.q)[..popped], at, index)
      ensures files.q == Cleaned(old(files.q), at).q
      ensures fired == old(fired) + Cleaned(old(files.q), at).events
    {
      ghost var q0, k := files.q, 0;
      assert q0[..0] == [];
      var i := 0;
      while i < |files.q|
        invariant 0 <= k <= |q0| && files.q == q0[k..]
        invariant k <= i && k <= StalePrefix(q0, at) && 2 * k <= |q0| + 1
        invariant k < i ==> k == StalePrefix(q0, at)
        invariant fired == old(fired) + Verdicts(q0[..k], at)
        decreases |files.q| - i
      {
        ghost var fi := files.q[0];
        CleanFront(at);
        if Stale(fi, at) {
          VerdictsAppend(q0[..k], fi, at);
          ConcatAssociates(old(fired), Verdicts(q0[..k], at), Verdict(fi, at));
          assert q0[..k + 1] == q0[..k] + [fi];
          k := k + 1;
        }
        i := i + 1;
      }
      popped := k;
      index := VerdictsTell(q0[..k], at);
      assert fired[|old(fired)|..] == Verdicts(q0[..k], at);
    }

    method Scan(entries: seq<DirEntry>)
      modifies this, files
      ensures files.q == ScanAll(old(files.q), entries).q
      ensures fired == old(fired) + ScanAll(old(files.q), entries).events
    {
      for n := 0 to |entries|
        invariant ScanAll(files.q, entries[n..]).q == ScanAll(old(files.q), entries).q
        invariant fired + ScanAll(files.q, entries[n..]).events == old(fired) + ScanAll(old(files.q), entries).events
      {
        assert entries[n..][1..] == entries[n + 1..];
        ghost var first := ScanOne(files.q, entries[n]);
        ConcatAssociates(fired, first.events, ScanAll(first.q, entries[n + 1..]).events);
        ghost var entry := ScanEntry(entries[n]);
      }
    }

    /** The body of the scan loop. */
    method ScanEntry(e: DirEntry) returns (ghost entry: nat)
      modifies this, files
      ensures !e.eligible ==> files.q == old(files.q) && fired == old(fired)
      ensures e.eligible && !Tracked(old(files.q), e.hash) && |old(files.q)| < 10000 ==>
                && files.q == old(files.q) + [FileInfo(e.path, e.hash, e.time, Unknown, false)]
                && fired == old(fired) + [Created(FileInfo(e.path, e.hash, e.time, IsCreated, false))]
      ensures e.eligible && !Tracked(old(files.q), e.hash) && |old(files.q)| >= 10000 ==>
                files.q == old(files.q) && fired == old(fired)
      ensures e.eligible && Tracked(old(files.q), e.hash) ==>
                && entry < |old(files.q)| && FirstWith(old(files.q), e.hash, entry)
                && var f := old(files.q)[entry];
                   if f.time == e.time then files.q == old(files.q) && fired == old(fired)
                   else files.q == old(files.q)[entry := FileInfo(e.path, e.hash, e.time, f.fs, f.isDeleted)]
                        && fired == old(fired) + [Modified(FileInfo(e.path, e.hash, e.time, IsModified, false))]
      ensures files.q == ScanOne(old(files.q), e).q
      ensures fired == old(fired) + ScanOne(old(files.q), e).events
    {
      entry := 0;
      if !e.eligible {
        return;
      }
      var fi := Info(e);
      var known := files.GetIfContains(fi);
      if known.None? {
        var success := files.AddItem(fi);
        if success {
          fired := fired + [Created(fi.(fs := IsCreated))];
        }
      } else {
        var i := known.value;
        entry := i;
        if files.q[i].time != fi.time {
          files.q := files.q[i := files.q[i].(path := fi.path, hash := fi.hash, time := fi.time)];
          fired := fired + [Modified(fi.(fs := IsModified))];
        }
      }
    }

    method GetFiles(entries: seq<DirEntry>, success: bool) returns (success': bool)
      modifies files
      ensures (files.q, success') == FetchAll(old(files.q), entries, success)
    {
      success' := success;
      for n := 0 to |entries|
        invariant FetchAll(files.q, entries[n..], success') == FetchAll(old(files.q), entries, success)
      {
        assert entries[n..][1..] == entries[n + 1..];
        if entries[n].eligible {
          success' := files.AddItem(Info(entries[n]));
        }
      }
    }

    /** WatchRoutine over the turns up to the first stop flag it reads at the head of its loop. */
    method WatchRoutine(turns: seq<Turn>)
      modifies this, files
      ensures files.q == Watched(old(files.q), turns).q
      ensures fired == old(fired) + Watched(old(files.q), turns).events
    {
      ghost var all := Watched(files.q, turns);
      for n := 0 to |turns|
        invariant Watched(files.q, turns[n..]).q == all.q
        invariant fired + Watched(files.q, turns[n..]).events == old(fired) + all.events
      {
        var t := turns[n];
        assert turns[n..][1..] == turns[n + 1..];
        ghost var before, later := fired, Watched(AfterTurn(files.q, t.at, t.entries).q, turns[n + 1..]).events;
        if !t.valid {
          ConcatAssociates(before, [Unavailable], Watched(files.q, turns[n + 1..]).events);
          fired := fired + [Unavailable];
          continue;
        }
        ghost var clean := Cleaned(files.q, t.at);
        ghost var scan := ScanAll(clean.q, t.entries);
        ConcatAssociates(before, clean.events, scan.events);
        ConcatAssociates(before, clean.events + scan.events, later);
        ghost var popped, index := Cleanup(t.at);
        if t.stopAfterCleanup {
          return;
        }
        Scan(t.entries);
        if t.stopAfterScan {
          return;
        }
      }
      assert fired + [] == fired;
    }
  }
}
