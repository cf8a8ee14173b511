/** Turn after turn over a file system that does not change: what the cleanup gets to, when the watcher is silent. */
module DirWatcherSettles {
  import opened DirWatcher
  import opened DirWatcherScan
  import opened FileList

  // ---------- the cleanup alone ----------

  function CleanTimes(q: seq<FileInfo>, at: Snapshot, n: nat): seq<FileInfo> {
    if n == 0 then q else CleanTimes(q[CleanedCount(q, at)..], at, n - 1)
  }

  lemma {:induction false} StalePrefixDrop(q: seq<FileInfo>, at: Snapshot, k: nat)
    requires k <= StalePrefix(q, at)
    ensures StalePrefix(q[k..], at) == StalePrefix(q, at) - k
  {
    if k == 0 {
      assert q[0..] == q;
    } else {
      assert q[k..] == q[1..][k - 1..];
      StalePrefixDrop(q[1..], at, k - 1);
    }
  }

  lemma DropDrop<T>(s: seq<T>, j: nat, k: nat)
    requires j + k <= |s|
    ensures s[j..][k..] == s[j + k..]
  {
  }

  /** Passes remove nothing but a part of the stale front run. */
  lemma {:induction false} PassesStayInFront(q: seq<FileInfo>, at: Snapshot, n: nat) returns (k: nat)
    ensures k <= StalePrefix(q, at) && CleanTimes(q, at, n) == q[k..]
  {
    if n == 0 {
      return 0;
    }
    var c := CleanedCount(q, at);
    StalePrefixDrop(q, at, c);
    var rest := PassesStayInFront(q[c..], at, n - 1);
    DropDrop(q, c, rest);
    k := c + rest;
  }

  function Pow2(n: nat): nat {
    if n == 0 then 1 else 2 * Pow2(n - 1)
  }

  lemma {:induction false} Pow2Exceeds(n: nat)
    ensures n < Pow2(n)
  {
    if n == 0 {
    } else {
      Pow2Exceeds(n - 1);
    }
  }

  /** A pass that does not finish halves the list. */
  lemma PassFinishesOrHalves(q: seq<FileInfo>, at: Snapshot)
    ensures var q' := q[CleanedCount(q, at)..];
            && q'[StalePrefix(q', at)..] == q[StalePrefix(q, at)..]
            && (StalePrefix(q', at) == 0 || 2 * |q'| <= |q|)
  {
    var c := CleanedCount(q, at);
    StalePrefixDrop(q, at, c);
    DropDrop(q, c, StalePrefix(q, at) - c);
  }

  /** So `n` passes remove exactly the stale front run of any list shorter than 2^n. */
  lemma {:induction false} CleanupConverges(q: seq<FileInfo>, at: Snapshot, n: nat)
    requires |q| < Pow2(n)
    ensures CleanTimes(q, at, n) == q[StalePrefix(q, at)..]
  {
    if n == 0 {
    } else {
      var q' := q[CleanedCount(q, at)..];
      PassFinishesOrHalves(q, at);
      if StalePrefix(q', at) == 0 {
        var k := PassesStayInFront(q', at, n - 1);
      } else {
        CleanupConverges(q', at, n - 1);
      }
    }
  }

  ghost predicate NoneStale(q: seq<FileInfo>, at: Snapshot) {
    forall i :: 0 <= i < |q| ==> !Stale(q[i], at)
  }

  lemma StaleBehindStays(q: seq<FileInfo>, at: Snapshot, i: nat, n: nat)
    requires StalePrefix(q, at) <= i < |q| && Stale(q[i], at)
    ensures !NoneStale(CleanTimes(q, at, n), at)
  {
    var k := PassesStayInFront(q, at, n);
    assert q[k..][i - k] == q[i];
  }

  /** However often the cleanup runs, a stale entry behind a live one stays: some number of passes leaves no stale entry
      exactly when all stale entries are at the front. */
  lemma EventuallyCleanIff(q: seq<FileInfo>, at: Snapshot)
    ensures (exists n :: NoneStale(CleanTimes(q, at, n), at)) <==> NoneStale(q[StalePrefix(q, at)..], at)
  {
    var p := StalePrefix(q, at);
    if i :| 0 <= i < |q| - p && Stale(q[p..][i], at) {
      forall n { StaleBehindStays(q, at, p + i, n); }
    } else {
      Pow2Exceeds(|q|);
      CleanupConverges(q, at, |q|);
    }
  }

  // ---------- cleanup and scan, turn after turn ----------

  /** The entries are those of the watched directory: in it, and existing. */
  ghost predicate Coherent(at: Snapshot, es: seq<DirEntry>) {
    forall e :: e in es && e.eligible ==> e.path.parent == at.dir && e.path in at.existing
  }

  lemma LiveEndsPrefix(q: seq<FileInfo>, at: Snapshot, i: nat)
    requires i < |q| && !Stale(q[i], at)
    ensures StalePrefix(q, at) <= i
  {
  }

  /** A scanned entry is live, and goes to the end of the list or over an entry that is not deleted. */
  lemma ScanOneKeepsPrefix(q: seq<FileInfo>, at: Snapshot, e: DirEntry)
    requires e.eligible ==> e.path.parent == at.dir && e.path in at.existing
    ensures StalePrefix(ScanOne(q, e).q, at) <= StalePrefix(q, at)
  {
    var q', p := ScanOne(q, e).q, StalePrefix(q, at);
    if p < |q'| {
      LiveEndsPrefix(q', at, p);
    }
  }

  lemma {:induction false} ScanKeepsPrefix(q: seq<FileInfo>, at: Snapshot, es: seq<DirEntry>)
    requires Coherent(at, es)
    ensures StalePrefix(ScanAll(q, es).q, at) <= StalePrefix(q, at)
    decreases |es|
  {
    if es == [] {
    } else {
      assert es[0] in es && forall e :: e in es[1..] ==> e in es;
      ScanOneKeepsPrefix(q, at, es[0]);
      ScanKeepsPrefix(ScanOne(q, es[0]).q, at, es[1..]);
    }
  }

  lemma TurnShortensPrefix(q: seq<FileInfo>, at: Snapshot, es: seq<DirEntry>)
    requires Coherent(at, es)
    ensures var p := StalePrefix(q, at); StalePrefix(AfterTurn(q, at, es).q, at) <= if p == 0 then 0 else p - 1
  {
    var c := CleanedCount(q, at);
    StalePrefixDrop(q, at, c);
    ScanKeepsPrefix(q[c..], at, es);
  }

  lemma NothingToClean(q: seq<FileInfo>, at: Snapshot, es: seq<DirEntry>)
    requires StalePrefix(q, at) == 0
    ensures AfterTurn(q, at, es) == ScanAll(q, es)
  {
    assert q[0..] == q && q[..0] == [];
  }

  /** Whole turns that all meet the same file system. */
  ghost predicate Steady(turns: seq<Turn>, at: Snapshot, es: seq<DirEntry>) {
    forall i :: 0 <= i < |turns| ==> turns[i] == Turn(true, at, es, false, false)
  }

  lemma WatchedSteady(q: seq<FileInfo>, turns: seq<Turn>, at: Snapshot, es: seq<DirEntry>)
    requires turns != [] && Steady(turns, at, es)
    ensures Steady(turns[1..], at, es)
    ensures var first := AfterTurn(q, at, es);
            var rest := Watched(first.q, turns[1..]);
            Watched(q, turns) == Outcome(rest.q, first.events + rest.events)
  {
    assert turns[0] == Turn(true, at, es, false, false);
  }

  /** A turn fires nothing and leaves the list alone. */
  predicate Settled(q: seq<FileInfo>, at: Snapshot, es: seq<DirEntry>) {
    AfterTurn(q, at, es) == Outcome(q, [])
  }

  lemma {:induction false} SettledStays(q: seq<FileInfo>, turns: seq<Turn>, at: Snapshot, es: seq<DirEntry>)
    requires Settled(q, at, es) && Steady(turns, at, es)
    ensures Watched(q, turns) == Outcome(q, [])
  {
    if turns == [] {
    } else {
      WatchedSteady(q, turns, at, es);
      SettledStays(q, turns[1..], at, es);
    }
  }

  lemma QuietAfterScan(q: seq<FileInfo>, at: Snapshot, es: seq<DirEntry>)
    requires Coherent(at, es) && DistinctHashes(es) && StalePrefix(q, at) == 0
    ensures Settled(AfterTurn(q, at, es).q, at, es)
  {
    var q1 := AfterTurn(q, at, es).q;
    TurnShortensPrefix(q, at, es);
    NothingToClean(q, at, es);
    NothingToClean(q1, at, es);
    RescanSilent(q, es);
  }

  lemma {:induction false} Settles(q: seq<FileInfo>, turns: seq<Turn>, at: Snapshot, es: seq<DirEntry>)
    returns (q': seq<FileInfo>)
    requires Coherent(at, es) && DistinctHashes(es) && Steady(turns, at, es) && |turns| > StalePrefix(q, at)
    ensures Watched(q, turns).q == q' && Settled(q', at, es)
    decreases |turns|
  {
    WatchedSteady(q, turns, at, es);
    q' := AfterTurn(q, at, es).q;
    if StalePrefix(q, at) == 0 {
      QuietAfterScan(q, at, es);
      SettledStays(q', turns[1..], at, es);
    } else {
      TurnShortensPrefix(q, at, es);
      q' := Settles(q', turns[1..], at, es);
    }
  }

  /** The watcher settles: over a file system that does not change, whose eligible files have distinct hashes other than
      0, and from any list, what follows the first turns, one more than the stale front run is long, fires nothing and
      leaves the list alone. */
  lemma WatcherSettles(
      q: seq<FileInfo>, turns: seq<Turn>, more: seq<Turn>, at: Snapshot, es: seq<DirEntry>)
    requires Coherent(at, es) && DistinctHashes(es)
    requires Steady(turns, at, es) && Steady(more, at, es) && |turns| > StalePrefix(q, at)
    ensures Watched(Watched(q, turns).q, more) == Outcome(Watched(q, turns).q, [])
  {
    var q' := Settles(q, turns, at, es);
    SettledStays(q', more, at, es);
  }
}
