/** NESESLIB/TcpSyncClient.cpp: what it means to cut a byte stream at a delimiter. */
module Framing {
  import opened Runs

  predicate OccursAt(s: string, d: string, i: nat) {
    i + |d| <= |s| && s[i..i + |d|] == d
  }

  /** std::search: the first place where `d` occurs in `s`, from `from` on. */
  function Find(s: string, d: string, from: nat := 0): (r: Option<nat>)
    requires from <= |s|
    ensures r.Some? ==> from <= r.value && OccursAt(s, d, r.value)
    ensures r.Some? ==> forall j :: from <= j < r.value ==> !OccursAt(s, d, j)
    ensures r.None? ==> forall j :: from <= j ==> !OccursAt(s, d, j)
    decreases |s| - from
  {
    if OccursAt(s, d, from) then Some(from)
    else if from == |s| then None
    else Find(s, d, from + 1)
  }

  lemma FirstIs(s: string, d: string, i: nat)
    requires OccursAt(s, d, i) && forall j :: 0 <= j < i ==> !OccursAt(s, d, j)
    ensures Find(s, d) == Some(i)
  {
  }

  /** The messages of a stream: what stands before each delimiter, found from left to right. */
  function Messages(s: string, d: string): seq<string>
    requires d != ""
    decreases |s|
  {
    match Find(s, d)
    case None => []
    case Some(i) => [s[..i]] + Messages(s[i + |d|..], d)
  }

  /** What follows the last delimiter. */
  function Rest(s: string, d: string): string
    requires d != ""
    decreases |s|
  {
    match Find(s, d)
    case None => s
    case Some(i) => Rest(s[i + |d|..], d)
  }

  function Joined(ms: seq<string>, d: string): string {
    if ms == [] then "" else ms[0] + d + Joined(ms[1..], d)
  }

  function Concat(ms: seq<string>): string {
    if ms == [] then "" else ms[0] + Concat(ms[1..])
  }

  /** A message that a delimiter after it can be found by: it does not begin any earlier occurrence. */
  predicate Clean(m: string, d: string) {
    Find(m + d, d) == Some(|m|)
  }

  lemma SliceOfPrefix(s: string, n: nat, lo: nat, hi: nat)
    requires lo <= hi <= n <= |s|
    ensures s[lo..hi] == s[..n][lo..hi]
  {
  }

  lemma OccursLocal(s: string, t: string, d: string, n: nat, j: nat)
    requires n <= |s| && n <= |t| && t[..n] == s[..n] && j + |d| <= n
    ensures OccursAt(t, d, j) <==> OccursAt(s, d, j)
  {
    SliceOfPrefix(s, n, j, j + |d|);
    SliceOfPrefix(t, n, j, j + |d|);
  }

  lemma FirstLocal(s: string, t: string, d: string, i: nat)
    requires OccursAt(s, d, i) && forall j :: 0 <= j < i ==> !OccursAt(s, d, j)
    requires i + |d| <= |t| && t[..i + |d|] == s[..i + |d|]
    ensures OccursAt(t, d, i) && forall j :: 0 <= j < i ==> !OccursAt(t, d, j)
  {
    OccursLocal(s, t, d, i + |d|, i);
    forall j | 0 <= j < i ensures !OccursAt(t, d, j) {
      OccursLocal(s, t, d, i + |d|, j);
    }
  }

  /** Where `d` is first found depends only on the bytes up to the end of that occurrence. */
  lemma FindLocal(s: string, t: string, d: string, i: nat)
    requires Find(s, d) == Some(i) && i + |d| <= |t| && t[..i + |d|] == s[..i + |d|]
    ensures Find(t, d) == Some(i)
  {
    FirstLocal(s, t, d, i);
    FirstIs(t, d, i);
  }

  /** Cutting loses nothing: the stream is its messages, each with its delimiter, and the rest. Every message is clean
      and the rest holds no delimiter. */
  lemma {:induction false} CutRejoins(s: string, d: string)
    requires d != ""
    ensures Joined(Messages(s, d), d) + Rest(s, d) == s
    ensures forall m :: m in Messages(s, d) ==> Clean(m, d)
    ensures Find(Rest(s, d), d) == None
    decreases |s|
  {
    var f := Find(s, d);
    if f.None? {
    } else {
      var i, m, rest := f.value, s[..f.value], s[f.value + |d|..];
      assert s == m + d + rest;
      FindLocal(s, m + d, d, i);
      CutRejoins(rest, d);
      JoinedCons(m, Messages(rest, d), d);
      ConcatAssociates(m + d, Joined(Messages(rest, d), d), Rest(rest, d));
    }
  }

  lemma JoinedCons(m: string, ms: seq<string>, d: string)
    ensures Joined([m] + ms, d) == m + d + Joined(ms, d) && Concat([m] + ms) == m + Concat(ms)
  {
    assert ([m] + ms)[1..] == ms;
  }

  /** The messages of a stream that begins with a clean message. */
  lemma CutFirst(m: string, s: string, d: string)
    requires d != "" && Clean(m, d)
    ensures Messages(m + d + s, d) == [m] + Messages(s, d) && Rest(m + d + s, d) == Rest(s, d)
  {
    FindLocal(m + d, m + d + s, d, |m|);
    assert (m + d + s)[..|m|] == m && (m + d + s)[|m| + |d|..] == s;
  }

  /** What is read off a stream in complete frames does not depend on what comes after. */
  lemma {:induction false} CutAppend(s: string, t: string, d: string)
    requires d != "" && Rest(s, d) == ""
    ensures Messages(s + t, d) == Messages(s, d) + Messages(t, d) && Rest(s + t, d) == Rest(t, d)
    decreases |s|
  {
    if s == "" {
      assert s + t == t;
    } else {
      var i := Find(s, d).value;
      var m, rest := s[..i], s[i + |d|..];
      assert s == m + d + rest;
      ConcatAssociates(m + d, rest, t);
      FindLocal(s, m + d, d, i);
      CutFirst(m, rest + t, d);
      CutAppend(rest, t, d);
      ConcatAssociates([m], Messages(rest, d), Messages(t, d));
    }
  }

  predicate AllClean(ms: seq<string>, d: string) {
    forall m :: m in ms ==> Clean(m, d)
  }

  lemma {:induction false} CleanMessagesRoundTrip(ms: seq<string>, d: string)
    requires d != "" && AllClean(ms, d)
    ensures Messages(Joined(ms, d), d) == ms && Rest(Joined(ms, d), d) == ""
  {
    if ms == [] {
    } else {
      var m, rest := ms[0], ms[1..];
      assert m in ms && AllClean(rest, d) && [m] + rest == ms;
      JoinedCons(m, rest, d);
      CleanMessagesRoundTrip(rest, d);
      CutFirst(m, Joined(rest, d), d);
    }
  }

  lemma RoundTripMeansClean(ms: seq<string>, d: string, m: string)
    requires d != "" && m in ms && Messages(Joined(ms, d), d) == ms
    ensures Clean(m, d)
  {
    CutRejoins(Joined(ms, d), d);
  }

  /** Round trip: joining messages with the delimiter and cutting again gives the same messages and no rest, exactly
      when every message is clean. */
  lemma JoinCutIff(ms: seq<string>, d: string)
    requires d != ""
    ensures Messages(Joined(ms, d), d) == ms && Rest(Joined(ms, d), d) == "" <==> forall m :: m in ms ==> Clean(m, d)
  {
    if unclean :| unclean in ms && !Clean(unclean, d) {
      if Messages(Joined(ms, d), d) == ms {
        RoundTripMeansClean(ms, d, unclean);
      }
    } else {
      CleanMessagesRoundTrip(ms, d);
    }
  }

  /** A message that does not contain the delimiter can still be unclean: its end and the delimiter's beginning can make
      an earlier occurrence. Joined with "aa", the message "a" comes back as an empty message and a rest. */
  lemma RoundTripCanFail()
    ensures Find("a", "aa") == None && !Clean("a", "aa")
    ensures Messages(Joined(["a"], "aa"), "aa") == [""] && Rest(Joined(["a"], "aa"), "aa") == "a"
  {
    assert Joined(["a"], "aa") == "aaa";
    FirstIs("aaa", "aa", 0);
    assert "aaa"[0 + |"aa"|..] == "a";
    assert Find("a", "aa") == None;
  }
}
