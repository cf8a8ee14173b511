/** NESESLIB/FileList.hpp: the bounded list of tracked files. */
module FileList {
  import opened Runs

  const CAPACITY: nat := 10000

  datatype Path = Path(parent: string, name: string)

  datatype Status = Unknown | IsCreated | IsModified | IsErased

  datatype FileInfo = FileInfo(path: Path, hash: nat, time: int, fs: Status, isDeleted: bool)

  predicate Matches(f: FileInfo, hash: nat) {
    !f.isDeleted && f.hash == hash
  }

  /** The first entry with this hash that is not marked deleted. */
  function IndexOf(q: seq<FileInfo>, hash: nat): (r: Option<nat>)
    ensures r.Some? ==> r.value < |q| && Matches(q[r.value], hash)
    ensures r.Some? ==> forall j :: 0 <= j < r.value ==> !Matches(q[j], hash)
    ensures r.None? ==> forall j :: 0 <= j < |q| ==> !Matches(q[j], hash)
  {
    if q == [] then None
    else if Matches(q[0], hash) then Some(0)
    else
      match IndexOf(q[1..], hash)
      case None => None
      case Some(i) => Some(i + 1)
  }

  /** Hash 0 is never tracked. */
  predicate Tracked(q: seq<FileInfo>, hash: nat) {
    hash != 0 && IndexOf(q, hash).Some?
  }

  /** The time recorded for a tracked hash. */
  function TimeOf(q: seq<FileInfo>, hash: nat): int
    requires Tracked(q, hash)
  {
    q[IndexOf(q, hash).value].time
  }

  ghost predicate WellFormed(q: seq<FileInfo>) {
    && |q| <= CAPACITY
    && (forall i :: 0 <= i < |q| ==> !q[i].isDeleted)
    && (forall i, j :: 0 <= i < j < |q| && q[i].hash != 0 ==> q[i].hash != q[j].hash)
  }

  /** `i` is the first entry with this hash that is not marked deleted. */
  ghost predicate FirstWith(q: seq<FileInfo>, hash: nat, i: nat) {
    && i < |q| && q[i].hash == hash && !q[i].isDeleted
    && forall j :: 0 <= j < i ==> q[j].hash != hash || q[j].isDeleted
  }

  /** A hash is tracked if it is not 0 and some entry that is not marked deleted has it. */
  lemma TrackedIff(q: seq<FileInfo>, hash: nat)
    ensures Tracked(q, hash) <==> hash != 0 && exists i :: 0 <= i < |q| && q[i].hash == hash && !q[i].isDeleted
    ensures Tracked(q, hash) ==> FirstWith(q, hash, IndexOf(q, hash).value)
  {
    assert forall i :: 0 <= i < |q| ==> (Matches(q[i], hash) <==> q[i].hash == hash && !q[i].isDeleted);
  }

  class List {
    var q: seq<FileInfo>

    constructor ()
      ensures q == []
    {
      q := [];
    }

    method Contains(item: FileInfo) returns (r: bool)
      ensures r <==> item.hash != 0 && exists i :: 0 <= i < |q| && q[i].hash == item.hash && !q[i].isDeleted
      ensures r <==> Tracked(q, item.hash)
    {
      TrackedIff(q, item.hash);
      if item.hash == 0 {
        return false;
      }
      r := IndexOf(q, item.hash).Some?;
    }

    method AddItem(item: FileInfo) returns (ok: bool)
      modifies this
      ensures ok <==> |old(q)| < 10000 && !Tracked(old(q), item.hash)
      ensures q == if ok then old(q) + [item] else old(q)
      ensures old(WellFormed(q)) && !item.isDeleted ==> WellFormed(q)
    {
      var known := Contains(item);
      ok := |q| < CAPACITY && !known;
      if ok {
        q := q + [item];
      }
    }

    /** The entry that the returned pointer refers to. */
    method GetIfContains(item: FileInfo) returns (entry: Option<nat>)
      ensures entry.Some? <==> Tracked(q, item.hash)
      ensures entry.Some? ==> FirstWith(q, item.hash, entry.value) && entry == IndexOf(q, item.hash)
    {
      TrackedIff(q, item.hash);
      if item.hash == 0 {
        return None;
      }
      entry := IndexOf(q, item.hash);
    }

    method Front() returns (f: FileInfo)
      requires q != []
      ensures f == q[0]
    {
      f := q[0];
    }

    method PopFront()
      requires q != []
      modifies this
      ensures q == old(q)[1..]
    {
      q := q[1..];
    }
  }
}
