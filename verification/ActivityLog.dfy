/** The bounded activity log: entries newest first, one update at a time, the file
    written before memory changes, and an idempotent insertion under a caller's key. */
module ActivityLog {
  datatype Content = Content(action: string, path: string, user: string, ip: string, details: map<string, string>)

  datatype Entry = Entry(id: string, timestamp: int, content: Content)

  datatype Result = Done | IdConflict | SaveFailed

  function Trimmed(entries: seq<Entry>, maxSize: nat): seq<Entry> {
    if |entries| > maxSize then entries[..maxSize] else entries
  }

  function Inserted(entries: seq<Entry>, e: Entry, maxSize: nat): seq<Entry> {
    Trimmed([e] + entries, maxSize)
  }

  function Count(entries: seq<Entry>, id: string): nat {
    if entries == [] then 0 else (if entries[0].id == id then 1 else 0) + Count(entries[1..], id)
  }

  predicate Holds(entries: seq<Entry>, id: string) {
    exists e :: e in entries && e.id == id
  }

  /** The entry an insertion under this key is compared with: the newest one that carries it. */
  function Find(entries: seq<Entry>, id: string): (e: Entry)
    requires Holds(entries, id)
    ensures e in entries && e.id == id
  {
    if entries[0].id == id then entries[0] else Find(entries[1..], id)
  }

  function AfterLogOnce(entries: seq<Entry>, e: Entry, maxSize: nat): seq<Entry> {
    if Holds(entries, e.id) then entries else Inserted(entries, e, maxSize)
  }

  predicate KeysAreUnique(entries: seq<Entry>) {
    forall i, j :: 0 <= i < j < |entries| ==> entries[i].id != entries[j].id
  }

  class Store {
    var entries: seq<Entry>
    var file: seq<Entry>
    const maxSize: nat

    ghost predicate Valid()
      reads this
    {
      file == entries && |entries| <= maxSize
    }

    constructor (file: seq<Entry>, maxSize: nat)
      requires |file| <= maxSize
      ensures Valid() && entries == file && this.maxSize == maxSize
    {
      this.file, this.entries, this.maxSize := file, file, maxSize;
    }

    /** Saves first; memory follows only a successful save. */
    method UpdateEntries(next: seq<Entry>, saved: bool)
      requires Valid() && |next| <= maxSize
      modifies this
      ensures Valid() && entries == if saved then next else old(entries)
    {
      if saved {
        file := next;
        entries := next;
      }
    }

    method Log(e: Entry, saved: bool)
      requires Valid()
      modifies this
      ensures Valid() && entries == if saved then Inserted(old(entries), e, maxSize) else old(entries)
    {
      UpdateEntries(Inserted(entries, e, maxSize), saved);
    }

    method LogOnce(e: Entry, saved: bool) returns (r: Result)
      requires Valid()
      modifies this
      ensures Valid()
      ensures entries == if r.Done? then AfterLogOnce(old(entries), e, maxSize) else old(entries)
      ensures r.IdConflict? <==> Holds(old(entries), e.id) && Find(old(entries), e.id).content != e.content
      ensures r.SaveFailed? <==> !Holds(old(entries), e.id) && !saved
    {
      for i := 0 to |entries|
        invariant Valid() && entries == old(entries)
        invariant forall j :: 0 <= j < i ==> entries[j].id != e.id
      {
        if entries[i].id == e.id {
          FirstIsFound(entries, i, e.id);
          return if entries[i].content == e.content then Done else IdConflict;
        }
      }
      if !saved {
        return SaveFailed;
      }
      UpdateEntries(Inserted(entries, e, maxSize), true);
      r := Done;
    }
  }

  lemma {:induction false} FirstIsFound(entries: seq<Entry>, i: nat, id: string)
    requires i < |entries| && entries[i].id == id && forall j :: 0 <= j < i ==> entries[j].id != id
    ensures Holds(entries, id) && Find(entries, id) == entries[i]
  {
    assert entries[i] in entries;
    if i > 0 {
      FirstIsFound(entries[1..], i - 1, id);
    }
  }

  lemma {:induction false} CountIsZero(entries: seq<Entry>, id: string)
    ensures Count(entries, id) == 0 <==> !Holds(entries, id)
  {
    if entries != [] {
      CountIsZero(entries[1..], id);
      assert entries[0] in entries;
    }
  }

  lemma {:induction false} CountOfPrefix(entries: seq<Entry>, n: nat, id: string)
    requires n <= |entries|
    ensures Count(entries[..n], id) <= Count(entries, id)
  {
    if n > 0 {
      assert entries[..n][1..] == entries[1..][..n - 1];
      CountOfPrefix(entries[1..], n - 1, id);
    }
  }

  /** An insertion puts the entry in front, keeps the order, and drops the oldest beyond the limit. */
  lemma InsertsInFront(entries: seq<Entry>, e: Entry, maxSize: nat)
    ensures var next := Inserted(entries, e, maxSize);
            && |next| == (if |entries| + 1 > maxSize then maxSize else |entries| + 1)
            && (|next| > 0 ==> next[0] == e)
            && forall i :: 0 < i < |next| ==> next[i] == entries[i - 1]
  {
  }

  lemma CountAfterInsert(entries: seq<Entry>, e: Entry, maxSize: nat, id: string)
    ensures Count(Inserted(entries, e, maxSize), id) <= Count(entries, id) + (if e.id == id then 1 else 0)
    ensures maxSize > 0 && e.id == id ==> Count(Inserted(entries, e, maxSize), id) > 0
  {
    var all := [e] + entries;
    assert all[1..] == entries;
    if |all| > maxSize {
      CountOfPrefix(all, maxSize, id);
    }
  }

  /** Repeating an insertion changes nothing, and after any insertion under a key the log
      holds exactly one entry for it, if it held at most one before and has any room. */
  lemma LogOnceIsIdempotent(entries: seq<Entry>, e: Entry, again: Entry, maxSize: nat)
    requires maxSize > 0 && again.id == e.id
    ensures AfterLogOnce(AfterLogOnce(entries, e, maxSize), again, maxSize) == AfterLogOnce(entries, e, maxSize)
    ensures Count(entries, e.id) <= 1 ==> Count(AfterLogOnce(entries, e, maxSize), e.id) == 1
  {
    CountIsZero(entries, e.id);
    CountAfterInsert(entries, e, maxSize, e.id);
    CountIsZero(AfterLogOnce(entries, e, maxSize), e.id);
  }

  /** Idempotent insertions never give two entries the same key. */
  lemma LogOnceKeepsKeysUnique(entries: seq<Entry>, e: Entry, maxSize: nat)
    requires KeysAreUnique(entries)
    ensures KeysAreUnique(AfterLogOnce(entries, e, maxSize))
  {
    assert forall i :: 0 <= i < |entries| ==> entries[i] in entries;
  }
}
