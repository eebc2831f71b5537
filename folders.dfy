/** The `folders` table (services/table/folders.ts): user-named, ordered
    buckets for bookmarks. The table is a sequence of rows in insertion
    (rowid) order plus SQLite's AUTOINCREMENT counter; a closed or failed
    connection is the flag `connected`. */
module Folders {
  import opened Rows

  datatype Folder = Folder(id: int, sequence: int, name: string, createdAt: Timestamp)

  /** The row seeded into an empty table: "기본 폴더" ("default folder") at sequence 1. */
  const DefaultFolderName: string := "기본 폴더"
  const DefaultFolderSequence: int := 1

  /** Primary keys are distinct and every one of them was handed out by the
      AUTOINCREMENT counter, so the next id is larger than all of them. */
  ghost predicate WellFormed(rows: seq<Folder>, lastId: nat) {
    && DistinctBy(rows, IdOf)
    && (forall f :: f in rows ==> 1 <= f.id <= lastId)
  }

  predicate HasId(rows: seq<Folder>, id: int) {
    exists i :: 0 <= i < |rows| && rows[i].id == id
  }

  function IdOf(f: Folder): int { f.id }

  function SequenceOf(f: Folder): int { f.sequence }

  function HasIdOf(id: int): Folder -> bool { (f: Folder) => f.id == id }

  function KeepOtherIds(id: int): Folder -> bool { (f: Folder) => f.id != id }

  /** `UPDATE folders SET name = ? WHERE id = ?` */
  function Renamed(rows: seq<Folder>, id: int, name: string): seq<Folder> {
    seq(|rows|, i requires 0 <= i < |rows| => if rows[i].id == id then rows[i].(name := name) else rows[i])
  }

  /** `UPDATE folders SET sequence = ? WHERE id = ?` */
  function Resequence(rows: seq<Folder>, id: int, sequence: int): seq<Folder> {
    seq(|rows|, i requires 0 <= i < |rows| => if rows[i].id == id then rows[i].(sequence := sequence) else rows[i])
  }

  /** The rows after one UPDATE per element of `list`, in list order. */
  function Resequenced(rows: seq<Folder>, list: seq<Folder>): (r: seq<Folder>)
    ensures |r| == |rows|
    decreases |list|
  {
    if list == [] then rows
    else
      var last := list[|list| - 1];
      Resequence(Resequenced(rows, list[..|list| - 1]), last.id, last.sequence)
  }

  /** The sequence carried by the last element of `list` with this id, or
      `fallback` when no element has it. */
  function LastSequenceFor(list: seq<Folder>, id: int, fallback: int): int
    decreases |list|
  {
    if list == [] then fallback
    else if list[|list| - 1].id == id then list[|list| - 1].sequence
    else LastSequenceFor(list[..|list| - 1], id, fallback)
  }

  /** Resequencing touches only `sequence`, and a row takes the sequence of
      the last list element naming its id; rows not named keep theirs. */
  lemma {:induction false} ResequencedAt(rows: seq<Folder>, list: seq<Folder>, k: int)
    requires 0 <= k < |rows|
    ensures |Resequenced(rows, list)| == |rows|
    ensures Resequenced(rows, list)[k] == rows[k].(sequence := LastSequenceFor(list, rows[k].id, rows[k].sequence))
  {
    if list != [] {
      ResequencedAt(rows, list[..|list| - 1], k);
    }
  }

  /** When the list names each id at most once (as the drag-to-reorder
      screen's list does), every listed folder gets exactly the sequence its
      element carries, whatever its position in the list. */
  lemma {:induction false} LastSequenceOfDistinct(list: seq<Folder>, i: int, fallback: int)
    requires 0 <= i < |list|
    requires forall a, b :: 0 <= a < b < |list| ==> list[a].id != list[b].id
    ensures LastSequenceFor(list, list[i].id, fallback) == list[i].sequence
  {
    if i < |list| - 1 {
      var prefix := list[..|list| - 1];
      assert prefix[i] == list[i];
      LastSequenceOfDistinct(prefix, i, fallback);
    }
  }

  /** A folder id no list element names keeps its sequence. */
  lemma {:induction false} LastSequenceOfUnlisted(list: seq<Folder>, id: int, fallback: int)
    requires forall a :: 0 <= a < |list| ==> list[a].id != id
    ensures LastSequenceFor(list, id, fallback) == fallback
  {
    if list != [] {
      LastSequenceOfUnlisted(list[..|list| - 1], id, fallback);
    }
  }

  /** A list whose every element equals its stored row changes nothing.
      A list renumbered 1..n in list order is such a list only when the
      stored sequences already are 1..n in that order. */
  lemma {:induction false} ResequenceCurrentIsNoOp(rows: seq<Folder>, list: seq<Folder>)
    requires DistinctBy(rows, IdOf)
    requires forall a :: 0 <= a < |list| ==> list[a] in rows
    ensures Resequenced(rows, list) == rows
  {
    if list != [] {
      var prefix, last := list[..|list| - 1], list[|list| - 1];
      ResequenceCurrentIsNoOp(rows, prefix);
      var j :| 0 <= j < |rows| && rows[j] == last;
      forall i | 0 <= i < |rows| && rows[i].id == last.id
        ensures rows[i] == last
      {
        assert IdOf(rows[i]) == IdOf(rows[j]);
      }
      assert Resequence(rows, last.id, last.sequence) == rows;
    }
  }

  class TbFolders {
    var connected: bool
    var rows: seq<Folder>
    var lastId: nat

    ghost predicate Valid()
      reads this
    {
      WellFormed(rows, lastId)
    }

    /** Opens the table over what is stored on the device and runs `init`. */
    constructor (available: bool, stored: seq<Folder>, storedLastId: nat, now: Timestamp)
      requires WellFormed(stored, storedLastId)
      ensures Valid() && connected == available
      ensures if available && stored == []
              then rows == [Folder(storedLastId + 1, DefaultFolderSequence, DefaultFolderName, now)] && lastId == storedLastId + 1
              else rows == stored && lastId == storedLastId
    {
      connected, rows, lastId := available, stored, storedLastId;
      new;
      Init(now);
    }

    /** Seeds the default folder when the table has no row, so running it
        again on a seeded table adds nothing. */
    method Init(now: Timestamp)
      requires Valid()
      modifies this
      ensures Valid() && connected == old(connected)
      ensures if connected && old(rows) == []
              then rows == [Folder(old(lastId) + 1, DefaultFolderSequence, DefaultFolderName, now)] && lastId == old(lastId) + 1
              else rows == old(rows) && lastId == old(lastId)
    {
      if connected && rows == [] {
        lastId := lastId + 1;
        rows := [Folder(lastId, DefaultFolderSequence, DefaultFolderName, now)];
      }
    }

    /** Inserts one folder; names are not checked for duplicates. A missing
        `sequence` violates its NOT NULL constraint and inserts nothing. */
    method Create(name: string, sequence: Option<int>, now: Timestamp) returns (ok: bool)
      requires Valid()
      modifies this
      ensures Valid() && connected == old(connected)
      ensures ok <==> old(connected) && sequence.Some?
      ensures ok ==> lastId == old(lastId) + 1 && rows == old(rows) + [Folder(lastId, sequence.value, name, now)]
      ensures ok ==> forall f :: f in old(rows) ==> f.id < lastId
      ensures !ok ==> rows == old(rows) && lastId == old(lastId)
    {
      if !connected || sequence.None? {
        return false;
      }
      lastId := lastId + 1;
      rows := rows + [Folder(lastId, sequence.value, name, now)];
      ok := true;
    }

    /** Every folder, ordered by `sequence`; the order among equal sequences
        is the store's choice. */
    method GetAll() returns (r: seq<Folder>)
      ensures !connected ==> r == []
      ensures connected ==> SortedBy(r, SequenceOf) && multiset(r) == multiset(rows)
    {
      if !connected {
        return [];
      }
      r := SortBy(rows, SequenceOf);
    }

    method GetFolderById(id: int) returns (r: Option<Folder>)
      ensures r.Some? <==> connected && HasId(rows, id)
      ensures r.Some? ==> r.value in rows && r.value.id == id
    {
      if !connected {
        return None;
      }
      r := FirstWhere(rows, HasIdOf(id));
    }

    /** Renames the folder with this id; nothing else changes. */
    method Update(id: int, newName: string) returns (ok: bool)
      requires Valid()
      modifies this
      ensures Valid() && connected == old(connected) && lastId == old(lastId)
      ensures ok <==> old(connected) && HasId(old(rows), id)
      ensures |rows| == |old(rows)|
      ensures forall i :: 0 <= i < |rows| ==>
        rows[i] == if old(connected) && old(rows)[i].id == id then old(rows)[i].(name := newName) else old(rows)[i]
    {
      if !connected {
        return false;
      }
      ok := HasId(rows, id);
      rows := Renamed(rows, id, newName);
    }

    /** Writes each listed folder's own `sequence` inside one transaction.
        `fault` is the index of the statement the driver fails on, if any
        (index |list| is the COMMIT): a failure rolls every write back. */
    method UpdateSequence(list: seq<Folder>, fault: Option<nat>) returns (ok: bool)
      requires Valid()
      modifies this
      ensures Valid() && connected == old(connected) && lastId == old(lastId)
      ensures ok <==> old(connected) && !(fault.Some? && fault.value <= |list|)
      ensures rows == if ok then Resequenced(old(rows), list) else old(rows)
    {
      if !connected {
        return false;
      }
      var pending := rows;
      for i := 0 to |list|
        invariant pending == Resequenced(rows, list[..i])
        invariant !(fault.Some? && fault.value < i)
      {
        if fault == Some(i) {
          return false;
        }
        assert list[..i + 1][..i] == list[..i];
        pending := Resequence(pending, list[i].id, list[i].sequence);
      }
      if fault == Some(|list|) {
        return false;
      }
      assert list[..|list|] == list;
      forall k | 0 <= k < |rows|
        ensures |pending| == |rows| && pending[k].id == rows[k].id && IdOf(pending[k]) == IdOf(rows[k])
      {
        ResequencedAt(rows, list, k);
      }
      assert WellFormed(pending, lastId) by {
        forall i, j | 0 <= i < j < |pending|
          ensures IdOf(pending[i]) != IdOf(pending[j])
        {
          assert IdOf(rows[i]) != IdOf(rows[j]);
        }
        forall f | f in pending
          ensures 1 <= f.id <= lastId
        {
          var k :| 0 <= k < |pending| && pending[k] == f;
          assert rows[k] in rows;
        }
      }
      rows := pending;
      ok := true;
    }

    /** Deletes the folder with this id; true iff a row was removed. */
    method Delete(id: int) returns (ok: bool)
      requires Valid()
      modifies this
      ensures Valid() && connected == old(connected) && lastId == old(lastId)
      ensures ok <==> old(connected) && HasId(old(rows), id)
      ensures rows == if old(connected) then Filter(old(rows), KeepOtherIds(id)) else old(rows)
    {
      if !connected {
        return false;
      }
      var kept := Filter(rows, KeepOtherIds(id));
      FilterDistinctBy(rows, KeepOtherIds(id), IdOf);
      ok := |kept| < |rows|;
      rows := kept;
    }
  }
}
