/** The `items` table (services/table/items.ts): one bookmark of a catalog
    entry ("gacha") per row, in a folder, with a WISH/GET status. The table
    is a sequence of rows in rowid order, SQLite's AUTOINCREMENT counter, and
    a schema tag saying whether the `UNIQUE` constraint on `gacha_id` is
    still in force (it is until `migration` rebuilds the table without it). */
module Items {
  import opened Rows
  import ChangedValues

  datatype Item = Item(
    id: int,
    folderId: int,
    gachaId: int,
    kind: string,
    name: string,
    thumbnail: Option<string>,
    memo: Option<string>,
    createdAt: Timestamp,
    updatedAt: Timestamp)

  /** The object a caller passes to `create`; absent optional fields are NULL. */
  datatype NewItem = NewItem(
    folderId: int,
    gachaId: int,
    kind: string,
    name: string,
    thumbnail: Option<string>,
    memo: Option<string>)

  /** The table's `CHECK(type IN ('WISH', 'GET'))`. */
  predicate IsBookmarkType(kind: string) {
    kind == "WISH" || kind == "GET"
  }

  /** The columns a partial update may write, and the values bound to them. */
  datatype Column = FolderIdColumn | GachaIdColumn | TypeColumn | NameColumn | ThumbnailColumn | MemoColumn
  datatype Value = IntValue(n: int) | TextValue(s: string) | NullValue

  /** A partial update object: its own keys are the columns to write. */
  type Patch = map<Column, Value>

  /** The value has the static type the update object declares for the column. */
  predicate Fits(c: Column, v: Value) {
    match c
    case FolderIdColumn => v.IntValue?
    case GachaIdColumn => v.IntValue?
    case TypeColumn => v.TextValue?
    case NameColumn => v.TextValue?
    case ThumbnailColumn => v.TextValue? || v.NullValue?
    case MemoColumn => v.TextValue? || v.NullValue?
  }

  predicate WellTyped(p: Patch) {
    forall c :: c in p ==> Fits(c, p[c])
  }

  function TextOrNull(t: Option<string>): Value {
    if t.Some? then TextValue(t.value) else NullValue
  }

  function NullableText(v: Value): Option<string> {
    if v.TextValue? then Some(v.s) else None
  }

  /** A row's editable columns, as the object the bookmark sheet diffs. */
  function Fields(it: Item): Patch {
    map[FolderIdColumn := IntValue(it.folderId),
        GachaIdColumn := IntValue(it.gachaId),
        TypeColumn := TextValue(it.kind),
        NameColumn := TextValue(it.name),
        ThumbnailColumn := TextOrNull(it.thumbnail),
        MemoColumn := TextOrNull(it.memo)]
  }

  /** One row after `UPDATE items SET <columns of p> = ?, updated_at = ? WHERE id = ?`. */
  function Patched(it: Item, p: Patch, now: Timestamp): Item
    requires WellTyped(p)
  {
    Item(
      it.id,
      if FolderIdColumn in p then p[FolderIdColumn].n else it.folderId,
      if GachaIdColumn in p then p[GachaIdColumn].n else it.gachaId,
      if TypeColumn in p then p[TypeColumn].s else it.kind,
      if NameColumn in p then p[NameColumn].s else it.name,
      if ThumbnailColumn in p then NullableText(p[ThumbnailColumn]) else it.thumbnail,
      if MemoColumn in p then NullableText(p[MemoColumn]) else it.memo,
      it.createdAt,
      now)
  }

  /** One editable column of the patched row: the update's value when it
      names the column, the old value otherwise. */
  lemma PatchedColumn(it: Item, p: Patch, now: Timestamp, c: Column)
    requires WellTyped(p)
    ensures Fields(Patched(it, p, now))[c] == (Fields(it) + p)[c]
  {
    if c in p {
      assert Fits(c, p[c]);
    }
  }

  /** A partial update writes exactly the columns it names and `updated_at`;
      the id, `created_at` and every other column keep their values. */
  lemma PatchedWritesOnlyItsColumns(it: Item, p: Patch, now: Timestamp)
    requires WellTyped(p)
    ensures Fields(Patched(it, p, now)) == Fields(it) + p
    ensures Patched(it, p, now).id == it.id
    ensures Patched(it, p, now).createdAt == it.createdAt
    ensures Patched(it, p, now).updatedAt == now
  {
    var lhs := Fields(Patched(it, p, now));
    var rhs := Fields(it) + p;
    assert lhs.Keys == rhs.Keys;
    forall c | c in lhs.Keys
      ensures lhs[c] == rhs[c]
    {
      PatchedColumn(it, p, now, c);
    }
  }

  /** The bookmark sheet's edit path: diffing the stored row against the
      edited fields and applying the diff leaves the row holding the edited
      fields. */
  lemma EditRoundTrip(it: Item, edited: Patch, now: Timestamp)
    requires WellTyped(edited)
    ensures WellTyped(ChangedValues.Changes(Fields(it), edited))
    ensures Fields(Patched(it, ChangedValues.Changes(Fields(it), edited), now)) == Fields(it) + edited
  {
    var diff := ChangedValues.Changes(Fields(it), edited);
    assert WellTyped(diff) by {
      forall c | c in diff
        ensures Fits(c, diff[c])
      {
        assert diff[c] == edited[c];
      }
    }
    PatchedWritesOnlyItsColumns(it, diff, now);
    ChangedValues.OverlayRoundTrip(Fields(it), edited);
  }

  function IdOf(it: Item): int { it.id }

  function GachaIdOf(it: Item): int { it.gachaId }

  function CreatedAtOf(it: Item): int { it.createdAt }

  lemma SameMembers(a: seq<Item>, b: seq<Item>)
    requires multiset(a) == multiset(b)
    ensures forall it :: it in a <==> it in b
  {
    forall it
      ensures it in a <==> it in b
    {
      assert it in a <==> it in multiset(a);
      assert it in b <==> it in multiset(b);
    }
  }

  function HasIdOf(id: int): Item -> bool { (it: Item) => it.id == id }

  function HasNameOf(name: string): Item -> bool { (it: Item) => it.name == name }

  function InFolder(folderId: int): Item -> bool { (it: Item) => it.folderId == folderId }

  function ForGacha(gachaId: int): Item -> bool { (it: Item) => it.gachaId == gachaId }

  /** Some row other than the one with id `exceptId` holds this `gacha_id`. */
  predicate GachaTaken(rows: seq<Item>, gachaId: int, exceptId: int) {
    exists i :: 0 <= i < |rows| && rows[i].gachaId == gachaId && rows[i].id != exceptId
  }

  /** The constraints a written row must meet in a table holding `rows`. */
  predicate Admissible(rows: seq<Item>, gachaUnique: bool, it: Item) {
    IsBookmarkType(it.kind) && !(gachaUnique && GachaTaken(rows, it.gachaId, it.id))
  }

  /** Row i has this id, and the row it would become meets the constraints. */
  predicate AcceptedAt(rows: seq<Item>, gachaUnique: bool, i: int, id: int, updates: Patch, now: Timestamp)
    requires WellTyped(updates) && 0 <= i < |rows|
  {
    rows[i].id == id && Admissible(rows, gachaUnique, Patched(rows[i], updates, now))
  }

  /** Some row has this id, and the row it would become meets the constraints. */
  predicate UpdateAccepted(rows: seq<Item>, gachaUnique: bool, id: int, updates: Patch, now: Timestamp)
    requires WellTyped(updates)
  {
    exists i :: 0 <= i < |rows| && AcceptedAt(rows, gachaUnique, i, id, updates, now)
  }

  /** With distinct ids, whether an update is accepted is decided by the one
      row that has the id. */
  lemma UniqueRowIndex(rows: seq<Item>, lastId: nat, gachaUnique: bool, k: int, updates: Patch, now: Timestamp)
    requires WellFormed(rows, lastId, gachaUnique) && WellTyped(updates) && 0 <= k < |rows|
    ensures UpdateAccepted(rows, gachaUnique, rows[k].id, updates, now) <==>
      Admissible(rows, gachaUnique, Patched(rows[k], updates, now))
  {
    forall i | 0 <= i < |rows| && rows[i].id == rows[k].id
      ensures i == k
    {
      assert IdOf(rows[i]) == IdOf(rows[k]);
    }
    if Admissible(rows, gachaUnique, Patched(rows[k], updates, now)) {
      assert AcceptedAt(rows, gachaUnique, k, rows[k].id, updates, now);
    }
  }

  /** Replacing row k by an admissible row with the same id keeps the table
      well formed. */
  lemma ReplacedKeepsWellFormed(rows: seq<Item>, lastId: nat, gachaUnique: bool, k: int, edited: Item)
    requires WellFormed(rows, lastId, gachaUnique) && 0 <= k < |rows|
    requires edited.id == rows[k].id && Admissible(rows, gachaUnique, edited)
    ensures WellFormed(rows[k := edited], lastId, gachaUnique)
  {
    var updated := rows[k := edited];
    forall i, j | 0 <= i < j < |updated|
      ensures IdOf(updated[i]) != IdOf(updated[j])
    {
      assert IdOf(rows[i]) != IdOf(rows[j]);
    }
    forall it | it in updated
      ensures 1 <= it.id <= lastId && IsBookmarkType(it.kind)
    {
      var i :| 0 <= i < |updated| && updated[i] == it;
      assert rows[i] in rows;
    }
    if gachaUnique {
      forall i, j | 0 <= i < j < |updated|
        ensures GachaIdOf(updated[i]) != GachaIdOf(updated[j])
      {
        if i == k {
          assert rows[j].id != edited.id;
        } else if j == k {
          assert rows[i].id != edited.id;
        } else {
          assert GachaIdOf(rows[i]) != GachaIdOf(rows[j]);
        }
      }
    }
  }

  /** An accepted update: the table with row k patched is well formed and
      differs from the old one exactly in the rows that have the id. */
  lemma AcceptedUpdate(rows: seq<Item>, lastId: nat, gachaUnique: bool, k: int, id: int, updates: Patch, now: Timestamp)
    requires WellFormed(rows, lastId, gachaUnique) && WellTyped(updates) && 0 <= k < |rows| && rows[k].id == id
    requires Admissible(rows, gachaUnique, Patched(rows[k], updates, now))
    ensures var r := rows[k := Patched(rows[k], updates, now)];
      && WellFormed(r, lastId, gachaUnique)
      && forall i :: 0 <= i < |r| ==> r[i] == if rows[i].id == id then Patched(rows[i], updates, now) else rows[i]
  {
    ReplacedKeepsWellFormed(rows, lastId, gachaUnique, k, Patched(rows[k], updates, now));
    forall i | 0 <= i < |rows| && rows[i].id == id
      ensures i == k
    {
      assert IdOf(rows[i]) == IdOf(rows[k]);
    }
  }

  /** Distinct primary keys no larger than the AUTOINCREMENT counter, the
      CHECK on `type`, and, while it is in force, the UNIQUE on `gacha_id`. */
  ghost predicate WellFormed(rows: seq<Item>, lastId: nat, gachaUnique: bool) {
    && DistinctBy(rows, IdOf)
    && (forall it :: it in rows ==> 1 <= it.id <= lastId && IsBookmarkType(it.kind))
    && (gachaUnique ==> DistinctBy(rows, GachaIdOf))
  }

  class TbItems {
    var connected: bool
    var rows: seq<Item>
    var lastId: nat
    var gachaUnique: bool

    ghost predicate Valid()
      reads this
    {
      WellFormed(rows, lastId, gachaUnique)
    }

    /** Opens the table over what is stored on the device. On an available
        database without the table, `init` creates it empty, under the
        initial schema with its UNIQUE `gacha_id`; an existing table is kept
        as stored, whichever schema it has. */
    constructor (available: bool, storedExists: bool, stored: seq<Item>, storedLastId: nat, storedGachaUnique: bool)
      requires WellFormed(stored, storedLastId, storedGachaUnique)
      ensures Valid() && connected == available
      ensures if available && !storedExists
              then rows == [] && lastId == 0 && gachaUnique
              else rows == stored && lastId == storedLastId && gachaUnique == storedGachaUnique
    {
      connected := available;
      if available && !storedExists {
        rows, lastId, gachaUnique := [], 0, true;
      } else {
        rows, lastId, gachaUnique := stored, storedLastId, storedGachaUnique;
      }
    }

    /** Inserts a bookmark unless it breaks the CHECK on `type` or (under the
        initial schema) the UNIQUE on `gacha_id`; then nothing changes. */
    method Create(data: NewItem, now: Timestamp) returns (ok: bool)
      requires Valid()
      modifies this
      ensures Valid() && connected == old(connected) && gachaUnique == old(gachaUnique)
      ensures ok <==> old(connected) && IsBookmarkType(data.kind) &&
                      !(old(gachaUnique) && exists i :: 0 <= i < |old(rows)| && old(rows)[i].gachaId == data.gachaId)
      ensures ok ==> lastId == old(lastId) + 1 && rows == old(rows) + [Item(lastId, data.folderId, data.gachaId,
                       data.kind, data.name, data.thumbnail, data.memo, now, now)]
      ensures ok ==> forall it :: it in old(rows) ==> it.id < lastId
      ensures !ok ==> rows == old(rows) && lastId == old(lastId)
    {
      if !connected || !IsBookmarkType(data.kind) {
        return false;
      }
      if gachaUnique && FirstWhere(rows, ForGacha(data.gachaId)).Some? {
        return false;
      }
      var row := Item(lastId + 1, data.folderId, data.gachaId, data.kind, data.name, data.thumbnail, data.memo, now, now);
      assert forall i :: 0 <= i < |rows| ==> rows[i].gachaId != data.gachaId || !gachaUnique;
      lastId := lastId + 1;
      rows := rows + [row];
      ok := true;
    }

    /** The bookmarks in one folder, newest first. */
    method GetItemsByFolderId(folderId: int) returns (r: seq<Item>)
      ensures !connected ==> r == []
      ensures connected ==> DescendingBy(r, CreatedAtOf) && multiset(r) == multiset(Filter(rows, InFolder(folderId)))
      ensures connected ==> forall it :: it in r <==> it in rows && it.folderId == folderId
    {
      if !connected {
        return [];
      }
      var matching := Filter(rows, InFolder(folderId));
      r := SortDescending(matching, CreatedAtOf);
      SameMembers(r, matching);
    }

    /** Every bookmark of one catalog entry, across folders, newest first. */
    method GetItemsByGachaId(gachaId: int) returns (r: seq<Item>)
      ensures !connected ==> r == []
      ensures connected ==> DescendingBy(r, CreatedAtOf) && multiset(r) == multiset(Filter(rows, ForGacha(gachaId)))
      ensures connected ==> forall it :: it in r <==> it in rows && it.gachaId == gachaId
    {
      if !connected {
        return [];
      }
      var matching := Filter(rows, ForGacha(gachaId));
      r := SortDescending(matching, CreatedAtOf);
      SameMembers(r, matching);
    }

    /** Some bookmark with this name (the first the store scans), or None. */
    method GetItemByName(name: string) returns (r: Option<Item>)
      ensures r.Some? <==> connected && exists i :: 0 <= i < |rows| && rows[i].name == name
      ensures r.Some? ==> r.value in rows && r.value.name == name
    {
      if !connected {
        return None;
      }
      r := FirstWhere(rows, HasNameOf(name));
    }

    /** Every bookmark, newest first. */
    method GetAll() returns (r: seq<Item>)
      ensures !connected ==> r == []
      ensures connected ==> DescendingBy(r, CreatedAtOf) && multiset(r) == multiset(rows)
    {
      if !connected {
        return [];
      }
      r := SortDescending(rows, CreatedAtOf);
    }

    /** Writes the columns of `updates` and a fresh `updated_at` on the row
        with this id. An empty update, a missing row, or a row that would
        break a constraint leaves the table as it was and gives false. */
    method Update(id: int, updates: Patch, now: Timestamp) returns (ok: bool)
      requires Valid()
      requires WellTyped(updates)
      modifies this
      ensures Valid() && connected == old(connected) && lastId == old(lastId) && gachaUnique == old(gachaUnique)
      ensures ok <==> (old(connected) && updates != map[] && UpdateAccepted(old(rows), old(gachaUnique), id, updates, now))
      ensures |rows| == |old(rows)|
      ensures forall i :: 0 <= i < |rows| ==>
        rows[i] == if ok && old(rows)[i].id == id then Patched(old(rows)[i], updates, now) else old(rows)[i]
    {
      ok := false;
      if connected && updates != map[] {
        var target := FirstWhere(rows, HasIdOf(id));
        if target.Some? {
          var k :| 0 <= k < |rows| && rows[k] == target.value;
          var edited := Patched(rows[k], updates, now);
          UniqueRowIndex(rows, lastId, gachaUnique, k, updates, now);
          if Admissible(rows, gachaUnique, edited) {
            AcceptedUpdate(rows, lastId, gachaUnique, k, id, updates, now);
            rows := rows[k := edited];
            ok := true;
          }
        }
      }
    }

    /** Deletes every row; true iff there was one. The id counter is kept. */
    method Clear() returns (ok: bool)
      requires Valid()
      modifies this
      ensures Valid() && connected == old(connected) && lastId == old(lastId) && gachaUnique == old(gachaUnique)
      ensures ok <==> old(connected) && old(rows) != []
      ensures rows == if old(connected) then [] else old(rows)
    {
      if !connected {
        return false;
      }
      ok := rows != [];
      rows := [];
    }

    /** Rebuilds the table without the UNIQUE on `gacha_id`: create
        `items_new`, copy every row with its id, drop `items`, rename. The
        copied table's AUTOINCREMENT counter restarts at the largest id
        present. `reported` stands for the driver's change count after the
        final ALTER TABLE, which is what the result reports. */
    method Migration(reported: bool) returns (ok: bool)
      requires Valid()
      modifies this
      ensures Valid() && connected == old(connected)
      ensures ok <==> old(connected) && reported
      ensures rows == old(rows)
      ensures old(connected) ==> !gachaUnique && lastId == MaxKey(old(rows), IdOf) <= old(lastId)
      ensures !old(connected) ==> gachaUnique == old(gachaUnique) && lastId == old(lastId)
    {
      if !connected {
        return false;
      }
      var copied := rows;
      var counter := MaxKey(copied, IdOf);
      assert forall it :: it in copied ==> it.id <= counter by {
        forall it | it in copied
          ensures it.id <= counter
        {
          var i :| 0 <= i < |copied| && copied[i] == it;
        }
      }
      rows, gachaUnique, lastId := copied, false, counter;
      ok := reported;
    }
  }
}
