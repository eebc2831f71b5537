/** The `images` table (services/table/images.ts): references to pictures
    the user attached. Besides `id` and `created_at`, the table has text
    columns: `uri` in the current schema, `assetId` in the one before it.
    The model keeps the set of those column names and, per row, the map
    from column name to its text; every such column is NOT NULL without a
    default, as `uri` is. */
module Images {
  import opened Rows

  datatype Image = Image(id: int, cells: map<string, string>, createdAt: Timestamp)

  const UriColumn: string := "uri"
  const AssetIdColumn: string := "assetId"

  /** The equality conditions of a delete, ANDed; absent fields impose nothing. */
  datatype Condition = Condition(id: Option<int>, uri: Option<string>, createdAt: Option<Timestamp>)

  predicate Matches(img: Image, c: Condition) {
    && (c.id.Some? ==> img.id == c.id.value)
    && (c.uri.Some? ==> UriColumn in img.cells && img.cells[UriColumn] == c.uri.value)
    && (c.createdAt.Some? ==> img.createdAt == c.createdAt.value)
  }

  function Unmatched(c: Condition): Image -> bool { (img: Image) => !Matches(img, c) }

  function IdOf(img: Image): int { img.id }

  function CreatedAtOf(img: Image): int { img.createdAt }

  /** `INSERT INTO images_new (id, uri, created_at) SELECT id, assetId, created_at FROM images` */
  function CopyAssetIds(rows: seq<Image>): (r: seq<Image>)
    requires forall img :: img in rows ==> AssetIdColumn in img.cells
  {
    seq(|rows|, i requires 0 <= i < |rows| =>
      Image(rows[i].id, map[UriColumn := rows[i].cells[AssetIdColumn]], rows[i].createdAt))
  }

  /** The guard of `migration`: the table exists, has `assetId` and lacks `uri`. */
  predicate MigrationApplies(tableExists: bool, columns: set<string>) {
    tableExists && AssetIdColumn in columns && UriColumn !in columns
  }

  /** After a migration that rebuilt the table, the guard fails, so running
      it again is a no-op. */
  lemma MigrationSettles(tableExists: bool)
    ensures !MigrationApplies(tableExists, {UriColumn})
  {
  }

  /** Distinct ids no larger than the AUTOINCREMENT counter, and every row
      holds exactly the table's text columns. A table that does not exist
      has no rows. */
  ghost predicate WellFormed(exists_: bool, columns: set<string>, rows: seq<Image>, lastId: nat) {
    && DistinctBy(rows, IdOf)
    && (forall img :: img in rows ==> 1 <= img.id <= lastId && img.cells.Keys == columns)
    && (!exists_ ==> rows == [])
  }

  /** The rebuilt table is well formed: the ids are copied unchanged, none
      exceeds the restarted counter, and each row holds just `uri`. */
  lemma CopyKeepsWellFormed(rows: seq<Image>, columns: set<string>, lastId: nat)
    requires WellFormed(true, columns, rows, lastId) && AssetIdColumn in columns
    ensures WellFormed(true, {UriColumn}, CopyAssetIds(rows), MaxKey(rows, IdOf))
  {
    var copied := CopyAssetIds(rows);
    var counter := MaxKey(rows, IdOf);
    forall i, j | 0 <= i < j < |copied|
      ensures IdOf(copied[i]) != IdOf(copied[j])
    {
      assert IdOf(rows[i]) != IdOf(rows[j]);
    }
    forall i | 0 <= i < |copied|
      ensures 1 <= copied[i].id <= counter && copied[i].cells.Keys == {UriColumn}
    {
      assert rows[i] in rows;
      assert IdOf(rows[i]) <= counter;
    }
    forall img | img in copied
      ensures 1 <= img.id <= counter && img.cells.Keys == {UriColumn}
    {
      var i :| 0 <= i < |copied| && copied[i] == img;
    }
  }

  class TbImages {
    var connected: bool
    var tableExists: bool
    var columns: set<string>
    var rows: seq<Image>
    var lastId: nat

    ghost predicate Valid()
      reads this
    {
      WellFormed(tableExists, columns, rows, lastId)
    }

    /** `init`: opens the database and creates the table in its current
        shape if it does not exist; a table that exists is kept as it is. */
    constructor (available: bool, storedExists: bool, storedColumns: set<string>, stored: seq<Image>, storedLastId: nat)
      requires WellFormed(storedExists, storedColumns, stored, storedLastId)
      ensures Valid() && connected == available
      ensures if available && !storedExists
              then tableExists && columns == {UriColumn} && rows == [] && lastId == 0
              else tableExists == storedExists && columns == storedColumns && rows == stored && lastId == storedLastId
    {
      connected := available;
      if available && !storedExists {
        tableExists, columns, rows, lastId := true, {UriColumn}, [], 0;
      } else {
        tableExists, columns, rows, lastId := storedExists, storedColumns, stored, storedLastId;
      }
    }

    /** Inserts one image reference; true iff a row was inserted. */
    method Create(uri: string, now: Timestamp) returns (ok: bool)
      requires Valid()
      modifies this
      ensures Valid()
      ensures connected == old(connected) && tableExists == old(tableExists) && columns == old(columns)
      ensures ok <==> old(connected) && old(tableExists) && old(columns) == {UriColumn}
      ensures ok ==> lastId == old(lastId) + 1 && rows == old(rows) + [Image(lastId, map[UriColumn := uri], now)]
      ensures !ok ==> rows == old(rows) && lastId == old(lastId)
    {
      if !connected || !tableExists || columns != {UriColumn} {
        return false;
      }
      lastId := lastId + 1;
      rows := rows + [Image(lastId, map[UriColumn := uri], now)];
      ok := true;
    }

    /** Every image, newest first (the default options of `getAll`). */
    method GetAll() returns (r: seq<Image>)
      ensures !(connected && tableExists) ==> r == []
      ensures connected && tableExists ==> DescendingBy(r, CreatedAtOf) && multiset(r) == multiset(rows)
    {
      if !connected || !tableExists {
        return [];
      }
      r := SortDescending(rows, CreatedAtOf);
    }

    /** The newest image (the default options of `getOne`), or None. */
    method GetOne() returns (r: Option<Image>)
      ensures r.Some? <==> connected && tableExists && rows != []
      ensures r.Some? ==> r.value in rows && forall img :: img in rows ==> img.createdAt <= r.value.createdAt
    {
      if !connected || !tableExists {
        return None;
      }
      var sorted := SortDescending(rows, CreatedAtOf);
      if sorted == [] {
        return None;
      }
      r := Some(sorted[0]);
      forall img | img in rows
        ensures img.createdAt <= sorted[0].createdAt
      {
        assert img in multiset(sorted);
        var i :| 0 <= i < |sorted| && sorted[i] == img;
      }
      assert sorted[0] in multiset(rows);
    }

    /** `DELETE FROM images WHERE ...` with the given equality conditions;
        true iff at least one row was removed. A condition on `uri` when the
        table has no such column is an SQL error and removes nothing. */
    method Delete(where: Condition) returns (ok: bool)
      requires Valid()
      requires where.id.Some? || where.uri.Some? || where.createdAt.Some?
      modifies this
      ensures Valid()
      ensures connected == old(connected) && tableExists == old(tableExists)
      ensures columns == old(columns) && lastId == old(lastId)
      ensures ok <==> old(connected) && old(tableExists) && !(where.uri.Some? && UriColumn !in old(columns)) &&
                      exists i :: 0 <= i < |old(rows)| && Matches(old(rows)[i], where)
      ensures rows == if old(connected) && old(tableExists) && !(where.uri.Some? && UriColumn !in old(columns))
                      then Filter(old(rows), Unmatched(where)) else old(rows)
    {
      if !connected || !tableExists || (where.uri.Some? && UriColumn !in columns) {
        return false;
      }
      var kept := Filter(rows, Unmatched(where));
      FilterDistinctBy(rows, Unmatched(where), IdOf);
      ok := |kept| < |rows|;
      rows := kept;
    }

    /** Renames column `assetId` to `uri` by rebuilding the table: create
        `images_new`, copy id, assetId and created_at, drop `images`,
        rename. Nothing is done, and the result is true, when there is no
        `images` table, when it has no `assetId` column, or when it already
        has `uri`. The copied table's AUTOINCREMENT counter restarts at the
        largest id present. */
    method Migration() returns (ok: bool)
      requires Valid()
      modifies this
      ensures Valid()
      ensures connected == old(connected) && tableExists == old(tableExists)
      ensures ok == old(connected)
      ensures if old(connected) && MigrationApplies(old(tableExists), old(columns))
              then columns == {UriColumn} && rows == CopyAssetIds(old(rows)) && lastId == MaxKey(old(rows), IdOf)
              else columns == old(columns) && rows == old(rows) && lastId == old(lastId)
    {
      if !connected {
        return false;
      }
      if !tableExists {
        return true;
      }
      if !MigrationApplies(tableExists, columns) {
        return true;
      }
      var copied := CopyAssetIds(rows);
      var counter := MaxKey(rows, IdOf);
      CopyKeepsWellFormed(rows, columns, lastId);
      rows, columns, lastId := copied, {UriColumn}, counter;
      ok := true;
    }
  }
}
