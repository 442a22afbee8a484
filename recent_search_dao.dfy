// The write side of the recent-search store: NewRecentSearchRoomDao over
// one RecentSearchRoomEntity table, held as a sequence of rows plus the
// next primary key the table will hand out.
module RecentSearchDao {
  import opened RecentSearch

  class NewRecentSearchRoomDao {
    /** The table's rows, in insertion order. */
    var rows: seq<Row>
    /** The primary key the next insert receives. */
    var nextId: int

    /**
     * Primary keys are all below `nextId`, so every insert gets an id larger
     * than every id in the table; rows are therefore stored in increasing id
     * order, and in particular their ids are distinct.
     */
    ghost predicate Valid()
      reads this
    {
      StrictlyAscendingById(rows) && forall i :: 0 <= i < |rows| ==> rows[i].id < nextId
    }

    /** An empty table; SQLite numbers rows from 1. */
    constructor ()
      ensures Valid() && rows == [] && nextId == 1
    {
      rows := [];
      nextId := 1;
    }

    /**
     * `saveSearch(title, id)`: INSERT one row whose term is `title` and whose
     * `zimId` column holds `id`. Earlier rows of the same term stay: nothing
     * is de-duplicated when writing.
     */
    method SaveSearch(title: string, id: int)
      requires Valid()
      modifies this
      ensures Valid()
      ensures rows == old(rows) + [Row(old(nextId), title, id)]
      ensures nextId == old(nextId) + 1
      ensures forall like, zimId :: Matches(like, Row(old(nextId), title, id), zimId) ==>
        |RecentSearches(rows, like, zimId)| > 0 && RecentSearches(rows, like, zimId)[0].searchTerm == title
    {
      var row := Row(nextId, title, id);
      forall like, zimId | Matches(like, row, zimId)
        ensures |RecentSearches(rows + [row], like, zimId)| > 0
        ensures RecentSearches(rows + [row], like, zimId)[0].searchTerm == title
      {
        SavedSearchReadFirst(rows, row, like, zimId);
      }
      rows := rows + [row];
      nextId := nextId + 1;
    }

    /**
     * `deleteSearchString(searchTerm)`: DELETE every row of that term, under
     * every ZIM id, and keep every other row in its order.
     */
    method DeleteSearchString(searchTerm: string)
      requires Valid()
      modifies this
      ensures Valid()
      ensures rows == WithoutTerm(old(rows), searchTerm)
      ensures nextId == old(nextId)
      ensures forall like, zimId :: searchTerm !in ItemTerms(RecentSearches(rows, like, zimId))
    {
      forall like, zimId ensures searchTerm !in ItemTerms(RecentSearches(WithoutTerm(rows, searchTerm), like, zimId)) {
        DeletedTermIsNeverRead(rows, searchTerm, like, zimId);
      }
      SubsequenceKeepsOrderings(WithoutTerm(rows, searchTerm), rows);
      rows := WithoutTerm(rows, searchTerm);
    }

    /** `deleteSearchHistory()`: DELETE every row; later reads are empty. */
    method DeleteSearchHistory()
      requires Valid()
      modifies this
      ensures Valid()
      ensures rows == [] && nextId == old(nextId)
      ensures forall like, zimId :: Search(rows, like, zimId) == [] && RecentSearches(rows, like, zimId) == []
    {
      rows := [];
    }

    /**
     * `migrationToRoomInsert(box)`: one `saveSearch` per legacy record, in
     * the order of `box`, passing the record's term and, as the `zimId`
     * value, the record's id. Existing rows are neither checked nor removed.
     */
    method MigrationToRoomInsert(box: seq<LegacyRecord>)
      requires Valid()
      modifies this
      ensures Valid()
      ensures |rows| == |old(rows)| + |box| && rows[..|old(rows)|] == old(rows)
      ensures forall k :: 0 <= k < |box| ==>
        rows[|old(rows)| + k] == Row(old(nextId) + k, box[k].searchTerm, box[k].id)
      ensures nextId == old(nextId) + |box|
    {
      for i := 0 to |box|
        invariant Valid()
        invariant |rows| == |old(rows)| + i && rows[..|old(rows)|] == old(rows)
        invariant forall k :: 0 <= k < i ==>
          rows[|old(rows)| + k] == Row(old(nextId) + k, box[k].searchTerm, box[k].id)
        invariant nextId == old(nextId) + i
      {
        SaveSearch(box[i].searchTerm, box[i].id);
      }
    }
  }

  /**
   * Migrating the same legacy records twice into an empty table stores each
   * of them twice, under new primary keys: the migration is not idempotent.
   */
  method MigrateTwice(box: seq<LegacyRecord>) returns (rows: seq<Row>)
    ensures |rows| == 2 * |box|
    ensures forall k :: 0 <= k < |box| ==>
      rows[k].searchTerm == rows[|box| + k].searchTerm == box[k].searchTerm
      && rows[k].zimId == rows[|box| + k].zimId == box[k].id
      && rows[k].id != rows[|box| + k].id
  {
    var dao := new NewRecentSearchRoomDao();
    dao.MigrationToRoomInsert(box);
    ghost var once := dao.rows;
    dao.MigrationToRoomInsert(box);
    rows := dao.rows;
    forall k | 0 <= k < |box|
      ensures rows[k] == Row(1 + k, box[k].searchTerm, box[k].id)
      ensures rows[|box| + k] == Row(1 + |box| + k, box[k].searchTerm, box[k].id)
    {
      assert rows[k] == rows[..|once|][k] == once[k];
    }
  }

  /**
   * Searches for "cat", "dog", "cat" and "bird", saved in that order into an
   * empty table, read back newest first with "cat" once: bird, cat, dog.
   */
  method RecentSearchesExample(like: (int, string) -> bool, zimId: string) returns (items: seq<RecentSearchListItem>)
    requires forall id :: 1 <= id <= 4 ==> like(id, zimId)
    ensures items == [RecentSearchListItem("bird"), RecentSearchListItem("cat"), RecentSearchListItem("dog")]
  {
    var dao := new NewRecentSearchRoomDao();
    dao.SaveSearch("cat", 0);
    dao.SaveSearch("dog", 0);
    dao.SaveSearch("cat", 0);
    dao.SaveSearch("bird", 0);
    assert dao.rows == ExampleRows();
    WorkedExample(like, zimId);
    items := RecentSearches(dao.rows, like, Some(zimId));
  }
}
