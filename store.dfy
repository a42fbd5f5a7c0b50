/**
 * The notification table as the `list` query reads it, and the one read it issues:
 * `findMany` ordered by `createdAt` descending, with an optional cursor and a `take`.
 *
 * The table is given as the sequence of its rows in the order the query returns them,
 * newest first. Creation times are required to be distinct, so that this order is total
 * and the query's answer is determined; row ids are the table's primary key, so distinct.
 */
module NotificationStore {
  import opened Wrappers

  /** One notification row, reduced to the two columns the query orders and pages by. */
  datatype Notification = Notification(id: string, createdAt: int)

  /** Strictly newest first: what `orderBy: { createdAt: "desc" }` yields when no two rows tie. */
  predicate NewestFirst(rows: seq<Notification>)
  {
    forall i, j :: 0 <= i < j < |rows| ==> rows[i].createdAt > rows[j].createdAt
  }

  /** No two rows share an id (the id is the primary key). */
  predicate DistinctIds(rows: seq<Notification>)
  {
    forall i, j :: 0 <= i < j < |rows| ==> rows[i].id != rows[j].id
  }

  /** The table as the query sees it: totally ordered by creation time, keyed by id. */
  predicate WellFormed(rows: seq<Notification>)
  {
    NewestFirst(rows) && DistinctIds(rows)
  }

  predicate HasId(rows: seq<Notification>, id: string)
  {
    exists i :: 0 <= i < |rows| && rows[i].id == id
  }

  /** The position of the row a cursor names: the first row carrying that id. */
  function IndexOf(rows: seq<Notification>, id: string): (i: nat)
    requires HasId(rows, id)
    ensures i < |rows| && rows[i].id == id
    ensures forall j :: 0 <= j < i ==> rows[j].id != id
  {
    if rows[0].id == id then 0
    else
      assert HasId(rows[1..], id) by {
        var k :| 0 <= k < |rows| && rows[k].id == id;
        assert rows[1..][k - 1] == rows[k];
      }
      1 + IndexOf(rows[1..], id)
  }

  /** In a table keyed by id, the cursor of a row leads back to exactly that row. */
  lemma IndexOfRow(rows: seq<Notification>, k: nat)
    requires DistinctIds(rows) && k < |rows|
    ensures HasId(rows, rows[k].id) && IndexOf(rows, rows[k].id) == k
  {
  }

  /** Where the scan starts: at the cursor row, inclusive, or at the newest row without a cursor. */
  function StartOf(rows: seq<Notification>, cursor: Option<string>): (s: nat)
    requires cursor.Some? ==> HasId(rows, cursor.value)
    ensures s <= |rows|
    ensures cursor.None? ==> s == 0
    ensures cursor.Some? ==> s < |rows| && rows[s].id == cursor.value
  {
    if cursor.None? then 0 else IndexOf(rows, cursor.value)
  }

  /**
   * `findMany({ take, cursor: { id }, orderBy: { createdAt: "desc" } })` as a selection on the
   * ordered rows: up to `take` consecutive rows beginning with the cursor row itself (there is
   * no `skip: 1`), or with the newest row when no cursor is given.
   */
  function FindMany(rows: seq<Notification>, cursor: Option<string>, take: nat): (w: seq<Notification>)
    requires cursor.Some? ==> HasId(rows, cursor.value)
    ensures |w| <= take && StartOf(rows, cursor) + |w| <= |rows|
    ensures |w| == take || StartOf(rows, cursor) + |w| == |rows|
    ensures w == rows[StartOf(rows, cursor)..StartOf(rows, cursor) + |w|]
    ensures cursor.None? ==> w == rows[..|w|]
    ensures cursor.Some? && take > 0 ==> |w| > 0 && w[0].id == cursor.value
    ensures NewestFirst(rows) ==> NewestFirst(w)
  {
    var s := StartOf(rows, cursor);
    if s + take <= |rows| then rows[s..s + take] else rows[s..]
  }
}
