/**
 * The `notification.list` query handler: it validates the page size, picks the cursor,
 * reads one row more than a page from the store, and, when that extra row came back,
 * drops it from the answer and hands its id out as the cursor of the next page.
 */
module NotificationRouter {
  import opened Wrappers
  import opened NotificationStore

  /** Page size when the caller gives none. */
  const DefaultLimit: nat := 20
  /** Bounds the input schema puts on a given page size, both inclusive. */
  const MinLimit: nat := 1
  const MaxLimit: nat := 100

  /** The query's input; a `null` and an absent field both read as None. */
  datatype ListInput = ListInput(limit: Option<int>, cursor: Option<string>, initialCursor: Option<string>)

  /** The only way the handler rejects a request: schema validation of `limit` fails. */
  datatype ListError = LimitOutOfRange

  /** One answer: the rows of this page, and the cursor that continues after it, if any. */
  datatype Page = Page(items: seq<Notification>, nextCursor: Option<string>)

  /** The page size the handler uses: the given one if the schema accepts it, otherwise the default. */
  function EffectiveLimit(limit: Option<int>): (r: Result<nat, ListError>)
    ensures r.Success? <==> limit.None? || MinLimit <= limit.value <= MaxLimit
    ensures r.Success? ==> MinLimit <= r.value <= MaxLimit
    ensures limit.None? ==> r == Success(DefaultLimit)
    ensures limit.Some? && r.Success? ==> r.value == limit.value
  {
    match limit
    case None => Success(DefaultLimit)
    case Some(n) => if MinLimit <= n <= MaxLimit then Success(n) else Failure(LimitOutOfRange)
  }

  /**
   * The id passed to `findMany` as its cursor. `cursor` wins over `initialCursor` whenever it is
   * present, even as the empty string; the chosen value is then tested for truthiness, so the
   * empty string means "no cursor".
   */
  function CursorArg(input: ListInput): (c: Option<string>)
    ensures c.Some? <==>
      (input.cursor.Some? && input.cursor.value != "") ||
      (input.cursor.None? && input.initialCursor.Some? && input.initialCursor.value != "")
    ensures c.Some? ==> c == (if input.cursor.Some? then input.cursor else input.initialCursor)
  {
    var chosen := if input.cursor.Some? then input.cursor else input.initialCursor;
    if chosen.Some? && chosen.value != "" then chosen else None
  }

  /** The cursor the handler uses names a row of the table. */
  predicate KnownCursor(rows: seq<Notification>, input: ListInput)
  {
    CursorArg(input).Some? ==> HasId(rows, CursorArg(input).value)
  }

  /**
   * Reference answer, stated without the extra row: the `limit` rows from `start` on, and the id of
   * the row right after them when the table goes on.
   */
  function PageAt(rows: seq<Notification>, limit: nat, start: nat): Page
    requires start <= |rows|
  {
    if start + limit < |rows| then Page(rows[start..start + limit], Some(rows[start + limit].id))
    else Page(rows[start..], None)
  }

  /** What a call to `list` must answer for `input` on this table. */
  function Expected(rows: seq<Notification>, input: ListInput): (r: Result<Page, ListError>)
    requires KnownCursor(rows, input)
    ensures r.Failure? <==> EffectiveLimit(input.limit).Failure?
  {
    match EffectiveLimit(input.limit)
    case Failure(e) => Failure(e)
    case Success(limit) => Success(PageAt(rows, limit, StartOf(rows, CursorArg(input))))
  }

  /** The answer to an accepted request, described by what it holds. */
  lemma ExpectedPage(rows: seq<Notification>, input: ListInput)
    requires KnownCursor(rows, input)
    requires EffectiveLimit(input.limit).Success?
    ensures
      var limit := EffectiveLimit(input.limit).value;
      var start := StartOf(rows, CursorArg(input));
      var p := Expected(rows, input).value;
      // never more than a page, and a full page whenever the table goes on
      && |p.items| <= limit
      && (p.nextCursor.Some? ==> |p.items| == limit)
      // the page is the run of rows from the start position on
      && start + |p.items| <= |rows|
      && p.items == rows[start..start + |p.items|]
      // a next cursor exactly when rows remain, naming the first of them
      && (p.nextCursor.Some? <==> start + |p.items| < |rows|)
      && (p.nextCursor.Some? ==> p.nextCursor.value == rows[start + |p.items|].id)
      // the cursor row itself opens the page
      && (CursorArg(input).Some? ==> |p.items| > 0 && p.items[0].id == CursorArg(input).value)
      && (NewestFirst(rows) ==> NewestFirst(p.items))
  {
  }

  /**
   * The handler's last step on the rows `findMany` returned: when there are more than `limit` of
   * them, pop the last one and use its id as the next cursor; otherwise leave them as they are.
   */
  method TrimExtra(fetched: seq<Notification>, limit: nat) returns (items: seq<Notification>, nextCursor: Option<string>)
    ensures nextCursor.Some? <==> |fetched| > limit
    ensures nextCursor.Some? ==>
      |fetched| > 0 && items + [fetched[|fetched| - 1]] == fetched &&
      nextCursor.value == fetched[|fetched| - 1].id
    ensures nextCursor.None? ==> items == fetched
  {
    items := fetched;
    nextCursor := None;
    if |items| > limit {
      var lastItem := items[|items| - 1];
      items := items[..|items| - 1];
      nextCursor := Some(lastItem.id);
    }
  }

  /** Trimming a window of `limit + 1` rows read from `start` gives the reference page. */
  lemma TrimmedWindowIsPage(rows: seq<Notification>, start: nat, limit: nat, fetched: seq<Notification>,
                            items: seq<Notification>, nextCursor: Option<string>)
    requires start + |fetched| <= |rows|
    requires fetched == rows[start..start + |fetched|]
    requires |fetched| == limit + 1 || start + |fetched| == |rows|
    requires |fetched| <= limit + 1
    requires nextCursor.Some? <==> |fetched| > limit
    requires nextCursor.Some? ==>
      |fetched| > 0 && items + [fetched[|fetched| - 1]] == fetched &&
      nextCursor.value == fetched[|fetched| - 1].id
    requires nextCursor.None? ==> items == fetched
    ensures Page(items, nextCursor) == PageAt(rows, limit, start)
  {
    if start + limit < |rows| {
      assert |fetched| == limit + 1;
      assert items == fetched[..limit] by {
        assert items == (items + [fetched[limit]])[..limit];
      }
      assert fetched[..limit] == rows[start..start + limit];
    }
  }

  /** The `list` query handler, on a table whose rows are given newest first. */
  method List(rows: seq<Notification>, input: ListInput) returns (r: Result<Page, ListError>)
    requires KnownCursor(rows, input)
    ensures r == Expected(rows, input)
  {
    var valid := EffectiveLimit(input.limit);
    if valid.Failure? {
      return Failure(valid.error);
    }
    var limit := valid.value;
    var cursor := CursorArg(input);
    var fetched := FindMany(rows, cursor, limit + 1);
    var items, nextCursor := TrimExtra(fetched, limit);
    r := Success(Page(items, nextCursor));
    TrimmedWindowIsPage(rows, StartOf(rows, cursor), limit, fetched, items, nextCursor);
  }
}
