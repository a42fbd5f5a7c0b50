/**
 * The notification list's infinite query: it requests the first page with the initial input,
 * then keeps requesting with the last page's `nextCursor` as `cursor` until a page comes back
 * without one, and shows the pages one after another.
 */
module NotificationFeed {
  import opened Wrappers
  import opened NotificationStore
  import opened NotificationRouter

  /** Every row has a non-empty id, so that no next cursor reads as "no cursor". */
  predicate NonEmptyIds(rows: seq<Notification>)
  {
    forall i :: 0 <= i < |rows| ==> rows[i].id != ""
  }

  /**
   * The input of the request after a page: the same input with the page's cursor. The page size
   * stays, and a non-empty next cursor is what the store is given as the cursor.
   */
  function NextInput(input: ListInput, page: Page): (next: ListInput)
    ensures EffectiveLimit(next.limit) == EffectiveLimit(input.limit)
    ensures page.nextCursor.Some? && page.nextCursor.value != "" ==> CursorArg(next) == page.nextCursor
    ensures page.nextCursor.None? ==> CursorArg(next) == CursorArg(input.(cursor := None))
  {
    input.(cursor := page.nextCursor)
  }

  /** Feeding a page's next cursor back resumes the scan at the row right after that page. */
  lemma NextCursorResumes(rows: seq<Notification>, input: ListInput)
    requires DistinctIds(rows) && NonEmptyIds(rows) && KnownCursor(rows, input)
    requires Expected(rows, input).Success? && Expected(rows, input).value.nextCursor.Some?
    ensures var page := Expected(rows, input).value;
      var next := NextInput(input, page);
      && KnownCursor(rows, next)
      && |page.items| > 0
      && StartOf(rows, CursorArg(next)) == StartOf(rows, CursorArg(input)) + |page.items|
  {
    ExpectedPage(rows, input);
  }

  /**
   * The pages the list loads, in order, from `input` on: the first is the answer to `input`, and
   * requests go on until a page comes back without a next cursor. A rejected input loads nothing.
   */
  function Pages(rows: seq<Notification>, input: ListInput): (pages: seq<Page>)
    requires DistinctIds(rows) && NonEmptyIds(rows) && KnownCursor(rows, input)
    ensures Expected(rows, input).Failure? <==> pages == []
    ensures pages != [] ==> pages[0] == Expected(rows, input).value
    ensures pages != [] ==> pages[|pages| - 1].nextCursor.None?
    decreases |rows| - StartOf(rows, CursorArg(input))
  {
    match Expected(rows, input)
    case Failure(_) => []
    case Success(page) =>
      if page.nextCursor.None? then [page]
      else
        NextCursorResumes(rows, input);
        [page] + Pages(rows, NextInput(input, page))
  }

  /**
   * The rows the list shows: the items of its pages, one page after another. A row is shown
   * exactly when some page holds it.
   */
  function Shown(pages: seq<Page>): (shown: seq<Notification>)
    ensures forall n :: n in shown <==> exists k :: 0 <= k < |pages| && n in pages[k].items
  {
    if pages == [] then [] else pages[0].items + Shown(pages[1..])
  }

  /** A page holding the rows from `start` to `mid`, followed by pages showing the rest, shows all from `start`. */
  lemma ShownStep(rows: seq<Notification>, start: nat, mid: nat, page: Page, rest: seq<Page>)
    requires start <= mid <= |rows|
    requires page.items == rows[start..mid] && Shown(rest) == rows[mid..]
    ensures Shown([page] + rest) == rows[start..]
  {
    assert ([page] + rest)[1..] == rest;
    assert rows[start..] == rows[start..mid] + rows[mid..];
  }

  /**
   * Following the cursors shows every row from the starting position to the end of the table,
   * in table order, each exactly once.
   */
  lemma PagesShowRestOfTable(rows: seq<Notification>, input: ListInput)
    requires DistinctIds(rows) && NonEmptyIds(rows) && KnownCursor(rows, input)
    requires EffectiveLimit(input.limit).Success?
    ensures Shown(Pages(rows, input)) == rows[StartOf(rows, CursorArg(input))..]
  {
    PagesArePagesFrom(rows, input);
    ShownPagesFrom(rows, EffectiveLimit(input.limit).value, StartOf(rows, CursorArg(input)));
  }

  /**
   * The pages cut from row `start` on, `limit` rows at a time: each page's cursor is the id of
   * the row that opens the next one, and the page that reaches the end of the table has none.
   */
  function PagesFrom(rows: seq<Notification>, limit: nat, start: nat): (pages: seq<Page>)
    requires 0 < limit && start <= |rows|
    decreases |rows| - start
  {
    if start + limit < |rows| then [PageAt(rows, limit, start)] + PagesFrom(rows, limit, start + limit)
    else [PageAt(rows, limit, start)]
  }

  /** The list loads exactly the pages cut from its start position, its page size at a time. */
  lemma {:induction false} PagesArePagesFrom(rows: seq<Notification>, input: ListInput)
    requires DistinctIds(rows) && NonEmptyIds(rows) && KnownCursor(rows, input)
    requires EffectiveLimit(input.limit).Success?
    ensures Pages(rows, input) ==
      PagesFrom(rows, EffectiveLimit(input.limit).value, StartOf(rows, CursorArg(input)))
    decreases |rows| - StartOf(rows, CursorArg(input)), 1
  {
    if StartOf(rows, CursorArg(input)) + EffectiveLimit(input.limit).value >= |rows| {
      PagesAtEnd(rows, input);
    } else {
      PagesAfterFirst(rows, input);
      PagesUnfold(rows, input);
    }
  }

  /** When rows remain after the first page, the later pages are those cut from the next row on. */
  lemma {:induction false} PagesAfterFirst(rows: seq<Notification>, input: ListInput)
    requires DistinctIds(rows) && NonEmptyIds(rows) && KnownCursor(rows, input)
    requires EffectiveLimit(input.limit).Success?
    requires StartOf(rows, CursorArg(input)) + EffectiveLimit(input.limit).value < |rows|
    ensures KnownCursor(rows, Resume(rows, input))
    ensures Pages(rows, Resume(rows, input)) == PagesFrom(rows, EffectiveLimit(input.limit).value,
      StartOf(rows, CursorArg(input)) + EffectiveLimit(input.limit).value)
    decreases |rows| - StartOf(rows, CursorArg(input)), 0
  {
    ResumeAfterPage(rows, input);
    PagesArePagesFrom(rows, Resume(rows, input));
  }

  /** The pages cut from `start` on show the rows from `start` to the end, in table order. */
  lemma {:induction false} ShownPagesFrom(rows: seq<Notification>, limit: nat, start: nat)
    requires 0 < limit && start <= |rows|
    ensures Shown(PagesFrom(rows, limit, start)) == rows[start..]
    decreases |rows| - start
  {
    if start + limit < |rows| {
      ShownPagesFrom(rows, limit, start + limit);
      ShownStep(rows, start, start + limit, PageAt(rows, limit, start), PagesFrom(rows, limit, start + limit));
    } else {
      ShownStep(rows, start, |rows|, PageAt(rows, limit, start), []);
    }
  }

  /** The input of the request after the first page when rows remain after it. */
  function Resume(rows: seq<Notification>, input: ListInput): ListInput
    requires KnownCursor(rows, input) && EffectiveLimit(input.limit).Success?
    requires StartOf(rows, CursorArg(input)) + EffectiveLimit(input.limit).value < |rows|
  {
    NextInput(input, PageAt(rows, EffectiveLimit(input.limit).value, StartOf(rows, CursorArg(input))))
  }

  /** The request after the first page is accepted and starts right after that page. */
  lemma ResumeAfterPage(rows: seq<Notification>, input: ListInput)
    requires DistinctIds(rows) && NonEmptyIds(rows) && KnownCursor(rows, input)
    requires EffectiveLimit(input.limit).Success?
    requires StartOf(rows, CursorArg(input)) + EffectiveLimit(input.limit).value < |rows|
    ensures KnownCursor(rows, Resume(rows, input)) && Resume(rows, input).limit == input.limit
    ensures StartOf(rows, CursorArg(Resume(rows, input))) ==
      StartOf(rows, CursorArg(input)) + EffectiveLimit(input.limit).value
  {
    IndexOfRow(rows, StartOf(rows, CursorArg(input)) + EffectiveLimit(input.limit).value);
  }

  /** When the rows from the start position fit in one page, the list loads just that page. */
  lemma PagesAtEnd(rows: seq<Notification>, input: ListInput)
    requires DistinctIds(rows) && NonEmptyIds(rows) && KnownCursor(rows, input)
    requires EffectiveLimit(input.limit).Success?
    requires StartOf(rows, CursorArg(input)) + EffectiveLimit(input.limit).value >= |rows|
    ensures Pages(rows, input) ==
      [PageAt(rows, EffectiveLimit(input.limit).value, StartOf(rows, CursorArg(input)))]
    ensures PageAt(rows, EffectiveLimit(input.limit).value, StartOf(rows, CursorArg(input))).nextCursor.None?
  {
  }

  /** When rows remain after the first page, the list loads it and goes on from the next row. */
  lemma PagesUnfold(rows: seq<Notification>, input: ListInput)
    requires DistinctIds(rows) && NonEmptyIds(rows) && KnownCursor(rows, input)
    requires EffectiveLimit(input.limit).Success?
    requires StartOf(rows, CursorArg(input)) + EffectiveLimit(input.limit).value < |rows|
    requires KnownCursor(rows, Resume(rows, input))
    ensures var page := PageAt(rows, EffectiveLimit(input.limit).value, StartOf(rows, CursorArg(input)));
      && Pages(rows, input) == [page] + Pages(rows, Resume(rows, input))
      && page.items == rows[StartOf(rows, CursorArg(input))..StartOf(rows, CursorArg(input)) + EffectiveLimit(input.limit).value]
      && page.nextCursor == CursorArg(Resume(rows, input))
  {
    var limit := EffectiveLimit(input.limit).value;
    var start := StartOf(rows, CursorArg(input));
    assert Expected(rows, input) == Success(PageAt(rows, limit, start));
    PagesCons(rows, input);
    assert rows[start + limit].id != "";
  }

  /** After a page with a next cursor, the list goes on with the request that cursor opens. */
  lemma PagesCons(rows: seq<Notification>, input: ListInput)
    requires DistinctIds(rows) && NonEmptyIds(rows) && KnownCursor(rows, input)
    requires Expected(rows, input).Success? && Expected(rows, input).value.nextCursor.Some?
    requires KnownCursor(rows, NextInput(input, Expected(rows, input).value))
    ensures Pages(rows, input) ==
      [Expected(rows, input).value] + Pages(rows, NextInput(input, Expected(rows, input).value))
  {
  }

  /**
   * Starting without a cursor, as the list does, the pages together are the whole table newest
   * first: no row is skipped and none is shown twice.
   */
  lemma FeedShowsWholeTable(rows: seq<Notification>, limit: Option<int>)
    requires WellFormed(rows) && NonEmptyIds(rows)
    requires EffectiveLimit(limit).Success?
    ensures var shown := Shown(Pages(rows, ListInput(limit, None, None)));
      shown == rows && DistinctIds(shown) && NewestFirst(shown)
  {
    PagesShowRestOfTable(rows, ListInput(limit, None, None));
  }

  /** Page `k` is full and its cursor is the id of the row that opens page `k + 1`. */
  predicate LinkedAt(pages: seq<Page>, k: nat, limit: nat)
    requires k + 1 < |pages|
  {
    && |pages[k].items| == limit
    && |pages[k + 1].items| > 0
    && pages[k].nextCursor == Some(pages[k + 1].items[0].id)
  }

  /** Consecutive pages are linked, and the last one ends the list. */
  predicate Chained(pages: seq<Page>, limit: nat)
  {
    && |pages| > 0
    && pages[|pages| - 1].nextCursor.None?
    && (forall k :: 0 <= k < |pages| - 1 ==> LinkedAt(pages, k, limit))
  }

  /**
   * Every page but the last is full and its cursor is the id of the first row of the page after
   * it; the last page carries no cursor.
   */
  lemma PagesChain(rows: seq<Notification>, input: ListInput)
    requires DistinctIds(rows) && NonEmptyIds(rows) && KnownCursor(rows, input)
    requires EffectiveLimit(input.limit).Success?
    ensures Chained(Pages(rows, input), EffectiveLimit(input.limit).value)
  {
    PagesArePagesFrom(rows, input);
    PagesFromChain(rows, EffectiveLimit(input.limit).value, StartOf(rows, CursorArg(input)));
  }

  /** The pages cut from `start` on form a chain. */
  lemma {:induction false} PagesFromChain(rows: seq<Notification>, limit: nat, start: nat)
    requires 0 < limit && start <= |rows|
    ensures Chained(PagesFrom(rows, limit, start), limit)
    decreases |rows| - start
  {
    if start + limit < |rows| {
      PagesFromChain(rows, limit, start + limit);
      var rest := PagesFrom(rows, limit, start + limit);
      assert rest[0] == PageAt(rows, limit, start + limit);
      ChainedCons(PageAt(rows, limit, start), rest, limit);
    }
  }

  /** A full page whose cursor names the row opening a chain of pages extends that chain. */
  lemma ChainedCons(page: Page, rest: seq<Page>, limit: nat)
    requires Chained(rest, limit) && |page.items| == limit
    requires |rest[0].items| > 0 && page.nextCursor == Some(rest[0].items[0].id)
    ensures Chained([page] + rest, limit)
  {
    var pages := [page] + rest;
    forall k | 0 <= k < |pages| - 1
      ensures LinkedAt(pages, k, limit)
    {
      if k > 0 {
        assert LinkedAt(rest, k - 1, limit);
        assert pages[k] == rest[k - 1] && pages[k + 1] == rest[k];
      }
    }
  }

  /**
   * A cursor that is the empty string is no cursor at all: the handler answers the first page.
   * This is why the chain above needs non-empty ids.
   */
  lemma EmptyCursorMeansNewest(rows: seq<Notification>, input: ListInput)
    requires input.cursor == Some("")
    ensures KnownCursor(rows, input)
    ensures Expected(rows, input) == Expected(rows, ListInput(input.limit, None, None))
  {
  }

  /** Five rows with creation times 5 down to 1 and one-letter ids "e" down to "a". */
  function FiveRows(): (rows: seq<Notification>)
    ensures |rows| == 5 && WellFormed(rows) && NonEmptyIds(rows)
    ensures HasId(rows, "c") && HasId(rows, "a")
  {
    var rows := [Notification("e", 5), Notification("d", 4), Notification("c", 3),
                 Notification("b", 2), Notification("a", 1)];
    assert rows[2].id == "c" && rows[4].id == "a";
    rows
  }

  /** The last of the five rows, reached with cursor "a", is a page of its own that ends the list. */
  lemma FiveRowsLastPage()
    ensures var rows := FiveRows();
      Pages(rows, ListInput(Some(2), Some("a"), None)) == [Page([rows[4]], None)]
  {
  }

  /** With cursor "c" the list shows [c, b], then [a]. */
  lemma FiveRowsFromC()
    ensures var rows := FiveRows();
      Pages(rows, ListInput(Some(2), Some("c"), None)) ==
        [Page([rows[2], rows[3]], Some("a")), Page([rows[4]], None)]
  {
    var rows := FiveRows();
    var input := ListInput(Some(2), Some("c"), None);
    IndexOfRow(rows, 2);
    var page := PageAt(rows, 2, 2);
    assert page == Page([rows[2], rows[3]], Some("a"));
    assert EffectiveLimit(input.limit) == Success(2) && CursorArg(input) == Some("c");
    assert Expected(rows, input) == Success(page);
    assert NextInput(input, page) == ListInput(Some(2), Some("a"), None);
    FiveRowsLastPage();
  }

  /**
   * Five rows, two per page: the pages are [e, d], [c, b], [a], and each next cursor is the id of
   * the row that opens the following page ("c", then "a"), not of the last row shown.
   */
  lemma FiveRowsTwoPerPage()
    ensures
      var rows := FiveRows();
      Pages(rows, ListInput(Some(2), None, None)) ==
        [ Page([rows[0], rows[1]], Some("c")),
          Page([rows[2], rows[3]], Some("a")),
          Page([rows[4]], None) ]
  {
    var rows := FiveRows();
    var input := ListInput(Some(2), None, None);
    var page := PageAt(rows, 2, 0);
    assert page == Page([rows[0], rows[1]], Some("c"));
    assert EffectiveLimit(input.limit) == Success(2) && CursorArg(input) == None;
    assert Expected(rows, input) == Success(page);
    assert NextInput(input, page) == ListInput(Some(2), Some("c"), None);
    FiveRowsFromC();
  }
}
