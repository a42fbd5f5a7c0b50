# Notification list pagination

A Dafny model of the `notification.list` query of the bounty marketplace's tRPC router
(`server/routers/notifications.ts`), together with the way the notification list component
feeds the returned cursor back (`components/notification-list.tsx`).

The handler:

1. validates the optional page size `limit` (1 to 100 inclusive) and uses 20 when it is absent;
2. takes `cursor ?? initialCursor` as the cursor, and passes it to the store only when it is truthy
   (a non-empty string);
3. reads `limit + 1` notifications newest first, starting at the cursor row itself (Prisma's cursor
   is inclusive here, since there is no `skip: 1`);
4. when more than `limit` rows came back, pops the last one and returns its id as `nextCursor`.

The client starts with an empty input and asks for the next page with `cursor := nextCursor` until
a page comes back without one.

Files:

- `wrappers.dfy`: `Option` and `Result`.
- `store.dfy` (module `NotificationStore`): the table as the sequence of its rows in query order,
  and `findMany` with a cursor and a `take` as a pure selection on that sequence.
- `router.dfy` (module `NotificationRouter`): the input, the page, the limit and cursor choice, a
  reference definition of the answer (`Expected`), and the handler itself as methods: `TrimExtra`
  (the pop and the `nextCursor` assignment) and `List` (the whole handler), proved equal to the
  reference.
- `feed.dfy` (module `NotificationFeed`): the chain of pages the list loads, and the lemmas that the
  chain shows the table exactly once, in order.

Modelling assumptions:

- The table is given as its rows newest first. The query orders by `createdAt` only, so
  `WellFormed` asks for strictly decreasing creation times (no ties, so the order is total and the
  answer determined) and distinct ids (the primary key).
- A cursor the handler uses must name a row of the table (`KnownCursor`). The code does not say
  what happens for an unknown cursor, and the model does not invent an answer for it.
- The chain lemmas also need non-empty ids (`NonEmptyIds`): the handler treats an empty cursor as
  no cursor (`EmptyCursorMeansNewest`), so a row with id `""` opening a page would send the list
  back to the first page.

The cursor is inclusive: a page starts at the cursor row. `nextCursor` is the id of the dropped
`limit + 1`-th row, which opens the next page; it is not the last row of the current page. For five
rows `e, d, c, b, a` and a page size of 2 the cursors are `"c"` and `"a"` (`FiveRowsTwoPerPage`).

## Model

| member | source | states |
|---|---|---|
| `NotificationStore.IndexOf` | server/routers/notifications.ts:40-44 | the cursor id resolves to a position in the table that holds that id, with no earlier row holding it |
| `NotificationStore.IndexOfRow` | server/routers/notifications.ts:40-44 | with ids as a key, the cursor made from row k's id resolves back to position k |
| `NotificationStore.StartOf` | server/routers/notifications.ts:39-47 | the scan starts at the newest row without a cursor, and at the cursor row itself (inclusive) with one |
| `NotificationStore.FindMany` | server/routers/notifications.ts:36-48 | the read returns at most `take` rows, a contiguous run of the table from the start position, short only when the table runs out; without a cursor it is a prefix of the table; with a cursor and `take > 0` its first row is the cursor row; it keeps the newest-first order |
| `NotificationRouter.EffectiveLimit` | server/routers/notifications.ts:20-33 | a given limit is accepted exactly when it is between 1 and 100 inclusive and is then used as is; an absent limit means 20 |
| `NotificationRouter.CursorArg` | server/routers/notifications.ts:34-44 | a cursor reaches the store exactly when `cursor` is a non-empty string, or `cursor` is absent and `initialCursor` is a non-empty string; it is then `cursor` if present, else `initialCursor` |
| `NotificationRouter.Expected` | server/routers/notifications.ts:18-65 | the request fails exactly when the limit is out of range |
| `NotificationRouter.ExpectedPage` | server/routers/notifications.ts:18-65 | an accepted request's page holds at most `limit` rows, a run of the table from the start position, in newest-first order, opening with the cursor row when there is a cursor; `nextCursor` is present exactly when rows remain after the page, and then names the first of them and the page is full |
| `NotificationRouter.TrimExtra` | server/routers/notifications.ts:51-59 | `nextCursor` is set exactly when more than `limit` rows were fetched; then it is the id of the last fetched row and the items are the fetched rows with only that row removed; otherwise the items are the fetched rows unchanged |
| `NotificationRouter.TrimmedWindowIsPage` | server/routers/notifications.ts:36-59 | reading `limit + 1` rows from a start position and then dropping the last one when more than `limit` came back yields exactly the `limit` rows from that position and the id of the row after them |
| `NotificationRouter.List` | server/routers/notifications.ts:26-65 | the handler (read `limit + 1` rows, then trim) answers exactly the reference page `Expected` for every input with a known cursor |
| `NotificationFeed.NextInput` | components/notification-list.tsx:31-33 | the next request keeps the input's page size; a non-empty `nextCursor` of the last page is the cursor the store is given; without one the request falls back to the input without `cursor` |
| `NotificationFeed.NextCursorResumes` | components/notification-list.tsx:31-33 | passing a page's `nextCursor` back as `cursor` is again a known cursor and resumes the scan right after the page, which was non-empty |
| `NotificationFeed.Pages` | components/notification-list.tsx:28-46 | the series of requests from an input: a rejected input loads no page; the first page is the handler's answer to the input; requests stop at the first page without `nextCursor`, which is the last |
| `NotificationFeed.Shown` | components/notification-list.tsx:50-59 | the rendered list is the pages' items one page after another: a row is shown exactly when some page holds it |
| `NotificationFeed.PagesArePagesFrom` | components/notification-list.tsx:28-46 | the pages loaded from an accepted input are `PagesFrom`: the table from the start position cut into consecutive runs of `limit` rows (the last one possibly shorter), each carrying the id of the row after it as `nextCursor`, the last one none |
| `NotificationFeed.PagesShowRestOfTable` | server/routers/notifications.ts:36-58 | following the cursors from any input shows exactly the rows from its start position to the end of the table, in order |
| `NotificationFeed.FeedShowsWholeTable` | components/notification-list.tsx:28-37 | starting without a cursor, as the list does, the pages together are the whole table, newest first, with no row repeated or skipped |
| `NotificationFeed.PagesChain` | server/routers/notifications.ts:53-58 | the list has at least one page; every page but the last is full and its `nextCursor` is the id of the first row of the next page; the last page has no `nextCursor` |
| `NotificationFeed.EmptyCursorMeansNewest` | server/routers/notifications.ts:34-44 | an empty-string `cursor` is not passed to the store (even over `initialCursor`), so the answer is the first page |
| `NotificationFeed.FiveRowsTwoPerPage` | server/routers/notifications.ts:51-58 | five rows, two per page: the pages are `[e, d]`, `[c, b]`, `[a]` with cursors `"c"`, `"a"`, none |

## Left out

- The Prisma query engine: `findMany` is modelled as a selection on the rows in query order; the
  empty `where: {}` filter selects every row and is not modelled further.
- Store failures and the asynchronous call: a failing or slow database read is not modelled.
- Logging (`console.log` of the fetched rows) has no effect on the answer and is left out.
- A cursor naming no row: excluded by the precondition `KnownCursor`, since the code does not say
  what the answer is.
- Ties in `createdAt`: excluded by `WellFormed`; with ties the query's order, and hence the pages,
  are not determined by the code.
- Non-integer page sizes: `limit` is modelled as an integer; the input schema would also accept a
  fractional number between 1 and 100.
- Rows added or removed between two page requests: the model pages over one fixed table.
- Notification columns other than `id` and `createdAt` are carried through unchanged by the handler
  and are not modelled.
- The client's caching, refetch policy, intersection observer and render counter in
  `components/notification-list.tsx`; only its cursor feedback (`getNextPageParam`) is modelled.
- The other views and API routes (bounty lists, project pages, payment links, editor, settings)
  are not part of this model.
