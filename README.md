# Paginated books query, modelled in Dafny

This project models the query engine of a small GraphQL server. The engine
serves one query. `Query.books` takes an in-memory list of book records and:

1. normalises `limit`;
2. keeps the books that pass the `classic`, `year`, `author` and `title` filter
   inputs, one filter pass per input;
3. optionally sorts them;
4. drops every book whose numeric id is not greater than the cursor;
5. decides `hasNextPage` and counts the classic books on what remains;
6. cuts the first `limit` books;
7. returns the envelope `{nextPageCursor, count, hasNextPage, nodes}`.

`stringFilter` and `numberFilter` are the per-field predicates. They are
chains of guards, and a guard whose bound is `null` is skipped.

Modules:

- `Wrappers` (`wrappers.dfy`): `Option` for a JavaScript value that may be
  `null`, and `Result` for the `TypeError` the resolver throws.
- `Seqs` (`seqs.dfy`): `Array.prototype.filter` as the function `Keep`. Its
  lemmas say that filtering gives an order-preserving subsequence, that two
  passes equal one pass by the conjunction, and that filtering respects
  permutations.
- `Text` (`text.dfy`): `toLowerCase` and `indexOf`, the two string built-ins
  that `stringFilter` calls.
- `Filters` (`filters.dfy`): the `IntFilter` and `StringFilter` inputs, with
  `numberFilter` and `stringFilter`.
- `Resolvers` (`resolvers.dfy`): the records, the query arguments, the
  envelope and the resolver itself. The resolver is the method `Books`. It
  calls `ApplyFilters` for the filter passes and `Paginate` for the cursor,
  count and slice steps. `ApplyFilters` is stated against one filter pass
  by the whole filter (`Matching`), and `Paginate` against the list left after
  the cursor. `Books` is stated against `Wanted`, which selects in one pass the
  books that match the filter and lie after the cursor.

Where the code and the intended design differ, the model follows the code:

- The "less or equal" and "greater or equal" bounds are named `let` and `get`.
- `like` lower-cases only the record's value, not the needle. A needle that
  contains an ASCII capital letter (`A` to `Z`) therefore matches nothing
  (`UpperCaseNeedleNeverMatches`).
- The envelope's cursor key is `nextPageCursor`, not `cursor`.
- `classicCount` is computed over the books after the cursor and before the
  slice, and then it is not returned. The model exposes it only as a ghost
  out-parameter of `Books` and `Paginate`.
- There is no id tie-break in the sort, and the cursor is a bare id. The
  cursor round trip (`CursorRoundTrip`, `HasNextPageMeansMore`) is therefore
  proved only for the unsorted query, over a collection whose ids increase.
  Under a sort the follow-up query can repeat a book
  (`SortedFirstPage`, `SortedFollowUpRepeats`).
- A cursor that matches no record does not restart the listing from the
  beginning: the skip step keeps the books whose id is greater than the
  cursor, whatever the cursor is (resolvers.js:63-68, `AfterCursor`).

## Model

| member | source | states |
|---|---|---|
| `Resolvers.NormaliseLimit` | resolvers.js:17-19 | the working limit is between 1 and 5; a requested limit in 1..5 is kept; an absent, non-positive or too-large limit becomes 5 |
| `Filters.NumberFilterHolds` | resolvers.js:105-126 | true exactly when each present bound holds: `eq` equal, `neq` different, `lt` strictly below, `let` at most, `gt` strictly above, `get` at least; the empty filter accepts every value |
| `Filters.StringFilterHolds` | resolvers.js:91-103 | true exactly when `eq` is absent or equal, `neq` is absent or different, and `like` is absent or occurs in the lower-cased value; the empty filter accepts every value |
| `Filters.UpperCaseNeedleNeverMatches` | resolvers.js:98 | a `like` needle that contains an ASCII capital rejects every value, because only the value is lower-cased |
| `Filters.LikeIgnoresCaseOfValue` | resolvers.js:98 | with only `like` set, a value and its lower-cased form are accepted alike |
| `Text.ToLower` | resolvers.js:98 | same length, with each ASCII capital replaced by its small letter and every other character kept |
| `Text.ToLowerIdempotent` | resolvers.js:98 | lower-casing twice is the same as lower-casing once |
| `Text.LowerChar` | resolvers.js:98 | an ASCII capital becomes the small letter 32 code points above it; every other character is kept; the result is never an ASCII capital |
| `Text.IndexFrom` | resolvers.js:98 | the first position at or after the start where the needle occurs, or -1 exactly when it occurs at no such position |
| `Text.IndexOf` | resolvers.js:98 | -1 exactly when the needle occurs nowhere in the value; otherwise the first position where it occurs |
| `Seqs.Keep` | resolvers.js:27-30 | `Array.prototype.filter`, as used at resolvers.js:27, 35, 42, 49 and 63: the result is never longer than its input; its meaning is stated by the `Keep` lemmas below |
| `Seqs.KeepMembers` | resolvers.js:27-30 | a filter pass keeps a value exactly when it occurs in the input and passes the callback |
| `Seqs.KeepIsSubsequence` | resolvers.js:23-52 | a filter pass gives an order-preserving subsequence of its input |
| `Seqs.KeepMultiplicity` | resolvers.js:23-52 | a filter pass keeps every occurrence of an accepted value and no occurrence of a rejected one |
| `Seqs.KeepTwice` | resolvers.js:23-52 | two filter passes in a row equal one pass by the conjunction of their callbacks |
| `Seqs.KeepRespectsPermutation` | resolvers.js:55-68 | filtering two arrangements of the same books gives two arrangements of the same books, of equal length |
| `Resolvers.HasClassic` | resolvers.js:27-30 | the `classic` callback: a book passes when its `classic` flag equals the requested one |
| `Resolvers.YearWithin` | resolvers.js:35-37 | the `year` callback: a book passes when `numberFilter` accepts its year |
| `Resolvers.AuthorWithin` | resolvers.js:42-44 | the `author` callback: a book passes when `stringFilter` accepts its author |
| `Resolvers.TitleWithin` | resolvers.js:49-51 | the `title` callback: a book passes when `stringFilter` accepts its title |
| `Resolvers.AfterCursor` | resolvers.js:63-68 | the cursor callback: every book passes without a cursor, otherwise exactly the books whose id is greater than the cursor |
| `Resolvers.IsClassic` | resolvers.js:74 | the test inside the `reduce`: the book's `classic` flag |
| `Resolvers.ApplyFilters` | resolvers.js:23-52 | the sequential `classic`, `year`, `author` and `title` passes, each run only when its input is present, leave exactly the books that match the whole filter, in collection order |
| `Resolvers.Books` | resolvers.js:5-87 | an absent `pagination` or `filter` argument throws, `pagination` checked first; otherwise `count` equals the number of nodes and `min(limit, n)`, where n is the number of books in the collection that match the filter and lie after the cursor; `hasNextPage` holds iff n exceeds `limit`; `nextPageCursor` is null iff the page is empty, else the id of the last node; every node is a book of the collection that matches the filter and lies after the cursor; the page is a sub-multiset of that selection; unsorted, it is a prefix of the selection and so lists books of the collection in the collection's order; sorted, it is a prefix of the sorted and skipped list; the computed `classicCount` is the number of classic books in the selection |
| `Resolvers.Paginate` | resolvers.js:62-86 | from the list after the cursor: the page is its prefix of length `min(limit, length)`; `hasNextPage` holds iff that list is longer than `limit`; `classicCount` counts its classic books before the slice; the cursor is the last returned id, or null for an empty page |
| `Resolvers.CountClassic` | resolvers.js:73-75 | the `reduce` returns its start value plus the number of classic books in the list |
| `Resolvers.ClassicCount` | resolvers.js:73-75 | `classicCount` is the number of classic books in the list and at most its length |
| `Resolvers.RemainderIsWanted` | resolvers.js:55-68 | whatever permutation the sort applies, the books after the cursor are the selected books with the same multiplicities and count; with no sort they are exactly the selection in collection order |
| `Resolvers.PageWithin` | resolvers.js:78 | a prefix of the books after the cursor is a sub-multiset of the selection, and each of its books is from the collection, matches the filter and lies after the cursor |
| `Resolvers.SelectedBook` | resolvers.js:23-68 | every selected book is from the collection, matches the filter and lies after the cursor |
| `Resolvers.WantedExactly` | resolvers.js:23-68 | the selection is an order-preserving subsequence of the collection, in which a book occurs as often as in the collection if it matches and lies after the cursor, and not at all otherwise |
| `Resolvers.PageInCollectionOrder` | resolvers.js:62-78 | a first part of the selection, as an unsorted page is, is an order-preserving subsequence of the collection |
| `Resolvers.SkipWithoutCursor` | resolvers.js:63-66 | without a cursor the skip step returns its input unchanged |
| `Resolvers.SkipWithCursor` | resolvers.js:63-68 | with cursor c the skip step leaves, in order, exactly the books with id greater than c |
| `Resolvers.KeepKeepsIdsIncreasing` | resolvers.js:63-68 | filtering a list whose ids increase gives a list whose ids increase |
| `Resolvers.SkipPastPosition` | resolvers.js:63-68 | in a list with increasing ids, skipping past the id of the n-th book leaves exactly the books after position n |
| `Resolvers.CursorRoundTrip` | resolvers.js:63-82 | with increasing ids and no sort, querying again with the id of the n-th selected book as cursor selects exactly the books after the first n, so consecutive pages neither skip nor repeat a book |
| `Resolvers.HasNextPageMeansMore` | resolvers.js:70-82 | with increasing ids, no sort and a non-empty page, `hasNextPage` holds iff the query with the returned cursor selects at least one book |
| `Resolvers.ShelfClassicsFromStart` | resolvers.js:26-31 | on eight books with ids 1..8, where the even ids are classic, `classic = true` selects ids 2, 4, 6 and 8 |
| `Resolvers.ShelfClassicsAfterFour` | resolvers.js:63-68 | on the same books, `classic = true` after cursor 4 selects ids 6 and 8 |
| `Resolvers.ShelfClassicCountExceedsPage` | resolvers.js:73-78 | on the same query with limit 2, `classicCount` is 4, more than the two books on the page |
| `Resolvers.ShelfFirstPage` | resolvers.js:5-87 | the resolver on the same books with `classic = true`, limit 2 and no cursor returns count 2, ids 2 and 4, cursor 4 and `hasNextPage` true |
| `Resolvers.ShelfSecondPage` | resolvers.js:5-87 | the same query with cursor 4 returns count 2, ids 6 and 8, cursor 8 and `hasNextPage` false |
| `Resolvers.SortedFirstPage` | resolvers.js:55-86 | books 1 and 2, sorted by a sort that puts 2 first, fill the first page as [2, 1], with cursor 1 and no next page |
| `Resolvers.SortedFollowUpRepeats` | resolvers.js:55-86 | the same sorted query from cursor 1 returns book 2 again, so under a sort the id cursor can repeat a book |

## Left out

- The server start-up in `index.js` is network plumbing and is not modelled.
- `schema.js` is a GraphQL schema string handed to a library. It is used only
  for the shapes of the inputs and of the envelope. How the GraphQL layer then
  presents the envelope is not modelled: it declares `cursor` where the
  resolver returns `nextPageCursor`, and a non-null `classicCount` that the
  resolver does not return.
- `console.log` of the arguments (resolvers.js:21) is I/O and is not modelled.
- The `./data` module is not part of this model. The collection is the
  parameter `books`.
- Books: the sort step is the parameter `arrange`, of which only that it
  permutes its input is known. The source sorts with a comparator that returns
  a boolean, so the order is left to the JavaScript engine. `name` is not even
  a field of a book.
- Books: the in-place sort of the copied array is modelled on values. Since
  the array is a fresh copy, nothing outside the resolver can observe the
  difference.
- `hasNextPage` and `s` are implicit globals in the source. `hasNextPage` is
  a local here, because no other code reads it within one call; `s`, the
  lower-cased sort key, is not represented, since the key goes straight to
  `arrange`.
- Ids and the cursor are modelled as integers, so each is the number that
  `parseInt` reads from it (resolvers.js:67). Non-numeric ids and cursors are
  not modelled; in JavaScript their NaN makes every comparison false, so a
  non-numeric cursor drops every book. `nextPageCursor` carries the id itself,
  in whatever representation the data stores it.
- Text.ToLower: only ASCII capitals are lower-cased; JavaScript's full Unicode
  case mapping is not modelled.
- Text.IndexOf: positions count Dafny characters, while JavaScript's `indexOf`
  counts UTF-16 code units. The resolver only compares the result with -1, so
  its answers are not affected.
- The unreachable `return true` after the `classic` test (resolvers.js:29) is
  dead code and is not modelled.
- Paginate: requires a limit of at least 1, which `NormaliseLimit` always
  provides. It is a part of `Books`, not an entry point of the source.
- GraphQL's own argument validation and its 32-bit `Int` range are outside the
  resolver and are not modelled.
