/** The `Query.books` resolver: filter the collection by the `classic`,
    `year`, `author` and `title` inputs, optionally sort, drop everything up
    to the cursor, count what remains, cut the page and build the envelope. */
module Resolvers {
  import opened Wrappers
  import opened Seqs
  import opened Filters

  /** A record of the collection; `id` is the number that `parseInt` reads
      from the record's id string. */
  datatype Book = Book(id: int, title: string, author: string, year: int, classic: bool)

  datatype BooksFilter = BooksFilter(
    classic: Option<bool>,
    title: Option<StringFilter>,
    author: Option<StringFilter>,
    year: Option<IntFilter>)

  /** `limit` and the cursor, already read as a number. */
  datatype PaginationOptions = PaginationOptions(limit: Option<int>, cursor: Option<int>)

  datatype BooksSortBy = Name | Author | Year

  datatype BooksArgs = BooksArgs(
    pagination: Option<PaginationOptions>,
    filter: Option<BooksFilter>,
    sortBy: Option<BooksSortBy>)

  /** The envelope the resolver returns. */
  datatype BooksResult = BooksResult(
    nextPageCursor: Option<int>,
    count: nat,
    hasNextPage: bool,
    nodes: seq<Book>)

  /** The `TypeError` thrown when destructuring an absent `pagination` or
      `filter` argument. */
  datatype ResolverError = PaginationUndefined | FilterUndefined

  /** The page size, both the largest accepted `limit` and the default. */
  const PageSize := 5

  function Min(a: int, b: int): int {
    if a <= b then a else b
  }

  /** The `limit` the resolver works with: a requested limit from 1 to the
      page size is kept, anything else (absent, zero, negative, too large)
      becomes the page size. */
  function NormaliseLimit(limit: Option<int>): (l: int)
    ensures 1 <= l <= PageSize
    ensures limit.Some? && 1 <= limit.value <= PageSize ==> l == limit.value
    ensures limit.None? || limit.value <= 0 || limit.value > PageSize ==> l == PageSize
  {
    if limit.None? || limit.value > PageSize || limit.value <= 0 then PageSize else limit.value
  }

  // The callbacks handed to `filter`, one per input that can be present.

  function HasClassic(classic: bool): Book -> bool {
    (b: Book) => b.classic == classic
  }

  function YearWithin(filter: IntFilter): Book -> bool {
    (b: Book) => NumberFilterHolds(b.year, filter)
  }

  function AuthorWithin(filter: StringFilter): Book -> bool {
    (b: Book) => StringFilterHolds(b.author, filter)
  }

  function TitleWithin(filter: StringFilter): Book -> bool {
    (b: Book) => StringFilterHolds(b.title, filter)
  }

  /** The cursor callback: no cursor keeps every book, otherwise only books
      whose id is greater than the cursor. */
  predicate AfterCursor(cursor: Option<int>, b: Book) {
    cursor.None? || b.id > cursor.value
  }

  function After(cursor: Option<int>): Book -> bool {
    b => AfterCursor(cursor, b)
  }

  predicate IsClassic(b: Book) {
    b.classic
  }

  // What the filter inputs mean for one book, all at once.

  predicate ClassicOk(filter: BooksFilter, b: Book) {
    filter.classic.None? || b.classic == filter.classic.value
  }

  predicate YearOk(filter: BooksFilter, b: Book) {
    filter.year.None? || NumberFilterHolds(b.year, filter.year.value)
  }

  predicate AuthorOk(filter: BooksFilter, b: Book) {
    filter.author.None? || StringFilterHolds(b.author, filter.author.value)
  }

  predicate TitleOk(filter: BooksFilter, b: Book) {
    filter.title.None? || StringFilterHolds(b.title, filter.title.value)
  }

  /** A book satisfies every filter input that is present. */
  predicate Matches(filter: BooksFilter, b: Book) {
    ClassicOk(filter, b) && YearOk(filter, b) && AuthorOk(filter, b) && TitleOk(filter, b)
  }

  function Matching(filter: BooksFilter): Book -> bool {
    b => Matches(filter, b)
  }

  /** The books a query selects, in collection order: those that match the
      filter and lie after the cursor, found in one pass. */
  function Wanted(books: seq<Book>, filter: BooksFilter, cursor: Option<int>): seq<Book> {
    Keep(books, Both(Matching(filter), After(cursor)))
  }

  /** The `reduce` that counts classic books, with its accumulator. */
  function CountClassic(s: seq<Book>, acc: int): (r: int)
    ensures r == acc + |Keep(s, IsClassic)|
  {
    if s == [] then acc
    else CountClassic(s[1..], if s[0].classic then acc + 1 else acc)
  }

  /** `classicCount`: how many books of the list are classic. */
  function ClassicCount(s: seq<Book>): (r: nat)
    ensures r == |Keep(s, IsClassic)| && r <= |s|
  {
    CountClassic(s, 0)
  }

  /** The filtering passes of `Query.books`: the copy of the collection is
      filtered by each present input in turn, `classic`, `year`, `author`,
      `title`, which leaves the books that match the whole filter, in order. */
  method ApplyFilters(books: seq<Book>, filter: BooksFilter) returns (nodes: seq<Book>)
    ensures nodes == Keep(books, Matching(filter))
  {
    nodes := books;
    // the books in `nodes` are those of `books` that pass `passed`
    ghost var passed: Book -> bool := AcceptAll();
    KeepAllPass(books, passed);
    if filter.classic.Some? {
      KeepTwice(books, passed, HasClassic(filter.classic.value));
      nodes := Keep(nodes, HasClassic(filter.classic.value));
      passed := Both(passed, HasClassic(filter.classic.value));
    }
    assert forall b :: passed(b) == ClassicOk(filter, b);
    if filter.year.Some? {
      KeepTwice(books, passed, YearWithin(filter.year.value));
      nodes := Keep(nodes, YearWithin(filter.year.value));
      passed := Both(passed, YearWithin(filter.year.value));
    }
    assert forall b :: passed(b) == (ClassicOk(filter, b) && YearOk(filter, b));
    if filter.author.Some? {
      KeepTwice(books, passed, AuthorWithin(filter.author.value));
      nodes := Keep(nodes, AuthorWithin(filter.author.value));
      passed := Both(passed, AuthorWithin(filter.author.value));
    }
    assert forall b :: passed(b) == (ClassicOk(filter, b) && YearOk(filter, b) && AuthorOk(filter, b));
    if filter.title.Some? {
      KeepTwice(books, passed, TitleWithin(filter.title.value));
      nodes := Keep(nodes, TitleWithin(filter.title.value));
      passed := Both(passed, TitleWithin(filter.title.value));
    }
    assert forall b :: passed(b) == Matches(filter, b);
    KeepSamePredicate(books, passed, Matching(filter));
  }

  predicate Answered(args: BooksArgs) {
    args.pagination.Some? && args.filter.Some?
  }

  /** `Query.books`. The sort the source performs with an inconsistent
      comparator is `arrange`, of which only that it permutes its input is
      known. `classicCount` is what the resolver computes and then leaves out
      of the envelope. */
  method Books(books: seq<Book>, args: BooksArgs, arrange: (BooksSortBy, seq<Book>) -> seq<Book>)
    returns (r: Result<BooksResult, ResolverError>, ghost classicCount: nat)
    requires forall key, s :: multiset(arrange(key, s)) == multiset(s)
    ensures args.pagination.None? ==> r == Err(PaginationUndefined)
    ensures args.pagination.Some? && args.filter.None? ==> r == Err(FilterUndefined)
    ensures Answered(args) ==> r.Ok?
    ensures Answered(args) ==>
      var limit, wanted := NormaliseLimit(args.pagination.value.limit),
        Wanted(books, args.filter.value, args.pagination.value.cursor);
      && r.value.count == |r.value.nodes| == Min(limit, |wanted|)
      && r.value.hasNextPage == (|wanted| > limit)
      && classicCount == ClassicCount(wanted)
    ensures Answered(args) ==>
      var nodes := r.value.nodes;
      r.value.nextPageCursor == if nodes == [] then None else Some(nodes[|nodes| - 1].id)
    ensures Answered(args) ==>
      var filter, cursor := args.filter.value, args.pagination.value.cursor;
      && multiset(r.value.nodes) <= multiset(Wanted(books, filter, cursor))
      && forall b :: b in r.value.nodes ==> b in books && Matches(filter, b) && AfterCursor(cursor, b)
    ensures Answered(args) && args.sortBy.None? ==>
      && r.value.nodes <= Wanted(books, args.filter.value, args.pagination.value.cursor)
      && IsSubsequence(r.value.nodes, books)
    ensures Answered(args) && args.sortBy.Some? ==>
      var filter, cursor := args.filter.value, args.pagination.value.cursor;
      r.value.nodes <= Keep(arrange(args.sortBy.value, Keep(books, Matching(filter))), After(cursor))
  {
    if args.pagination.None? {
      return Err(PaginationUndefined), 0;
    }
    if args.filter.None? {
      return Err(FilterUndefined), 0;
    }
    var limit := NormaliseLimit(args.pagination.value.limit);
    var cursor := args.pagination.value.cursor;
    var filter := args.filter.value;

    var nodes := ApplyFilters(books, filter);

    if args.sortBy.Some? {
      nodes := arrange(args.sortBy.value, nodes);
    }
    RemainderIsWanted(books, filter, cursor, nodes);
    var page;
    page, classicCount := Paginate(nodes, cursor, limit);
    KeepRespectsPermutation(Keep(nodes, After(cursor)), Wanted(books, filter, cursor), IsClassic);
    PageWithin(books, filter, cursor, Keep(nodes, After(cursor)), page.nodes);
    if args.sortBy.None? {
      PageInCollectionOrder(books, filter, cursor, page.nodes);
    }
    r := Ok(page);
  }

  /** The second half of `Query.books`: skip to the cursor, decide
      `hasNextPage` and count the classics on what remains, cut the first
      `limit` books and build the envelope, whose cursor is the id of the
      last book returned. */
  method Paginate(nodes: seq<Book>, cursor: Option<int>, limit: int)
    returns (page: BooksResult, ghost classicCount: nat)
    requires 1 <= limit
    ensures var remaining := Keep(nodes, After(cursor));
      && page.count == |page.nodes| == Min(limit, |remaining|)
      && page.nodes <= remaining
      && page.hasNextPage == (|remaining| > limit)
      && classicCount == ClassicCount(remaining)
    ensures page.nextPageCursor == if page.nodes == [] then None else Some(page.nodes[|page.nodes| - 1].id)
  {
    var remaining := Keep(nodes, After(cursor));
    var hasNextPage := |remaining| > limit;
    classicCount := ClassicCount(remaining);
    var sliced := remaining[..Min(limit, |remaining|)];
    page := BooksResult(
      if |sliced| == 0 then None else Some(sliced[|sliced| - 1].id),
      |sliced|,
      hasNextPage,
      sliced);
  }

  /** Whatever order the sort leaves, skipping to the cursor leaves the same
      books as selecting in one pass: in collection order if nothing was
      reordered. */
  lemma RemainderIsWanted(books: seq<Book>, filter: BooksFilter, cursor: Option<int>, arranged: seq<Book>)
    requires multiset(arranged) == multiset(Keep(books, Matching(filter)))
    ensures multiset(Keep(arranged, After(cursor))) == multiset(Wanted(books, filter, cursor))
    ensures |Keep(arranged, After(cursor))| == |Wanted(books, filter, cursor)|
    ensures arranged == Keep(books, Matching(filter)) ==> Keep(arranged, After(cursor)) == Wanted(books, filter, cursor)
  {
    KeepTwice(books, Matching(filter), After(cursor));
    KeepRespectsPermutation(arranged, Keep(books, Matching(filter)), After(cursor));
  }

  /** A page cut from the front of the remaining books holds some of the
      selected books, each from the collection, matching the filter and after
      the cursor. */
  lemma PageWithin(books: seq<Book>, filter: BooksFilter, cursor: Option<int>, remaining: seq<Book>, page: seq<Book>)
    requires multiset(remaining) == multiset(Wanted(books, filter, cursor))
    requires page <= remaining
    ensures multiset(page) <= multiset(Wanted(books, filter, cursor))
    ensures forall b :: b in page ==> b in books && Matches(filter, b) && AfterCursor(cursor, b)
  {
    assert remaining == page + remaining[|page|..];
    forall b | b in page
      ensures b in books && Matches(filter, b) && AfterCursor(cursor, b)
    {
      assert b in multiset(remaining);
      SelectedBook(books, filter, cursor, b);
    }
  }

  /** A selected book comes from the collection, matches the filter and lies
      after the cursor. */
  lemma SelectedBook(books: seq<Book>, filter: BooksFilter, cursor: Option<int>, b: Book)
    requires b in Wanted(books, filter, cursor)
    ensures b in books && Matches(filter, b) && AfterCursor(cursor, b)
  {
    KeepMembers(books, Both(Matching(filter), After(cursor)), b);
  }

  /** The selection keeps the collection's order and every occurrence of a
      book that matches and lies after the cursor, and nothing else. */
  lemma WantedExactly(books: seq<Book>, filter: BooksFilter, cursor: Option<int>, b: Book)
    ensures IsSubsequence(Wanted(books, filter, cursor), books)
    ensures multiset(Wanted(books, filter, cursor))[b] ==
      if Matches(filter, b) && AfterCursor(cursor, b) then multiset(books)[b] else 0
  {
    KeepIsSubsequence(books, Both(Matching(filter), After(cursor)));
    KeepMultiplicity(books, Both(Matching(filter), After(cursor)), b);
  }

  /** A first part of the selection, such as an unsorted page, lists books of
      the collection in the collection's order. */
  lemma PageInCollectionOrder(books: seq<Book>, filter: BooksFilter, cursor: Option<int>, page: seq<Book>)
    requires page <= Wanted(books, filter, cursor)
    ensures IsSubsequence(page, books)
  {
    var wanted := Wanted(books, filter, cursor);
    KeepIsSubsequence(books, Both(Matching(filter), After(cursor)));
    PrefixIsSubsequence(wanted, books, |page|);
    assert wanted[..|page|] == page;
  }

  /** Without a cursor the skip step changes nothing. */
  lemma SkipWithoutCursor(nodes: seq<Book>)
    ensures Keep(nodes, After(None)) == nodes
  {
    KeepAllPass(nodes, After(None));
  }

  /** With a cursor the skip step leaves exactly the books whose id is greater
      than the cursor, in their order. */
  lemma SkipWithCursor(nodes: seq<Book>, cursor: int, b: Book)
    ensures IsSubsequence(Keep(nodes, After(Some(cursor))), nodes)
    ensures multiset(Keep(nodes, After(Some(cursor))))[b] == if b.id > cursor then multiset(nodes)[b] else 0
  {
    KeepIsSubsequence(nodes, After(Some(cursor)));
    KeepMultiplicity(nodes, After(Some(cursor)), b);
  }

  /** Record ids grow along the collection. */
  predicate IdsIncreasing(s: seq<Book>) {
    forall i, j :: 0 <= i < j < |s| ==> s[i].id < s[j].id
  }

  lemma {:induction false} KeepKeepsIdsIncreasing(s: seq<Book>, p: Book -> bool)
    requires IdsIncreasing(s)
    ensures IdsIncreasing(Keep(s, p))
  {
    if s != [] {
      KeepKeepsIdsIncreasing(s[1..], p);
      forall x | x in Keep(s[1..], p)
        ensures s[0].id < x.id
      {
        KeepMembers(s[1..], p, x);
      }
    }
  }

  /** In a list with growing ids, the books after the id of the n-th are the
      ones after position n. */
  lemma {:induction false} SkipPastPosition(t: seq<Book>, n: nat)
    requires IdsIncreasing(t)
    requires 0 < n <= |t|
    ensures Keep(t, After(Some(t[n - 1].id))) == t[n..]
  {
    if n == 1 {
      KeepAllPass(t[1..], After(Some(t[0].id)));
    } else {
      SkipPastPosition(t[1..], n - 1);
      assert t[1..][n - 2] == t[n - 1];
      assert t[1..][n - 1..] == t[n..];
    }
  }

  /** Cursor round trip: when ids grow along the collection, asking again
      with the id of the n-th selected book as cursor selects exactly the
      books after the first n, so consecutive pages neither skip nor repeat a
      book. */
  lemma CursorRoundTrip(books: seq<Book>, filter: BooksFilter, cursor: Option<int>, n: nat)
    requires IdsIncreasing(books)
    requires 0 < n <= |Wanted(books, filter, cursor)|
    ensures var wanted := Wanted(books, filter, cursor);
      wanted == wanted[..n] + Wanted(books, filter, Some(wanted[n - 1].id))
  {
    var wanted := Wanted(books, filter, cursor);
    var last := wanted[n - 1];
    KeepKeepsIdsIncreasing(books, Both(Matching(filter), After(cursor)));
    SkipPastPosition(wanted, n);
    KeepTwice(books, Both(Matching(filter), After(cursor)), After(Some(last.id)));
    SelectedBook(books, filter, cursor, last);
    KeepSamePredicate(books,
      Both(Both(Matching(filter), After(cursor)), After(Some(last.id))),
      Both(Matching(filter), After(Some(last.id))));
    assert wanted == wanted[..n] + wanted[n..];
  }

  /** `hasNextPage` tells whether the next page, asked for with the returned
      cursor, holds any book (for ids growing along the collection and a
      non-empty page). */
  lemma HasNextPageMeansMore(books: seq<Book>, filter: BooksFilter, cursor: Option<int>, limit: int)
    requires IdsIncreasing(books)
    requires 1 <= limit
    requires Wanted(books, filter, cursor) != []
    ensures var wanted := Wanted(books, filter, cursor);
      var count := Min(limit, |wanted|);
      |wanted| > limit <==> Wanted(books, filter, Some(wanted[count - 1].id)) != []
  {
    var wanted := Wanted(books, filter, cursor);
    CursorRoundTrip(books, filter, cursor, Min(limit, |wanted|));
  }

  /** Eight books with ids 1 to 8, of which the even ones are classic. */
  function Shelf(): (shelf: seq<Book>)
    ensures |shelf| == 8
  {
    seq(8, i => Book(i + 1, "", "", 1901 + i, i % 2 == 1))
  }

  function ClassicOnly(): BooksFilter {
    BooksFilter(Some(true), None, None, None)
  }

  /** Asking the shelf for classic books selects ids 2, 4, 6 and 8. */
  lemma ShelfClassicsFromStart()
    ensures Wanted(Shelf(), ClassicOnly(), None) == [Shelf()[1], Shelf()[3], Shelf()[5], Shelf()[7]]
  {
    var shelf, select := Shelf(), Both(Matching(ClassicOnly()), After(None));
    assert shelf[0..] == shelf && shelf[8..] == [];
    var k := 8;
    while k > 0
      invariant 0 <= k <= 8
      invariant Keep(shelf[k..], select) == ShelfClassics(k)
    {
      k := k - 1;
      KeepFrom(shelf, select, k);
    }
    ShelfClassicsAre();
  }

  /** After cursor 4 the same query selects ids 6 and 8. */
  lemma ShelfClassicsAfterFour()
    ensures Wanted(Shelf(), ClassicOnly(), Some(4)) == [Shelf()[5], Shelf()[7]]
  {
    var shelf, select := Shelf(), Both(Matching(ClassicOnly()), After(Some(4)));
    assert shelf[0..] == shelf && shelf[8..] == [];
    var k := 8;
    while k > 0
      invariant 0 <= k <= 8
      invariant Keep(shelf[k..], select) == ShelfClassics(if k <= 4 then 4 else k)
    {
      k := k - 1;
      KeepFrom(shelf, select, k);
    }
    ShelfClassicsAre();
  }

  /** With a limit of 2 the first page holds two books while `classicCount`
      counts all four selected classics: the count exceeds the page. */
  lemma ShelfClassicCountExceedsPage()
    ensures ClassicCount(Wanted(Shelf(), ClassicOnly(), None)) == 4 > Min(NormaliseLimit(Some(2)), 4)
  {
    var classics := [Shelf()[1], Shelf()[3], Shelf()[5], Shelf()[7]];
    assert forall b :: b in classics ==> IsClassic(b);
    KeepAllPass(classics, IsClassic);
    ShelfClassicsFromStart();
  }

  lemma ShelfClassicsAre()
    ensures ShelfClassics(0) == [Shelf()[1], Shelf()[3], Shelf()[5], Shelf()[7]]
    ensures ShelfClassics(4) == [Shelf()[5], Shelf()[7]]
  {
  }

  /** The classic books of the shelf from position k on. */
  function ShelfClassics(k: nat): seq<Book>
    requires k <= 8
    decreases 8 - k
  {
    if k == 8 then []
    else if Shelf()[k].classic then [Shelf()[k]] + ShelfClassics(k + 1)
    else ShelfClassics(k + 1)
  }

  /** The first page of classic books with a limit of 2: ids 2 and 4, the
      cursor 4 and a next page. */
  method ShelfFirstPage() returns (page: BooksResult)
    ensures page.count == 2 && page.nodes == [Shelf()[1], Shelf()[3]]
    ensures page.nextPageCursor == Some(4) && page.hasNextPage
  {
    ShelfClassicsFromStart();
    var args := BooksArgs(Some(PaginationOptions(Some(2), None)), Some(ClassicOnly()), None);
    var r, _ := Books(Shelf(), args, (key, s) => s);
    page := r.value;
  }

  /** The page after cursor 4: ids 6 and 8, the cursor 8 and no next page. */
  method ShelfSecondPage() returns (page: BooksResult)
    ensures page.count == 2 && page.nodes == [Shelf()[5], Shelf()[7]]
    ensures page.nextPageCursor == Some(8) && !page.hasNextPage
  {
    ShelfClassicsAfterFour();
    var args := BooksArgs(Some(PaginationOptions(Some(2), Some(4))), Some(ClassicOnly()), None);
    var r, _ := Books(Shelf(), args, (key, s) => s);
    page := r.value;
  }

  /** A sort that swaps a two-book list and leaves any other list as it is. */
  function SwapPair(key: BooksSortBy, s: seq<Book>): (t: seq<Book>)
    ensures multiset(t) == multiset(s)
  {
    if |s| == 2 then
      assert s == [s[0], s[1]];
      [s[1], s[0]]
    else s
  }

  /** Books 1 and 2, in id order. */
  function Pair(): seq<Book> {
    [Book(1, "", "", 1901, false), Book(2, "", "", 1902, false)]
  }

  function AnyBook(): BooksFilter {
    BooksFilter(None, None, None, None)
  }

  /** The empty filter keeps the pair. */
  lemma PairPassesAnyBook()
    ensures Keep(Pair(), Matching(AnyBook())) == Pair()
  {
    var books := Pair();
    KeepFrom(books, Matching(AnyBook()), 0);
    KeepFrom(books, Matching(AnyBook()), 1);
    assert books[0..] == books && books[2..] == [];
  }

  /** Swapped, the pair is [2, 1] from the start and [2] after cursor 1. */
  lemma PairSwappedSkips()
    ensures Keep(SwapPair(Year, Pair()), After(None)) == [Pair()[1], Pair()[0]]
    ensures Keep(SwapPair(Year, Pair()), After(Some(1))) == [Pair()[1]]
  {
    var swapped := SwapPair(Year, Pair());
    assert swapped == [Pair()[1], Pair()[0]];
    KeepFrom(swapped, After(None), 0);
    KeepFrom(swapped, After(None), 1);
    KeepFrom(swapped, After(Some(1)), 0);
    KeepFrom(swapped, After(Some(1)), 1);
    assert swapped[0..] == swapped && swapped[2..] == [];
  }

  /** The two selections hold two books and one book. */
  lemma PairSwapped()
    ensures Keep(Pair(), Matching(AnyBook())) == Pair()
    ensures Keep(SwapPair(Year, Pair()), After(None)) == [Pair()[1], Pair()[0]]
    ensures Keep(SwapPair(Year, Pair()), After(Some(1))) == [Pair()[1]]
    ensures |Wanted(Pair(), AnyBook(), None)| == 2
    ensures |Wanted(Pair(), AnyBook(), Some(1))| == 1
  {
    PairPassesAnyBook();
    PairSwappedSkips();
    RemainderIsWanted(Pair(), AnyBook(), None, SwapPair(Year, Pair()));
    RemainderIsWanted(Pair(), AnyBook(), Some(1), SwapPair(Year, Pair()));
  }

  /** Under a sort, the id cursor can repeat a book. Sorted as [2, 1], the
      pair fills the first page, whose cursor is 1 ... */
  method SortedFirstPage() returns (page: BooksResult)
    ensures page.nodes == [Pair()[1], Pair()[0]]
    ensures page.nextPageCursor == Some(1) && !page.hasNextPage
  {
    PairSwapped();
    var args := BooksArgs(Some(PaginationOptions(None, None)), Some(AnyBook()), Some(Year));
    var r, _ := Books(Pair(), args, SwapPair);
    page := r.value;
  }

  /** ... and the query from cursor 1 returns book 2 again. */
  method SortedFollowUpRepeats() returns (page: BooksResult)
    ensures page.nodes == [Pair()[1]]
  {
    PairSwapped();
    var args := BooksArgs(Some(PaginationOptions(None, Some(1))), Some(AnyBook()), Some(Year));
    var r, _ := Books(Pair(), args, SwapPair);
    page := r.value;
  }
}
