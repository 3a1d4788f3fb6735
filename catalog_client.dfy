/**
 * The browser client's search-and-sort transform over the fetched books, and
 * the availability choices it makes when it renders one card per book.
 *
 * The search term and the sort key are parameters instead of form fields.
 * `localeCompare` is any total preorder on strings (`le`), turned into a
 * comparator that answers -1, 0 or 1. Array.prototype.sort is the stable sort
 * under the comparator, defined here by insertion.
 */
module CatalogClient {

  /** A book as decoded from the JSON array the server sends. */
  datatype Book = Book(id: string, title: string, author: string, quantity: int)

  // ---------------------------------------------------------------------
  // Case-insensitive substring search
  // ---------------------------------------------------------------------

  /** `toLowerCase` on one ASCII character. */
  function LowerChar(c: char): char {
    if 'A' <= c <= 'Z' then (c as int + 32) as char else c
  }

  /** `toLowerCase` on an ASCII string. */
  function Lower(s: string): string {
    seq(|s|, i requires 0 <= i < |s| => LowerChar(s[i]))
  }

  /** Lower-casing keeps the length, leaves no upper-case letter behind, and a second pass changes nothing. */
  lemma LowerIdempotent(s: string)
    ensures |Lower(s)| == |s|
    ensures forall i :: 0 <= i < |s| ==> !('A' <= Lower(s)[i] <= 'Z')
    ensures Lower(Lower(s)) == Lower(s)
  {
    forall i | 0 <= i < |s|
      ensures Lower(Lower(s))[i] == Lower(s)[i]
    {
      assert LowerChar(LowerChar(s[i])) == LowerChar(s[i]);
    }
  }

  predicate StartsWith(s: string, prefix: string) {
    |prefix| <= |s| && s[..|prefix|] == prefix
  }

  /** `hay.includes(needle)`: the needle starts at some position of hay. */
  function Includes(hay: string, needle: string): bool {
    StartsWith(hay, needle) || (hay != [] && Includes(hay[1..], needle))
  }

  /** The needle occurs in hay starting at offset k. */
  predicate OccursAt(hay: string, needle: string, k: int) {
    0 <= k <= |hay| - |needle| && hay[k..k + |needle|] == needle
  }

  /** `includes` holds exactly when the needle occurs at some offset; in particular "" is in every string. */
  lemma {:induction false} IncludesAt(hay: string, needle: string)
    ensures Includes(hay, needle) <==> exists k :: OccursAt(hay, needle, k)
    ensures Includes(hay, "")
  {
    assert StartsWith(hay, "");
    if StartsWith(hay, needle) {
      assert OccursAt(hay, needle, 0);
    }
    if hay != [] {
      IncludesAt(hay[1..], needle);
      if Includes(hay[1..], needle) {
        var k :| OccursAt(hay[1..], needle, k);
        assert hay[k + 1..k + 1 + |needle|] == hay[1..][k..k + |needle|];
        assert OccursAt(hay, needle, k + 1);
      }
    }
    if exists k :: OccursAt(hay, needle, k) {
      var k :| OccursAt(hay, needle, k);
      if k > 0 {
        assert hay[1..][k - 1..k - 1 + |needle|] == hay[k..k + |needle|];
        assert OccursAt(hay[1..], needle, k - 1);
      }
    }
  }

  /** The filter's test: the lower-cased title or author contains the lower-cased search term. */
  predicate MatchesSearch(b: Book, searchTerm: string) {
    var term := Lower(searchTerm);
    Includes(Lower(b.title), term) || Includes(Lower(b.author), term)
  }

  /** `books.filter(...)`: the books that match the search term, in input order. */
  function FilterBooks(books: seq<Book>, searchTerm: string): seq<Book> {
    if books == [] then []
    else (if MatchesSearch(books[0], searchTerm) then [books[0]] else []) + FilterBooks(books[1..], searchTerm)
  }

  /** The filter keeps exactly the matching books, each once, in input order: it distributes over
      concatenation and keeps a single book exactly when that book matches. */
  lemma {:induction false} FilterMembers(books: seq<Book>, more: seq<Book>, x: Book, searchTerm: string)
    ensures forall b :: b in FilterBooks(books, searchTerm) <==> b in books && MatchesSearch(b, searchTerm)
    ensures FilterBooks(books + more, searchTerm) == FilterBooks(books, searchTerm) + FilterBooks(more, searchTerm)
    ensures FilterBooks([x], searchTerm) == if MatchesSearch(x, searchTerm) then [x] else []
  {
    assert [x][1..] == [];
    if books == [] {
      assert books + more == more;
    } else {
      assert books == [books[0]] + books[1..];
      assert (books + more)[0] == books[0];
      assert (books + more)[1..] == books[1..] + more;
      FilterMembers(books[1..], more, x, searchTerm);
    }
  }

  /** An empty search term keeps every book, in order. */
  lemma {:induction false} EmptySearchKeepsAll(books: seq<Book>)
    ensures FilterBooks(books, "") == books
  {
    if books != [] {
      assert Lower("") == "";
      IncludesAt(Lower(books[0].title), "");
      EmptySearchKeepsAll(books[1..]);
    }
  }

  /** The search ignores the case of the term: searching for its lower-cased form gives the same books. */
  lemma {:induction false} SearchIgnoresCase(books: seq<Book>, searchTerm: string)
    ensures FilterBooks(books, Lower(searchTerm)) == FilterBooks(books, searchTerm)
  {
    LowerIdempotent(searchTerm);
    if books != [] {
      SearchIgnoresCase(books[1..], searchTerm);
    }
  }

  // ---------------------------------------------------------------------
  // The comparator and the stable sort
  // ---------------------------------------------------------------------

  /** The value of the sort selector. */
  datatype SortKey = ByTitle | ByAuthor | ByQuantity | Unsorted

  /** The comparator's `switch`: any value but the three names falls to the default. */
  function SortKeyOf(sortBy: string): SortKey {
    if sortBy == "title" then ByTitle
    else if sortBy == "author" then ByAuthor
    else if sortBy == "quantity" then ByQuantity
    else Unsorted
  }

  /** A collation order standing in for the locale's: `le(a, b)` when a may precede b. */
  type Collation = (string, string) -> bool

  ghost predicate TotalPreorder(le: Collation) {
    && (forall x, y :: le(x, y) || le(y, x))
    && (forall x, y, z :: le(x, y) && le(y, z) ==> le(x, z))
  }

  /** The comparator for this key is consistent: the collation matters only for title and author. */
  ghost predicate Consistent(key: SortKey, le: Collation) {
    (key == ByTitle || key == ByAuthor) ==> TotalPreorder(le)
  }

  /** `a.localeCompare(b)` under the collation: negative, zero or positive. */
  function LocaleCompare(le: Collation, a: string, b: string): int {
    if le(a, b) && le(b, a) then 0
    else if le(a, b) then -1
    else 1
  }

  /** The comparator given to `sort`. */
  function Compare(key: SortKey, le: Collation, a: Book, b: Book): int {
    match key
    case ByTitle => LocaleCompare(le, a.title, b.title)
    case ByAuthor => LocaleCompare(le, a.author, b.author)
    case ByQuantity => b.quantity - a.quantity
    case Unsorted => 0
  }

  /** Under a total preorder the comparator is consistent: swapping its arguments flips its sign. */
  lemma CompareFlip(key: SortKey, le: Collation, a: Book, b: Book)
    requires Consistent(key, le)
    ensures Compare(key, le, a, b) > 0 <==> Compare(key, le, b, a) < 0
    ensures Compare(key, le, a, b) == 0 <==> Compare(key, le, b, a) == 0
  {
    if key == ByTitle {
      assert le(a.title, b.title) || le(b.title, a.title);
    } else if key == ByAuthor {
      assert le(a.author, b.author) || le(b.author, a.author);
    }
  }

  /** Under a total preorder, comparing equal is transitive. */
  lemma CompareTiesTransitive(key: SortKey, le: Collation, a: Book, b: Book, c: Book)
    requires Consistent(key, le)
    requires Compare(key, le, a, b) == 0 && Compare(key, le, b, c) == 0
    ensures Compare(key, le, a, c) == 0
  {
    match key
    case ByTitle =>
      assert le(a.title, b.title) && le(b.title, c.title) && le(c.title, b.title) && le(b.title, a.title);
    case ByAuthor =>
      assert le(a.author, b.author) && le(b.author, c.author) && le(c.author, b.author) && le(b.author, a.author);
    case ByQuantity =>
    case Unsorted =>
  }

  /** Insert a book into an already sorted run, before the first book it does not compare above. */
  function Insert(x: Book, run: seq<Book>, key: SortKey, le: Collation): seq<Book> {
    if run == [] || Compare(key, le, x, run[0]) <= 0 then [x] + run
    else [run[0]] + Insert(x, run[1..], key, le)
  }

  /** `sort` with the comparator: each book goes in front of the later books it does not compare above,
      so books that compare equal keep their input order. */
  function SortBooks(books: seq<Book>, key: SortKey, le: Collation): seq<Book> {
    if books == [] then []
    else Insert(books[0], SortBooks(books[1..], key, le), key, le)
  }

  /** Adjacent books are in comparator order. */
  predicate Ordered(s: seq<Book>, key: SortKey, le: Collation) {
    forall i :: 0 <= i < |s| - 1 ==> Compare(key, le, s[i], s[i + 1]) <= 0
  }

  /** The books that compare equal to `e`, in order. */
  function Peers(s: seq<Book>, key: SortKey, le: Collation, e: Book): seq<Book> {
    if s == [] then []
    else (if Compare(key, le, s[0], e) == 0 then [s[0]] else []) + Peers(s[1..], key, le, e)
  }

  lemma {:induction false} InsertPermutes(x: Book, run: seq<Book>, key: SortKey, le: Collation)
    ensures multiset(Insert(x, run, key, le)) == multiset(run) + multiset{x}
  {
    if run != [] && Compare(key, le, x, run[0]) > 0 {
      InsertPermutes(x, run[1..], key, le);
      assert run == [run[0]] + run[1..];
    }
  }

  /** The sort only reorders: the result is a permutation of its input. */
  lemma {:induction false} SortPermutes(books: seq<Book>, key: SortKey, le: Collation)
    ensures multiset(SortBooks(books, key, le)) == multiset(books)
    ensures |SortBooks(books, key, le)| == |books|
  {
    if books != [] {
      SortPermutes(books[1..], key, le);
      InsertPermutes(books[0], SortBooks(books[1..], key, le), key, le);
      assert books == [books[0]] + books[1..];
    }
    assert |multiset(SortBooks(books, key, le))| == |SortBooks(books, key, le)|;
  }

  lemma {:induction false} InsertOrdered(x: Book, run: seq<Book>, key: SortKey, le: Collation)
    requires Consistent(key, le)
    requires Ordered(run, key, le)
    ensures Ordered(Insert(x, run, key, le), key, le)
    ensures |Insert(x, run, key, le)| == |run| + 1
    ensures Insert(x, run, key, le)[0] == x || (run != [] && Insert(x, run, key, le)[0] == run[0])
  {
    if run != [] && Compare(key, le, x, run[0]) > 0 {
      var rest := Insert(x, run[1..], key, le);
      InsertOrdered(x, run[1..], key, le);
      CompareFlip(key, le, x, run[0]);
      var r := [run[0]] + rest;
      forall i | 0 <= i < |r| - 1
        ensures Compare(key, le, r[i], r[i + 1]) <= 0
      {
        if i > 0 {
          assert r[i] == rest[i - 1] && r[i + 1] == rest[i];
        }
      }
    }
  }

  /** The sort puts adjacent books in comparator order. */
  lemma {:induction false} SortOrdered(books: seq<Book>, key: SortKey, le: Collation)
    requires Consistent(key, le)
    ensures Ordered(SortBooks(books, key, le), key, le)
  {
    if books != [] {
      SortOrdered(books[1..], key, le);
      InsertOrdered(books[0], SortBooks(books[1..], key, le), key, le);
    }
  }

  lemma {:induction false} InsertPeers(x: Book, run: seq<Book>, key: SortKey, le: Collation, e: Book)
    requires Consistent(key, le)
    ensures Peers(Insert(x, run, key, le), key, le, e) ==
      (if Compare(key, le, x, e) == 0 then [x] else []) + Peers(run, key, le, e)
  {
    if run != [] && Compare(key, le, x, run[0]) > 0 {
      InsertPeers(x, run[1..], key, le, e);
      var r := [run[0]] + Insert(x, run[1..], key, le);
      assert r[1..] == Insert(x, run[1..], key, le);
      if Compare(key, le, x, e) == 0 && Compare(key, le, run[0], e) == 0 {
        CompareFlip(key, le, run[0], e);
        CompareTiesTransitive(key, le, x, e, run[0]);
        assert false;
      }
    } else {
      assert ([x] + run)[1..] == run;
    }
  }

  /** The sort is stable: the books that compare equal to any given book come out in their input order. */
  lemma {:induction false} SortStable(books: seq<Book>, key: SortKey, le: Collation, e: Book)
    requires Consistent(key, le)
    ensures Peers(SortBooks(books, key, le), key, le, e) == Peers(books, key, le, e)
  {
    if books != [] {
      SortStable(books[1..], key, le, e);
      InsertPeers(books[0], SortBooks(books[1..], key, le), key, le, e);
    }
  }

  /** With the default comparator, which answers 0, the sort leaves the order as it is. */
  lemma {:induction false} SortUnsortedIdentity(books: seq<Book>, le: Collation)
    ensures SortBooks(books, Unsorted, le) == books
  {
    if books != [] {
      SortUnsortedIdentity(books[1..], le);
      assert [books[0]] + books[1..] == books;
    }
  }

  lemma {:induction false} AdjacentToPairwise(s: seq<Book>)
    requires forall i :: 0 <= i < |s| - 1 ==> s[i].quantity >= s[i + 1].quantity
    ensures forall i, j :: 0 <= i <= j < |s| ==> s[i].quantity >= s[j].quantity
  {
    if s != [] {
      AdjacentToPairwise(s[1..]);
      forall i, j | 0 <= i <= j < |s|
        ensures s[i].quantity >= s[j].quantity
      {
        if 0 < i {
          assert s[i] == s[1..][i - 1] && s[j] == s[1..][j - 1];
        } else if 0 < j {
          assert s[1] == s[1..][0] && s[j] == s[1..][j - 1];
        }
      }
    }
  }

  // ---------------------------------------------------------------------
  // filterAndSortBooks
  // ---------------------------------------------------------------------

  /** filterAndSortBooks: filter by the search term into a new array, then sort that array. */
  function FilterAndSortBooks(books: seq<Book>, searchTerm: string, sortBy: string, le: Collation): seq<Book> {
    SortBooks(FilterBooks(books, searchTerm), SortKeyOf(sortBy), le)
  }

  /** The result is a permutation of the filtered books, so it holds exactly the books whose lower-cased
      title or author contains the lower-cased search term. */
  lemma FilterAndSortKeepsMatches(books: seq<Book>, searchTerm: string, sortBy: string, le: Collation)
    ensures multiset(FilterAndSortBooks(books, searchTerm, sortBy, le)) == multiset(FilterBooks(books, searchTerm))
    ensures forall b :: b in FilterAndSortBooks(books, searchTerm, sortBy, le) <==>
      b in books && MatchesSearch(b, searchTerm)
  {
    var filtered := FilterBooks(books, searchTerm);
    SortPermutes(filtered, SortKeyOf(sortBy), le);
    FilterMembers(books, [], Book("", "", "", 0), searchTerm);
    forall b
      ensures b in FilterAndSortBooks(books, searchTerm, sortBy, le) <==> b in filtered
    {
      assert b in multiset(FilterAndSortBooks(books, searchTerm, sortBy, le)) <==> b in multiset(filtered);
    }
  }

  /** An empty search term keeps every book: the result is a permutation of the input. */
  lemma EmptySearchPermutes(books: seq<Book>, sortBy: string, le: Collation)
    ensures multiset(FilterAndSortBooks(books, "", sortBy, le)) == multiset(books)
  {
    EmptySearchKeepsAll(books);
    SortPermutes(books, SortKeyOf(sortBy), le);
  }

  /** Sorting by quantity yields non-increasing quantities. */
  lemma SortByQuantity(books: seq<Book>, searchTerm: string, le: Collation)
    ensures var r := FilterAndSortBooks(books, searchTerm, "quantity", le);
      forall i, j :: 0 <= i <= j < |r| ==> r[i].quantity >= r[j].quantity
  {
    var r := FilterAndSortBooks(books, searchTerm, "quantity", le);
    var filtered := FilterBooks(books, searchTerm);
    SortOrdered(filtered, ByQuantity, le);
    assert forall i :: 0 <= i < |r| - 1 ==> Compare(ByQuantity, le, r[i], r[i + 1]) <= 0;
    AdjacentToPairwise(r);
  }

  /** Sorting by title or author puts adjacent books in collation order of that field, and books whose
      field collates equal keep their input order. */
  lemma SortByTitleOrAuthor(books: seq<Book>, searchTerm: string, le: Collation, e: Book)
    requires TotalPreorder(le)
    ensures var r := FilterAndSortBooks(books, searchTerm, "title", le);
      forall i :: 0 <= i < |r| - 1 ==> le(r[i].title, r[i + 1].title)
    ensures var r := FilterAndSortBooks(books, searchTerm, "author", le);
      forall i :: 0 <= i < |r| - 1 ==> le(r[i].author, r[i + 1].author)
    ensures Peers(FilterAndSortBooks(books, searchTerm, "title", le), ByTitle, le, e) ==
      Peers(FilterBooks(books, searchTerm), ByTitle, le, e)
    ensures Peers(FilterAndSortBooks(books, searchTerm, "author", le), ByAuthor, le, e) ==
      Peers(FilterBooks(books, searchTerm), ByAuthor, le, e)
  {
    var filtered := FilterBooks(books, searchTerm);
    SortOrdered(filtered, ByTitle, le);
    SortOrdered(filtered, ByAuthor, le);
    SortStable(filtered, ByTitle, le, e);
    SortStable(filtered, ByAuthor, le, e);
  }

  /** Any other sort selector leaves the filtered books in input order. */
  lemma SortByOther(books: seq<Book>, searchTerm: string, sortBy: string, le: Collation)
    requires sortBy != "title" && sortBy != "author" && sortBy != "quantity"
    ensures FilterAndSortBooks(books, searchTerm, sortBy, le) == FilterBooks(books, searchTerm)
  {
    SortUnsortedIdentity(FilterBooks(books, searchTerm), le);
  }

  /** Two books, the search "e" and the quantity sort: both books match, the one with more copies first. */
  lemma QuantityExample(le: Collation)
    ensures var dune := Book("1", "Dune", "Herbert", 0);
      var emma := Book("2", "Emma", "Austen", 3);
      FilterAndSortBooks([dune, emma], "e", "quantity", le) == [emma, dune]
  {
    var dune := Book("1", "Dune", "Herbert", 0);
    var emma := Book("2", "Emma", "Austen", 3);
    assert Lower("e") == "e";
    assert Lower("Dune") == "dune";
    assert Lower("Emma") == "emma";
    assert OccursAt("dune", "e", 3);
    assert OccursAt("emma", "e", 0);
    IncludesAt("dune", "e");
    IncludesAt("emma", "e");
    assert MatchesSearch(dune, "e") && MatchesSearch(emma, "e");
    assert [dune, emma][1..] == [emma] && [emma][1..] == [];
    assert FilterBooks([emma], "e") == [emma];
    assert FilterBooks([dune, emma], "e") == [dune, emma];
    assert SortBooks([emma], ByQuantity, le) == [emma];
  }

  /** Lexicographic order of Unicode code points: one collation that meets the requirement. */
  predicate CodePointLe(a: string, b: string) {
    a == [] || (b != [] && (a[0] < b[0] || (a[0] == b[0] && CodePointLe(a[1..], b[1..]))))
  }

  lemma {:induction false} CodePointTotal(a: string, b: string)
    ensures CodePointLe(a, b) || CodePointLe(b, a)
  {
    if a != [] && b != [] && a[0] == b[0] {
      CodePointTotal(a[1..], b[1..]);
    }
  }

  lemma {:induction false} CodePointTransitive(a: string, b: string, c: string)
    requires CodePointLe(a, b) && CodePointLe(b, c)
    ensures CodePointLe(a, c)
  {
    if a != [] && b != [] && c != [] && a[0] == b[0] && b[0] == c[0] {
      CodePointTransitive(a[1..], b[1..], c[1..]);
    }
  }

  /** Code-point order is a total preorder, so the requirement on the collation can be met. */
  lemma CodePointIsTotalPreorder()
    ensures TotalPreorder(CodePointLe)
  {
    forall x, y
      ensures CodePointLe(x, y) || CodePointLe(y, x)
    {
      CodePointTotal(x, y);
    }
    forall x, y, z | CodePointLe(x, y) && CodePointLe(y, z)
      ensures CodePointLe(x, z)
    {
      CodePointTransitive(x, y, z);
    }
  }

  // ---------------------------------------------------------------------
  // Rendering
  // ---------------------------------------------------------------------

  datatype Badge = Success | Danger

  /** What one card shows: the badge style and count, title, author, whether checkout is disabled, and
      the id its buttons send. */
  datatype Card = Card(badge: Badge, count: int, title: string, author: string, checkoutDisabled: bool, id: string)

  /** The badge style: "success" when copies are left, "danger" otherwise. */
  function BadgeOf(quantity: int): Badge {
    if quantity > 0 then Success else Danger
  }

  /** The checkout button is disabled when no copy is left. */
  function CheckoutDisabled(quantity: int): bool {
    quantity <= 0
  }

  function RenderCard(b: Book): Card {
    Card(BadgeOf(b.quantity), b.quantity, b.title, b.author, CheckoutDisabled(b.quantity), b.id)
  }

  /** displayBooks: one card per book, in order, showing its id, count, title and author; the badge shows
      success exactly when a copy is left, and the checkout button is disabled exactly when none is. */
  function DisplayBooks(books: seq<Book>): (cards: seq<Card>)
    ensures |cards| == |books|
    ensures forall i :: 0 <= i < |cards| ==> cards[i].id == books[i].id && cards[i].count == books[i].quantity
    ensures forall i :: 0 <= i < |cards| ==> cards[i].title == books[i].title && cards[i].author == books[i].author
    ensures forall i :: 0 <= i < |cards| ==>
      (cards[i].badge == Success <==> books[i].quantity > 0) && (cards[i].checkoutDisabled <==> books[i].quantity <= 0)
    ensures forall i :: 0 <= i < |cards| ==> (cards[i].badge == Success <==> !cards[i].checkoutDisabled)
  {
    seq(|books|, i requires 0 <= i < |books| => RenderCard(books[i]))
  }

  /** The badge and the button agree for every count: success iff enabled iff a copy is left. */
  lemma AvailabilityComplementary(quantity: int)
    ensures BadgeOf(quantity) == Success <==> quantity > 0
    ensures CheckoutDisabled(quantity) <==> quantity <= 0
    ensures BadgeOf(quantity) == Success <==> !CheckoutDisabled(quantity)
  {
  }
}
