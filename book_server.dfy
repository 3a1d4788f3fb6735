/**
 * The book inventory of the Go server: the global table of books and the
 * handlers that list, look up, create, check out, return and delete books.
 * The HTTP framework is reduced to its inputs (query parameters, a path
 * parameter, a decoded request body) and its output (a status and a body).
 *
 * Each handler has two forms: a pure step function over the table, which the
 * lemmas reason about, and a method of `Inventory` that changes the table in
 * place and is proved to agree with that step function.
 */
module BookServer {
  import opened Wrappers

  /** Go's `int` on a 64-bit platform. */
  newtype Int64 = x: int | -0x8000_0000_0000_0000 <= x < 0x8000_0000_0000_0000

  const MinInt64: Int64 := -0x8000_0000_0000_0000
  const MaxInt64: Int64 := 0x7FFF_FFFF_FFFF_FFFF

  /** Go's `q += 1` on an `int`: it wraps around to the least value at the top of the range. */
  function Succ(q: Int64): Int64 {
    if q == MaxInt64 then MinInt64 else q + 1
  }

  datatype Book = Book(id: string, title: string, author: string, quantity: Int64)

  /** The JSON a handler writes. */
  datatype Body =
    | Listing(books: seq<Book>)
    | Record(book: Book)
    | Message(text: string)
    | NoBody

  datatype Response = Response(status: int, body: Body)

  /** The table after a handler has run, and the handler's response. */
  datatype Step = Step(books: seq<Book>, response: Response)

  const StatusOK := 200
  const StatusCreated := 201
  const StatusBadRequest := 400
  const StatusNotFound := 404

  const MissingId := "Missing id query parameter"
  const NotFound := "Book not found"
  const NotFoundError := "Book not found!"
  const NotAvailable := "Book not available"
  const DeletedMessage := "Book deleted successfully"

  /** URL query parameters, one value per key. */
  type Query = map<string, string>

  /** The query keys the handlers read; the title key is spelled as the listing handler spells it. */
  const TitleKey := "titie"
  const AuthorKey := "author"
  const IdKey := "id"

  /** The value of a query parameter, or "" when it is absent. */
  function QueryValue(query: Query, key: string): string {
    if key in query then query[key] else ""
  }

  /** The value of a query parameter, or None when it is absent. */
  function GetQuery(query: Query, key: string): Option<string> {
    if key in query then Some(query[key]) else None
  }

  // ---------------------------------------------------------------------
  // Lookup by id
  // ---------------------------------------------------------------------

  /** `i` is the position of the first book with this id. */
  predicate FirstMatch(books: seq<Book>, id: string, i: nat) {
    i < |books| && books[i].id == id && forall j :: 0 <= j < i ==> books[j].id != id
  }

  /** The position that the id lookup finds: the first book with this id, if any. */
  function FirstIndex(books: seq<Book>, id: string): (r: Option<nat>)
    ensures r.Some? ==> FirstMatch(books, id, r.value)
    ensures r.None? <==> forall j :: 0 <= j < |books| ==> books[j].id != id
  {
    if books == [] then None
    else if books[0].id == id then Some(0)
    else match FirstIndex(books[1..], id)
      case None => None
      case Some(k) => Some(k + 1)
  }

  lemma FirstIndexIs(books: seq<Book>, id: string, i: nat)
    requires FirstMatch(books, id, i)
    ensures FirstIndex(books, id) == Some(i)
  {
  }

  /** Two tables whose books carry the same ids, position by position. */
  predicate SameIds(a: seq<Book>, b: seq<Book>) {
    |a| == |b| && forall j :: 0 <= j < |a| ==> a[j].id == b[j].id
  }

  /** Changing anything but the ids does not change what a lookup finds. */
  lemma {:induction false} FirstIndexSameIds(a: seq<Book>, b: seq<Book>, id: string)
    requires SameIds(a, b)
    ensures FirstIndex(a, id) == FirstIndex(b, id)
  {
    if a != [] {
      assert a[0].id == b[0].id;
      FirstIndexSameIds(a[1..], b[1..], id);
    }
  }

  /** A lookup in a table with one more book at the end finds an earlier match first. */
  lemma {:induction false} FirstIndexAppend(books: seq<Book>, x: Book, id: string)
    ensures FirstIndex(books + [x], id) ==
      if FirstIndex(books, id).Some? then FirstIndex(books, id)
      else if x.id == id then Some(|books|)
      else None
  {
    if books == [] {
      assert books + [x] == [x];
    } else {
      assert (books + [x])[0] == books[0];
      assert (books + [x])[1..] == books[1..] + [x];
      FirstIndexAppend(books[1..], x, id);
    }
  }

  // ---------------------------------------------------------------------
  // Listing with optional filters
  // ---------------------------------------------------------------------

  datatype Field = Title | Author

  function FieldOf(b: Book, f: Field): string {
    match f
    case Title => b.title
    case Author => b.author
  }

  /** The books whose field `f` equals `v`, in table order: one filtering loop of the listing. */
  function Select(books: seq<Book>, f: Field, v: string): seq<Book> {
    if books == [] then []
    else (if FieldOf(books[0], f) == v then [books[0]] else []) + Select(books[1..], f, v)
  }

  /** A book passes the listing's filters; a filter value of "" is no filter. */
  predicate Wanted(b: Book, title: string, author: string) {
    (title == "" || b.title == title) && (author == "" || b.author == author)
  }

  /** The listing for given filter values: the title filter first, then the author filter. */
  function Listed(books: seq<Book>, title: string, author: string): seq<Book> {
    var byTitle := if title == "" then books else Select(books, Title, title);
    if author == "" then byTitle else Select(byTitle, Author, author)
  }

  /** The listing as the handler computes it, reading the title filter from key "titie". */
  function ListedAsWritten(books: seq<Book>, query: Query): seq<Book> {
    Listed(books, QueryValue(query, TitleKey), QueryValue(query, AuthorKey))
  }

  /** The listing with the title filter read from key "title". */
  function ListedIntended(books: seq<Book>, query: Query): seq<Book> {
    Listed(books, QueryValue(query, "title"), QueryValue(query, AuthorKey))
  }

  lemma {:induction false} SelectAppend(a: seq<Book>, b: seq<Book>, f: Field, v: string)
    ensures Select(a + b, f, v) == Select(a, f, v) + Select(b, f, v)
  {
    if a == [] {
      assert a + b == b;
    } else {
      assert (a + b)[0] == a[0];
      assert (a + b)[1..] == a[1..] + b;
      SelectAppend(a[1..], b, f, v);
    }
  }

  lemma {:induction false} SelectMembers(books: seq<Book>, f: Field, v: string)
    ensures forall b :: b in Select(books, f, v) <==> b in books && FieldOf(b, f) == v
  {
    if books != [] {
      assert books == [books[0]] + books[1..];
      SelectMembers(books[1..], f, v);
    }
  }

  /** With no filter the listing is the table itself; otherwise it holds exactly the books that pass both filters. */
  lemma ListedMembers(books: seq<Book>, title: string, author: string)
    ensures title == "" && author == "" ==> Listed(books, title, author) == books
    ensures forall b :: b in Listed(books, title, author) <==> b in books && Wanted(b, title, author)
  {
    SelectMembers(books, Title, title);
    SelectMembers(books, Author, author);
    SelectMembers(Select(books, Title, title), Author, author);
  }

  /** The listing keeps table order: it distributes over concatenation, and keeps a single book exactly when it passes the filters. */
  lemma ListedInOrder(a: seq<Book>, b: seq<Book>, x: Book, title: string, author: string)
    ensures Listed(a + b, title, author) == Listed(a, title, author) + Listed(b, title, author)
    ensures Listed([x], title, author) == if Wanted(x, title, author) then [x] else []
  {
    ListedAppend(a, b, title, author);
    ListedSingle(x, title, author);
  }

  lemma ListedAppend(a: seq<Book>, b: seq<Book>, title: string, author: string)
    ensures Listed(a + b, title, author) == Listed(a, title, author) + Listed(b, title, author)
  {
    SelectAppend(a, b, Title, title);
    SelectAppend(a, b, Author, author);
    SelectAppend(Select(a, Title, title), Select(b, Title, title), Author, author);
  }

  lemma ListedSingle(x: Book, title: string, author: string)
    ensures Listed([x], title, author) == if Wanted(x, title, author) then [x] else []
  {
    assert [x][1..] == [];
    assert Select([x], Title, title) == if x.title == title then [x] else [];
    assert Select([x], Author, author) == if x.author == author then [x] else [];
    assert Select([], Author, author) == [];
  }

  /** One filtering loop of getBooks: append each book whose field equals `v` to a fresh slice. */
  method SelectBooks(source: seq<Book>, f: Field, v: string) returns (kept: seq<Book>)
    ensures kept == Select(source, f, v)
  {
    kept := [];
    var i := 0;
    while i < |source|
      invariant i <= |source|
      invariant kept == Select(source[..i], f, v)
    {
      assert source[..i + 1] == source[..i] + [source[i]];
      SelectAppend(source[..i], [source[i]], f, v);
      assert Select([source[i]], f, v) == if FieldOf(source[i], f) == v then [source[i]] else [];
      if FieldOf(source[i], f) == v {
        kept := kept + [source[i]];
      }
      i := i + 1;
    }
    assert source[..|source|] == source;
  }

  // ---------------------------------------------------------------------
  // The step functions of the state-changing handlers
  // ---------------------------------------------------------------------

  /** createBook: a body that does not decode is refused with 400; otherwise the book is appended, whatever its id. */
  function CreateStep(books: seq<Book>, decoded: Option<Book>): Step {
    match decoded
    case None => Step(books, Response(StatusBadRequest, NoBody))
    case Some(b) => Step(books + [b], Response(StatusCreated, Record(b)))
  }

  /** checkoutBook: decrement the first matching book when it has copies left. */
  function CheckoutStep(books: seq<Book>, query: Query): Step {
    match GetQuery(query, IdKey)
    case None => Step(books, Response(StatusBadRequest, Message(MissingId)))
    case Some(id) =>
      (match FirstIndex(books, id)
       case None => Step(books, Response(StatusNotFound, Message(NotFound)))
       case Some(i) =>
         if books[i].quantity <= 0 then Step(books, Response(StatusBadRequest, Message(NotAvailable)))
         else
           var b := books[i].(quantity := books[i].quantity - 1);
           Step(books[i := b], Response(StatusOK, Record(b))))
  }

  /** returnBook: increment the first matching book, with no upper bound but Go's wrap-around. */
  function ReturnStep(books: seq<Book>, query: Query): Step {
    match GetQuery(query, IdKey)
    case None => Step(books, Response(StatusBadRequest, Message(MissingId)))
    case Some(id) =>
      (match FirstIndex(books, id)
       case None => Step(books, Response(StatusNotFound, Message(NotFound)))
       case Some(i) =>
         var b := books[i].(quantity := Succ(books[i].quantity));
         Step(books[i := b], Response(StatusOK, Record(b))))
  }

  /** deleteBook: splice out the first matching book. */
  function DeleteStep(books: seq<Book>, id: string): Step {
    match FirstIndex(books, id)
    case None => Step(books, Response(StatusNotFound, Message(NotFound)))
    case Some(i) => Step(books[..i] + books[i + 1..], Response(StatusOK, Message(DeletedMessage)))
  }

  // ---------------------------------------------------------------------
  // The table, changed in place by the handlers
  // ---------------------------------------------------------------------

  class Inventory {
    var books: seq<Book>

    /** The table as loaded at start-up. */
    constructor (loaded: seq<Book>)
      ensures books == loaded
    {
      books := loaded;
    }

    /** getBooksById: the position of the first book with this id, or the not-found error. */
    method GetBooksById(id: string) returns (r: Result<nat>)
      ensures r.Ok? ==> FirstMatch(books, id, r.value) && FirstIndex(books, id) == Some(r.value)
      ensures r.Err? <==> forall j :: 0 <= j < |books| ==> books[j].id != id
      ensures r.Err? ==> r.error == NotFoundError && FirstIndex(books, id) == None
    {
      var i := 0;
      while i < |books|
        invariant i <= |books|
        invariant forall j :: 0 <= j < i ==> books[j].id != id
      {
        if books[i].id == id {
          FirstIndexIs(books, id, i);
          return Ok(i);
        }
        i := i + 1;
      }
      return Err(NotFoundError);
    }

    /** The listing of getBooks for given filter values: the title loop, then the author loop. */
    method ListBooks(title: string, author: string) returns (filtered: seq<Book>)
      ensures filtered == Listed(books, title, author)
    {
      filtered := books;
      if title != "" {
        filtered := SelectBooks(books, Title, title);
      }
      if author != "" {
        filtered := SelectBooks(filtered, Author, author);
      }
    }

    /** getBooks as written: the title filter is read from the query key "titie". */
    method GetBooks(query: Query) returns (resp: Response)
      ensures resp == Response(StatusOK, Listing(ListedAsWritten(books, query)))
    {
      var title := QueryValue(query, TitleKey);
      var author := QueryValue(query, AuthorKey);
      var filtered := ListBooks(title, author);
      resp := Response(StatusOK, Listing(filtered));
    }

    /** getBooks with the title filter read from the key "title". */
    method GetBooksIntended(query: Query) returns (resp: Response)
      ensures resp == Response(StatusOK, Listing(ListedIntended(books, query)))
    {
      var title := QueryValue(query, "title");
      var author := QueryValue(query, AuthorKey);
      var filtered := ListBooks(title, author);
      resp := Response(StatusOK, Listing(filtered));
    }

    method CreateBook(decoded: Option<Book>) returns (resp: Response)
      modifies this
      ensures Step(books, resp) == CreateStep(old(books), decoded)
    {
      if decoded.None? {
        return Response(StatusBadRequest, NoBody);
      }
      books := books + [decoded.value];
      resp := Response(StatusCreated, Record(decoded.value));
    }

    method CheckoutBook(query: Query) returns (resp: Response)
      modifies this
      ensures Step(books, resp) == CheckoutStep(old(books), query)
    {
      var id := GetQuery(query, IdKey);
      if id.None? {
        return Response(StatusBadRequest, Message(MissingId));
      }
      var found := GetBooksById(id.value);
      if found.Err? {
        return Response(StatusNotFound, Message(NotFound));
      }
      var i := found.value;
      if books[i].quantity <= 0 {
        return Response(StatusBadRequest, Message(NotAvailable));
      }
      books := books[i := books[i].(quantity := books[i].quantity - 1)];
      resp := Response(StatusOK, Record(books[i]));
    }

    method ReturnBook(query: Query) returns (resp: Response)
      modifies this
      ensures Step(books, resp) == ReturnStep(old(books), query)
    {
      var id := GetQuery(query, IdKey);
      if id.None? {
        return Response(StatusBadRequest, Message(MissingId));
      }
      var found := GetBooksById(id.value);
      if found.Err? {
        return Response(StatusNotFound, Message(NotFound));
      }
      var i := found.value;
      books := books[i := books[i].(quantity := Succ(books[i].quantity))];
      resp := Response(StatusOK, Record(books[i]));
    }

    method DeleteBook(id: string) returns (resp: Response)
      modifies this
      ensures Step(books, resp) == DeleteStep(old(books), id)
    {
      var i := 0;
      while i < |books|
        invariant i <= |books|
        invariant books == old(books)
        invariant forall j :: 0 <= j < i ==> books[j].id != id
      {
        if books[i].id == id {
          FirstIndexIs(books, id, i);
          books := books[..i] + books[i + 1..];
          return Response(StatusOK, Message(DeletedMessage));
        }
        i := i + 1;
      }
      resp := Response(StatusNotFound, Message(NotFound));
    }
  }

  // ---------------------------------------------------------------------
  // Properties of the handlers
  // ---------------------------------------------------------------------

  /** createBook appends: earlier entries unchanged, one more entry; a book whose id is already taken is
      accepted but stays hidden behind the earlier one from every lookup by id. */
  lemma CreateAppends(books: seq<Book>, b: Book)
    ensures CreateStep(books, Some(b)).response == Response(StatusCreated, Record(b))
    ensures var after := CreateStep(books, Some(b)).books;
      |after| == |books| + 1 && after[..|books|] == books && after[|books|] == b
    ensures var after := CreateStep(books, Some(b)).books;
      FirstIndex(after, b.id) == if FirstIndex(books, b.id).Some? then FirstIndex(books, b.id) else Some(|books|)
    ensures var after := CreateStep(books, Some(b)).books;
      forall id :: id != b.id ==> FirstIndex(after, id) == FirstIndex(books, id)
  {
    var after := books + [b];
    assert after[..|books|] == books;
    FirstIndexAppend(books, b, b.id);
    forall id | id != b.id
      ensures FirstIndex(after, id) == FirstIndex(books, id)
    {
      FirstIndexAppend(books, b, id);
    }
  }

  /** checkoutBook refuses with 400 when the id is missing, 404 when no book has it, and 400 when the first
      such book has no copies left; it succeeds otherwise, and a refusal leaves the table unchanged. */
  lemma CheckoutOutcomes(books: seq<Book>, query: Query)
    ensures var r := CheckoutStep(books, query); r.response.status != StatusOK ==> r.books == books
    ensures IdKey !in query ==>
      CheckoutStep(books, query).response == Response(StatusBadRequest, Message(MissingId))
    ensures IdKey in query && (forall j :: 0 <= j < |books| ==> books[j].id != query[IdKey]) ==>
      CheckoutStep(books, query).response == Response(StatusNotFound, Message(NotFound))
    ensures forall i: nat :: IdKey in query && FirstMatch(books, query[IdKey], i) ==>
      (CheckoutStep(books, query).response.status == StatusOK <==> books[i].quantity > 0)
    ensures forall i: nat :: IdKey in query && FirstMatch(books, query[IdKey], i) && books[i].quantity <= 0 ==>
      CheckoutStep(books, query).response == Response(StatusBadRequest, Message(NotAvailable))
  {
    if IdKey in query {
      var id := query[IdKey];
      forall i: nat | FirstMatch(books, id, i)
        ensures FirstIndex(books, id) == Some(i)
      {
        FirstIndexIs(books, id, i);
      }
    }
  }

  /** A successful checkout decrements exactly the first matching book by one, leaving it non-negative,
      and changes nothing else. */
  lemma CheckoutDecrementsFirstMatch(books: seq<Book>, query: Query, i: nat)
    requires IdKey in query && FirstMatch(books, query[IdKey], i) && books[i].quantity > 0
    ensures var r := CheckoutStep(books, query);
      && r.response == Response(StatusOK, Record(r.books[i]))
      && |r.books| == |books|
      && r.books[i] == books[i].(quantity := books[i].quantity - 1)
      && r.books[i].quantity >= 0
      && forall j :: 0 <= j < |books| && j != i ==> r.books[j] == books[j]
  {
    FirstIndexIs(books, query[IdKey], i);
  }

  /** returnBook refuses with 400 when the id is missing and 404 when no book has it, leaving the table
      unchanged; otherwise it succeeds. */
  lemma ReturnOutcomes(books: seq<Book>, query: Query)
    ensures var r := ReturnStep(books, query); r.response.status != StatusOK ==> r.books == books
    ensures IdKey !in query ==>
      ReturnStep(books, query).response == Response(StatusBadRequest, Message(MissingId))
    ensures IdKey in query ==>
      (ReturnStep(books, query).response.status == StatusOK <==> exists j :: 0 <= j < |books| && books[j].id == query[IdKey])
    ensures IdKey in query && (forall j :: 0 <= j < |books| ==> books[j].id != query[IdKey]) ==>
      ReturnStep(books, query).response == Response(StatusNotFound, Message(NotFound))
  {
  }

  /** A successful return increments exactly the first matching book by one (wrapping only at the top of
      the 64-bit range) and changes nothing else. */
  lemma ReturnIncrementsFirstMatch(books: seq<Book>, query: Query, i: nat)
    requires IdKey in query && FirstMatch(books, query[IdKey], i)
    ensures var r := ReturnStep(books, query);
      && r.response == Response(StatusOK, Record(r.books[i]))
      && |r.books| == |books|
      && r.books[i] == books[i].(quantity := Succ(books[i].quantity))
      && (books[i].quantity < MaxInt64 ==> r.books[i].quantity as int == books[i].quantity as int + 1)
      && forall j :: 0 <= j < |books| && j != i ==> r.books[j] == books[j]
  {
    FirstIndexIs(books, query[IdKey], i);
  }

  /** A successful checkout followed by a return of the same id restores the table. */
  lemma CheckoutThenReturn(books: seq<Book>, query: Query)
    requires CheckoutStep(books, query).response.status == StatusOK
    ensures ReturnStep(CheckoutStep(books, query).books, query).books == books
    ensures ReturnStep(CheckoutStep(books, query).books, query).response.status == StatusOK
  {
    var id := query[IdKey];
    var i := FirstIndex(books, id).value;
    var after := CheckoutStep(books, query).books;
    assert after == books[i := books[i].(quantity := books[i].quantity - 1)];
    FirstIndexSameIds(after, books, id);
    assert after[i := after[i].(quantity := Succ(after[i].quantity))] == books;
  }

  /** A return followed by a checkout of the same id restores the table, when the book's count was
      non-negative and below the top of the range. */
  lemma ReturnThenCheckout(books: seq<Book>, query: Query, i: nat)
    requires IdKey in query && FirstMatch(books, query[IdKey], i)
    requires 0 <= books[i].quantity < MaxInt64
    ensures CheckoutStep(ReturnStep(books, query).books, query).books == books
    ensures CheckoutStep(ReturnStep(books, query).books, query).response.status == StatusOK
  {
    var id := query[IdKey];
    FirstIndexIs(books, id, i);
    var after := ReturnStep(books, query).books;
    FirstIndexSameIds(after, books, id);
    assert after[i := after[i].(quantity := after[i].quantity - 1)] == books;
  }

  /** At the top of the range a return wraps the count to the least 64-bit value, after which the book
      can no longer be checked out. */
  lemma ReturnWrapsAtMax(books: seq<Book>, query: Query, i: nat)
    requires IdKey in query && FirstMatch(books, query[IdKey], i)
    requires books[i].quantity == MaxInt64
    ensures ReturnStep(books, query).books[i].quantity == MinInt64
    ensures CheckoutStep(ReturnStep(books, query).books, query).response ==
      Response(StatusBadRequest, Message(NotAvailable))
  {
    var id := query[IdKey];
    FirstIndexIs(books, id, i);
    var after := ReturnStep(books, query).books;
    FirstIndexSameIds(after, books, id);
  }

  /** deleteBook on a present id removes exactly the first matching book and keeps the others in order. */
  lemma DeleteRemovesFirstMatch(books: seq<Book>, id: string, i: nat)
    requires FirstMatch(books, id, i)
    ensures DeleteStep(books, id).response == Response(StatusOK, Message(DeletedMessage))
    ensures var after := DeleteStep(books, id).books;
      && |after| == |books| - 1
      && (forall j :: 0 <= j < i ==> after[j] == books[j])
      && (forall j :: i <= j < |after| ==> after[j] == books[j + 1])
      && multiset(after) + multiset{books[i]} == multiset(books)
  {
    FirstIndexIs(books, id, i);
    assert books == books[..i] + [books[i]] + books[i + 1..];
  }

  /** deleteBook on an absent id answers 404 and leaves the table unchanged. */
  lemma DeleteAbsent(books: seq<Book>, id: string)
    requires forall j :: 0 <= j < |books| ==> books[j].id != id
    ensures DeleteStep(books, id) == Step(books, Response(StatusNotFound, Message(NotFound)))
  {
  }

  /** Every book has a non-negative count. */
  predicate AllInStock(books: seq<Book>) {
    forall j :: 0 <= j < |books| ==> books[j].quantity >= 0
  }

  /** Non-negative counts are kept by checkout and delete, by return unless a count is at the top of the
      range, and by create exactly when the new book's count is non-negative (create does not check it). */
  lemma CountsStayNonNegative(books: seq<Book>, query: Query, id: string, b: Book)
    requires AllInStock(books)
    ensures AllInStock(CheckoutStep(books, query).books)
    ensures AllInStock(DeleteStep(books, id).books)
    ensures AllInStock(CreateStep(books, Some(b)).books) <==> b.quantity >= 0
    ensures (forall j :: 0 <= j < |books| ==> books[j].quantity < MaxInt64) ==>
      AllInStock(ReturnStep(books, query).books)
  {
    var created := books + [b];
    assert created[|books|] == b;
    match FirstIndex(books, id)
    case None =>
    case Some(i) =>
      var after := books[..i] + books[i + 1..];
      forall j | 0 <= j < |after|
        ensures after[j].quantity >= 0
      {
        if j < i {
          assert after[j] == books[j];
        } else {
          assert after[j] == books[j + 1];
        }
      }
  }

  // ---------------------------------------------------------------------
  // The title filter key
  // ---------------------------------------------------------------------

  /** As written, a query parameter named `title` is never read, so it filters nothing. */
  lemma TitleParameterIgnored(books: seq<Book>, title: string)
    ensures ListedAsWritten(books, map["title" := title]) == books
  {
    assert TitleKey != "title";
  }

  /** Two books and the query `?title=Dune`: as written both are listed, with the key spelled `title`
      only Dune is. */
  lemma TitleFilterCounterexample()
    ensures var books := [Book("1", "Dune", "Herbert", 0), Book("2", "Emma", "Austen", 3)];
      && ListedAsWritten(books, map["title" := "Dune"]) == books
      && ListedIntended(books, map["title" := "Dune"]) == [books[0]]
  {
    var books := [Book("1", "Dune", "Herbert", 0), Book("2", "Emma", "Austen", 3)];
    TitleParameterIgnored(books, "Dune");
    assert books[1..][1..] == [];
    assert Select(books, Title, "Dune") == [books[0]];
  }

  /** Reading the title from the key `title`, the listing holds exactly the books whose title and author
      equal the given filters; `ListedInOrder` gives their order, since `ListedIntended` is a `Listed`. */
  lemma IntendedTitleFilters(books: seq<Book>, query: Query)
    ensures forall b :: b in ListedIntended(books, query) <==>
      && b in books
      && ("title" in query && query["title"] != "" ==> b.title == query["title"])
      && (AuthorKey in query && query[AuthorKey] != "" ==> b.author == query[AuthorKey])
  {
    ListedMembers(books, QueryValue(query, "title"), QueryValue(query, AuthorKey));
  }
}
