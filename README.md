# Library catalog: book inventory server and catalog client, in Dafny

This project models the two pieces of logic in a small library catalog.

- **The Go server's book table** (`main.go`) is a global slice of books
  (`id`, `title`, `author`, `quantity`). Handlers list it with optional
  title and author filters, look a book up by id, append a new book, check
  a copy out (decrement), return a copy (increment) and delete a book.
  Module `BookServer` (book_server.dfy) has a class `Inventory` whose field
  `books: seq<Book>` is the slice. Each handler is a method that changes the
  field in place and returns a status and a body. Each state-changing method
  is proved equal to a pure step function (`CreateStep`, `CheckoutStep`,
  `ReturnStep`, `DeleteStep`). The lemmas state the handlers' properties
  about those step functions. The lookup and the listing are methods with
  loops, proved against `FirstIndex` and `Listed`.
- **The browser client's search and sort** (`static/app.js`) is
  `filterAndSortBooks`. It keeps the books whose lower-cased title or author
  contains the lower-cased search term. It then sorts them with a comparator
  chosen by the sort selector: title or author by `localeCompare`, quantity
  descending, anything else 0. Module `CatalogClient` (catalog_client.dfy)
  models it as a pure function of the books, the search term, the selector
  and a collation order. It also models the availability badge and the
  checkout button of each rendered card.
- Module `Wrappers` (wrappers.dfy) holds `Option` and `Result`.

Modelling choices:

- Go's `int` is taken as 64-bit: `quantity` is the newtype `Int64`, and the
  return handler's `+= 1` wraps from the largest value to the least (`Succ`).
- Query parameters are a `map<string, string>`. A lookup that yields "" for
  an absent key stands for `c.Query`. An `Option` stands for `c.GetQuery`,
  so a missing `id` can be told apart from an empty one.
- The decoded request body of the create handler is an `Option<Book>`.
  `None` means decoding failed. The framework then answers 400 with no body
  and the table is unchanged.
- The table loaded at start-up is the constructor's argument.
- `localeCompare` is any total preorder `le` on strings, passed as a
  parameter and turned into a comparator that answers -1, 0 or 1. The
  results about title and author order assume `TotalPreorder(le)`.
  `CodePointLe`, the lexicographic order of Unicode code points, is proved
  to be one such order.
- `toLowerCase` is ASCII lower-casing. `includes` is substring search.
- `Array.prototype.sort` is stable. With a consistent comparator its result
  is unique, and `SortBooks` defines it by stable insertion.

Three behaviours of the server that a reader might not expect:

- Quantities can go negative. The create handler does not check the count
  of a new book, and a return at the top of the 64-bit range wraps to the
  least value (`CountsStayNonNegative`, `ReturnWrapsAtMax`).
- Ids can repeat. The create handler appends a book whose id is taken, and
  every lookup by id still finds the earlier book (`CreateAppends`).
- The server deletes books (`DeleteBook`), although the client offers no
  way to do so.

## Model

| member | source | states |
|---|---|---|
| `BookServer.FirstIndex` | main.go:67-74 | the lookup's result is the position of the first book with the id, and it is None exactly when no book has that id |
| `BookServer.Inventory.GetBooksById` | main.go:67-74 | the loop returns the first matching position (agreeing with `FirstIndex`), or the error "Book not found!" exactly when no book has the id |
| `BookServer.Inventory.constructor` | main.go:19-25 | the table starts as the books loaded at start-up |
| `BookServer.SelectBooks` | main.go:46-62 | one filtering loop appends exactly the books whose field equals the filter value, in table order |
| `BookServer.Inventory.ListBooks` | main.go:44-63 | the table is returned as is when no filter is set; otherwise the title loop runs, then the author loop runs on its result |
| `BookServer.Inventory.GetBooks` | main.go:40-65 | answers 200 with the listing for the title filter from query key `titie` and the author filter from key `author` |
| `BookServer.ListedMembers` | main.go:44-63 | with neither filter the listing is the table itself; otherwise a book is listed iff it is in the table and equals every filter that is set |
| `BookServer.ListedInOrder` | main.go:46-63 | the listing keeps table order: it distributes over concatenation and keeps a single book iff it passes the filters |
| `BookServer.Inventory.CreateBook` | main.go:87-96 | the table becomes the old table plus the decoded book at the end, answered with 201 and the book; an undecodable body leaves the table unchanged with 400 |
| `BookServer.CreateAppends` | main.go:93 | create grows the table by one at the end, leaves earlier entries unchanged and does not reject a taken id; the new book is found by id only if no earlier book has that id, and lookups of other ids are unchanged |
| `BookServer.Inventory.CheckoutBook` | main.go:98-120 | the new table and response are those of `CheckoutStep` on the old table |
| `BookServer.CheckoutOutcomes` | main.go:99-116 | missing id gives 400, unknown id gives 404, first match with quantity <= 0 gives 400 "Book not available", success iff the first match has quantity > 0; every refusal leaves the table unchanged |
| `BookServer.CheckoutDecrementsFirstMatch` | main.go:113-119 | on success only the first matching book changes, its quantity drops by exactly one and stays >= 0, the length and every other book are unchanged, and the response carries the updated book |
| `BookServer.Inventory.ReturnBook` | main.go:122-139 | the new table and response are those of `ReturnStep` on the old table |
| `BookServer.ReturnOutcomes` | main.go:123-135 | missing id gives 400, unknown id gives 404, both with the table unchanged; success iff some book has the id |
| `BookServer.ReturnIncrementsFirstMatch` | main.go:130-138 | on success only the first matching book changes, its quantity rises by one with no upper bound below the 64-bit limit, and every other book is unchanged |
| `BookServer.ReturnWrapsAtMax` | main.go:136 | a return at the largest 64-bit count wraps it to the least value, after which checkout refuses with "Book not available" |
| `BookServer.CheckoutThenReturn` | main.go:113-136 | a successful checkout followed by a return of the same id restores the original table |
| `BookServer.ReturnThenCheckout` | main.go:113-136 | a return followed by a checkout of the same id restores the table when the count was non-negative and below the 64-bit limit |
| `BookServer.Inventory.DeleteBook` | main.go:141-152 | the new table and response are those of `DeleteStep` on the old table |
| `BookServer.DeleteRemovesFirstMatch` | main.go:143-150 | on a present id exactly the first match is removed: length drops by one, the books before it and after it keep their order, and the multiset loses just that book |
| `BookServer.DeleteAbsent` | main.go:151 | on an absent id the answer is 404 "Book not found" and the table is unchanged |
| `BookServer.CountsStayNonNegative` | main.go:93-136 | non-negative counts are kept by checkout and delete, by return unless a count is at the 64-bit limit, and by create iff the new book's count is non-negative |
| `BookServer.TitleParameterIgnored` | main.go:41 | as written, a `title` query parameter is never read, so the listing is the whole table |
| `BookServer.TitleFilterCounterexample` | main.go:41-53 | for two books and `?title=Dune` the as-written listing holds both books, while reading key `title` lists only Dune |
| `BookServer.Inventory.GetBooksIntended` | main.go:40-65 | the listing handler with the title filter read from key `title` |
| `BookServer.IntendedTitleFilters` | main.go:41-63 | reading key `title`, a book is listed iff it is in the table and its title and author equal the filters that are set |
| `CatalogClient.LowerIdempotent` | static/app.js:132 | lower-casing keeps the length, leaves no upper-case letter, and is idempotent |
| `CatalogClient.IncludesAt` | static/app.js:136-137 | `includes` holds iff the term occurs at some offset; the empty term is in every string |
| `CatalogClient.FilterMembers` | static/app.js:135-138 | the filter keeps a book iff its lower-cased title or author contains the lower-cased term; it distributes over concatenation and keeps a single book once iff it matches, so it is the subsequence of matching books in input order |
| `CatalogClient.EmptySearchKeepsAll` | static/app.js:135-138 | an empty search term keeps every book, in order |
| `CatalogClient.SearchIgnoresCase` | static/app.js:132-137 | searching for a term or for its lower-cased form gives the same books |
| `CatalogClient.CompareFlip` | static/app.js:140-150 | under a total preorder the comparator is antisymmetric: swapping the books flips the sign, and zero stays zero |
| `CatalogClient.CompareTiesTransitive` | static/app.js:140-150 | under a total preorder, books that compare equal form classes: ties are transitive |
| `CatalogClient.SortPermutes` | static/app.js:140-151 | the sort only reorders: its result is a permutation of its input |
| `CatalogClient.SortOrdered` | static/app.js:140-151 | after the sort every adjacent pair is in comparator order |
| `CatalogClient.SortStable` | static/app.js:140-151 | the sort is stable: books comparing equal to any given book keep their input order |
| `CatalogClient.SortUnsortedIdentity` | static/app.js:148-149 | with the default comparator, which answers 0, the order is unchanged |
| `CatalogClient.FilterAndSortKeepsMatches` | static/app.js:131-154 | the result is a permutation of the filtered books, so a book is in it iff it is in the input and matches the term |
| `CatalogClient.EmptySearchPermutes` | static/app.js:135-153 | with an empty term the result is a permutation of all the input books |
| `CatalogClient.SortByQuantity` | static/app.js:146-147 | sorting by quantity yields non-increasing quantities |
| `CatalogClient.SortByTitleOrAuthor` | static/app.js:142-145 | sorting by title or author puts adjacent books in collation order of that field, and books whose field collates equal keep input order |
| `CatalogClient.SortByOther` | static/app.js:148-149 | any other selector leaves the filtered books in input order |
| `CatalogClient.QuantityExample` | static/app.js:135-151 | for Dune (0 copies) and Emma (3 copies), search "e" with the quantity sort yields Emma then Dune |
| `CatalogClient.CodePointIsTotalPreorder` | static/app.js:143-145 | code-point string order is a total preorder, so the requirement the title and author sort results rest on can be met |
| `CatalogClient.DisplayBooks` | static/app.js:40-69 | one card per book in order, carrying its id, count, title and author; the badge is "success" iff the quantity is > 0, checkout is disabled iff it is <= 0, so the badge is "success" iff checkout is enabled |
| `CatalogClient.AvailabilityComplementary` | static/app.js:50-58 | the badge is "success" iff quantity > 0, checkout is disabled iff quantity <= 0, and the two are complementary for every integer |

## Findings

| source | as written | input that shows it | evidently intended | confidence | as-written member | corrected member |
|---|---|---|---|---|---|---|
| main.go:41 | the title filter is read from the query key `titie` | `GET /books?title=Dune` over the books Dune and Emma lists both | read the key `title` and list only Dune | high; not executed | `BookServer.TitleFilterCounterexample` | `BookServer.IntendedTitleFilters` |

## Left out

- HTTP routing, CORS, request decoding and JSON response writing (main.go:154-169) are outside the model. Handlers take their decoded inputs and return a status and a body.
- Reading and writing books.json (main.go:27-38) is file I/O whose errors are ignored. The constructor takes the loaded table, and saves are not modelled.
- The `bookById` handler (main.go:76-85) only wraps the id lookup and is not modelled separately.
- Concurrent requests are not modelled. The server's handlers share the global slice without a lock. Each handler is modelled as one atomic step.
- A query key given several values is not modelled; the map holds one value per key.
- `GetBooks` returns the table itself when no filter is set, so it aliases the slice. The model returns a value, so the aliasing is not modelled.
- In the client, `fetch` calls, toasts, the add-book form and modal, and building the card markup (static/app.js:11-128, 157-173) are network and UI. They are not modelled beyond the card's badge, count, title, author, checkout state and id.
- The client reads `data.message`, but the server sends the key `Message`. So the client always shows its fallback error text. This is not modelled.
- Overlapping catalog fetches on every keystroke (static/app.js:162-172) are an ordering concern and are not modelled.
- Locale-aware collation is replaced by an arbitrary total preorder. Unicode lower-casing is replaced by ASCII lower-casing.
- Client quantities are integers. A non-integer quantity (a JavaScript number with a fraction, or one beyond 2^53) is not modelled.
- The client generates ids with `Date.now()`. This is not modelled.
- The sort works in place on the fresh array that `filter` returns. The model sorts a sequence value, so the input cannot be mutated by construction, and the in-place update is not modelled.
- SortByTitleOrAuthor: states the order for adjacent books only. Order between any two books follows from the transitivity of the collation, but it is not stated.
