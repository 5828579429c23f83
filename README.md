# BookNest core, modelled in Dafny

This project models the logic of the BookNest online bookshop that runs with
no I/O once database and network answers are treated as inputs. It proves
what that logic promises.

- **Session cart** (`views/cart.py`). The cart held in the user's session
  maps book ids to quantities. It is modelled as the class
  `Cart.SessionCart`. Its methods `Add`, `Update` and `View` mirror
  `add_to_cart`, `update_cart` and `view_cart`, and each is proved against a
  pure transition function (`Added`, `Updated`, `Lines`). Within a request
  the class keeps the dictionary's insertion order as a sequence of distinct
  keys beside the map of quantities. Between requests the session stores the
  dictionary as JSON with sorted keys. `view_cart` therefore lists the books
  in ascending order of the key string `str(id)`, so a cart filled with
  book 2 and then book 10 lists 10 first (`SessionKeys`).
- **Entity rules** (`models.py`). Each `CheckConstraint` becomes a
  `Violation()` function on the entity's datatype; it names the constraint
  the database would report. Each unique index becomes an `Insert…`
  function that refuses a duplicate row, for category names, reviews per
  (user, book) and cart items per (user, book). Two derived values are
  modelled in exact arithmetic: `average_rating`, in exact reals, and `current_price`,
  in integer cents times a real factor.
- **Catalogue import** (`fetch_open_library_books.py`). It covers ISBN
  selection over editions, the subject-to-category naming, and the
  get-or-create loop of `ensure_categories_exist` (the method
  `EnsureCategoriesExist`). It also covers the admission loop of
  `fetch_and_add_books` (`FetchAndAddBooks`, `ImportSubject`, `ImportWork`),
  with its 25-book cut-off, and the page-based pricing in cents with the
  three formats. Every Open Library answer is an input.
- **Preview text** (`utils/preview_fetcher.py`). It covers `clean_text`
  (whitespace collapse, strip, noise removal) and the Gutenberg START/END
  marker slicing with the 2000-character cut. It also covers the two HTML
  fragments and the Gutenberg → Google → placeholder fallback of
  `get_preview_content`, with each fetch outcome given as a datatype.
- **Image paths** (`utils/image_optimizer.py`). It covers `os.path.splitext`
  on POSIX paths, the extension whitelist with the `.jpg` fallback, the path
  layout, the size and empty-url guards of `get_optimized_url`, and the
  centring offset used when padding a resized image.

Modules: `Wrappers` (Option, Result), `TextOps` (the Python string methods
used: `lower`, `title`, `replace`, `find`, `rfind`, `strip`, slicing),
`Models`, `SessionKeys` (`str` and `int` on ids, string order, the key order
of a loaded session), `Cart`, `OpenLibraryImport`, `PreviewFetcher`, `ImageOptimizer`.

Facts about the code that shape the model:

- `Order.STATUS_CHOICES` (`models.py:90-100`) allows pending, in_process,
  payment_pending, completed and approved. The model uses exactly this list.
  `Models.FulfilmentStatusesRefused` proves that the database refuses
  `processing` and `shipped`.
- The code has no checkout: no payment authorisation, no order creation
  and no stock decrement. `models.py` declares no payment columns. They are
  added to the `order` table only by `migrations/add_payment_fields.py:7-15`.
  None of this is modelled.
- The session cart (`views/cart.py`) is a separate store from the
  `CartItem` table (`models.py:129-139`). The two are modelled separately.
- Several fields used elsewhere are not defined in `models.py`:
  - `fetch_open_library_books.py` imports `BookFormat` and sets `Book.isbn`,
    `Book.formats` and other fields.
  - `utils/preview_fetcher.py:119` reads `book.isbn`.
  - `update_book_previews.py:17-21` reads and writes `book.preview_content`.

  The import's book row and its formats are therefore the model's own
  datatypes (`ImportedBook`, `BookFormat`), holding the fields the script
  writes. The preview code takes the title, the author and the ISBN as
  parameters.

## Model

| member | source | states |
|---|---|---|
| Cart.SessionCart.constructor | views/cart.py:10 | A session without a cart starts with the empty dictionary. |
| Cart.SessionCart.Add | views/cart.py:29-40 | The new dictionary is `Added(old, id, q)`: the existing entry grows by q, or a new entry appears. The returned `cart_count` equals the sum of all quantities after the add, which is the old sum plus q. |
| Cart.SessionCart.Update | views/cart.py:44-55 | The new dictionary is `Updated(old, id, q)`: the entry is set to q when q > 0 and popped otherwise. The cart stays well formed. |
| Cart.SessionCart.View | views/cart.py:9-25 | The lines are `Lines(SessionOrder(order), quantities, catalogue)`: the loaded dictionary walked in key order. The total is their sum. Each line total is price × quantity, and there are never more lines than entries. |
| Cart.RemoveKey | views/cart.py:52 | Popping a key keeps exactly the other keys and their distinctness. Popping an absent key leaves the order as it was. |
| Cart.Added | views/cart.py:34-37 | `add_to_cart` on the dictionary: the entry grows by q, or a new key is appended with q. The properties are in AddChangesOnlyItsEntry and AddCount. |
| Cart.Updated | views/cart.py:49-52 | `update_cart` on the dictionary: a positive q sets or appends the entry, any other q pops it. The properties are in UpdateChangesOnlyItsEntry and UpdateIdempotent. |
| Cart.Count | views/cart.py:40 | `sum(cart_data.values())` over the keys. The properties are in CountSet and AddCount. |
| Cart.Lines | views/cart.py:14-23 | The lines of `view_cart` for a given key order. The properties are in LinesAreResolvedEntries, LinesShape, DeletedBookIgnored and LinesAgreeOff. |
| Cart.AddChangesOnlyItsEntry | views/cart.py:34-37 | After an add, the entry for the id is the old value + q, or q when it was absent. Every other entry keeps its presence and its value. |
| Cart.UpdateChangesOnlyItsEntry | views/cart.py:49-52 | q > 0 sets the entry to exactly q; q ≤ 0 removes it. Every other entry keeps its presence and its value. |
| Cart.UpdateIdempotent | views/cart.py:49-52 | Repeating the same update changes nothing. |
| Cart.RemoveAbsentIsNoOp | views/cart.py:52 | Updating an absent book with q ≤ 0 leaves the cart unchanged, with no error. |
| Cart.CountSet | views/cart.py:40 | Setting one entry changes the quantity sum by exactly the change of that entry. |
| Cart.AddCount | views/cart.py:34-40 | The quantity sum after an add is the sum before plus q. |
| Cart.Resolved | views/cart.py:14-16 | The ids that resolve are exactly the cart's ids present in the catalogue. Distinct ids stay distinct. |
| Cart.ResolvedPositions | views/cart.py:14-16 | Each resolved id sits at a position of the key order, and the positions strictly increase: the resolved ids keep the keys' order. |
| Cart.ResolvedKeepsSorted | views/cart.py:14-16 | Skipping missing books keeps the ascending key order. |
| Cart.LinesAreResolvedEntries | views/cart.py:14-23 | There is one line per resolving entry, in dictionary order. Each line carries the catalogue's book, the entry's quantity and price × quantity. |
| Cart.DeletedBookIgnored | views/cart.py:15-16 | An entry whose book is gone produces no line and adds nothing: the lines equal those of the cart without that entry. |
| Cart.LinesAgreeOff | views/cart.py:14-23 | The lines depend only on the quantities of ids in the cart. |
| Cart.LinesShape | views/cart.py:14-23 | There is at most one line per key, and each line total is price × quantity. |
| Cart.LoadedKeysInCart | views/cart.py:10-15 | The loaded dictionary has as many keys as the stored one, and each of them has a quantity. |
| Cart.CollectLines | views/cart.py:14-23 | The loop builds exactly `Lines(keys, …)`, and the total is the sum of the line totals. |
| Cart.ViewedLines | views/cart.py:10-23 | After the session round trip, the listed ids are distinct, in ascending `str(id)` order, and exactly the stored ids whose book exists, one line each. |
| SessionKeys.DigitChar | views/cart.py:31 | The character is the decimal digit of the value. |
| SessionKeys.Digits | views/cart.py:31 | `str(n)` for n ≥ 0 is a non-empty string of decimal digits with no leading zero. |
| SessionKeys.StrKey | views/cart.py:31 | `str(id)` is non-empty and starts with `-` exactly for a negative id. |
| SessionKeys.DigitsRoundTrip | views/cart.py:15 | Reading the digits back gives n. |
| SessionKeys.KeyRoundTrip | views/cart.py:15 | `int(str(id)) == id`, so the id `view_cart` reads back is the one stored. |
| SessionKeys.KeyInjective | views/cart.py:31 | Different ids have different keys. |
| SessionKeys.StrLessIrreflexive | views/cart.py:14 | No key sorts below itself. |
| SessionKeys.StrLessTransitive | views/cart.py:14 | String order is transitive. |
| SessionKeys.StrLessTotal | views/cart.py:14 | Of two different strings, one sorts first. |
| SessionKeys.Insert | views/cart.py:14 | Inserting a key adds exactly that key to the multiset of keys. |
| SessionKeys.SessionOrder | views/cart.py:10-14 | The loaded key order is a permutation of the stored keys. |
| SessionKeys.InsertSorted | views/cart.py:14 | Inserting a new key into an ascending list keeps it ascending. |
| SessionKeys.SessionOrderSorted | views/cart.py:10-14 | For distinct keys the loaded order is strictly ascending in `str(id)` order. |
| SessionKeys.SessionOrderFacts | views/cart.py:10-14 | The loaded order is strictly ascending, holds each stored key once, and has as many keys as were stored. |
| SessionKeys.SortedUnique | views/cart.py:14 | Two ascending lists of the same keys are equal. |
| SessionKeys.SessionOrderCanonical | views/cart.py:10-14 | The loaded order depends only on which keys are stored, not on the order they were added in. |
| SessionKeys.NumericOrderIsNotKept | views/cart.py:14 | A cart filled with book 2 and then book 10 comes back as 10, then 2. |
| Models.FindCategoryFirst | fetch_open_library_books.py:31 | `filter_by(name=…).first()` finds nothing exactly when no row has the name. Otherwise it returns the first row with that name. |
| Models.FindCategory | fetch_open_library_books.py:31 | A found category is a row of the table with the name looked up. |
| Models.InsertCategory | models.py:19 | An insert succeeds exactly when the name is new, appends the row, and keeps names unique. |
| Models.Book.Violation | models.py:39-42 | A book passes exactly when price ≥ 0 and its stock, if set, is ≥ 0. A negative price is reported as `check_positive_price`. |
| Models.NewBook | models.py:31 | A new book's stock is the default 0, so it passes exactly when its price is ≥ 0. |
| Models.Discount.Violation | models.py:71-74 | A discount passes exactly when 0 ≤ percentage ≤ 100 and end_date > start_date. |
| Models.BookDiscount.Violation | models.py:84-87 | A book discount passes exactly when end_date > start_date. |
| Models.Order.Violation | models.py:89-102 | An order passes exactly when its status, if set, is in `STATUS_CHOICES` and total ≥ 0. |
| Models.NewOrder | models.py:94 | A new order has status `pending`, which passes the status check; the order passes exactly when total ≥ 0. |
| Models.StatusCheck | models.py:90-100 | With a valid total, a set status passes exactly when it is one of the five listed statuses. |
| Models.FulfilmentStatusesRefused | models.py:90-100 | `processing` and `shipped` are refused as `check_valid_status`. |
| Models.OrderItem.Violation | models.py:111-114 | An order item passes exactly when quantity > 0 and price ≥ 0. |
| Models.Review.Violation | models.py:124-125 | A review passes exactly when 1 ≤ rating ≤ 5. |
| Models.InsertReview | models.py:124-127 | An insert succeeds exactly when the rating is valid and no review exists for the same (user, book). Success appends the row and keeps the table valid. A valid rating that fails is reported as `unique_user_book_review`. |
| Models.CartItem.Violation | models.py:136-137 | A cart item passes exactly when quantity > 0. |
| Models.InsertCartItem | models.py:136-139 | An insert succeeds exactly when quantity > 0 and no row exists for the same (user, book). Success appends the row and keeps the table valid. A positive quantity that fails is reported as `idx_cart_user_book`. |
| Models.SumRatingsBounds | models.py:125 | When every rating is valid, n ≤ the sum of ratings ≤ 5n. |
| Models.QuotientBounds | models.py:48 | n ≤ s ≤ 5n with n > 0 gives a mean in [1, 5]. |
| Models.AverageRating | models.py:44-48 | The average is 0 with no reviews; otherwise average × count = sum. With valid ratings it lies in [1, 5]. |
| Models.ActiveDiscount | models.py:52-56 | The query finds nothing exactly when no row applies: right book, active, not yet ended. Otherwise it returns the first row that applies. |
| Models.Applies | models.py:52-56 | The filter of the discount query: right book, active, and end_date ≥ now. FutureDiscountApplies shows that start_date is not consulted. |
| Models.ScaleBounds | models.py:58 | A non-negative price scaled by a factor in [0, 1] stays in [0, price]. |
| Models.Discounted | models.py:58 | price × (1 − p/100) lies in [0, price] for p in [0, 100]. It is the price at p = 0 and 0 at p = 100. |
| Models.CurrentPrice | models.py:50-59 | With no applying discount the price is returned as is. Otherwise the price is discounted by the first applying row's percentage. |
| Models.CurrentPriceBounds | models.py:50-59 | For a valid book with valid discounts, the current price lies in [0, price]. |
| Models.FutureDiscountApplies | models.py:52-56 | The query does not look at start_date, so a discount that has not started yet already applies. |
| OpenLibraryImport.GetBookIsbn | fetch_open_library_books.py:76-88 | The result is None exactly when no edition yields an ISBN. Otherwise it is what the first yielding edition yields. |
| OpenLibraryImport.Isbn13Preferred | fetch_open_library_books.py:81-82 | Within an edition, the first ISBN-13 wins. |
| OpenLibraryImport.EmptyIsbn13SkipsEdition | fetch_open_library_books.py:81-87 | An empty `isbn_13` list skips the whole edition; its `isbn_10` is not consulted. |
| OpenLibraryImport.EarlierEditionWins | fetch_open_library_books.py:78-85 | An earlier edition's ISBN-10 beats a later edition's ISBN-13. |
| OpenLibraryImport.CategoryNameFacts | fetch_open_library_books.py:30 | A category name has the subject's length and no underscore. It has a space exactly where the subject has `_` or a space, and lower-cases like the subject with `_` made spaces. |
| OpenLibraryImport.CategoryName | fetch_open_library_books.py:30 | `subject.replace('_', ' ').title()`. Its properties are in CategoryNameFacts. |
| OpenLibraryImport.IndexOf | fetch_open_library_books.py:36 | `SUBJECTS.index(subject)` is the first position holding the subject. |
| OpenLibraryImport.SubjectsDistinct | fetch_open_library_books.py:14-36 | The subjects are pairwise distinct and so are their category names, and the category row built for the subject at index i has display_order i. |
| OpenLibraryImport.CategoryRows | fetch_open_library_books.py:33-37 | There is exactly one new-category row per subject. |
| OpenLibraryImport.FindCategoryAppend | fetch_open_library_books.py:31 | Rows with other names added later do not change a lookup. |
| OpenLibraryImport.AppendedRowsStep | fetch_open_library_books.py:32-39 | One pass keeps the table as the old table followed by new rows, each for a subject whose name was missing. |
| OpenLibraryImport.SeededAppends | fetch_open_library_books.py:29-42 | The loop only appends: old rows are kept unmodified, and every added row is a subject's new category whose name was missing. |
| OpenLibraryImport.SeededLookup | fetch_open_library_books.py:31 | Because names are distinct, a subject's lookup sees only rows that existed before the loop. |
| OpenLibraryImport.SeededKeys | fetch_open_library_books.py:29-42 | The dictionary's keys are exactly the subjects processed. |
| OpenLibraryImport.SeededCategories | fetch_open_library_books.py:29-42 | Each subject maps to the pre-existing category of that name when there was one. Otherwise it maps to a new row with the derived name, description and display_order. |
| OpenLibraryImport.SeededKeepsNamesUnique | fetch_open_library_books.py:31-39 | The loop keeps category names unique. |
| OpenLibraryImport.SeededNames | fetch_open_library_books.py:30-42 | Every category in the dictionary has its subject's derived name. |
| OpenLibraryImport.SeedingOutcome | fetch_open_library_books.py:25-46 | For the whole subject list it states: every subject is mapped, existing categories are reused unmodified, new ones take the loop order and name uniqueness is kept. |
| OpenLibraryImport.EnsureCategory | fetch_open_library_books.py:30-42 | One loop pass moves the dictionary and the table from step i to step i + 1. |
| OpenLibraryImport.EnsureCategoriesExist | fetch_open_library_books.py:25-46 | The dictionary and the table it returns are `SeededMap` and `SeededTable` of the whole list. |
| OpenLibraryImport.BasePriceCents | fetch_open_library_books.py:155-158 | The base price never exceeds 99.99. |
| OpenLibraryImport.BasePriceRules | fetch_open_library_books.py:155-158 | A missing page count means 300 pages (34.99). A null or zero count leaves 29.99. Otherwise the price is min(19.99 + 0.05·pages, 99.99). |
| OpenLibraryImport.FormatRow | fetch_open_library_books.py:186-190 | Each format is priced at least 9.99, and its ISBN is the book's ISBN + `-` + suffix. |
| OpenLibraryImport.FormatsShape | fetch_open_library_books.py:181-191 | There are exactly three formats: hardcover, paperback and ebook. They have adjustments +10/0/−10 floored at 9.99, stock 50/100/999, suffixes H/P/E and distinct ISBNs. |
| OpenLibraryImport.FormatsFor | fetch_open_library_books.py:181-191 | The three format rows, one per entry of the format table. Their contents are stated in FormatsShape. |
| OpenLibraryImport.BuildFormats | fetch_open_library_books.py:181-191 | The loop builds exactly `FormatsFor(base, isbn)`. |
| OpenLibraryImport.CandidateShape | fetch_open_library_books.py:131-191 | If a work is admitted, its details were fetched and its ISBN is the work's first, non-empty ISBN. It is priced by its page count within (0, 99.99], has stock 50 and its subject's category, and has three formats of at least 9.99. |
| OpenLibraryImport.Candidate | fetch_open_library_books.py:131-191 | An admitted work had details and a title. Its book takes that title, a non-empty ISBN, the given category and stock 50. |
| OpenLibraryImport.AuthorOf | fetch_open_library_books.py:166 | Reading the author fails exactly for an empty list of authors. A work without an author list gets `Unknown`. |
| OpenLibraryImport.ImportWork | fetch_open_library_books.py:127-191 | A work yields a book exactly when it has a candidate whose ISBN is not yet known, and the book is that candidate. |
| OpenLibraryImport.CommitKeepsState | fetch_open_library_books.py:193-196 | Committing a candidate with a new ISBN keeps the ISBN ledger and the provenance of the added books. |
| OpenLibraryImport.ProvenanceGrows | fetch_open_library_books.py:193-196 | An appended candidate also comes from a fetched work. |
| OpenLibraryImport.AccountedForGrows | fetch_open_library_books.py:142-146 | Learning one more ISBN keeps earlier works accounted for. |
| OpenLibraryImport.SubjectDone | fetch_open_library_books.py:114-123 | When a subject's works are all accounted for, the prefix of subjects grows by one. |
| OpenLibraryImport.ImportSubject | fetch_open_library_books.py:123-205 | The added list only grows, keeps the ISBN ledger and stays within 25. Unless 25 is reached, every work of the subject is accounted for. |
| OpenLibraryImport.FetchAndAddBooks | fetch_open_library_books.py:103-212 | The count returned equals the number of books added, at most 25. Their ISBNs are non-empty, new to the catalogue and pairwise distinct. Each book is a fetched work's well-formed candidate. Unless 25 was reached, every work with an unseen ISBN was added. The category table is seeded first. |
| OpenLibraryImport.AddBook | fetch_open_library_books.py:142-196 | Adding a book with a new, non-empty ISBN keeps the known-ISBN list equal to catalogue + added, with the added ISBNs distinct. |
| TextOps.Lower | utils/image_optimizer.py:29 | `lower()` maps each character and keeps the length. |
| TextOps.Title | fetch_open_library_books.py:30 | `title()` keeps the length, lower-cases a character that follows a cased letter and upper-cases every other one. |
| TextOps.ReplaceChar | fetch_open_library_books.py:30 | `replace('_', ' ')` swaps exactly the matching characters. |
| TextOps.Find | utils/preview_fetcher.py:51 | `find` is −1 exactly when the pattern never occurs; otherwise it is the first occurrence. |
| TextOps.RFind | utils/image_optimizer.py:29 | It gives the last position of a character, or −1. |
| TextOps.LastSegment | utils/preview_fetcher.py:42 | `split('/')[-1]` is a suffix with no separator. It is the whole string or is preceded by a separator, so it is the longest such suffix. |
| TextOps.Strip | utils/preview_fetcher.py:18 | `strip()` leaves no whitespace at either end and never lengthens. |
| TextOps.StripSlice | utils/preview_fetcher.py:18 | `strip()` removes only whitespace, and only from the ends. |
| TextOps.StripKeepsStripped | utils/preview_fetcher.py:18 | Stripping text whose ends are not whitespace changes nothing. |
| TextOps.Take | utils/preview_fetcher.py:58 | `[:n]` is the prefix of length exactly min(len, n). |
| PreviewFetcher.CollapseEnd | utils/preview_fetcher.py:18 | Collapsing keeps whether the text ends in whitespace. |
| PreviewFetcher.Collapse | utils/preview_fetcher.py:18 | Collapsing never lengthens. Its meaning is stated in CollapseRun, CollapseSpacing and CollapseKeepsText. |
| PreviewFetcher.CollapseTrailingRun | utils/preview_fetcher.py:18 | A whitespace run at the end of a text becomes one space. |
| PreviewFetcher.CollapseConcat | utils/preview_fetcher.py:18 | Text that starts with a non-whitespace character collapses independently of what comes before it. |
| PreviewFetcher.CollapseRun | utils/preview_fetcher.py:18 | A maximal whitespace run between two texts becomes exactly one space: `Collapse(a + w + b) == Collapse(a) + " " + Collapse(b)`. |
| PreviewFetcher.CollapseSpacing | utils/preview_fetcher.py:18 | After `re.sub(r'\s+', ' ')` the only whitespace is single spaces, never two adjacent. |
| PreviewFetcher.CollapseKeepsText | utils/preview_fetcher.py:18 | Collapsing keeps every non-whitespace character, in order. |
| PreviewFetcher.CollapseKeepsCollapsed | utils/preview_fetcher.py:18 | Collapsing already-collapsed text changes nothing. |
| PreviewFetcher.NormalizeFacts | utils/preview_fetcher.py:18 | After the whitespace step there is no leading or trailing whitespace, no two adjacent whitespace characters, and only plain spaces. |
| PreviewFetcher.NormalizeKeepsNormalized | utils/preview_fetcher.py:18 | Normalised text is a fixed point of the whitespace step. |
| PreviewFetcher.NormalizeIdempotent | utils/preview_fetcher.py:18 | The whitespace step is idempotent. |
| PreviewFetcher.Normalize | utils/preview_fetcher.py:18 | The whitespace step never lengthens. Its properties are in NormalizeFacts and NormalizeIdempotent. |
| PreviewFetcher.RemoveNoise | utils/preview_fetcher.py:20 | Removing noise never lengthens and leaves none of `* _ # [ ]`. |
| PreviewFetcher.CleanText | utils/preview_fetcher.py:13-21 | `clean_text` returns "" for None or "". Its output is never longer than the input and holds none of `* _ # [ ]`. |
| PreviewFetcher.RemoveNoiseKeepsClean | utils/preview_fetcher.py:20 | Text without noise is unchanged, so noise removal is idempotent. |
| PreviewFetcher.RemoveNoiseConcat | utils/preview_fetcher.py:20 | Noise removal works character by character: it distributes over concatenation. |
| PreviewFetcher.NoiseLeavesAdjacentSpaces | utils/preview_fetcher.py:18-20 | "x * y" cleans to "x  y": the no-adjacent-spaces property of the whitespace step is lost in the final output. |
| PreviewFetcher.EndNotInsideStart | utils/preview_fetcher.py:51-54 | `*** END OF` cannot start inside the kept `*** START OF` marker. |
| PreviewFetcher.SliceBetween | utils/preview_fetcher.py:51-56 | The sliced content is never longer than the text. Its placement is stated in SliceBetweenPlace and SliceBetweenContents. |
| PreviewFetcher.SliceMarkers | utils/preview_fetcher.py:51-56 | The slicing with the real START and END markers. It is stated in SliceMarkersSpec. |
| PreviewFetcher.SliceBetweenPlace | utils/preview_fetcher.py:51-56 | The sliced content is the whole text when START is absent. Otherwise it is a slice that begins at START's first occurrence and ends at the text's end or just before an END. |
| PreviewFetcher.SliceBetweenContents | utils/preview_fetcher.py:51-56 | The sliced content holds no END. It keeps the START marker whenever the END it was cut at does not overlap START. |
| PreviewFetcher.SliceMarkersSpec | utils/preview_fetcher.py:51-56 | With the real markers: the text is whole when START is absent. Otherwise the slice begins with `*** START OF` at its first occurrence, stops just before the first later `*** END OF`, and contains no END. |
| PreviewFetcher.GutenbergText | utils/preview_fetcher.py:58 | The preview text is noise-free. It is the prefix of the cleaned slice of length exactly min(its length, 2000). |
| PreviewFetcher.PreviewTextReadBack | utils/preview_fetcher.py:60-106 | The preview text sits verbatim right after each fragment's fixed head. |
| PreviewFetcher.BookId | utils/preview_fetcher.py:42 | The book id is the href's longest `/`-free suffix: the whole href or the part after its last `/`. |
| PreviewFetcher.SearchQuery | utils/preview_fetcher.py:28 | The query is the title, `+`, then the author, each with every space replaced by `+` and every other character kept. It holds no space. |
| PreviewFetcher.GutenbergPreview | utils/preview_fetcher.py:23-72 | A preview exists exactly when a book link was found and the text fetch returned 200. It is then the Gutenberg fragment around the sliced, cleaned, cut text: non-empty and not the placeholder. |
| PreviewFetcher.GooglePreview | utils/preview_fetcher.py:75-110 | A preview exists only for a 200 answer whose first item has a non-empty description. It is then the Google fragment around the cleaned description, with the link block only for a truthy link: non-empty and not the placeholder. |
| PreviewFetcher.GooglePreviewFound | utils/preview_fetcher.py:79-106 | Conversely, such an answer always yields the fragment. |
| PreviewFetcher.ChoosePreview | utils/preview_fetcher.py:116-126 | A truthy Gutenberg result wins. Next comes a truthy Google result, but only with an ISBN. Otherwise the placeholder is returned. The result is never empty. |
| PreviewFetcher.GetPreviewContent | utils/preview_fetcher.py:113-126 | The content is never None and never empty. |
| PreviewFetcher.ChoiceFallback | utils/preview_fetcher.py:116-126 | Given real previews, the placeholder is shown exactly when Gutenberg gave nothing and Google was not tried or gave nothing. |
| PreviewFetcher.PreviewFallback | utils/preview_fetcher.py:113-126 | `get_preview_content` returns the Gutenberg preview if any, else the Google preview when there is an ISBN. The placeholder appears exactly when neither applies. |
| PreviewFetcher.NoIsbnIgnoresGoogle | utils/preview_fetcher.py:119 | Without an ISBN the Google answer does not matter. |
| PreviewFetcher.GutenbergFirst | utils/preview_fetcher.py:119 | With a Gutenberg preview the Google answer does not matter. |
| ImageOptimizer.SplitExt | utils/image_optimizer.py:29 | `splitext` splits the url into root + ext. A non-empty ext is the last dot of the last component onwards, holding no `/` and no other dot, and the component has a non-dot before that dot. Otherwise the ext is empty. |
| ImageOptimizer.Extension | utils/image_optimizer.py:29-31 | The extension is always one of the four allowed ones: the lowered `splitext` suffix when allowed, else `.jpg`. |
| ImageOptimizer.GetOptimizedPath | utils/image_optimizer.py:20-34 | The path is None exactly for a None or empty url. Otherwise it is `static/optimized/` + size + `/` + md5(url) + ext, so equal inputs give equal paths. |
| ImageOptimizer.PathShape | utils/image_optimizer.py:26-34 | Every path lies under `static/optimized/<size>/` and ends in an allowed extension. |
| ImageOptimizer.QueryStringForcesJpg | utils/image_optimizer.py:29-31 | An extension that contains a query string is never allowed, so the file is stored as `.jpg`. |
| ImageOptimizer.QueryStringExample | utils/image_optimizer.py:29-31 | `cover.png?w=1` is stored as `.jpg`. |
| ImageOptimizer.UpperCaseExample | utils/image_optimizer.py:29 | `COVER.PNG` is stored as `.png`. |
| ImageOptimizer.LeadingDotExample | utils/image_optimizer.py:29 | `.bashrc` has no extension. |
| ImageOptimizer.SizesKeepPathsApart | utils/image_optimizer.py:34 | Two different sizes never share a path. |
| ImageOptimizer.EffectiveSize | utils/image_optimizer.py:84-85 | The size used is always one of `SIZES`: the given one when it is valid, `medium` exactly otherwise. |
| ImageOptimizer.GetOptimizedUrl | utils/image_optimizer.py:78-118 | An empty or None url is returned unchanged. A cached or freshly created file gives `/` + its path. A failed fetch or save gives back the original url. |
| ImageOptimizer.UnknownSizeIsMedium | utils/image_optimizer.py:84-85 | Any size outside `SIZES` behaves exactly like `medium`. |
| ImageOptimizer.OptimizedUrlShape | utils/image_optimizer.py:78-118 | The url handed out is the original or `/` + the path for some known size. |
| ImageOptimizer.PasteOffset | utils/image_optimizer.py:71-72 | The offset is (target − new) div 2: twice it is within one pixel of the slack. |
| ImageOptimizer.PasteOffsetFits | utils/image_optimizer.py:70-73 | With new ≤ target, the offset lies in [0, target − new] and the image is centred to within one pixel. |
| ImageOptimizer.PastePosition | utils/image_optimizer.py:56-72 | `paste_pos` is the offset on each axis of the size's box. |
| ImageOptimizer.PastedImageOnCanvas | utils/image_optimizer.py:70-73 | The resized image lies wholly on the white canvas. |

## Left out

- Network I/O: every `requests` call, BeautifulSoup parsing and the `time.sleep` rate limiting. Each fetch outcome is input data: subject listings, work details, editions, Gutenberg search and text answers, and Google Books answers.
- The Gutenberg search-page parse (`soup.find`) is replaced by its outcome: no result, a result without a link, or the link's href.
- Flask routing, the session object, `request.json` and `jsonify`. `int(request.json['quantity'])` is taken as an already parsed integer.
- Book ids in the session: a key is `str(id)` of an integer id (`SessionKeys.StrKey`). A `book_id` in the request JSON that is not an integer (a string such as `"07"`) would give a key that is not canonical. That case is not modelled.
- Flask's cookie session is modelled only through the key order it gives a loaded dictionary (`SessionOrder`). Signing, the cookie size limit and the JSON encoding of values are not modelled.
- SQLAlchemy sessions (add, flush, commit, rollback) and exception handling around them. A `.first()` query is modelled as the first matching row in table order.
- Floating point: prices are integer cents, the discount factor and the average rating are exact reals, and float rounding is not modelled.
- `parse_date`, publisher, language, tags, description and cover-url fields of an imported book: they use the clock, `strptime` or only copy input fields.
- An empty details dictionary from Open Library is treated like a failed fetch: both are falsy in `if not work_details`.
- `work['key']` and `work['title']`: a missing title is modelled as the work being skipped. The key is only used for fetching.
- `SUBJECTS` is a constant, but the import operations take the subject list as a parameter; `SubjectsDistinct` proves the facts about the real list.
- The MD5 digest is the parameter `md5Hex`: `hashlib` is foreign code.
- PIL (open, convert, LANCZOS resize, save), `QUALITY`, `ensure_dirs` and `os.path.exists`. Whether the file is cached and whether creating it succeeded are inputs to `GetOptimizedUrl`. `new_size` is an input, and the float `ratio` that computes it is not modelled.
- Case mapping is ASCII only. For the whitelist this is exact, since no other character lower-cases to the letters of `.jpg .jpeg .png .webp`. Non-ASCII letters in subject names are not modelled.
- The Google request is evaluated whether or not it is needed. `NoIsbnIgnoresGoogle` and `GutenbergFirst` prove its answer then does not matter, which is why it is not modelled lazily.
- The checkout engine, payment authorisation, order creation and stock decrement: none of them exists in the modelled code.
- Column lengths (`db.String(n)`, such as a 50-character category name or a 20-character order status) are not modelled. Strings are unbounded, and the database's length limits are not enforced in the model.
- ImageOptimizer.GetOptimizedUrl: the `if not opt_path` guard cannot fire once the url is truthy, so the model has no separate branch for it.
- OpenLibraryImport.FetchAndAddBooks: does not state which books are chosen when more than 25 qualify. It states provenance, ISBN uniqueness and completeness below the limit.
- OpenLibraryImport.ImportWork: an exception raised while building the row (an empty author list) skips the work, as the `except` does. Other exceptions that Python could raise there are not modelled.
