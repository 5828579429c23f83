/** The catalogue import of fetch_open_library_books.py, with every Open
    Library response given as input data: for each subject the list of works
    (absent when the request failed), and for each work its details (absent
    when that request failed) and its editions.  The database is given as the
    category table and the ISBNs already in the catalogue. */
module OpenLibraryImport {
  import opened Wrappers
  import opened TextOps
  import opened Models

  const Subjects: seq<string> := [
    "programming_languages",
    "computer_science",
    "data_science",
    "artificial_intelligence",
    "software_engineering",
    "web_development",
    "database_management",
    "algorithms"
  ]

  /** The import stops once this many books have been added. */
  const MaxBooks: nat := 25

  // ---------------------------------------------------------------- ISBNs

  /** An edition record: each ISBN key is absent (`None`) or holds a list. */
  datatype Edition = Edition(isbn13: Option<seq<string>>, isbn10: Option<seq<string>>)

  /** What one edition yields in `get_book_isbn`: the head of `isbn_13` when
      that key is present, else the head of `isbn_10`.  An empty list raises
      IndexError, which skips the whole edition: an empty `isbn_13` list means
      `isbn_10` is never looked at. */
  function EditionIsbn(e: Edition): Option<string>
  {
    match e.isbn13
    case Some(l13) => if |l13| > 0 then Some(l13[0]) else None
    case None =>
      match e.isbn10
      case Some(l10) => if |l10| > 0 then Some(l10[0]) else None
      case None => None
  }

  /** `get_book_isbn`: the first edition, in order, that yields an ISBN. */
  function GetBookIsbn(editions: seq<Edition>): (r: Option<string>)
    ensures r.None? <==> forall i :: 0 <= i < |editions| ==> EditionIsbn(editions[i]).None?
    ensures r.Some? ==> exists i :: 0 <= i < |editions| && EditionIsbn(editions[i]) == r &&
                                    forall j :: 0 <= j < i ==> EditionIsbn(editions[j]).None?
  {
    if editions == [] then None
    else if EditionIsbn(editions[0]).Some? then EditionIsbn(editions[0])
    else
      var r := GetBookIsbn(editions[1..]);
      assert r.Some? ==> exists i :: 0 <= i < |editions| && EditionIsbn(editions[i]) == r &&
                                     forall j :: 0 <= j < i ==> EditionIsbn(editions[j]).None? by {
        if r.Some? {
          var i :| 0 <= i < |editions[1..]| && EditionIsbn(editions[1..][i]) == r &&
                   forall j :: 0 <= j < i ==> EditionIsbn(editions[1..][j]).None?;
          assert EditionIsbn(editions[i + 1]) == r;
          forall j | 0 <= j < i + 1 ensures EditionIsbn(editions[j]).None? {
            if j > 0 { assert editions[j] == editions[1..][j - 1]; }
          }
        }
      }
      r
  }

  /** Within an edition the first ISBN-13 is preferred to any ISBN-10. */
  lemma Isbn13Preferred(e: Edition, rest: seq<Edition>)
    requires e.isbn13.Some? && |e.isbn13.value| > 0
    ensures GetBookIsbn([e] + rest) == Some(e.isbn13.value[0])
  {
  }

  /** An edition with an empty `isbn_13` list is skipped whole, even when it
      has an ISBN-10. */
  lemma {:induction false} EmptyIsbn13SkipsEdition(e: Edition, rest: seq<Edition>)
    requires e.isbn13 == Some([])
    ensures GetBookIsbn([e] + rest) == GetBookIsbn(rest)
  {
    assert ([e] + rest)[1..] == rest;
  }

  /** Editions are scanned in order: an earlier edition's ISBN-10 beats a later
      edition's ISBN-13. */
  lemma {:induction false} EarlierEditionWins(a: string, b: string)
    ensures GetBookIsbn([Edition(None, Some([a])), Edition(Some([b]), None)]) == Some(a)
  {
    assert EditionIsbn(Edition(None, Some([a]))) == Some(a);
  }

  // ----------------------------------------------------------- categories

  /** `subject.replace('_', ' ').title()` */
  function CategoryName(subject: string): string
  {
    Title(ReplaceChar(subject, '_', ' '))
  }

  /** A category name has the subject's length, no underscore, a space
      exactly where the subject has an underscore or a space, and lower-cases
      like the subject with its underscores made spaces. */
  lemma CategoryNameFacts(subject: string)
    ensures var r := CategoryName(subject);
      && |r| == |subject|
      && '_' !in r
      && (forall i :: 0 <= i < |r| ==> (r[i] == ' ' <==> subject[i] == '_' || subject[i] == ' '))
      && (forall i :: 0 <= i < |r| ==>
            ToLowerChar(r[i]) == ToLowerChar(if subject[i] == '_' then ' ' else subject[i]))
  {
    var spaced := ReplaceChar(subject, '_', ' ');
    var r := Title(spaced);
    forall i | 0 <= i < |r|
      ensures r[i] == ' ' <==> subject[i] == '_' || subject[i] == ' '
      ensures r[i] != '_'
      ensures ToLowerChar(r[i]) == ToLowerChar(if subject[i] == '_' then ' ' else subject[i])
    {
      var c := spaced[i];
      assert c == if subject[i] == '_' then ' ' else subject[i];
      CaseMappingFacts(c);
    }
  }

  /** `f"Books about {category_name.lower()}"` */
  function CategoryDescription(name: string): string
  {
    "Books about " + Lower(name)
  }

  /** `SUBJECTS.index(subject)` */
  function IndexOf(s: seq<string>, x: string): (r: nat)
    requires x in s
    ensures r < |s| && s[r] == x
    ensures forall j :: 0 <= j < r ==> s[j] != x
  {
    if s[0] == x then 0 else 1 + IndexOf(s[1..], x)
  }

  /** The eight subjects, and so their category names, have different
      lengths; hence no two subjects share a category. */
  lemma SubjectNamesDistinct()
    ensures forall i, j :: 0 <= i < j < |Subjects| ==>
      Subjects[i] != Subjects[j] && CategoryName(Subjects[i]) != CategoryName(Subjects[j])
  {
    assert |Subjects[0]| == 21 && |Subjects[1]| == 16 && |Subjects[2]| == 12 && |Subjects[3]| == 23;
    assert |Subjects[4]| == 20 && |Subjects[5]| == 15 && |Subjects[6]| == 19 && |Subjects[7]| == 10;
  }

  /** The row `ensure_categories_exist` creates for the i-th subject when
      its category is missing: `display_order` is `SUBJECTS.index(subject)`. */
  function CategoryRow(subjects: seq<string>, i: nat): Category
    requires i < |subjects|
  {
    var name := CategoryName(subjects[i]);
    Category(name, CategoryDescription(name), IndexOf(subjects, subjects[i]))
  }

  /** The rows it would create, one per subject. */
  function CategoryRows(subjects: seq<string>): (rows: seq<Category>)
    ensures |rows| == |subjects|
  {
    seq(|subjects|, i requires 0 <= i < |subjects| => CategoryRow(subjects, i))
  }

  /** Row i is the category built for subject i. */
  lemma CategoryRowAt(subjects: seq<string>, i: nat)
    requires i < |subjects|
    ensures CategoryRows(subjects)[i] == CategoryRow(subjects, i)
  {
  }

  /** Different keys, and rows with different names. */
  predicate KeysAndNamesDistinct(keys: seq<string>, rows: seq<Category>)
    requires |keys| == |rows|
  {
    forall i, j :: 0 <= i < j < |keys| ==> keys[i] != keys[j] && rows[i].name != rows[j].name
  }

  /** No two of the script's subjects share a name or a category name, and
      each one's new category is ordered by its position. */
  lemma SubjectsDistinct()
    ensures KeysAndNamesDistinct(Subjects, CategoryRows(Subjects))
    ensures forall i :: 0 <= i < |Subjects| ==> CategoryRows(Subjects)[i].displayOrder == i
  {
    var rows := CategoryRows(Subjects);
    SubjectNamesDistinct();
    forall j, k | 0 <= j < k < |Subjects|
      ensures Subjects[j] != Subjects[k] && rows[j].name != rows[k].name
    {
      assert rows[j].name == CategoryName(Subjects[j]);
      assert rows[k].name == CategoryName(Subjects[k]);
    }
    forall i | 0 <= i < |Subjects| ensures rows[i].displayOrder == i {
      assert rows[i] == CategoryRow(Subjects, i);
    }
  }

  /** The category `ensure_categories_exist` gives the i-th key: the row
      already in the table under the name of the i-th row, or else that
      row. */
  function ExpectedCategory(rows: seq<Category>, table: seq<Category>, i: nat): Category
    requires i < |rows|
  {
    match FindCategory(table, rows[i].name)
    case Some(c) => c
    case None => rows[i]
  }

  /** Looking a name up in a table with rows appended. */
  lemma {:induction false} FindCategoryAppend(table: seq<Category>, extra: seq<Category>, name: string)
    requires forall k :: 0 <= k < |extra| ==> extra[k].name != name
    ensures FindCategory(table + extra, name) == FindCategory(table, name)
  {
    if table == [] {
      assert table + extra == extra;
      FindCategoryFirst(extra, name);
    } else {
      assert (table + extra)[1..] == table[1..] + extra;
      FindCategoryAppend(table[1..], extra, name);
    }
  }

  /** The category table after `ensure_categories_exist` has processed the
      first i keys: each missing row name had its row created and flushed. */
  function SeededTable(keys: seq<string>, rows: seq<Category>, table: seq<Category>, i: nat): seq<Category>
    requires |keys| == |rows| && i <= |keys|
  {
    if i == 0 then table
    else
      var t := SeededTable(keys, rows, table, i - 1);
      if FindCategory(t, rows[i - 1].name).None? then t + [rows[i - 1]] else t
  }

  /** The `categories` dictionary after the first i keys: each key maps to
      the row found under its row name, or else to the row just created. */
  function SeededMap(keys: seq<string>, rows: seq<Category>, table: seq<Category>, i: nat): map<string, Category>
    requires |keys| == |rows| && i <= |keys|
  {
    if i == 0 then map[]
    else SeededMap(keys, rows, table, i - 1)[keys[i - 1] := ExpectedCategory(rows, SeededTable(keys, rows, table, i - 1), i - 1)]
  }

  /** The rows appended to `table` while seeding are created rows, each for
      one of the first i keys whose row name `table` lacked. */
  ghost predicate AppendedRowsNew(rows: seq<Category>, table: seq<Category>, grown: seq<Category>, i: nat)
    requires i <= |rows|
  {
    && |table| <= |grown| && grown[..|table|] == table
    && forall k :: |table| <= k < |grown| ==>
         exists j :: 0 <= j < i && FindCategory(table, rows[j].name).None? && grown[k] == rows[j]
  }

  /** One seeding round keeps `AppendedRowsNew`. */
  lemma AppendedRowsStep(keys: seq<string>, rows: seq<Category>, table: seq<Category>, i: nat)
    requires |keys| == |rows| && i < |rows|
    requires AppendedRowsNew(rows, table, SeededTable(keys, rows, table, i), i)
    ensures AppendedRowsNew(rows, table, SeededTable(keys, rows, table, i + 1), i + 1)
  {
    var prev := SeededTable(keys, rows, table, i);
    if FindCategory(prev, rows[i].name).None? {
      var next := prev + [rows[i]];
      // a name missing from the grown table is missing from its prefix
      FindCategoryFirst(prev, rows[i].name);
      FindCategoryFirst(table, rows[i].name);
      assert forall k :: 0 <= k < |table| ==> table[k] == prev[k];
      assert FindCategory(table, rows[i].name).None?;
      forall k | |table| <= k < |next|
        ensures exists j :: 0 <= j < i + 1 && FindCategory(table, rows[j].name).None? && next[k] == rows[j]
      {
        if k == |prev| {
          assert next[k] == rows[i];
        } else {
          assert next[k] == prev[k];
          var j :| 0 <= j < i && FindCategory(table, rows[j].name).None? && prev[k] == rows[j];
        }
      }
    } else {
      assert forall k :: |table| <= k < |prev| ==>
        exists j :: 0 <= j < i && FindCategory(table, rows[j].name).None? && prev[k] == rows[j];
      forall k | |table| <= k < |prev|
        ensures exists j :: 0 <= j < i + 1 && FindCategory(table, rows[j].name).None? && prev[k] == rows[j]
      {
        var j :| 0 <= j < i && FindCategory(table, rows[j].name).None? && prev[k] == rows[j];
      }
      assert AppendedRowsNew(rows, table, prev, i + 1);
    }
  }

  /** Seeding only appends rows, each a created row for a key already
      processed whose name the table lacked. */
  lemma {:induction false} SeededAppends(keys: seq<string>, rows: seq<Category>, table: seq<Category>, i: nat)
    requires |keys| == |rows| && i <= |keys|
    ensures AppendedRowsNew(rows, table, SeededTable(keys, rows, table, i), i)
  {
    if i > 0 {
      SeededAppends(keys, rows, table, i - 1);
      AppendedRowsStep(keys, rows, table, i - 1);
    } else {
      assert table[..|table|] == table;
    }
  }

  /** The i-th row's name is looked up in the seeded table as in the
      original one: the rows appended so far carry other names. */
  lemma SeededLookup(keys: seq<string>, rows: seq<Category>, table: seq<Category>, i: nat)
    requires |keys| == |rows| && i < |keys| && KeysAndNamesDistinct(keys, rows)
    ensures FindCategory(SeededTable(keys, rows, table, i), rows[i].name) == FindCategory(table, rows[i].name)
  {
    SeededAppends(keys, rows, table, i);
    var prev := SeededTable(keys, rows, table, i);
    var extra := prev[|table|..];
    assert prev == table + extra;
    forall k | 0 <= k < |extra| ensures extra[k].name != rows[i].name {
      assert extra[k] == prev[|table| + k];
      var j :| 0 <= j < i && FindCategory(table, rows[j].name).None? && prev[|table| + k] == rows[j];
    }
    FindCategoryAppend(table, extra, rows[i].name);
  }

  /** After the first i keys exactly those keys are mapped. */
  lemma {:induction false} SeededKeys(keys: seq<string>, rows: seq<Category>, table: seq<Category>, i: nat)
    requires |keys| == |rows| && i <= |keys|
    ensures forall j :: 0 <= j < i ==> keys[j] in SeededMap(keys, rows, table, i)
    ensures forall s :: s in SeededMap(keys, rows, table, i) ==> exists j :: 0 <= j < i && keys[j] == s
  {
    if i > 0 {
      SeededKeys(keys, rows, table, i - 1);
      var prev := SeededMap(keys, rows, table, i - 1);
      assert SeededMap(keys, rows, table, i).Keys == prev.Keys + {keys[i - 1]};
    }
  }

  /** After the first i keys each of them is mapped to its expected
      category. */
  lemma {:induction false} SeededCategories(keys: seq<string>, rows: seq<Category>, table: seq<Category>, i: nat)
    requires |keys| == |rows| && i <= |keys| && KeysAndNamesDistinct(keys, rows)
    ensures forall j :: 0 <= j < i ==> keys[j] in SeededMap(keys, rows, table, i) &&
                                       SeededMap(keys, rows, table, i)[keys[j]] == ExpectedCategory(rows, table, j)
  {
    if i > 0 {
      SeededCategories(keys, rows, table, i - 1);
      SeededLookup(keys, rows, table, i - 1);
      var prev := SeededMap(keys, rows, table, i - 1);
      var next := SeededMap(keys, rows, table, i);
      assert next == prev[keys[i - 1] := ExpectedCategory(rows, table, i - 1)];
      forall j | 0 <= j < i - 1
        ensures keys[j] in next && next[keys[j]] == ExpectedCategory(rows, table, j)
      {
        assert keys[j] != keys[i - 1];
      }
    }
  }

  /** Seeding keeps the category names of the table distinct. */
  lemma {:induction false} SeededKeepsNamesUnique(keys: seq<string>, rows: seq<Category>, table: seq<Category>, i: nat)
    requires |keys| == |rows| && i <= |keys|
    requires CategoryNamesUnique(table)
    ensures CategoryNamesUnique(SeededTable(keys, rows, table, i))
  {
    if i > 0 {
      SeededKeepsNamesUnique(keys, rows, table, i - 1);
      var prev := SeededTable(keys, rows, table, i - 1);
      if FindCategory(prev, rows[i - 1].name).None? {
        var r := InsertCategory(prev, rows[i - 1]);
        assert r.Success? && r.value == SeededTable(keys, rows, table, i);
      }
    }
  }

  /** Whatever the subjects, each is mapped to a category of its own
      category name. */
  lemma {:induction false} SeededNames(subjects: seq<string>, table: seq<Category>, i: nat)
    requires i <= |subjects|
    ensures forall s :: s in SeededMap(subjects, CategoryRows(subjects), table, i) ==>
      SeededMap(subjects, CategoryRows(subjects), table, i)[s].name == CategoryName(s)
  {
    if i > 0 {
      SeededNames(subjects, table, i - 1);
      var rows := CategoryRows(subjects);
      var t := SeededTable(subjects, rows, table, i - 1);
      var m := SeededMap(subjects, rows, table, i - 1);
      var c := ExpectedCategory(rows, t, i - 1);
      CategoryRowAt(subjects, i - 1);
      FindCategoryFirst(t, rows[i - 1].name);
      assert c.name == CategoryName(subjects[i - 1]);
      SeedStep(subjects, rows, table, i - 1);
      var grown: map<string, Category> := m[subjects[i - 1] := c];
      forall s | s in grown ensures grown[s].name == CategoryName(s) {
        if s != subjects[i - 1] {
          assert s in m;
        }
      }
    }
  }

  /** What seeding distinct subjects gives: every subject and nothing else
      is mapped, to the category of its name already in the table or else
      the new one, named after the subject; the table only gains new rows
      and keeps its names distinct. */
  lemma SeedingOutcome(subjects: seq<string>, table: seq<Category>)
    requires KeysAndNamesDistinct(subjects, CategoryRows(subjects))
    ensures var categories := SeededMap(subjects, CategoryRows(subjects), table, |subjects|);
      && (forall s :: s in categories <==> s in subjects)
      && (forall i :: 0 <= i < |subjects| ==>
            subjects[i] in categories && categories[subjects[i]] == ExpectedCategory(CategoryRows(subjects), table, i))
      && (forall s :: s in categories ==> categories[s].name == CategoryName(s))
    ensures AppendedRowsNew(CategoryRows(subjects), table, SeededTable(subjects, CategoryRows(subjects), table, |subjects|), |subjects|)
    ensures CategoryNamesUnique(table) ==> CategoryNamesUnique(SeededTable(subjects, CategoryRows(subjects), table, |subjects|))
  {
    var rows := CategoryRows(subjects);
    var categories := SeededMap(subjects, rows, table, |subjects|);
    SeededKeys(subjects, rows, table, |subjects|);
    SeededCategories(subjects, rows, table, |subjects|);
    SeededNames(subjects, table, |subjects|);
    SeededAppends(subjects, rows, table, |subjects|);
    if CategoryNamesUnique(table) {
      SeededKeepsNamesUnique(subjects, rows, table, |subjects|);
    }
    forall s ensures s in categories <==> s in subjects {
      if s in subjects {
        var j :| 0 <= j < |subjects| && subjects[j] == s;
      }
    }
  }

  /** One step of the seeding: the table grows by the key's row exactly
      when its name is not found, and the key maps to what was found or
      created. */
  lemma SeedStep(keys: seq<string>, rows: seq<Category>, table: seq<Category>, i: nat)
    requires |keys| == |rows| && i < |keys|
    ensures var t := SeededTable(keys, rows, table, i);
      && SeededTable(keys, rows, table, i + 1) ==
           (if FindCategory(t, rows[i].name).None? then t + [rows[i]] else t)
      && SeededMap(keys, rows, table, i + 1) ==
           SeededMap(keys, rows, table, i)[keys[i] := ExpectedCategory(rows, t, i)]
  {
  }

  /** One pass of the loop of `ensure_categories_exist`: look the
      subject's category up by name, create and flush it when missing, and
      record it under the subject. */
  method EnsureCategory(subjects: seq<string>, table: seq<Category>, i: nat,
                        categories: map<string, Category>, newTable: seq<Category>)
    returns (categories': map<string, Category>, newTable': seq<Category>)
    requires i < |subjects|
    requires categories == SeededMap(subjects, CategoryRows(subjects), table, i)
    requires newTable == SeededTable(subjects, CategoryRows(subjects), table, i)
    ensures categories' == SeededMap(subjects, CategoryRows(subjects), table, i + 1)
    ensures newTable' == SeededTable(subjects, CategoryRows(subjects), table, i + 1)
  {
    ghost var rows := CategoryRows(subjects);
    var subject := subjects[i];
    var name := CategoryName(subject);
    CategoryRowAt(subjects, i);
    SeedStep(subjects, rows, table, i);
    var existing := FindCategory(newTable, name);
    if existing.None? {
      var created := Category(name, CategoryDescription(name), IndexOf(subjects, subject));
      // the flush never meets the unique index: the name was looked up first
      var inserted := InsertCategory(newTable, created);
      assert inserted.Success?;
      newTable' := inserted.value;
      categories' := categories[subject := created];
    } else {
      newTable' := newTable;
      categories' := categories[subject := existing.value];
    }
  }

  /** `ensure_categories_exist`, over the subject list it is given (the
      script passes `Subjects`): maps each subject to its category, creating
      and flushing the missing ones in order. */
  method EnsureCategoriesExist(subjects: seq<string>, table: seq<Category>)
    returns (categories: map<string, Category>, newTable: seq<Category>)
    ensures categories == SeededMap(subjects, CategoryRows(subjects), table, |subjects|)
    ensures newTable == SeededTable(subjects, CategoryRows(subjects), table, |subjects|)
  {
    categories := map[];
    newTable := table;
    var i := 0;
    while i < |subjects|
      invariant 0 <= i <= |subjects|
      invariant categories == SeededMap(subjects, CategoryRows(subjects), table, i)
      invariant newTable == SeededTable(subjects, CategoryRows(subjects), table, i)
    {
      categories, newTable := EnsureCategory(subjects, table, i, categories, newTable);
      i := i + 1;
    }
  }

  // -------------------------------------------------------------- pricing

  /** The `number_of_pages` field of the work details. */
  datatype PageField = NoPageField | NullPages | Pages(n: int)

  const DefaultPageCount: int := 300

  /** `work_details.get('number_of_pages', 300)`; `None` is a JSON null. */
  function PageCount(f: PageField): Option<int>
  {
    match f
    case NoPageField => Some(DefaultPageCount)
    case NullPages => None
    case Pages(n) => Some(n)
  }

  function Min(a: int, b: int): int { if a <= b then a else b }

  function Max(a: int, b: int): int { if a >= b then a else b }

  /** The base price in cents: 29.99 unless the page count is truthy, then
      19.99 + 0.05 per page, capped at 99.99. */
  function BasePriceCents(pages: Option<int>): (r: int)
    ensures r <= 9999
  {
    match pages
    case Some(n) => if n != 0 then Min(1999 + 5 * n, 9999) else 2999
    case None => 2999
  }

  /** The price rules: a missing page count counts as 300 pages (34.99); a
      null or zero page count keeps 29.99; 1600 pages or more hit the 99.99
      cap; any positive count costs at least 20.04. */
  lemma BasePriceRules(f: PageField)
    ensures f == NoPageField ==> BasePriceCents(PageCount(f)) == 3499
    ensures f == NullPages || f == Pages(0) ==> BasePriceCents(PageCount(f)) == 2999
    ensures f.Pages? && f.n >= 1600 ==> BasePriceCents(PageCount(f)) == 9999
    ensures f.Pages? && 0 < f.n < 1600 ==> BasePriceCents(PageCount(f)) == 1999 + 5 * f.n
    ensures f.Pages? && f.n > 0 ==> 2004 <= BasePriceCents(PageCount(f))
  {
  }

  datatype BookFormat = BookFormat(formatType: string, priceCents: int, stock: int, isbn: string)

  /** The three formats: type, price adjustment in cents, stock, ISBN suffix. */
  const FormatSpecs: seq<(string, int, int, string)> := [
    ("hardcover", 1000, 50, "H"),
    ("paperback", 0, 100, "P"),
    ("ebook", -1000, 999, "E")
  ]

  /** The lowest price a format may have, in cents. */
  const FormatFloorCents: int := 999

  function FormatRow(k: nat, basePriceCents: int, isbn: string): (f: BookFormat)
    requires k < |FormatSpecs|
    ensures f.priceCents >= FormatFloorCents
    ensures f.isbn == isbn + "-" + FormatSpecs[k].3 && |f.isbn| == |isbn| + 2
  {
    var (formatType, adjustment, stock, suffix) := FormatSpecs[k];
    BookFormat(formatType, Max(basePriceCents + adjustment, FormatFloorCents), stock, isbn + "-" + suffix)
  }

  function FormatsFor(basePriceCents: int, isbn: string): seq<BookFormat>
  {
    seq(|FormatSpecs|, k requires 0 <= k < |FormatSpecs| => FormatRow(k, basePriceCents, isbn))
  }

  /** Three formats with distinct ISBNs, the book's ISBN plus -H, -P or -E,
      each priced at 9.99 or more. */
  lemma FormatsShape(basePriceCents: int, isbn: string)
    ensures |FormatsFor(basePriceCents, isbn)| == 3
    ensures forall k :: 0 <= k < 3 ==> FormatsFor(basePriceCents, isbn)[k].priceCents >= FormatFloorCents
    ensures FormatsFor(basePriceCents, isbn)[0] == BookFormat("hardcover", Max(basePriceCents + 1000, 999), 50, isbn + "-H")
    ensures FormatsFor(basePriceCents, isbn)[1] == BookFormat("paperback", Max(basePriceCents, 999), 100, isbn + "-P")
    ensures FormatsFor(basePriceCents, isbn)[2] == BookFormat("ebook", Max(basePriceCents - 1000, 999), 999, isbn + "-E")
    ensures forall k, l :: 0 <= k < l < 3 ==> FormatsFor(basePriceCents, isbn)[k].isbn != FormatsFor(basePriceCents, isbn)[l].isbn
  {
    var fs := FormatsFor(basePriceCents, isbn);
    var n := |isbn| + 1;
    assert fs[0].isbn[n] == 'H' && fs[1].isbn[n] == 'P' && fs[2].isbn[n] == 'E';
  }

  /** The loop that appends the three `BookFormat`s to `book.formats`. */
  method BuildFormats(basePriceCents: int, isbn: string) returns (formats: seq<BookFormat>)
    ensures formats == FormatsFor(basePriceCents, isbn)
  {
    formats := [];
    for k := 0 to |FormatSpecs|
      invariant formats == FormatsFor(basePriceCents, isbn)[..k]
    {
      var (formatType, adjustment, stock, suffix) := FormatSpecs[k];
      var format := BookFormat(formatType, Max(basePriceCents + adjustment, FormatFloorCents), stock, isbn + "-" + suffix);
      formats := formats + [format];
    }
  }

  // ---------------------------------------------------------- admission

  datatype WorkDetails = WorkDetails(numberOfPages: PageField)

  /** A work of a subject listing.  `title` is absent when the key is missing;
      `authors` is absent when the key is missing, and each author's name may
      be missing.  `details` is absent when fetching them failed. */
  datatype Work = Work(title: Option<string>, authors: Option<seq<Option<string>>>,
                       details: Option<WorkDetails>, editions: seq<Edition>)

  /** `work.get('authors', [{'name': 'Unknown'}])[0].get('name', 'Unknown')`;
      an empty author list raises IndexError (`None` here). */
  function AuthorOf(w: Work): (r: Option<string>)
    ensures r.None? <==> w.authors == Some([])
    ensures w.authors.None? ==> r == Some("Unknown")
  {
    match w.authors
    case None => Some("Unknown")
    case Some(names) =>
      if names == [] then None
      else match names[0] case Some(n) => Some(n) case None => Some("Unknown")
  }

  /** The `Book` row the script builds, with its formats. */
  datatype ImportedBook = ImportedBook(title: string, author: string, priceCents: int, stock: int,
                                       category: string, isbn: string, pageCount: Option<int>,
                                       formats: seq<BookFormat>)

  const ImportedStock: int := 50

  /** The book a work would be added as, when its ISBN is new: `None` when
      the details are missing, there is no (or an empty) ISBN, reading the
      title or the author raises, or the commit is refused by the `Book`
      CHECK constraints. */
  function Candidate(w: Work, category: string): (r: Option<ImportedBook>)
    ensures r.Some? ==> w.details.Some? && w.title.Some? && r.value.title == w.title.value
    ensures r.Some? ==> r.value.isbn != "" && r.value.category == category && r.value.stock == ImportedStock
  {
    if w.details.None? then None
    else
      match GetBookIsbn(w.editions)
      case None => None
      case Some(isbn) =>
        if isbn == "" || w.title.None? || AuthorOf(w).None? then None
        else
          var pages := PageCount(w.details.value.numberOfPages);
          var price := BasePriceCents(pages);
          if Book(0, w.title.value, AuthorOf(w).value, price, Some(ImportedStock)).Violation().Some? then None
          else Some(ImportedBook(w.title.value, AuthorOf(w).value, price, ImportedStock, category, isbn, pages,
                                 FormatsFor(price, isbn)))
  }

  /** A committed book's fields: priced at or above zero, stock 50 and three
      formats of at least 9.99. */
  predicate WellFormedBook(b: ImportedBook)
  {
    && 0 <= b.priceCents && b.stock == ImportedStock && |b.formats| == 3
    && forall f :: 0 <= f < 3 ==> b.formats[f].priceCents >= FormatFloorCents
  }

  /** What a candidate book is: the work's first ISBN, the priced row with
      stock 50 that the checks accept, and its three formats. */
  lemma CandidateShape(w: Work, category: string)
    requires Candidate(w, category).Some?
    ensures var b := Candidate(w, category).value;
      && w.details.Some? && GetBookIsbn(w.editions) == Some(b.isbn) && b.isbn != ""
      && b.priceCents == BasePriceCents(PageCount(w.details.value.numberOfPages))
      && 0 < b.priceCents <= 9999 && b.category == category
      && WellFormedBook(b)
  {
    var b := Candidate(w, category).value;
    FormatsShape(b.priceCents, b.isbn);
  }

  function Isbns(books: seq<ImportedBook>): (r: seq<string>)
    ensures |r| == |books| && forall k :: 0 <= k < |books| ==> r[k] == books[k].isbn
  {
    seq(|books|, k requires 0 <= k < |books| => books[k].isbn)
  }

  /** The book came from some work of a subject whose listing was fetched. */
  ghost predicate FromSomeWork(b: ImportedBook, subjects: seq<string>, responses: map<string, seq<Work>>)
  {
    exists i, j :: 0 <= i < |subjects| && subjects[i] in responses && 0 <= j < |responses[subjects[i]]| &&
                   Candidate(responses[subjects[i]][j], CategoryName(subjects[i])) == Some(b)
  }

  /** A work is accounted for when, had it a candidate book, that ISBN is
      now known. */
  ghost predicate AccountedFor(w: Work, category: string, known: seq<string>)
  {
    Candidate(w, category).Some? ==> Candidate(w, category).value.isbn in known
  }

  /** Every work listed for the first `upTo` subjects is accounted for. */
  ghost predicate SubjectsAccountedFor(subjects: seq<string>, responses: map<string, seq<Work>>, upTo: nat, known: seq<string>)
    requires upTo <= |subjects|
  {
    forall i, j :: 0 <= i < upTo && subjects[i] in responses && 0 <= j < |responses[subjects[i]]| ==>
      AccountedFor(responses[subjects[i]][j], CategoryName(subjects[i]), known)
  }

  /** The ISBN bookkeeping of the books committed so far: `known` is the
      catalogue's ISBNs followed by theirs, and their ISBNs are new,
      non-empty and distinct. */
  ghost predicate IsbnLedger(catalogue: seq<string>, books: seq<ImportedBook>, known: seq<string>)
  {
    && known == catalogue + Isbns(books)
    && (forall k :: 0 <= k < |books| ==> books[k].isbn != "" && books[k].isbn !in catalogue)
    && (forall k, l :: 0 <= k < l < |books| ==> books[k].isbn != books[l].isbn)
  }

  /** Each committed book is the well-formed candidate of a fetched work. */
  ghost predicate Provenance(subjects: seq<string>, responses: map<string, seq<Work>>, books: seq<ImportedBook>)
  {
    forall k :: 0 <= k < |books| ==> FromSomeWork(books[k], subjects, responses) && WellFormedBook(books[k])
  }

  /** What holds of the books committed so far. */
  ghost predicate ImportState(subjects: seq<string>, catalogue: seq<string>, responses: map<string, seq<Work>>,
                              books: seq<ImportedBook>, known: seq<string>)
  {
    IsbnLedger(catalogue, books, known) && Provenance(subjects, responses, books)
  }

  /** The body of the loop over a subject's works: the book to commit, if
      any.  The ISBN lookup comes before the title and author are read, so
      an already known ISBN skips the work whatever else it holds. */
  method ImportWork(work: Work, categoryName: string, known: seq<string>) returns (book: Option<ImportedBook>)
    ensures book.Some? <==> Candidate(work, categoryName).Some? && Candidate(work, categoryName).value.isbn !in known
    ensures book.Some? ==> book == Candidate(work, categoryName)
  {
    book := None;
    if work.details.Some? {
      var isbn := GetBookIsbn(work.editions);
      if isbn.Some? && isbn.value != "" && isbn.value !in known && work.title.Some? && AuthorOf(work).Some? {
        var pages := PageCount(work.details.value.numberOfPages);
        var price := BasePriceCents(pages);
        var formats := BuildFormats(price, isbn.value);
        var row := ImportedBook(work.title.value, AuthorOf(work).value, price, ImportedStock,
                                categoryName, isbn.value, pages, formats);
        if Book(0, row.title, row.author, price, Some(ImportedStock)).Violation().None? {
          book := Some(row);
        }
      }
    }
  }

  /** Committing the candidate of work j of subject i keeps `ImportState`. */
  lemma CommitKeepsState(subjects: seq<string>, catalogue: seq<string>, responses: map<string, seq<Work>>,
                         books: seq<ImportedBook>, known: seq<string>, i: nat, j: nat, book: ImportedBook)
    requires ImportState(subjects, catalogue, responses, books, known)
    requires i < |subjects| && subjects[i] in responses && j < |responses[subjects[i]]|
    requires Candidate(responses[subjects[i]][j], CategoryName(subjects[i])) == Some(book)
    requires book.isbn !in known
    ensures ImportState(subjects, catalogue, responses, books + [book], known + [book.isbn])
  {
    CandidateShape(responses[subjects[i]][j], CategoryName(subjects[i]));
    AddBook(catalogue, books, book, known);
    ProvenanceGrows(subjects, responses, books, book, i, j);
  }

  /** A committed candidate extends the provenance of the books. */
  lemma ProvenanceGrows(subjects: seq<string>, responses: map<string, seq<Work>>, books: seq<ImportedBook>,
                        book: ImportedBook, i: nat, j: nat)
    requires Provenance(subjects, responses, books)
    requires i < |subjects| && subjects[i] in responses && j < |responses[subjects[i]]|
    requires Candidate(responses[subjects[i]][j], CategoryName(subjects[i])) == Some(book)
    requires WellFormedBook(book)
    ensures Provenance(subjects, responses, books + [book])
  {
    assert FromSomeWork(book, subjects, responses);
    var books' := books + [book];
    forall k | 0 <= k < |books'| ensures FromSomeWork(books'[k], subjects, responses) && WellFormedBook(books'[k]) {
      if k < |books| {
        assert books'[k] == books[k];
      }
    }
  }

  /** Growing the known ISBNs keeps every work accounted for. */
  lemma AccountedForGrows(subjects: seq<string>, responses: map<string, seq<Work>>, upTo: nat, known: seq<string>, isbn: string)
    requires upTo <= |subjects|
    requires SubjectsAccountedFor(subjects, responses, upTo, known)
    ensures SubjectsAccountedFor(subjects, responses, upTo, known + [isbn])
  {
    forall i, j | 0 <= i < upTo && subjects[i] in responses && 0 <= j < |responses[subjects[i]]|
      ensures AccountedFor(responses[subjects[i]][j], CategoryName(subjects[i]), known + [isbn])
    {
      assert AccountedFor(responses[subjects[i]][j], CategoryName(subjects[i]), known);
    }
  }

  /** Once every work of subject i is accounted for, so are the first i + 1
      subjects. */
  lemma SubjectDone(subjects: seq<string>, responses: map<string, seq<Work>>, i: nat, known: seq<string>)
    requires i < |subjects|
    requires SubjectsAccountedFor(subjects, responses, i, known)
    requires subjects[i] in responses ==>
      forall l :: 0 <= l < |responses[subjects[i]]| ==>
        AccountedFor(responses[subjects[i]][l], CategoryName(subjects[i]), known)
    ensures SubjectsAccountedFor(subjects, responses, i + 1, known)
  {
  }

  /** The loop over the works listed for subject i: commits each candidate
      book with a new ISBN until 25 books have been added in all. */
  method ImportSubject(subjects: seq<string>, responses: map<string, seq<Work>>, catalogue: seq<string>,
                       i: nat, categoryName: string, books: seq<ImportedBook>, known: seq<string>)
    returns (books': seq<ImportedBook>, known': seq<string>)
    requires i < |subjects| && subjects[i] in responses && categoryName == CategoryName(subjects[i])
    requires |books| <= MaxBooks
    requires ImportState(subjects, catalogue, responses, books, known)
    requires SubjectsAccountedFor(subjects, responses, i, known)
    ensures |books| <= |books'| <= MaxBooks && books'[..|books|] == books
    ensures ImportState(subjects, catalogue, responses, books', known')
    ensures SubjectsAccountedFor(subjects, responses, i, known')
    ensures |books'| < MaxBooks ==>
      forall l :: 0 <= l < |responses[subjects[i]]| ==> AccountedFor(responses[subjects[i]][l], categoryName, known')
  {
    var works := responses[subjects[i]];
    books', known' := books, known;
    var j := 0;
    while j < |works| && |books'| < MaxBooks
      invariant 0 <= j <= |works|
      invariant |books| <= |books'| <= MaxBooks && books'[..|books|] == books
      invariant ImportState(subjects, catalogue, responses, books', known')
      invariant SubjectsAccountedFor(subjects, responses, i, known')
      invariant forall l :: 0 <= l < j ==> AccountedFor(works[l], categoryName, known')
    {
      var book := ImportWork(works[j], categoryName, known');
      if book.Some? {
        CommitKeepsState(subjects, catalogue, responses, books', known', i, j, book.value);
        AccountedForGrows(subjects, responses, i, known', book.value.isbn);
        assert (books' + [book.value])[..|books|] == books'[..|books|];
        books' := books' + [book.value];
        known' := known' + [book.value.isbn];
      }
      j := j + 1;
    }
  }

  /** `fetch_and_add_books`, over the subject list it is given (the script
      passes `Subjects`).  Returns the count it returns, the books it
      committed, and the category table afterwards.  Unless the limit of 25
      was reached, every work that had a candidate book with a new ISBN
      was committed. */
  method FetchAndAddBooks(subjects: seq<string>, categoryTable: seq<Category>,
                          responses: map<string, seq<Work>>, catalogue: seq<string>)
    returns (added: nat, books: seq<ImportedBook>, newCategoryTable: seq<Category>)
    ensures added == |books| <= MaxBooks
    ensures forall k :: 0 <= k < |books| ==> books[k].isbn != "" && books[k].isbn !in catalogue
    ensures forall k, l :: 0 <= k < l < |books| ==> books[k].isbn != books[l].isbn
    ensures forall k :: 0 <= k < |books| ==> FromSomeWork(books[k], subjects, responses) && WellFormedBook(books[k])
    ensures added < MaxBooks ==> SubjectsAccountedFor(subjects, responses, |subjects|, catalogue + Isbns(books))
    ensures newCategoryTable == SeededTable(subjects, CategoryRows(subjects), categoryTable, |subjects|)
  {
    var categories;
    categories, newCategoryTable := EnsureCategoriesExist(subjects, categoryTable);
    SeededKeys(subjects, CategoryRows(subjects), categoryTable, |subjects|);
    SeededNames(subjects, categoryTable, |subjects|);
    books := [];
    var known := catalogue;
    var i := 0;
    // The check `added_books >= 25` that ends each pass of either loop is
    // the second half of each loop condition.
    while i < |subjects| && |books| < MaxBooks
      invariant 0 <= i <= |subjects|
      invariant |books| <= MaxBooks
      invariant ImportState(subjects, catalogue, responses, books, known)
      invariant |books| < MaxBooks ==> SubjectsAccountedFor(subjects, responses, i, known)
    {
      var subject := subjects[i];
      if subject in responses {
        var category := categories[subject];
        books, known := ImportSubject(subjects, responses, catalogue, i, category.name, books, known);
      }
      if |books| < MaxBooks {
        SubjectDone(subjects, responses, i, known);
      }
      i := i + 1;
    }
    added := |books|;
  }

  /** Appending a book with a new ISBN keeps the catalogue bookkeeping. */
  lemma AddBook(catalogue: seq<string>, books: seq<ImportedBook>, book: ImportedBook, known: seq<string>)
    requires IsbnLedger(catalogue, books, known)
    requires book.isbn != "" && book.isbn !in known
    ensures IsbnLedger(catalogue, books + [book], known + [book.isbn])
  {
    assert Isbns(books + [book]) == Isbns(books) + [book.isbn];
    forall k | 0 <= k < |books| ensures books[k].isbn != book.isbn {
      assert known[|catalogue| + k] == books[k].isbn;
    }
    var books' := books + [book];
    forall k, l | 0 <= k < l < |books'| ensures books'[k].isbn != books'[l].isbn {
      assert books'[k] == books[k];
      if l < |books| {
        assert books'[l] == books[l];
      }
    }
  }
}
