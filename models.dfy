/** The entities of models.py.  Each CHECK constraint and unique index is
    modelled as what the database does with a row at commit time: a row that
    breaks a CHECK is refused with that constraint's name, a row that repeats
    a unique key is refused with the index's name.  A NULL column satisfies a
    CHECK (SQL three-valued logic), so the two nullable checked columns,
    `Book.stock` and `Order.status`, are `Option`s.  Money is in integer cents;
    dates are integer timestamps; a discount percentage is a real. */
module Models {
  import opened Wrappers

  /** The error a refused commit raises, naming the declared constraint. */
  datatype IntegrityError = CheckViolation(constraint: string) | UniqueViolation(constraint: string)

  // ---------------------------------------------------------------- Category

  datatype Category = Category(name: string, description: string, displayOrder: int)

  /** `Category.name` is declared unique. */
  predicate CategoryNamesUnique(table: seq<Category>)
  {
    forall i, j :: 0 <= i < j < |table| ==> table[i].name != table[j].name
  }

  /** `Category.query.filter_by(name=name).first()` */
  function FindCategory(table: seq<Category>, name: string): (r: Option<Category>)
    ensures r.Some? ==> r.value in table && r.value.name == name
  {
    if table == [] then None
    else if table[0].name == name then Some(table[0])
    else FindCategory(table[1..], name)
  }

  /** The lookup finds nothing exactly when no row has the name, and
      otherwise the first row that has it. */
  lemma {:induction false} FindCategoryFirst(table: seq<Category>, name: string)
    ensures FindCategory(table, name).None? <==> forall i :: 0 <= i < |table| ==> table[i].name != name
    ensures FindCategory(table, name).Some? ==>
      exists i :: 0 <= i < |table| && table[i] == FindCategory(table, name).value && table[i].name == name &&
                  forall j :: 0 <= j < i ==> table[j].name != name
  {
    if table != [] && table[0].name != name {
      FindCategoryFirst(table[1..], name);
      if FindCategory(table, name).Some? {
        var i :| 0 <= i < |table| - 1 && table[1..][i] == FindCategory(table, name).value &&
                 table[1..][i].name == name && forall j :: 0 <= j < i ==> table[1..][j].name != name;
        assert table[i + 1] == FindCategory(table, name).value;
        assert forall j :: 0 <= j < i + 1 ==> table[j].name != name by {
          forall j | 0 <= j < i + 1 ensures table[j].name != name {
            if j > 0 {
              assert table[j] == table[1..][j - 1];
            }
          }
        }
      } else {
        assert forall i :: 1 <= i < |table| ==> table[i] == table[1..][i - 1];
      }
    } else if table != [] {
      assert table[0] == FindCategory(table, name).value;
    }
  }

  /** Committing a new category: refused when its name is taken. */
  function InsertCategory(table: seq<Category>, c: Category): (r: Result<seq<Category>, IntegrityError>)
    ensures r.Success? <==> FindCategory(table, c.name).None?
    ensures r.Success? ==> r.value == table + [c]
    ensures r.Success? && CategoryNamesUnique(table) ==> CategoryNamesUnique(r.value)
  {
    FindCategoryFirst(table, c.name);
    if FindCategory(table, c.name).Some? then Failure(UniqueViolation("category.name"))
    else Success(table + [c])
  }

  // -------------------------------------------------------------------- Book

  const DefaultStock: int := 0

  /** A book row; `stock == None` is a NULL stock column. */
  datatype Book = Book(id: int, title: string, author: string, priceCents: int, stock: Option<int>)
  {
    /** The first CHECK constraint of `Book` this row breaks, if any. */
    function Violation(): (r: Option<IntegrityError>)
      ensures r.None? <==> priceCents >= 0 && (stock.Some? ==> stock.value >= 0)
      ensures r == Some(CheckViolation("check_positive_price")) <==> priceCents < 0
    {
      if priceCents < 0 then Some(CheckViolation("check_positive_price"))
      else if stock.Some? && stock.value < 0 then Some(CheckViolation("check_non_negative_stock"))
      else None
    }
  }

  /** A book created without a stock value gets the column default. */
  function NewBook(id: int, title: string, author: string, priceCents: int): (b: Book)
    ensures b.stock == Some(DefaultStock)
    ensures b.Violation().None? <==> priceCents >= 0
  {
    Book(id, title, author, priceCents, Some(DefaultStock))
  }

  // ---------------------------------------------------------------- Discount

  datatype Discount = Discount(name: string, percentage: real, startDate: int, endDate: int, active: bool)
  {
    function Violation(): (r: Option<IntegrityError>)
      ensures r.None? <==> 0.0 <= percentage <= 100.0 && endDate > startDate
    {
      if !(percentage >= 0.0 && percentage <= 100.0) then Some(CheckViolation("check_valid_percentage"))
      else if !(endDate > startDate) then Some(CheckViolation("check_valid_date_range"))
      else None
    }
  }

  /** A book's link to a discount; `discount` is the related `Discount` row. */
  datatype BookDiscount = BookDiscount(bookId: int, discount: Discount, startDate: int, endDate: int, active: bool)
  {
    function Violation(): (r: Option<IntegrityError>)
      ensures r.None? <==> endDate > startDate
    {
      if !(endDate > startDate) then Some(CheckViolation("check_valid_date_range")) else None
    }
  }

  // ------------------------------------------------------------------- Order

  const StatusChoices: seq<string> := ["pending", "in_process", "payment_pending", "completed", "approved"]

  const DefaultStatus: string := "pending"

  /** An order row; `status == None` is a NULL status column. */
  datatype Order = Order(id: int, userId: int, status: Option<string>, totalCents: int)
  {
    function Violation(): (r: Option<IntegrityError>)
      ensures r.None? <==> (status.Some? ==> status.value in StatusChoices) && totalCents >= 0
    {
      if status.Some? && status.value !in StatusChoices then Some(CheckViolation("check_valid_status"))
      else if totalCents < 0 then Some(CheckViolation("check_positive_total"))
      else None
    }
  }

  /** An order created without a status gets the column default. */
  function NewOrder(id: int, userId: int, totalCents: int): (o: Order)
    ensures o.status == Some(DefaultStatus)
    ensures o.Violation().None? <==> totalCents >= 0
  {
    Order(id, userId, Some(DefaultStatus), totalCents)
  }

  /** Only the five listed strings (or NULL) pass the status check. */
  lemma StatusCheck(o: Order)
    requires o.totalCents >= 0 && o.status.Some?
    ensures o.Violation().None? <==>
      o.status.value in {"pending", "in_process", "payment_pending", "completed", "approved"}
  {
  }

  /** The statuses "processing" and "shipped" are not among the choices, so an
      order carrying one of them is refused. */
  lemma FulfilmentStatusesRefused(o: Order)
    requires o.status == Some("processing") || o.status == Some("shipped")
    ensures o.Violation() == Some(CheckViolation("check_valid_status"))
  {
    assert "processing" != StatusChoices[0] && "processing" != StatusChoices[1];
    assert "shipped" != StatusChoices[0] && "shipped" != StatusChoices[1];
  }

  // --------------------------------------------------------------- OrderItem

  datatype OrderItem = OrderItem(orderId: int, bookId: Option<int>, quantity: int, priceCents: int)
  {
    function Violation(): (r: Option<IntegrityError>)
      ensures r.None? <==> quantity > 0 && priceCents >= 0
    {
      if !(quantity > 0) then Some(CheckViolation("check_positive_quantity"))
      else if priceCents < 0 then Some(CheckViolation("check_valid_price"))
      else None
    }
  }

  // ------------------------------------------------------------------ Review

  datatype Review = Review(userId: int, bookId: int, rating: int)
  {
    function Violation(): (r: Option<IntegrityError>)
      ensures r.None? <==> 1 <= rating <= 5
    {
      if !(rating >= 1 && rating <= 5) then Some(CheckViolation("check_valid_rating")) else None
    }
  }

  /** Every row passes its checks and no (user_id, book_id) pair repeats. */
  predicate ReviewTableValid(table: seq<Review>)
  {
    && (forall i :: 0 <= i < |table| ==> table[i].Violation().None?)
    && (forall i, j :: 0 <= i < j < |table| ==>
          (table[i].userId, table[i].bookId) != (table[j].userId, table[j].bookId))
  }

  function InsertReview(table: seq<Review>, r: Review): (res: Result<seq<Review>, IntegrityError>)
    ensures res.Success? <==>
      1 <= r.rating <= 5 && forall i :: 0 <= i < |table| ==>
        (table[i].userId, table[i].bookId) != (r.userId, r.bookId)
    ensures res.Success? ==> res.value == table + [r]
    ensures res.Success? && ReviewTableValid(table) ==> ReviewTableValid(res.value)
    ensures res.Failure? && 1 <= r.rating <= 5 ==> res.error == UniqueViolation("unique_user_book_review")
  {
    if r.Violation().Some? then Failure(r.Violation().value)
    else if exists i :: 0 <= i < |table| && (table[i].userId, table[i].bookId) == (r.userId, r.bookId)
    then Failure(UniqueViolation("unique_user_book_review"))
    else Success(table + [r])
  }

  // ---------------------------------------------------------------- CartItem

  datatype CartItem = CartItem(userId: int, bookId: int, quantity: int)
  {
    function Violation(): (r: Option<IntegrityError>)
      ensures r.None? <==> quantity > 0
    {
      if !(quantity > 0) then Some(CheckViolation("check_positive_quantity")) else None
    }
  }

  predicate CartItemTableValid(table: seq<CartItem>)
  {
    && (forall i :: 0 <= i < |table| ==> table[i].Violation().None?)
    && (forall i, j :: 0 <= i < j < |table| ==>
          (table[i].userId, table[i].bookId) != (table[j].userId, table[j].bookId))
  }

  function InsertCartItem(table: seq<CartItem>, c: CartItem): (res: Result<seq<CartItem>, IntegrityError>)
    ensures res.Success? <==>
      c.quantity > 0 && forall i :: 0 <= i < |table| ==>
        (table[i].userId, table[i].bookId) != (c.userId, c.bookId)
    ensures res.Success? ==> res.value == table + [c]
    ensures res.Success? && CartItemTableValid(table) ==> CartItemTableValid(res.value)
    ensures res.Failure? && c.quantity > 0 ==> res.error == UniqueViolation("idx_cart_user_book")
  {
    if c.Violation().Some? then Failure(c.Violation().value)
    else if exists i :: 0 <= i < |table| && (table[i].userId, table[i].bookId) == (c.userId, c.bookId)
    then Failure(UniqueViolation("idx_cart_user_book"))
    else Success(table + [c])
  }

  // ---------------------------------------------------------- average_rating

  function SumRatings(reviews: seq<Review>): int
  {
    if reviews == [] then 0 else reviews[0].rating + SumRatings(reviews[1..])
  }

  /** Every rating in 1..5 puts the sum in |reviews|..5*|reviews|. */
  lemma {:induction false} SumRatingsBounds(reviews: seq<Review>)
    requires forall i :: 0 <= i < |reviews| ==> reviews[i].Violation().None?
    ensures |reviews| <= SumRatings(reviews) <= 5 * |reviews|
  {
    if reviews != [] {
      assert reviews[0].Violation().None?;
      SumRatingsBounds(reviews[1..]);
    }
  }

  lemma QuotientBounds(s: real, n: real)
    requires n > 0.0 && n <= s <= 5.0 * n
    ensures 1.0 <= s / n <= 5.0
  {
    var q := s / n;
    assert q * n == s;
    assert (1.0 - q) * n == n - s;
    assert (q - 5.0) * n == s - 5.0 * n;
  }

  /** `Book.average_rating` over the book's reviews. */
  function AverageRating(reviews: seq<Review>): (r: real)
    ensures reviews == [] ==> r == 0.0
    ensures reviews != [] ==> r * (|reviews| as real) == SumRatings(reviews) as real
    ensures reviews != [] && (forall i :: 0 <= i < |reviews| ==> reviews[i].Violation().None?)
      ==> 1.0 <= r <= 5.0
  {
    if reviews == [] then 0.0
    else
      var n := |reviews| as real;
      var s := SumRatings(reviews) as real;
      assert (forall i :: 0 <= i < |reviews| ==> reviews[i].Violation().None?) ==> n <= s <= 5.0 * n by {
        if forall i :: 0 <= i < |reviews| ==> reviews[i].Violation().None? {
          SumRatingsBounds(reviews);
        }
      }
      assert (s / n) * n == s;
      assert n <= s <= 5.0 * n ==> 1.0 <= s / n <= 5.0 by {
        if n <= s <= 5.0 * n {
          QuotientBounds(s, n);
        }
      }
      s / n
  }

  // ----------------------------------------------------------- current_price

  /** The filter of `current_price`: this book, `active`, and not yet ended.
      The start date and the parent discount's own `active` flag are not
      consulted. */
  predicate Applies(d: BookDiscount, bookId: int, now: int)
  {
    d.bookId == bookId && d.active && d.endDate >= now
  }

  /** `.first()` of that filter, over the rows in the order the database
      returns them. */
  function ActiveDiscount(rows: seq<BookDiscount>, bookId: int, now: int): (r: Option<BookDiscount>)
    ensures r.None? <==> forall i :: 0 <= i < |rows| ==> !Applies(rows[i], bookId, now)
    ensures r.Some? ==> (exists i :: 0 <= i < |rows| && rows[i] == r.value && Applies(r.value, bookId, now) &&
                          (forall j :: 0 <= j < i ==> !Applies(rows[j], bookId, now)))
  {
    if rows == [] then None
    else if Applies(rows[0], bookId, now) then Some(rows[0])
    else
      var r := ActiveDiscount(rows[1..], bookId, now);
      assert r.Some? ==> (exists i :: 0 <= i < |rows| && rows[i] == r.value && Applies(r.value, bookId, now) &&
                           (forall j :: 0 <= j < i ==> !Applies(rows[j], bookId, now))) by {
        if r.Some? {
          var i :| 0 <= i < |rows[1..]| && rows[1..][i] == r.value && Applies(r.value, bookId, now) &&
            forall j :: 0 <= j < i ==> !Applies(rows[1..][j], bookId, now);
          assert rows[i + 1] == r.value;
          assert forall j :: 0 <= j < i + 1 ==> !Applies(rows[j], bookId, now) by {
            forall j | 0 <= j < i + 1 ensures !Applies(rows[j], bookId, now) {
              if j > 0 { assert rows[j] == rows[1..][j - 1]; }
            }
          }
        }
      }
      r
  }

  lemma ScaleBounds(p: real, f: real)
    requires p >= 0.0 && 0.0 <= f <= 1.0
    ensures 0.0 <= p * f <= p
  {
    assert p * f <= p * 1.0 by {
      assert p * (1.0 - f) >= 0.0;
    }
  }

  /** The price after a percentage discount of `percentage`. */
  function Discounted(priceCents: int, percentage: real): (r: real)
    ensures priceCents >= 0 && 0.0 <= percentage <= 100.0 ==> 0.0 <= r <= priceCents as real
    ensures percentage == 0.0 ==> r == priceCents as real
    ensures percentage == 100.0 ==> r == 0.0
  {
    var p := priceCents as real;
    var f := 1.0 - percentage / 100.0;
    assert priceCents >= 0 && 0.0 <= percentage <= 100.0 ==> 0.0 <= p * f <= p by {
      if priceCents >= 0 && 0.0 <= percentage <= 100.0 {
        assert 0.0 <= f <= 1.0;
        ScaleBounds(p, f);
      }
    }
    p * f
  }

  /** `Book.current_price` at time `now`, given the `BookDiscount` table. */
  function CurrentPrice(b: Book, rows: seq<BookDiscount>, now: int): (r: real)
    ensures ActiveDiscount(rows, b.id, now).None? ==> r == b.priceCents as real
    ensures ActiveDiscount(rows, b.id, now).Some? ==>
      r == Discounted(b.priceCents, ActiveDiscount(rows, b.id, now).value.discount.percentage)
  {
    match ActiveDiscount(rows, b.id, now)
    case None => b.priceCents as real
    case Some(d) => Discounted(b.priceCents, d.discount.percentage)
  }

  /** A valid book whose applicable discounts all pass their checks is never
      priced below zero or above its list price. */
  lemma CurrentPriceBounds(b: Book, rows: seq<BookDiscount>, now: int)
    requires b.Violation().None?
    requires forall i :: 0 <= i < |rows| ==> rows[i].discount.Violation().None?
    ensures 0.0 <= CurrentPrice(b, rows, now) <= b.priceCents as real
  {
    match ActiveDiscount(rows, b.id, now)
    case None =>
    case Some(d) =>
      var i :| 0 <= i < |rows| && rows[i] == d;
      assert rows[i].discount.Violation().None?;
  }

  /** A discount whose start date lies in the future already lowers the price:
      the filter looks only at the end date. */
  lemma FutureDiscountApplies(b: Book, d: BookDiscount, now: int)
    requires d.bookId == b.id && d.active && d.endDate >= now
    requires d.startDate > now
    ensures CurrentPrice(b, [d], now) == Discounted(b.priceCents, d.discount.percentage)
  {
  }
}
