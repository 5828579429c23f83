/** The session cart of views/cart.py: a dict from book id to quantity kept in
    the user's session.  Within one request the dict keeps insertion order, so
    the cart is a sequence of keys in that order plus the map of quantities.
    Between requests the dict is stored in the session cookie as JSON with
    sorted keys, so the dict `view_cart` loads lists its keys in the string
    order of `str(id)` (see SessionKeys).  Book ids are integers (the session
    stores `str(id)`, and `view_cart` reads them back with `int`).  Prices are
    integer cents. */
module Cart {
  import opened Models
  import opened SessionKeys

  /** The dict as a value: keys in insertion order and their quantities. */
  datatype CartState = CartState(order: seq<int>, quantities: map<int, int>)

  /** The keys listed in `order` are exactly the keys of the map, once each. */
  ghost predicate WellFormed(c: CartState)
  {
    Distinct(c.order) && forall id :: id in c.quantities <==> id in c.order
  }

  function Get(m: map<int, int>, id: int): int
  {
    if id in m then m[id] else 0
  }

  /** `order` without `id`: what `dict.pop` does to the iteration order. */
  function RemoveKey(order: seq<int>, id: int): (r: seq<int>)
    ensures forall x :: x in r <==> x in order && x != id
    ensures Distinct(order) ==> Distinct(r)
    ensures id !in order ==> r == order
  {
    if order == [] then []
    else
      var init := RemoveKey(order[..|order| - 1], id);
      var last := order[|order| - 1];
      assert order == order[..|order| - 1] + [last];
      assert Distinct(order) ==> Distinct(order[..|order| - 1]) && last !in order[..|order| - 1];
      if last == id then init else init + [last]
  }

  /** The dict after `add_to_cart(id, q)`. */
  function Added(c: CartState, id: int, q: int): CartState
  {
    if id in c.quantities then CartState(c.order, c.quantities[id := c.quantities[id] + q])
    else CartState(c.order + [id], c.quantities[id := q])
  }

  /** The dict after `update_cart(id, q)`. */
  function Updated(c: CartState, id: int, q: int): CartState
  {
    if q > 0 then
      if id in c.quantities then CartState(c.order, c.quantities[id := q])
      else CartState(c.order + [id], c.quantities[id := q])
    else CartState(RemoveKey(c.order, id), c.quantities - {id})
  }

  /** `sum(cart_data.values())`, over the keys in order. */
  function Count(order: seq<int>, quantities: map<int, int>): int
  {
    if order == [] then 0
    else Count(order[..|order| - 1], quantities) + Get(quantities, order[|order| - 1])
  }

  /** One displayed line of `view_cart`. */
  datatype CartLine = CartLine(book: Book, quantity: int, total: int)

  /** The lines `view_cart` shows, in dict order; `catalogue` stands for
      `Book.query.get`. */
  function Lines(order: seq<int>, quantities: map<int, int>, catalogue: map<int, Book>): seq<CartLine>
  {
    if order == [] then []
    else
      var init := Lines(order[..|order| - 1], quantities, catalogue);
      var id := order[|order| - 1];
      if id in catalogue then
        init + [CartLine(catalogue[id], Get(quantities, id), catalogue[id].priceCents * Get(quantities, id))]
      else init
  }

  function LinesTotal(lines: seq<CartLine>): int
  {
    if lines == [] then 0 else LinesTotal(lines[..|lines| - 1]) + lines[|lines| - 1].total
  }

  /** The ids of `order` whose book still resolves, in order. */
  function Resolved(order: seq<int>, catalogue: map<int, Book>): (r: seq<int>)
    ensures forall x :: x in r <==> x in order && x in catalogue
    ensures |r| <= |order|
    ensures Distinct(order) ==> Distinct(r)
  {
    if order == [] then []
    else
      var init := Resolved(order[..|order| - 1], catalogue);
      var id := order[|order| - 1];
      assert order == order[..|order| - 1] + [id];
      assert Distinct(order) ==> Distinct(order[..|order| - 1]) && id !in order[..|order| - 1];
      if id in catalogue then init + [id] else init
  }

  /** Where each resolved id sits in `order`: positions strictly increasing,
      so the resolved ids are `order` with some entries dropped and the rest
      in their order. */
  function ResolvedPositions(order: seq<int>, catalogue: map<int, Book>): (idx: seq<int>)
    ensures |idx| == |Resolved(order, catalogue)|
    ensures forall k :: 0 <= k < |idx| ==> 0 <= idx[k] < |order| && order[idx[k]] == Resolved(order, catalogue)[k]
    ensures forall k, l :: 0 <= k < l < |idx| ==> idx[k] < idx[l]
  {
    if order == [] then []
    else
      var init := ResolvedPositions(order[..|order| - 1], catalogue);
      if order[|order| - 1] in catalogue then init + [|order| - 1] else init
  }

  // ------------------------------------------------------------------ lemmas

  /** Adding changes the entry of `id` by exactly `q` (creating it with `q`),
      and no other entry. */
  lemma AddChangesOnlyItsEntry(c: CartState, id: int, q: int)
    requires WellFormed(c)
    ensures WellFormed(Added(c, id, q))
    ensures Added(c, id, q).quantities[id] == if id in c.quantities then c.quantities[id] + q else q
    ensures forall k :: k != id ==> (k in Added(c, id, q).quantities <==> k in c.quantities)
    ensures forall k :: k != id && k in c.quantities ==> Added(c, id, q).quantities[k] == c.quantities[k]
  {
  }

  /** Updating sets the entry of `id` to `q` when `q > 0`, removes it
      otherwise, and touches no other entry. */
  lemma UpdateChangesOnlyItsEntry(c: CartState, id: int, q: int)
    requires WellFormed(c)
    ensures WellFormed(Updated(c, id, q))
    ensures q > 0 ==> id in Updated(c, id, q).quantities && Updated(c, id, q).quantities[id] == q
    ensures q <= 0 ==> id !in Updated(c, id, q).quantities
    ensures forall k :: k != id ==> (k in Updated(c, id, q).quantities <==> k in c.quantities)
    ensures forall k :: k != id && k in c.quantities ==> Updated(c, id, q).quantities[k] == c.quantities[k]
  {
  }

  /** Repeating an update changes nothing. */
  lemma UpdateIdempotent(c: CartState, id: int, q: int)
    requires WellFormed(c)
    ensures Updated(Updated(c, id, q), id, q) == Updated(c, id, q)
  {
  }

  /** Removing a book that is not in the cart leaves the cart as it was. */
  lemma RemoveAbsentIsNoOp(c: CartState, id: int, q: int)
    requires WellFormed(c) && id !in c.quantities && q <= 0
    ensures Updated(c, id, q) == c
  {
    assert c.quantities - {id} == c.quantities;
  }

  /** Setting the quantity of one key moves the count by the difference. */
  lemma {:induction false} CountSet(order: seq<int>, m: map<int, int>, id: int, v: int)
    requires Distinct(order)
    ensures Count(order, m[id := v]) == Count(order, m) + (if id in order then v - Get(m, id) else 0)
  {
    if order != [] {
      var init := order[..|order| - 1];
      var last := order[|order| - 1];
      assert order == init + [last];
      assert Distinct(init);
      CountSet(init, m, id, v);
      assert last == id ==> id !in init;
    }
  }

  /** The `cart_count` after an add is the count before plus the amount added. */
  lemma AddCount(c: CartState, id: int, q: int)
    requires WellFormed(c)
    ensures Count(Added(c, id, q).order, Added(c, id, q).quantities) == Count(c.order, c.quantities) + q
  {
    CountSet(c.order, c.quantities, id, if id in c.quantities then c.quantities[id] + q else q);
    if id !in c.quantities {
      var n := Added(c, id, q).order;
      assert n[..|n| - 1] == c.order;
    }
  }

  /** Each line is the resolving entry's book, its quantity and price × quantity,
      in dict order; entries whose book does not resolve produce no line. */
  lemma {:induction false} LinesAreResolvedEntries(order: seq<int>, quantities: map<int, int>, catalogue: map<int, Book>)
    ensures |Lines(order, quantities, catalogue)| == |Resolved(order, catalogue)|
    ensures forall k :: 0 <= k < |Resolved(order, catalogue)| ==>
      var id := Resolved(order, catalogue)[k];
      Lines(order, quantities, catalogue)[k] ==
        CartLine(catalogue[id], Get(quantities, id), catalogue[id].priceCents * Get(quantities, id))
  {
    if order != [] {
      LinesAreResolvedEntries(order[..|order| - 1], quantities, catalogue);
    }
  }

  /** An entry whose book no longer exists is the same as no entry: the lines,
      and so the total, are those of the cart without it. */
  lemma {:induction false} DeletedBookIgnored(order: seq<int>, quantities: map<int, int>, catalogue: map<int, Book>, id: int)
    requires id !in catalogue
    ensures Lines(order, quantities, catalogue) == Lines(RemoveKey(order, id), quantities - {id}, catalogue)
  {
    if order != [] {
      var init := order[..|order| - 1];
      var last := order[|order| - 1];
      DeletedBookIgnored(init, quantities, catalogue, id);
      LinesAgreeOff(RemoveKey(init, id), quantities, quantities - {id}, catalogue, id);
      if last != id {
        var r := RemoveKey(order, id);
        assert r == RemoveKey(init, id) + [last];
        assert r[..|r| - 1] == RemoveKey(init, id);
      }
    }
  }

  /** Lines depend only on the quantities of keys that are listed. */
  lemma {:induction false} LinesAgreeOff(order: seq<int>, m1: map<int, int>, m2: map<int, int>, catalogue: map<int, Book>, id: int)
    requires id !in order
    requires forall k :: k != id ==> Get(m1, k) == Get(m2, k)
    ensures Lines(order, m1, catalogue) == Lines(order, m2, catalogue)
  {
    if order != [] {
      var init := order[..|order| - 1];
      assert order == init + [order[|order| - 1]];
      LinesAgreeOff(init, m1, m2, catalogue, id);
    }
  }

  /** Dropping entries keeps the key order: ids that come out of a loaded
      session still resolve in ascending key order. */
  lemma ResolvedKeepsSorted(order: seq<int>, catalogue: map<int, Book>)
    requires KeySorted(order)
    ensures KeySorted(Resolved(order, catalogue))
  {
    var r := Resolved(order, catalogue);
    var idx := ResolvedPositions(order, catalogue);
    forall k, l | 0 <= k < l < |r|
      ensures KeyLess(r[k], r[l])
    {
      assert r[k] == order[idx[k]] && r[l] == order[idx[l]];
    }
  }

  /** What `view_cart` lists for a cart that went through the session: one
      line per stored id whose book resolves, in ascending `str(id)` order,
      each id once. */
  lemma ViewedLines(order: seq<int>, quantities: map<int, int>, catalogue: map<int, Book>)
    requires Distinct(order)
    ensures var ids := Resolved(SessionOrder(order), catalogue);
      && KeySorted(ids) && Distinct(ids)
      && (forall x :: x in ids <==> x in order && x in catalogue)
      && |Lines(SessionOrder(order), quantities, catalogue)| == |ids|
  {
    SessionOrderFacts(order);
    ResolvedKeepsSorted(SessionOrder(order), catalogue);
    LinesAreResolvedEntries(SessionOrder(order), quantities, catalogue);
  }

  /** Every key of the loaded dict is a key of the stored one, and none is
      lost. */
  lemma LoadedKeysInCart(c: CartState)
    requires WellFormed(c)
    ensures |SessionOrder(c.order)| == |c.order|
    ensures forall x :: x in SessionOrder(c.order) ==> x in c.quantities
  {
    SameMultiset(SessionOrder(c.order), c.order);
  }

  /** At most one line per key, each priced as price × quantity. */
  lemma {:induction false} LinesShape(order: seq<int>, quantities: map<int, int>, catalogue: map<int, Book>)
    ensures |Lines(order, quantities, catalogue)| <= |order|
    ensures forall i :: 0 <= i < |Lines(order, quantities, catalogue)| ==>
      Lines(order, quantities, catalogue)[i].total ==
        Lines(order, quantities, catalogue)[i].book.priceCents * Lines(order, quantities, catalogue)[i].quantity
  {
    if order != [] {
      LinesShape(order[..|order| - 1], quantities, catalogue);
    }
  }

  /** The loop of `view_cart` over the keys of the loaded dict. */
  method CollectLines(keys: seq<int>, quantities: map<int, int>, catalogue: map<int, Book>)
    returns (lines: seq<CartLine>, total: int)
    requires forall x :: x in keys ==> x in quantities
    ensures lines == Lines(keys, quantities, catalogue)
    ensures total == LinesTotal(lines)
  {
    lines := [];
    total := 0;
    var i := 0;
    while i < |keys|
      invariant 0 <= i <= |keys|
      invariant lines == Lines(keys[..i], quantities, catalogue)
      invariant total == LinesTotal(lines)
    {
      var bookId := keys[i];
      assert keys[..i + 1][..i] == keys[..i];
      if bookId in catalogue {
        var book := catalogue[bookId];
        var quantity := quantities[bookId];
        var itemTotal := book.priceCents * quantity;
        lines := lines + [CartLine(book, quantity, itemTotal)];
        total := total + itemTotal;
      }
      i := i + 1;
    }
    assert keys[..i] == keys;
  }

  // ------------------------------------------------------------ the session

  /** The `session['cart']` dict that the three views load, change and store. */
  class SessionCart {
    var order: seq<int>
    var quantities: map<int, int>

    function State(): CartState
      reads this
    {
      CartState(order, quantities)
    }

    ghost predicate Valid()
      reads this
    {
      WellFormed(State())
    }

    /** `session.get('cart', {})` on a session without a cart. */
    constructor ()
      ensures Valid() && order == [] && quantities == map[]
    {
      order := [];
      quantities := map[];
    }

    /** `add_to_cart`; returns the `cart_count` of the JSON reply. */
    method Add(bookId: int, quantity: int) returns (cartCount: int)
      requires Valid()
      modifies this
      ensures Valid()
      ensures State() == Added(old(State()), bookId, quantity)
      ensures cartCount == Count(order, quantities)
      ensures cartCount == Count(old(order), old(quantities)) + quantity
    {
      ghost var before := State();
      AddChangesOnlyItsEntry(before, bookId, quantity);
      AddCount(before, bookId, quantity);
      if bookId in quantities {
        quantities := quantities[bookId := quantities[bookId] + quantity];
      } else {
        quantities := quantities[bookId := quantity];
        order := order + [bookId];
      }
      assert State() == Added(before, bookId, quantity);
      cartCount := Count(order, quantities);
    }

    /** `update_cart` */
    method Update(bookId: int, quantity: int)
      requires Valid()
      modifies this
      ensures Valid()
      ensures State() == Updated(old(State()), bookId, quantity)
    {
      UpdateChangesOnlyItsEntry(State(), bookId, quantity);
      if quantity > 0 {
        if bookId !in quantities {
          order := order + [bookId];
        }
        quantities := quantities[bookId := quantity];
      } else {
        quantities := quantities - {bookId};
        order := RemoveKey(order, bookId);
      }
    }

    /** `view_cart` on the dict as the session hands it back (keys in
        `str(id)` order): the displayed lines and their total. */
    method View(catalogue: map<int, Book>) returns (lines: seq<CartLine>, total: int)
      requires Valid()
      ensures lines == Lines(SessionOrder(order), quantities, catalogue)
      ensures total == LinesTotal(lines)
      ensures |lines| <= |order|
      ensures forall i :: 0 <= i < |lines| ==> lines[i].total == lines[i].book.priceCents * lines[i].quantity
    {
      var keys := SessionOrder(order);
      LoadedKeysInCart(State());
      LinesShape(keys, quantities, catalogue);
      lines, total := CollectLines(keys, quantities, catalogue);
    }
  }
}
