/** The cart's keys as the session stores them.  views/cart.py keys the cart
    dict by `str(book_id)` and turns a key back into an id with `int`.  Flask's
    default session is a signed cookie holding the session serialized as JSON
    with sorted keys, so the dict a later request loads lists its keys in
    ascending string order (Python compares strings code point by code point,
    a proper prefix first), whatever order they were added in. */
module SessionKeys {

  /** The decimal digit for `d`. */
  function DigitChar(d: int): (c: char)
    requires 0 <= d < 10
    ensures '0' <= c <= '9' && c as int - '0' as int == d
  {
    (d + '0' as int) as char
  }

  /** `str(n)` for a non-negative `n`: decimal digits, no leading zero. */
  function Digits(n: nat): (r: string)
    ensures r != [] && (forall i :: 0 <= i < |r| ==> '0' <= r[i] <= '9')
    ensures r[0] == '0' ==> n == 0
  {
    if n < 10 then [DigitChar(n)] else Digits(n / 10) + [DigitChar(n % 10)]
  }

  /** `str(id)` */
  function StrKey(id: int): (r: string)
    ensures r != []
    ensures id < 0 <==> r[0] == '-'
  {
    if id < 0 then "-" + Digits(-id) else Digits(id)
  }

  /** `int(s)` on a string of decimal digits. */
  function ParseDigits(s: string): int
  {
    if s == [] then 0
    else ParseDigits(s[..|s| - 1]) * 10 + (s[|s| - 1] as int - '0' as int)
  }

  /** `int(s)` on an optionally signed string of decimal digits. */
  function ParseInt(s: string): int
  {
    if s != [] && s[0] == '-' then -ParseDigits(s[1..]) else ParseDigits(s)
  }

  lemma {:induction false} DigitsRoundTrip(n: nat)
    ensures ParseDigits(Digits(n)) == n
  {
    if n >= 10 {
      var d := Digits(n);
      assert d[..|d| - 1] == Digits(n / 10);
      DigitsRoundTrip(n / 10);
    }
  }

  /** `int(str(id)) == id`: the view reads back exactly the id that was
      stored, so two ids never share a key. */
  lemma KeyRoundTrip(id: int)
    ensures ParseInt(StrKey(id)) == id
  {
    if id < 0 {
      assert StrKey(id)[1..] == Digits(-id);
      DigitsRoundTrip(-id);
    } else {
      DigitsRoundTrip(id);
    }
  }

  lemma KeyInjective(a: int, b: int)
    ensures StrKey(a) == StrKey(b) ==> a == b
  {
    KeyRoundTrip(a);
    KeyRoundTrip(b);
  }

  /** Python's `a < b` on strings. */
  predicate StrLess(a: string, b: string)
  {
    b != [] && (a == [] || a[0] < b[0] || (a[0] == b[0] && StrLess(a[1..], b[1..])))
  }

  lemma {:induction false} StrLessIrreflexive(a: string)
    ensures !StrLess(a, a)
  {
    if a != [] {
      StrLessIrreflexive(a[1..]);
    }
  }

  lemma {:induction false} StrLessTransitive(a: string, b: string, c: string)
    requires StrLess(a, b) && StrLess(b, c)
    ensures StrLess(a, c)
  {
    if a != [] && a[0] == b[0] && b[0] == c[0] {
      StrLessTransitive(a[1..], b[1..], c[1..]);
    }
  }

  lemma {:induction false} StrLessTotal(a: string, b: string)
    ensures a == b || StrLess(a, b) || StrLess(b, a)
  {
    if a != [] && b != [] && a[0] == b[0] {
      StrLessTotal(a[1..], b[1..]);
      assert a == [a[0]] + a[1..] && b == [b[0]] + b[1..];
    }
  }

  /** The key order on ids. */
  predicate KeyLess(a: int, b: int)
  {
    StrLess(StrKey(a), StrKey(b))
  }

  /** Keys strictly ascending, as a loaded session lists them. */
  predicate KeySorted(s: seq<int>)
  {
    forall i, j :: 0 <= i < j < |s| ==> KeyLess(s[i], s[j])
  }

  /** `id` placed before the first key that does not sort below it. */
  function Insert(id: int, s: seq<int>): (r: seq<int>)
    ensures multiset(r) == multiset(s) + multiset{id}
  {
    if s == [] then [id]
    else if !KeyLess(s[0], id) then [id] + s
    else
      assert s == [s[0]] + s[1..];
      [s[0]] + Insert(id, s[1..])
  }

  /** The key order of the dict after a round trip through the session. */
  function SessionOrder(order: seq<int>): (r: seq<int>)
    ensures multiset(r) == multiset(order)
  {
    if order == [] then []
    else
      assert order == [order[0]] + order[1..];
      Insert(order[0], SessionOrder(order[1..]))
  }

  lemma {:induction false} InsertSorted(id: int, s: seq<int>)
    requires KeySorted(s) && id !in s
    ensures KeySorted(Insert(id, s))
  {
    if s != [] {
      var k := StrKey(id);
      var k0 := StrKey(s[0]);
      KeyInjective(id, s[0]);
      StrLessTotal(k, k0);
      if !KeyLess(s[0], id) {
        forall j | 0 < j < |s|
          ensures KeyLess(id, s[j])
        {
          StrLessTransitive(k, k0, StrKey(s[j]));
        }
      } else {
        InsertSorted(id, s[1..]);
        var t := Insert(id, s[1..]);
        forall j | 0 <= j < |t|
          ensures KeyLess(s[0], t[j])
        {
          assert t[j] in multiset(s[1..]) + multiset{id};
          if t[j] != id {
            var m :| 0 <= m < |s[1..]| && s[1..][m] == t[j];
            assert s[m + 1] == t[j];
          }
        }
      }
    }
  }

  predicate Distinct(s: seq<int>)
  {
    forall i, j :: 0 <= i < j < |s| ==> s[i] != s[j]
  }

  lemma TailDistinct(s: seq<int>)
    requires s != [] && Distinct(s)
    ensures Distinct(s[1..]) && s[0] !in s[1..]
  {
    forall i, j | 0 <= i < j < |s[1..]|
      ensures s[1..][i] != s[1..][j]
    {
      assert s[1..][i] == s[i + 1] && s[1..][j] == s[j + 1];
    }
    forall i | 0 <= i < |s[1..]|
      ensures s[1..][i] != s[0]
    {
      assert s[1..][i] == s[i + 1];
    }
  }

  /** Sequences with the same multiset have the same length and members. */
  lemma SameMultiset(r: seq<int>, s: seq<int>)
    requires multiset(r) == multiset(s)
    ensures |r| == |s|
    ensures forall x :: x in r <==> x in s
  {
    assert |r| == |multiset(r)| && |s| == |multiset(s)|;
    assert forall x :: x in r <==> x in multiset(r);
    assert forall x :: x in s <==> x in multiset(s);
  }

  lemma SortedDistinct(s: seq<int>)
    requires KeySorted(s)
    ensures Distinct(s)
  {
    forall i, j | 0 <= i < j < |s|
      ensures s[i] != s[j]
    {
      StrLessIrreflexive(StrKey(s[i]));
    }
  }

  lemma {:induction false} SessionOrderSorted(order: seq<int>)
    requires Distinct(order)
    ensures KeySorted(SessionOrder(order))
  {
    if order != [] {
      TailDistinct(order);
      SessionOrderSorted(order[1..]);
      SameMultiset(SessionOrder(order[1..]), order[1..]);
      InsertSorted(order[0], SessionOrder(order[1..]));
    }
  }

  /** A loaded cart lists its keys strictly ascending, each key once, and
      holds exactly the stored keys. */
  lemma SessionOrderFacts(order: seq<int>)
    requires Distinct(order)
    ensures KeySorted(SessionOrder(order)) && Distinct(SessionOrder(order))
    ensures |SessionOrder(order)| == |order|
    ensures forall x :: x in SessionOrder(order) <==> x in order
  {
    SessionOrderSorted(order);
    SortedDistinct(SessionOrder(order));
    SameMultiset(SessionOrder(order), order);
  }

  /** In a sorted list the head is the only copy of itself. */
  lemma SortedTail(x: seq<int>, v: int)
    requires x != [] && KeySorted(x)
    ensures v in x[1..] <==> v in x && v != x[0]
  {
    SortedDistinct(x);
    if v in x && v != x[0] {
      var i :| 0 <= i < |x| && x[i] == v;
      assert x[1..][i - 1] == v;
    }
  }

  lemma SameMembersEmpty(x: seq<int>, y: seq<int>)
    requires forall v :: v in x <==> v in y
    ensures x == [] <==> y == []
  {
    if x != [] {
      var v := x[0];
      assert v in x;
      assert v in y;
    }
    if y != [] {
      var v := y[0];
      assert v in y;
      assert v in x;
    }
  }

  /** Two sorted lists of the same keys start with the same key. */
  lemma SortedHeads(x: seq<int>, y: seq<int>)
    requires x != [] && y != [] && KeySorted(x) && KeySorted(y)
    requires forall v :: v in x <==> v in y
    ensures x[0] == y[0]
  {
    var a, b := x[0], y[0];
    assert a in x && b in y;
    if a != b {
      var j :| 0 <= j < |y| && y[j] == a;
      var i :| 0 <= i < |x| && x[i] == b;
      assert KeyLess(b, a) && KeyLess(a, b);
      StrLessTransitive(StrKey(a), StrKey(b), StrKey(a));
      StrLessIrreflexive(StrKey(a));
    }
  }

  /** Two sorted lists of the same keys are the same list. */
  lemma {:induction false} SortedUnique(x: seq<int>, y: seq<int>)
    requires KeySorted(x) && KeySorted(y)
    requires forall v :: v in x <==> v in y
    ensures x == y
  {
    SameMembersEmpty(x, y);
    if x != [] {
      SortedHeads(x, y);
      forall v
        ensures v in x[1..] <==> v in y[1..]
      {
        SortedTail(x, v);
        SortedTail(y, v);
      }
      SortedUnique(x[1..], y[1..]);
      assert x == [x[0]] + x[1..] && y == [y[0]] + y[1..];
    }
  }

  /** The loaded order depends only on which keys are stored, not on the
      order they were added in. */
  lemma SessionOrderCanonical(a: seq<int>, b: seq<int>)
    requires Distinct(a) && Distinct(b)
    requires forall v :: v in a <==> v in b
    ensures SessionOrder(a) == SessionOrder(b)
  {
    SessionOrderFacts(a);
    SessionOrderFacts(b);
    SortedUnique(SessionOrder(a), SessionOrder(b));
  }

  /** The order a cart shows after a round trip is not the order it was
      filled in: books 2 and then 10 come back as 10, then 2. */
  lemma NumericOrderIsNotKept()
    ensures SessionOrder([2, 10]) == [10, 2]
  {
    assert Digits(2) == "2";
    assert Digits(10) == Digits(1) + [DigitChar(0)] == "10";
    assert KeyLess(10, 2);
    assert SessionOrder([10]) == [10];
  }
}
