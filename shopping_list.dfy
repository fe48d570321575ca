/** The shopping-list download of api/utils.py: the ingredient lines of every
    recipe in a user's cart, grouped by (ingredient name, unit) with their
    amounts summed, rendered as a plain-text list. */
module ShoppingList {
  import opened Common
  import opened Seqs
  import opened Models

  /** One row of the `.values('ingredient__name', 'ingredient__measurement_unit')`
      query: a line joined with its ingredient's name and unit. */
  datatype Entry = Entry(name: string, unit: string, amount: int)

  /** The grouping key of the query. */
  type Key = (string, string)

  function KeyOf(e: Entry): Key {
    (e.name, e.unit)
  }

  // ----- Specification of the grouping -----

  /** The keys occurring in s. */
  function Keys(s: seq<Entry>): set<Key> {
    if s == [] then {} else {KeyOf(s[0])} + Keys(s[1..])
  }

  /** The sum of the amounts of the entries of s under key k. */
  function Total(s: seq<Entry>, k: Key): int {
    if s == [] then 0 else (if KeyOf(s[0]) == k then s[0].amount else 0) + Total(s[1..], k)
  }

  /** The sum of all amounts of s. */
  function SumAmounts(s: seq<Entry>): int {
    if s == [] then 0 else s[0].amount + SumAmounts(s[1..])
  }

  lemma {:induction false} KeysContain(s: seq<Entry>)
    ensures forall y :: y in s ==> KeyOf(y) in Keys(s)
  {
    if s != [] {
      KeysContain(s[1..]);
      forall y | y in s ensures KeyOf(y) in Keys(s) {
        if y != s[0] {
          assert y in s[1..];
        }
      }
    }
  }

  lemma {:induction false} KeysWitness(s: seq<Entry>, k: Key)
    requires k in Keys(s)
    ensures exists y :: y in s && KeyOf(y) == k
  {
    if KeyOf(s[0]) != k {
      KeysWitness(s[1..], k);
      var y :| y in s[1..] && KeyOf(y) == k;
      assert y in s;
    }
  }

  /** A key that does not occur contributes nothing. */
  lemma {:induction false} TotalAbsent(s: seq<Entry>, k: Key)
    requires k !in Keys(s)
    ensures Total(s, k) == 0
  {
    if s != [] {
      TotalAbsent(s[1..], k);
    }
  }

  lemma {:induction false} TotalConcat(a: seq<Entry>, b: seq<Entry>, k: Key)
    ensures Total(a + b, k) == Total(a, k) + Total(b, k)
  {
    if a != [] {
      assert (a + b)[1..] == a[1..] + b;
      TotalConcat(a[1..], b, k);
    } else {
      assert a + b == b;
    }
  }

  // ----- The grouping itself -----

  /** Adds e into the row of its key, or appends a new row when none has it. */
  function Merge(rows: seq<Entry>, e: Entry): seq<Entry> {
    if rows == [] then [e]
    else if KeyOf(rows[0]) == KeyOf(e) then [rows[0].(amount := rows[0].amount + e.amount)] + rows[1..]
    else [rows[0]] + Merge(rows[1..], e)
  }

  /** Merges every item, in order, into rows. */
  function GroupFrom(rows: seq<Entry>, items: seq<Entry>): seq<Entry>
    decreases |items|
  {
    if items == [] then rows else GroupFrom(Merge(rows, items[0]), items[1..])
  }

  /** `.values(name, unit).annotate(Sum('amount'))`: one row per key, in order
      of first occurrence. */
  function Aggregate(s: seq<Entry>): (r: seq<Entry>)
    ensures DistinctBy(r, KeyOf)
    ensures Keys(r) == Keys(s)
  {
    GroupFromSpec([], s);
    GroupFrom([], s)
  }

  lemma {:induction false} MergeTotal(rows: seq<Entry>, e: Entry, k: Key)
    ensures Total(Merge(rows, e), k) == Total(rows, k) + (if KeyOf(e) == k then e.amount else 0)
  {
    if rows == [] {
      assert [e][1..] == [];
    } else if KeyOf(rows[0]) == KeyOf(e) {
      var m := Merge(rows, e);
      assert m[1..] == rows[1..];
    } else {
      var m := Merge(rows, e);
      assert m[1..] == Merge(rows[1..], e);
      MergeTotal(rows[1..], e, k);
    }
  }

  lemma {:induction false} MergeKeys(rows: seq<Entry>, e: Entry)
    ensures Keys(Merge(rows, e)) == Keys(rows) + {KeyOf(e)}
    ensures forall y :: y in Merge(rows, e) ==> y in rows || KeyOf(y) == KeyOf(e)
  {
    if rows == [] {
      assert [e][1..] == [];
    } else if KeyOf(rows[0]) == KeyOf(e) {
      var m := Merge(rows, e);
      assert m[1..] == rows[1..];
      forall y | y in m ensures y in rows || KeyOf(y) == KeyOf(e) {
        if y != m[0] {
          assert y in m[1..];
        }
      }
    } else {
      var m := Merge(rows, e);
      assert m[1..] == Merge(rows[1..], e);
      MergeKeys(rows[1..], e);
      forall y | y in m ensures y in rows || KeyOf(y) == KeyOf(e) {
        if y != m[0] {
          assert y in m[1..];
        }
      }
    }
  }

  lemma {:induction false} MergeDistinct(rows: seq<Entry>, e: Entry)
    requires DistinctBy(rows, KeyOf)
    ensures DistinctBy(Merge(rows, e), KeyOf)
  {
    if rows == [] {
    } else if KeyOf(rows[0]) == KeyOf(e) {
      assert rows == [rows[0]] + rows[1..];
      DistinctByCons(rows[0], rows[1..], KeyOf);
      DistinctByCons(rows[0].(amount := rows[0].amount + e.amount), rows[1..], KeyOf);
    } else {
      assert rows == [rows[0]] + rows[1..];
      DistinctByCons(rows[0], rows[1..], KeyOf);
      MergeDistinct(rows[1..], e);
      MergeKeys(rows[1..], e);
      DistinctByCons(rows[0], Merge(rows[1..], e), KeyOf);
    }
  }

  lemma {:induction false} MergeSum(rows: seq<Entry>, e: Entry)
    ensures SumAmounts(Merge(rows, e)) == SumAmounts(rows) + e.amount
  {
    if rows == [] {
      assert [e][1..] == [];
    } else if KeyOf(rows[0]) == KeyOf(e) {
      assert Merge(rows, e)[1..] == rows[1..];
    } else {
      assert Merge(rows, e)[1..] == Merge(rows[1..], e);
      MergeSum(rows[1..], e);
    }
  }

  lemma {:induction false} GroupFromSpec(rows: seq<Entry>, items: seq<Entry>)
    requires DistinctBy(rows, KeyOf)
    ensures DistinctBy(GroupFrom(rows, items), KeyOf)
    ensures Keys(GroupFrom(rows, items)) == Keys(rows) + Keys(items)
    ensures forall k :: Total(GroupFrom(rows, items), k) == Total(rows, k) + Total(items, k)
    ensures SumAmounts(GroupFrom(rows, items)) == SumAmounts(rows) + SumAmounts(items)
    decreases |items|
  {
    if items != [] {
      var m := Merge(rows, items[0]);
      MergeDistinct(rows, items[0]);
      MergeKeys(rows, items[0]);
      MergeSum(rows, items[0]);
      forall k ensures Total(m, k) == Total(rows, k) + (if KeyOf(items[0]) == k then items[0].amount else 0) {
        MergeTotal(rows, items[0], k);
      }
      GroupFromSpec(m, items[1..]);
    }
  }

  /** The grouping loses no key, adds none, keeps one row per key, keeps every
      key's total and the grand total, and turns no lines into no rows. */
  lemma AggregateSpec(s: seq<Entry>)
    ensures DistinctBy(Aggregate(s), KeyOf)
    ensures Keys(Aggregate(s)) == Keys(s)
    ensures forall k :: Total(Aggregate(s), k) == Total(s, k)
    ensures SumAmounts(Aggregate(s)) == SumAmounts(s)
    ensures s == [] ==> Aggregate(s) == []
  {
    GroupFromSpec([], s);
  }

  /** In rows with distinct keys a row's amount is its key's total. */
  lemma {:induction false} TotalOfDistinct(rows: seq<Entry>, r: Entry)
    requires DistinctBy(rows, KeyOf) && r in rows
    ensures Total(rows, KeyOf(r)) == r.amount
  {
    assert rows == [rows[0]] + rows[1..];
    DistinctByCons(rows[0], rows[1..], KeyOf);
    if rows[0] == r {
      if KeyOf(r) in Keys(rows[1..]) {
        KeysWitness(rows[1..], KeyOf(r));
      }
      TotalAbsent(rows[1..], KeyOf(r));
    } else {
      assert r in rows[1..];
      TotalOfDistinct(rows[1..], r);
    }
  }

  /** A row is in the result exactly when its (name, unit) occurs among the
      entries and its amount is the sum of the amounts under that key. */
  lemma AggregateMembership(s: seq<Entry>, r: Entry)
    ensures r in Aggregate(s) <==> KeyOf(r) in Keys(s) && r.amount == Total(s, KeyOf(r))
  {
    var a := Aggregate(s);
    AggregateSpec(s);
    KeysContain(a);
    if r in a {
      TotalOfDistinct(a, r);
    }
    if KeyOf(r) in Keys(s) && r.amount == Total(s, KeyOf(r)) {
      KeysWitness(a, KeyOf(r));
      var y :| y in a && KeyOf(y) == KeyOf(r);
      TotalOfDistinct(a, y);
      assert y == r;
    }
  }

  lemma {:induction false} DistinctKeysCount(rows: seq<Entry>)
    requires DistinctBy(rows, KeyOf)
    ensures |Keys(rows)| == |rows|
  {
    if rows != [] {
      assert rows == [rows[0]] + rows[1..];
      DistinctByCons(rows[0], rows[1..], KeyOf);
      if KeyOf(rows[0]) in Keys(rows[1..]) {
        KeysWitness(rows[1..], KeyOf(rows[0]));
      }
      DistinctKeysCount(rows[1..]);
    }
  }

  /** Exactly one row per distinct (name, unit) pair. */
  lemma AggregateCount(s: seq<Entry>)
    ensures |Aggregate(s)| == |Keys(s)|
  {
    AggregateSpec(s);
    DistinctKeysCount(Aggregate(s));
  }

  lemma {:induction false} TotalPermutation(a: seq<Entry>, b: seq<Entry>, k: Key)
    requires multiset(a) == multiset(b)
    ensures Total(a, k) == Total(b, k)
  {
    if a == [] {
      assert |b| == |multiset(b)| == 0;
    } else {
      var x := a[0];
      assert a == [x] + a[1..];
      assert x in multiset(b);
      var i :| 0 <= i < |b| && b[i] == x;
      assert b == b[..i] + [x] + b[i + 1..];
      var rest := b[..i] + b[i + 1..];
      assert multiset(a) == multiset{x} + multiset(a[1..]);
      assert multiset(b) == multiset(b[..i]) + multiset{x} + multiset(b[i + 1..]);
      assert multiset(rest) == multiset(b[..i]) + multiset(b[i + 1..]);
      assert multiset(a[1..]) == multiset(a) - multiset{x};
      assert multiset(rest) == multiset(b) - multiset{x};
      TotalPermutation(a[1..], rest, k);
      TotalConcat(b[..i], b[i + 1..], k);
      TotalConcat(b[..i] + [x], b[i + 1..], k);
      TotalConcat(b[..i], [x], k);
      TotalConcat([x], a[1..], k);
    }
  }

  lemma KeysPermutation(a: seq<Entry>, b: seq<Entry>)
    requires multiset(a) == multiset(b)
    ensures Keys(a) == Keys(b)
  {
    KeysContain(a);
    KeysContain(b);
    forall k | k in Keys(a) ensures k in Keys(b) {
      KeysWitness(a, k);
      var y :| y in a && KeyOf(y) == k;
      assert y in multiset(b);
    }
    forall k | k in Keys(b) ensures k in Keys(a) {
      KeysWitness(b, k);
      var y :| y in b && KeyOf(y) == k;
      assert y in multiset(a);
    }
  }

  /** The database returns the cart's lines in no particular order: any order
      gives the same set of (name, unit, total) rows. */
  lemma AggregateOrderIndependent(a: seq<Entry>, b: seq<Entry>)
    requires multiset(a) == multiset(b)
    ensures Elems(Aggregate(a)) == Elems(Aggregate(b))
  {
    KeysPermutation(a, b);
    forall r ensures r in Aggregate(a) <==> r in Aggregate(b) {
      AggregateMembership(a, r);
      AggregateMembership(b, r);
      TotalPermutation(a, b, KeyOf(r));
    }
  }

  /** The total under a key is the amounts of two of its entries plus the
      total of the remaining entries. */
  lemma {:induction false} TotalSplitTwo(s: seq<Entry>, i: int, j: int, k: Key)
    requires 0 <= i < j < |s|
    ensures Total(s, k) == (if KeyOf(s[i]) == k then s[i].amount else 0) + (if KeyOf(s[j]) == k then s[j].amount else 0)
                           + Total(s[..i] + s[i + 1..j] + s[j + 1..], k)
  {
    assert s == s[..i] + [s[i]] + s[i + 1..j] + [s[j]] + s[j + 1..];
    TotalConcat(s[..i] + [s[i]] + s[i + 1..j] + [s[j]], s[j + 1..], k);
    TotalConcat(s[..i] + [s[i]] + s[i + 1..j], [s[j]], k);
    TotalConcat(s[..i] + [s[i]], s[i + 1..j], k);
    TotalConcat(s[..i], [s[i]], k);
    TotalConcat(s[..i] + s[i + 1..j], s[j + 1..], k);
    TotalConcat(s[..i], s[i + 1..j], k);
    assert [s[i]][1..] == [] && [s[j]][1..] == [];
  }

  /** Two lines with the same name and unit end up in one row: the result
      has a row for that (name, unit) whose amount is the two lines' amounts
      plus those of every other line under the same key, and any row with
      that (name, unit) is that row. */
  lemma SameNameAndUnitMerge(s: seq<Entry>, i: int, j: int)
    requires 0 <= i < j < |s| && KeyOf(s[i]) == KeyOf(s[j])
    ensures var k := KeyOf(s[i]);
      Entry(s[i].name, s[i].unit, s[i].amount + s[j].amount + Total(s[..i] + s[i + 1..j] + s[j + 1..], k)) in Aggregate(s)
    ensures forall r :: r in Aggregate(s) && KeyOf(r) == KeyOf(s[i]) ==>
      r == Entry(s[i].name, s[i].unit, s[i].amount + s[j].amount + Total(s[..i] + s[i + 1..j] + s[j + 1..], KeyOf(s[i])))
  {
    var k := KeyOf(s[i]);
    var row := Entry(s[i].name, s[i].unit, s[i].amount + s[j].amount + Total(s[..i] + s[i + 1..j] + s[j + 1..], k));
    TotalSplitTwo(s, i, j, k);
    KeysContain(s);
    assert s[i] in s;
    AggregateMembership(s, row);
    forall r | r in Aggregate(s) && KeyOf(r) == k ensures r == row {
      AggregateMembership(s, r);
    }
  }

  // ----- Which lines are collected -----

  /** `RecipeIngredient.objects.filter(recipe__shopping_cart__user=user)`. */
  function CartLines(lines: seq<Line>, cart: seq<Pair>, user: UserId): seq<Line> {
    Filter(lines, (l: Line) => Pair(user, l.recipe) in cart)
  }

  /** Each line joined with its ingredient's name and unit. */
  function ToEntries(lines: seq<Line>, ingredients: map<IngredientId, Ingredient>): seq<Entry> {
    if lines == [] then []
    else
      (if lines[0].ingredient in ingredients
       then [Entry(ingredients[lines[0].ingredient].name, ingredients[lines[0].ingredient].unit, lines[0].amount)]
       else [])
      + ToEntries(lines[1..], ingredients)
  }

  /** The rows of the shopping list of user. */
  function ShoppingRows(t: Tables, user: UserId): seq<Entry> {
    Aggregate(ToEntries(CartLines(t.lines, t.cart, user), t.ingredients))
  }

  function LineSum(lines: seq<Line>): int {
    if lines == [] then 0 else lines[0].amount + LineSum(lines[1..])
  }

  lemma {:induction false} ToEntriesSum(lines: seq<Line>, ingredients: map<IngredientId, Ingredient>)
    requires forall l :: l in lines ==> l.ingredient in ingredients
    ensures SumAmounts(ToEntries(lines, ingredients)) == LineSum(lines)
  {
    if lines != [] {
      assert lines[0] in lines;
      ToEntriesSum(lines[1..], ingredients);
      var e := Entry(ingredients[lines[0].ingredient].name, ingredients[lines[0].ingredient].unit, lines[0].amount);
      assert ([e] + ToEntries(lines[1..], ingredients))[1..] == ToEntries(lines[1..], ingredients);
    }
  }

  /** The list's grand total is the sum of the amounts of the cart's lines. */
  lemma ShoppingRowsTotal(t: Tables, user: UserId, lower: string -> string, isWordChar: char -> bool)
    requires Consistent(t, lower, isWordChar)
    ensures SumAmounts(ShoppingRows(t, user)) == LineSum(CartLines(t.lines, t.cart, user))
  {
    var ls := CartLines(t.lines, t.cart, user);
    forall l | l in ls ensures l.ingredient in t.ingredients {
      assert LineOk(l, t.recipes, t.ingredients);
    }
    ToEntriesSum(ls, t.ingredients);
    AggregateSpec(ToEntries(ls, t.ingredients));
  }

  /** Only this user's cart matters: two states with the same lines and
      ingredients whose carts agree on this user give the same rows. */
  lemma ShoppingRowsOnlyOwnCart(t1: Tables, t2: Tables, user: UserId)
    requires t1.lines == t2.lines && t1.ingredients == t2.ingredients
    requires forall r :: Pair(user, r) in t1.cart <==> Pair(user, r) in t2.cart
    ensures ShoppingRows(t1, user) == ShoppingRows(t2, user)
  {
    FilterAgree(t1.lines, (l: Line) => Pair(user, l.recipe) in t1.cart, (l: Line) => Pair(user, l.recipe) in t2.cart);
  }

  // ----- The text -----

  const Header := "Список покупок:\n"

  function DigitChar(d: int): char
    requires 0 <= d < 10
  {
    "0123456789"[d]
  }

  /** Python's `str()` of a non-negative integer. */
  function NatToString(n: nat): string {
    if n < 10 then [DigitChar(n)] else NatToString(n / 10) + [DigitChar(n % 10)]
  }

  /** Python's `str()` of an integer. */
  function IntToString(i: int): string {
    if i < 0 then "-" + NatToString(-i) else NatToString(i)
  }

  /** The value of a string of decimal digits. */
  function DigitsValue(s: string): int {
    if s == [] then 0 else 10 * DigitsValue(s[..|s| - 1]) + ((s[|s| - 1] as int) - ('0' as int))
  }

  /** The decimal text of n reads back as n. */
  lemma {:induction false} NatToStringValue(n: nat)
    ensures DigitsValue(NatToString(n)) == n
    ensures forall c :: c in NatToString(n) ==> '0' <= c <= '9'
  {
    if n >= 10 {
      NatToStringValue(n / 10);
      var s := NatToString(n);
      assert s[..|s| - 1] == NatToString(n / 10);
    }
  }

  /** `f'\n{name} - {amount}, {unit}'`. */
  function EntryLine(e: Entry): string {
    "\n" + e.name + " - " + IntToString(e.amount) + ", " + e.unit
  }

  function EntryLines(rows: seq<Entry>): seq<string> {
    seq(|rows|, i requires 0 <= i < |rows| => EntryLine(rows[i]))
  }

  /** `'\n'.join(shopping_cart)` over the header and one line per row. */
  function ShoppingText(rows: seq<Entry>): string {
    Join([Header] + EntryLines(rows), "\n")
  }

  /** Each row's text preceded by the separator. */
  function Blocks(rows: seq<Entry>): string {
    if rows == [] then "" else "\n" + EntryLine(rows[0]) + Blocks(rows[1..])
  }

  lemma {:induction false} BlocksPrefixed(rows: seq<Entry>)
    ensures Blocks(rows) == Prefixed(EntryLines(rows), "\n")
    decreases |rows|
  {
    if rows != [] {
      assert EntryLines(rows)[1..] == EntryLines(rows[1..]);
      BlocksPrefixed(rows[1..]);
    }
  }

  /** The text is the header followed, for each row in turn, by a newline
      and the row's `\n{name} - {amount}, {unit}` line; no rows give the
      header alone. */
  lemma ShoppingTextLayout(rows: seq<Entry>)
    ensures ShoppingText(rows) == Header + Blocks(rows)
    ensures rows == [] ==> ShoppingText(rows) == Header
  {
    JoinPrefixed(Header, EntryLines(rows), "\n");
    BlocksPrefixed(rows);
  }

  /** An empty cart gives no rows and the header alone. */
  lemma EmptyCart(t: Tables, user: UserId)
    requires forall p :: p in t.cart ==> p.user != user
    ensures ShoppingRows(t, user) == []
    ensures ShoppingText(ShoppingRows(t, user)) == Header
  {
    FilterNone(t.lines, (l: Line) => Pair(user, l.recipe) in t.cart);
    ShoppingTextLayout([]);
  }

  /** create_shopping_cart_file: the query, then the loop that appends one
      line per row, then the join. */
  method CreateShoppingCartFile(t: Tables, user: UserId) returns (content: string)
    ensures content == Header + Blocks(ShoppingRows(t, user))
  {
    var rows := ShoppingRows(t, user);
    var shoppingCart := [Header];
    for i := 0 to |rows|
      invariant shoppingCart == [Header] + EntryLines(rows[..i])
    {
      assert EntryLines(rows[..i + 1]) == EntryLines(rows[..i]) + [EntryLine(rows[i])];
      shoppingCart := shoppingCart + [EntryLine(rows[i])];
    }
    assert rows[..|rows|] == rows;
    content := Join(shoppingCart, "\n");
    JoinPrefixed(Header, EntryLines(rows), "\n");
    BlocksPrefixed(rows);
  }
}
