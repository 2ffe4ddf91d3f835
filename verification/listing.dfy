/**
  The home-page listing: filter extraction from the query string
  (app/index.php 66-70), the filtered query of `getFilteredCoffeeShops`
  (73-94), the choice between it and the full list (117), and the distinct
  drink types offered by the filter form (57-63).
 */
module Listing {
  import opened Wrappers
  import opened PhpStrings
  import opened Behaviour
  import opened Shops

  /** The `$filters` array; `None` is PHP `null`. */
  datatype Filters = Filters(food: Option<string>, drink: Option<string>, rating: Option<int>)

  /** `!empty($_GET[k]) ? $_GET[k] : null`. */
  function Param(q: map<string, string>, k: string): (r: Option<string>)
    ensures r.Some? <==> k in q && !Empty(q[k])
    ensures r.Some? ==> r.value == q[k]
  {
    if k in q && !Empty(q[k]) then Some(q[k]) else None
  }

  /**
    The three filters of a request. As written every one goes through
    `empty()`, so `"0"` is as absent as a missing parameter; the intended
    food filter keeps every non-empty submission, `"0"` included.
   */
  function ExtractFilters(q: map<string, string>, v: Variant): (r: Filters)
    ensures r.drink.Some? <==> "drink_type" in q && !Empty(q["drink_type"])
    ensures r.drink.Some? ==> r.drink.value == q["drink_type"]
    ensures r.rating.Some? <==> "rating" in q && !Empty(q["rating"])
    ensures r.rating.Some? ==> r.rating.value == IntCast(q["rating"])
    ensures v == AsWritten ==> (r.food.Some? <==> "food_available" in q && !Empty(q["food_available"]))
    ensures v == Intended ==> (r.food.Some? <==> "food_available" in q && q["food_available"] != "")
    ensures r.food.Some? ==> r.food.value == q["food_available"]
  {
    var food :=
      if v == AsWritten then Param(q, "food_available")
      else if "food_available" in q && q["food_available"] != "" then Some(q["food_available"])
      else None;
    var rating := match Param(q, "rating") case None => None case Some(r) => Some(IntCast(r));
    Filters(food, Param(q, "drink_type"), rating)
  }

  // ---------------------------------------------------------- active clauses

  /**
    Whether each entry counts, both for `array_filter($filters)` (line 117)
    and for the `!empty(...)` guard of its clause (81-89): a string counts
    unless PHP-empty, the rating unless 0. The intended food filter counts
    whenever it was submitted.
   */
  predicate FoodActive(f: Filters, v: Variant) {
    f.food.Some? && (v == Intended || !Empty(f.food.value))
  }

  predicate DrinkActive(f: Filters) {
    f.drink.Some? && !Empty(f.drink.value)
  }

  predicate RatingActive(f: Filters) {
    f.rating.Some? && f.rating.value != 0
  }

  predicate AnyActive(f: Filters, v: Variant) {
    FoodActive(f, v) || DrinkActive(f) || RatingActive(f)
  }

  /**
    The value `food_available` is compared with: as written `1` for the
    literal `yes` and `0` for anything else; intended, the submitted `0`
    or `1` itself.
   */
  function FoodWanted(value: string, v: Variant): int {
    if v == Intended then IntCast(value)
    else if value == "yes" then 1 else 0
  }

  /** The `WHERE` clause: every active filter's condition holds of the row. */
  predicate Matches(s: Shop, f: Filters, v: Variant) {
    && (RatingActive(f) ==> s.rating == f.rating.value)
    && (DrinkActive(f) ==> Contains(s.drinkTypes, f.drink.value))
    && (FoodActive(f, v) ==> s.food == FoodWanted(f.food.value, v))
  }

  /** `SELECT * FROM shops WHERE 1=1 AND ...`: the matching rows, in table order. */
  function FilterShops(shops: seq<Shop>, f: Filters, v: Variant): (r: seq<Shop>)
    ensures forall s :: s in r <==> s in shops && Matches(s, f, v)
    ensures |r| <= |shops|
  {
    if |shops| == 0 then []
    else if Matches(shops[0], f, v) then [shops[0]] + FilterShops(shops[1..], f, v)
    else FilterShops(shops[1..], f, v)
  }

  /** With no active clause the query is `WHERE 1=1`: every row, in order. */
  lemma {:induction false} FilterWithoutClausesKeepsAll(shops: seq<Shop>, f: Filters, v: Variant)
    requires !AnyActive(f, v)
    ensures FilterShops(shops, f, v) == shops
    decreases |shops|
  {
    if |shops| > 0 {
      FilterWithoutClausesKeepsAll(shops[1..], f, v);
      assert [shops[0]] + shops[1..] == shops;
    }
  }

  /** Line 117: the filtered query when some filter counts, else the full list. */
  function GridShops(all: seq<Shop>, f: Filters, v: Variant): seq<Shop> {
    if AnyActive(f, v) then FilterShops(all, f, v) else all
  }

  /** Whatever filters were given, the grid lists exactly the rows that meet every active clause. */
  lemma GridIsMatchingRows(all: seq<Shop>, f: Filters, v: Variant)
    ensures forall s :: s in GridShops(all, f, v) <==> s in all && Matches(s, f, v)
  {
    if !AnyActive(f, v) {
      FilterWithoutClausesKeepsAll(all, f, v);
    }
  }

  /**
    Which query parameters switch a clause on. A rating counts exactly when
    it casts to a non-zero integer, so `""`, `"0"` and `"abc"` are all
    ignored; a drink type when it is not PHP-empty; as written the food
    filter likewise, intended whenever it is not the empty string.
   */
  lemma ActiveClausesOfQuery(q: map<string, string>, v: Variant)
    ensures var f := ExtractFilters(q, v);
      && (RatingActive(f) <==> "rating" in q && IntCast(q["rating"]) != 0)
      && (RatingActive(f) ==> f.rating.value == IntCast(q["rating"]))
      && (DrinkActive(f) <==> "drink_type" in q && !Empty(q["drink_type"]))
      && (DrinkActive(f) ==> f.drink.value == q["drink_type"])
      && (FoodActive(f, v) <==>
            "food_available" in q &&
            (if v == AsWritten then !Empty(q["food_available"]) else q["food_available"] != ""))
      && (FoodActive(f, v) ==> f.food.value == q["food_available"])
  {
    var f := ExtractFilters(q, v);
    if "rating" in q && Empty(q["rating"]) {
      assert IntCast(q["rating"]) == 0 by {
        assert IntCast("") == 0;
        assert LeadingDigits("0") == "0";
        assert IntCast("0") == 0;
      }
    }
  }

  /**
    The food filter as written: the form's `1` ("Yes") selects the shops
    WITHOUT food, its `0` ("No") is dropped as empty, and only the literal
    `yes` selects shops with food.
   */
  lemma FoodFilterAsWritten(q: map<string, string>, s: Shop)
    requires "food_available" in q
    ensures var f := ExtractFilters(q, AsWritten);
      && (q["food_available"] == "1" ==> FoodActive(f, AsWritten) && (Matches(s, f, AsWritten) ==> s.food == 0))
      && (q["food_available"] == "0" ==> !FoodActive(f, AsWritten))
      && (q["food_available"] == "yes" ==> FoodActive(f, AsWritten) && (Matches(s, f, AsWritten) ==> s.food == 1))
  {
  }

  /** The intended food filter: `1` selects shops with food, `0` shops without. */
  lemma FoodFilterIntended(q: map<string, string>, s: Shop)
    requires "food_available" in q && (q["food_available"] == "0" || q["food_available"] == "1")
    ensures var f := ExtractFilters(q, Intended);
      && FoodActive(f, Intended)
      && (Matches(s, f, Intended) ==> (s.food == 1 <==> q["food_available"] == "1"))
      && (Matches(s, f, Intended) ==> (s.food == 0 <==> q["food_available"] == "0"))
  {
    var f := ExtractFilters(q, Intended);
    var w := q["food_available"];
    assert w != "" by { assert |w| == 1; }
    assert f.food == Some(w);
    IntendedFoodClause(s, f, w);
  }

  /** Once the food filter holds `0` or `1`, a matching row's `food` column is that value. */
  lemma IntendedFoodClause(s: Shop, f: Filters, w: string)
    requires f.food == Some(w) && (w == "0" || w == "1")
    ensures FoodActive(f, Intended)
    ensures Matches(s, f, Intended) ==> (s.food == 1 <==> w == "1") && (s.food == 0 <==> w == "0")
  {
    FoodWantedOfFormValues();
    assert FoodWanted(w, Intended) == if w == "1" then 1 else 0;
  }

  lemma FoodWantedOfFormValues()
    ensures FoodWanted("0", Intended) == 0 && FoodWanted("1", Intended) == 1
  {
    IntCastOfNatToString(0);
    IntCastOfNatToString(1);
    assert NatToString(0) == "0" && NatToString(1) == "1";
  }

  /** Without a food parameter the two readings select the same rows. */
  lemma VariantsAgreeWithoutFood(q: map<string, string>, s: Shop)
    requires "food_available" !in q
    ensures AnyActive(ExtractFilters(q, AsWritten), AsWritten) == AnyActive(ExtractFilters(q, Intended), Intended)
    ensures Matches(s, ExtractFilters(q, AsWritten), AsWritten) == Matches(s, ExtractFilters(q, Intended), Intended)
  {
  }

  // ------------------------------------------------------------ drink types

  /**
    `array_map('trim', explode(',', $drinkTypes))`: the column is cut at
    every comma into comma-free pieces that join back to it, and each token
    is its piece with the surrounding whitespace trimmed.
   */
  function Tokens(drinkTypes: string): (r: seq<string>)
    ensures |r| >= 1
    ensures exists parts: seq<string> :: TrimmedPieces(parts, r, drinkTypes)
    ensures forall x :: x in r ==> |x| == 0 || (!IsTrimChar(x[0]) && !IsTrimChar(x[|x| - 1]))
  {
    var parts := Explode(",", drinkTypes);
    var r := TrimAll(parts);
    assert TrimmedPieces(parts, r, drinkTypes) by {
      CommaPieces(drinkTypes);
    }
    r
  }

  /** `array_map('trim', parts)`. */
  function TrimAll(parts: seq<string>): (r: seq<string>)
    ensures |r| == |parts| && forall i :: 0 <= i < |r| ==> r[i] == Trim(parts[i])
    ensures forall x :: x in r ==> |x| == 0 || (!IsTrimChar(x[0]) && !IsTrimChar(x[|x| - 1]))
  {
    var r := seq(|parts|, i requires 0 <= i < |parts| => Trim(parts[i]));
    assert forall x :: x in r ==> |x| == 0 || (!IsTrimChar(x[0]) && !IsTrimChar(x[|x| - 1])) by {
      forall x | x in r
        ensures |x| == 0 || (!IsTrimChar(x[0]) && !IsTrimChar(x[|x| - 1]))
      {
        var i :| 0 <= i < |r| && r[i] == x;
        assert x == Trim(parts[i]);
      }
    }
    r
  }

  /**
    `r` is `s` cut into comma-free `parts` that join back to `s`, each
    part trimmed.
   */
  predicate TrimmedPieces(parts: seq<string>, r: seq<string>, s: string) {
    && |parts| == |r|
    && Implode(",", parts) == s
    && forall i :: 0 <= i < |parts| ==> ',' !in parts[i] && r[i] == Trim(parts[i])
  }

  /** The pieces of `explode(',', s)` hold no comma and join back to `s`. */
  lemma CommaPieces(s: string)
    ensures Implode(",", Explode(",", s)) == s
    ensures forall i :: 0 <= i < |Explode(",", s)| ==> ',' !in Explode(",", s)[i]
  {
    var parts := Explode(",", s);
    ImplodeExplode(",", s);
    forall i | 0 <= i < |parts|
      ensures ',' !in parts[i]
    {
      NoByteWithoutNeedle(parts[i], ',');
    }
  }

  /** `array_merge(...)` of every shop's tokens, shop by shop. */
  function AllTokens(shops: seq<Shop>): seq<string> {
    if |shops| == 0 then [] else AllTokens(shops[..|shops| - 1]) + Tokens(shops[|shops| - 1].drinkTypes)
  }

  /** A token comes out of the merge exactly when some shop has it. */
  lemma {:induction false} AllTokensMembers(shops: seq<Shop>, x: string)
    ensures x in AllTokens(shops) <==> exists i :: 0 <= i < |shops| && x in Tokens(shops[i].drinkTypes)
    decreases |shops|
  {
    if |shops| > 0 {
      var init := shops[..|shops| - 1];
      AllTokensMembers(init, x);
      var last := Tokens(shops[|shops| - 1].drinkTypes);
      assert AllTokens(shops) == AllTokens(init) + last;
      if x in AllTokens(shops) && x !in Tokens(shops[|shops| - 1].drinkTypes) {
        var i :| 0 <= i < |init| && x in Tokens(init[i].drinkTypes);
        assert init[i] == shops[i];
      }
      if exists i :: 0 <= i < |shops| && x in Tokens(shops[i].drinkTypes) {
        var i :| 0 <= i < |shops| && x in Tokens(shops[i].drinkTypes);
        if i < |shops| - 1 {
          assert init[i] == shops[i];
        }
      }
    }
  }

  /** The position of the first occurrence of `x`. */
  function FirstIndex(xs: seq<string>, x: string): (k: nat)
    requires x in xs
    ensures k < |xs| && xs[k] == x
    ensures forall j :: 0 <= j < k ==> xs[j] != x
  {
    if xs[0] == x then 0 else 1 + FirstIndex(xs[1..], x)
  }

  /** Appending elements does not move a first occurrence. */
  lemma {:induction false} FirstIndexOfPrefix(xs: seq<string>, ys: seq<string>, x: string)
    requires x in xs
    ensures x in xs + ys && FirstIndex(xs + ys, x) == FirstIndex(xs, x)
    decreases |xs|
  {
    if xs[0] != x {
      assert (xs + ys)[1..] == xs[1..] + ys;
      FirstIndexOfPrefix(xs[1..], ys, x);
    }
  }

  /**
    `array_values(array_unique($xs))`: each value once, at the place of
    its first occurrence.
   */
  function Dedup(xs: seq<string>): (r: seq<string>)
    ensures forall i, j :: 0 <= i < j < |r| ==> r[i] != r[j]
    ensures forall x :: x in r <==> x in xs
    ensures forall i, j :: 0 <= i < j < |r| ==> FirstIndex(xs, r[i]) < FirstIndex(xs, r[j])
    decreases |xs|
  {
    if |xs| == 0 then []
    else
      var init := xs[..|xs| - 1];
      var last := xs[|xs| - 1];
      var r := Dedup(init);
      assert xs == init + [last];
      assert forall x :: x in r ==> FirstIndex(xs, x) == FirstIndex(init, x) by {
        forall x | x in r
          ensures FirstIndex(xs, x) == FirstIndex(init, x)
        {
          FirstIndexOfPrefix(init, [last], x);
        }
      }
      if last in r then r
      else
        assert FirstIndex(xs, last) == |xs| - 1;
        r + [last]
  }

  /** The drink types offered by the filter form (`$uniqueDrinkTypes`). */
  function UniqueDrinkTypes(shops: seq<Shop>): seq<string> {
    Dedup(AllTokens(shops))
  }

  /** The listed drink types are exactly the trimmed tokens of the shops, each once. */
  lemma UniqueDrinkTypesSpec(shops: seq<Shop>)
    ensures var r := UniqueDrinkTypes(shops);
      && (forall i, j :: 0 <= i < j < |r| ==> r[i] != r[j])
      && (forall x :: x in r <==> exists i :: 0 <= i < |shops| && x in Tokens(shops[i].drinkTypes))
      && (forall x :: x in r ==> |x| == 0 || (!IsTrimChar(x[0]) && !IsTrimChar(x[|x| - 1])))
  {
    var r := UniqueDrinkTypes(shops);
    forall x
      ensures x in r <==> exists i :: 0 <= i < |shops| && x in Tokens(shops[i].drinkTypes)
    {
      AllTokensMembers(shops, x);
    }
  }

  /** Duplicate-free values of `xs`, in the order of their first occurrence in `xs`. */
  predicate Arranged(xs: seq<string>, a: seq<string>) {
    && (forall i, j :: 0 <= i < j < |a| ==> a[i] != a[j])
    && (forall x :: x in a ==> x in xs)
    && (forall i, j :: 0 <= i < j < |a| ==> FirstIndex(xs, a[i]) < FirstIndex(xs, a[j]))
  }

  /**
    The order is that of first occurrence, so the list is determined:
    any duplicate-free list of the same values in first-occurrence order
    is this one.
   */
  lemma DedupIsUnique(xs: seq<string>, r: seq<string>)
    requires Arranged(xs, r)
    requires forall x :: x in r <==> x in xs
    ensures r == Dedup(xs)
  {
    ArrangedIsUnique(xs, r, Dedup(xs));
  }

  lemma {:induction false} ArrangedIsUnique(xs: seq<string>, a: seq<string>, b: seq<string>)
    requires Arranged(xs, a) && Arranged(xs, b)
    requires forall x :: x in a <==> x in b
    ensures a == b
    decreases |a|
  {
    SameMembersSameEmptiness(a, b);
    if |a| > 0 {
      HeadIsFirst(xs, a);
      HeadIsFirst(xs, b);
      assert a[0] in a && b[0] in b;
      assert FirstIndex(xs, a[0]) == FirstIndex(xs, b[0]);
      assert a[0] == b[0];
      TailsSameMembers(a, b);
      TailArranged(xs, a);
      TailArranged(xs, b);
      ArrangedIsUnique(xs, a[1..], b[1..]);
      assert a == [a[0]] + a[1..] && b == [b[0]] + b[1..];
    }
  }

  lemma TailsSameMembers(a: seq<string>, b: seq<string>)
    requires |a| > 0 && |b| > 0 && a[0] == b[0]
    requires forall i, j :: 0 <= i < j < |a| ==> a[i] != a[j]
    requires forall i, j :: 0 <= i < j < |b| ==> b[i] != b[j]
    requires forall x :: x in a <==> x in b
    ensures forall x :: x in a[1..] <==> x in b[1..]
  {
    var ta, tb := a[1..], b[1..];
    forall x
      ensures x in ta <==> x in tb
    {
      if x in ta {
        var k :| 0 <= k < |ta| && ta[k] == x;
        assert a[k + 1] == x && x in a && x in b;
        var m :| 0 <= m < |b| && b[m] == x;
        assert m != 0;
        assert tb[m - 1] == x;
      }
      if x in tb {
        var k :| 0 <= k < |tb| && tb[k] == x;
        assert b[k + 1] == x && x in b && x in a;
        var m :| 0 <= m < |a| && a[m] == x;
        assert m != 0;
        assert ta[m - 1] == x;
      }
    }
  }

  /** The head of an arranged list occurs first. */
  lemma HeadIsFirst(xs: seq<string>, a: seq<string>)
    requires Arranged(xs, a) && |a| > 0
    ensures forall x :: x in a ==> FirstIndex(xs, a[0]) <= FirstIndex(xs, x)
  {
    forall x | x in a
      ensures FirstIndex(xs, a[0]) <= FirstIndex(xs, x)
    {
      var k :| 0 <= k < |a| && a[k] == x;
      if k > 0 {
        assert FirstIndex(xs, a[0]) < FirstIndex(xs, a[k]);
      }
    }
  }

  lemma TailArranged(xs: seq<string>, a: seq<string>)
    requires Arranged(xs, a) && |a| > 0
    ensures Arranged(xs, a[1..])
  {
    var t := a[1..];
    forall i, j | 0 <= i < j < |t|
      ensures t[i] != t[j] && FirstIndex(xs, t[i]) < FirstIndex(xs, t[j])
    {
      assert t[i] == a[i + 1] && t[j] == a[j + 1];
    }
  }

  lemma SameMembersSameEmptiness(a: seq<string>, b: seq<string>)
    requires forall x :: x in a <==> x in b
    ensures |a| == 0 <==> |b| == 0
  {
    if |a| > 0 {
      assert a[0] in a;
    }
    if |b| > 0 {
      assert b[0] in b;
    }
  }
}
