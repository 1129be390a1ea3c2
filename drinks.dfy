/**
  The coffee-shop drink catalogue: a table of drinks keyed by id, read by
  two listings and changed by create, edit and delete handlers, each gated by
  the permission scope its `@requires_auth` decorator names. The caller's
  permissions arrive already verified, as a set of scope strings.
 */
module Drinks {
  import opened Http

  datatype Ingredient = Ingredient(name: string, color: string, parts: int)

  /** The `recipe` body field: a JSON list of ingredients, truthy when non-empty. */
  type Recipe = seq<Ingredient>

  /**
    The stored `recipe` column. Creation stores `json.dumps(recipe)`; editing
    assigns the request value as it came, without encoding it.
   */
  datatype StoredRecipe = JsonText(ingredients: Recipe) | Assigned(ingredients: Recipe)

  datatype Drink = Drink(title: string, recipe: StoredRecipe)

  /** A drink with its id, as `Drink.short()` and `Drink.long()` project it. */
  datatype DrinkRow = DrinkRow(id: int, drink: Drink)

  // ---------------------------------------------------------------------
  // Permission scopes
  // ---------------------------------------------------------------------

  datatype Endpoint = ListDrinks | ListDrinkDetails | CreateDrink | EditDrink | RemoveDrink

  const DetailScope: string := "get:drinks-detail"
  const PostScope: string := "post:drinks"
  const PatchScope: string := "patch:drinks"
  const DeleteScope: string := "delete:drinks"

  /** The argument of each endpoint's `@requires_auth`; `GET /drinks` has no decorator. */
  function RequiredScope(e: Endpoint): (r: Option<string>)
    ensures r.None? <==> e == ListDrinks
  {
    match e
    case ListDrinks => None
    case ListDrinkDetails => Some(DetailScope)
    case CreateDrink => Some(PostScope)
    case EditDrink => Some(PatchScope)
    case RemoveDrink => Some(DeleteScope)
  }

  /** A caller holding `scopes` passes the decorator of `e`. */
  predicate Permits(scopes: set<string>, e: Endpoint): (r: bool)
    ensures e == ListDrinks ==> r
    ensures scopes == {} ==> (r <==> e == ListDrinks)
    ensures RequiredScope(e).Some? ==> (r <==> RequiredScope(e).value in scopes)
  {
    RequiredScope(e).None? || RequiredScope(e).value in scopes
  }

  /** Each scope opens its own endpoint and no other gated one. */
  lemma ScopeOpensOneEndpoint(e: Endpoint, other: Endpoint)
    requires RequiredScope(e).Some? && RequiredScope(other).Some?
    ensures Permits({RequiredScope(e).value}, other) <==> other == e
  {
    assert DetailScope[0] == 'g' && PostScope[0] == 'p' && PatchScope[0] == 'p' && DeleteScope[0] == 'd';
    assert PostScope[1] == 'o' && PatchScope[1] == 'a';
  }

  // ---------------------------------------------------------------------
  // Listing rows
  // ---------------------------------------------------------------------

  function RowIds(rows: seq<DrinkRow>): set<int>
  {
    set r | r in rows :: r.id
  }

  lemma RowIdsSnoc(rows: seq<DrinkRow>, row: DrinkRow)
    ensures RowIds(rows + [row]) == RowIds(rows) + {row.id}
  {
    forall x | x in RowIds(rows + [row]) ensures x in RowIds(rows) + {row.id} {
      var w :| w in rows + [row] && w.id == x;
      if w != row {
        assert w in rows;
      }
    }
    forall x | x in RowIds(rows) ensures x in RowIds(rows + [row]) {
      var w :| w in rows && w.id == x;
      assert w in rows + [row];
    }
    assert row in rows + [row];
  }

  /** `rows` lists every drink of `m` once, each with its own id. */
  ghost predicate Enumerates(rows: seq<DrinkRow>, m: map<int, Drink>)
  {
    && (forall i :: 0 <= i < |rows| ==> rows[i].id in m && m[rows[i].id] == rows[i].drink)
    && (forall i, j :: 0 <= i < j < |rows| ==> rows[i].id != rows[j].id)
    && RowIds(rows) == m.Keys
  }

  /** Part way through a listing: every drink of `m` except those in `remaining` is listed once. */
  ghost predicate ListsAllBut(rows: seq<DrinkRow>, m: map<int, Drink>, remaining: set<int>)
  {
    && remaining <= m.Keys
    && (forall i :: 0 <= i < |rows| ==> rows[i].id in m && m[rows[i].id] == rows[i].drink)
    && (forall i, j :: 0 <= i < j < |rows| ==> rows[i].id != rows[j].id)
    && RowIds(rows) == m.Keys - remaining
  }

  /** Listing one more of the remaining drinks keeps the partial listing exact. */
  lemma ExtendListing(rows: seq<DrinkRow>, m: map<int, Drink>, remaining: set<int>, id: int)
    requires ListsAllBut(rows, m, remaining) && id in remaining
    ensures ListsAllBut(rows + [DrinkRow(id, m[id])], m, remaining - {id})
  {
    var row := DrinkRow(id, m[id]);
    forall i | 0 <= i < |rows| ensures rows[i].id != id {
      assert rows[i] in rows;
    }
    RowIdsSnoc(rows, row);
    var t := rows + [row];
    forall i, j | 0 <= i < j < |t| ensures t[i].id != t[j].id {
      assert t[i] == rows[i];
    }
  }

  lemma {:induction false} DistinctIdsCount(rows: seq<DrinkRow>)
    requires forall i, j :: 0 <= i < j < |rows| ==> rows[i].id != rows[j].id
    ensures |RowIds(rows)| == |rows|
  {
    if rows != [] {
      var rest := rows[1..];
      DistinctIdsCount(rest);
      assert RowIds(rows) == {rows[0].id} + RowIds(rest) by {
        assert rows == [rows[0]] + rest;
      }
      assert rows[0].id !in RowIds(rest);
    }
  }

  /** A listing has exactly one row per drink in the table. */
  lemma EnumerationSize(rows: seq<DrinkRow>, m: map<int, Drink>)
    requires Enumerates(rows, m)
    ensures |rows| == |m|
  {
    DistinctIdsCount(rows);
    assert |m.Keys| == |m|;
  }

  /** A non-empty set of ids has a member to pick. */
  lemma HasMember(s: set<int>)
    requires s != {}
    ensures exists x :: x in s
  {
    if forall y :: y !in s {
      assert false;
    }
  }

  /** `k` is the smallest element of `s`. */
  predicate IsLeast(k: int, s: set<int>)
  {
    k in s && forall j :: j in s ==> k <= j
  }

  lemma {:induction false} LeastExists(s: set<int>)
    requires s != {}
    ensures exists k :: IsLeast(k, s)
    decreases s
  {
    HasMember(s);
    var x :| x in s;
    var rest := s - {x};
    if rest == {} {
      forall j | j in s ensures x <= j {
        assert j !in rest;
      }
      assert IsLeast(x, s);
    } else {
      LeastExists(rest);
      var m :| IsLeast(m, rest);
      var k := if x < m then x else m;
      forall j | j in s ensures k <= j {
        if j != x {
          assert j in rest;
        }
      }
      assert IsLeast(k, s);
    }
  }

  /** The smallest id of a non-empty set. */
  function MinKey(s: set<int>): (k: int)
    requires s != {}
    ensures IsLeast(k, s)
  {
    LeastExists(s);
    var k :| IsLeast(k, s);
    k
  }

  /** Ids strictly increase along `rows`: the drink-row counterpart of `Trivia.IdsAscending`, the order `order_by(<table>.id)` returns. */
  predicate IdsIncrease(rows: seq<DrinkRow>)
  {
    forall i, j :: 0 <= i < j < |rows| ==> rows[i].id < rows[j].id
  }

  /** Putting the drink with the least id in front of a sorted listing of the others lists the whole table in order. */
  lemma PrependLeast(m: map<int, Drink>, k: int, tail: seq<DrinkRow>)
    requires IsLeast(k, m.Keys)
    requires Enumerates(tail, m - {k}) && IdsIncrease(tail)
    ensures Enumerates([DrinkRow(k, m[k])] + tail, m) && IdsIncrease([DrinkRow(k, m[k])] + tail)
  {
    var rows := [DrinkRow(k, m[k])] + tail;
    assert (m - {k}).Keys == m.Keys - {k};
    assert RowIds(rows) == {k} + RowIds(tail) by {
      forall id | id in RowIds(rows) ensures id in {k} + RowIds(tail) {
        var r :| r in rows && r.id == id;
        if r != rows[0] {
          assert r in tail;
        }
      }
      forall id | id in RowIds(tail) ensures id in RowIds(rows) {
        var r :| r in tail && r.id == id;
        assert r in rows;
      }
    }
    forall j | 1 <= j < |rows| ensures rows[j] == tail[j - 1] && rows[j].id in m.Keys - {k} {
      assert tail[j - 1] in tail;
    }
  }

  /** `Drink.query.order_by(Drink.id).all()`: every drink, by increasing id. */
  function SortedRows(m: map<int, Drink>): (rows: seq<DrinkRow>)
    ensures Enumerates(rows, m) && IdsIncrease(rows)
    decreases |m|
  {
    if |m| == 0 then []
    else
      var k := MinKey(m.Keys);
      var rest := m - {k};
      assert rest.Keys == m.Keys - {k};
      var tail := SortedRows(rest);
      PrependLeast(m, k, tail);
      [DrinkRow(k, m[k])] + tail
  }

  // ---------------------------------------------------------------------
  // The drink table and its handlers
  // ---------------------------------------------------------------------

  class DrinkStore {
    var drinks: map<int, Drink>
    var nextId: int

    /** Every id in the table was handed out before `nextId`. */
    ghost predicate Valid()
      reads this
    {
      nextId >= 1 && forall id :: id in drinks ==> id < nextId
    }

    constructor ()
      ensures Valid() && drinks == map[] && nextId == 1
    {
      drinks := map[];
      nextId := 1;
    }

    /**
      `get_drinks` (no scope): every drink, in the unspecified order of
      `Drink.query.all()`. An empty table is answered 422 (the `abort(404)` is caught).
     */
    method GetDrinks() returns (r: Reply<seq<DrinkRow>>)
      ensures |drinks| == 0 ==> r == Abort(Unprocessable)
      ensures |drinks| > 0 ==> r.Ok? && Enumerates(r.body, drinks) && |r.body| == |drinks|
    {
      var remaining := drinks.Keys;
      var rows: seq<DrinkRow> := [];
      while remaining != {}
        invariant ListsAllBut(rows, drinks, remaining)
        decreases remaining
      {
        HasMember(remaining);
        var id :| id in remaining;
        ExtendListing(rows, drinks, remaining, id);
        rows := rows + [DrinkRow(id, drinks[id])];
        remaining := remaining - {id};
      }
      if |rows| == 0 {
        assert drinks.Keys == {};
        r := Catch(Abort(NotFound), Unprocessable);
      } else {
        assert rows[0].id in drinks;
        EnumerationSize(rows, drinks);
        r := Catch(Ok(rows), Unprocessable);
      }
    }

    /**
      `get_drinks_details` (scope `get:drinks-detail`): every drink by
      increasing id; an empty table is answered 422.
     */
    method GetDrinksDetail(scopes: set<string>) returns (r: Reply<seq<DrinkRow>>)
      ensures DetailScope !in scopes ==> r == AuthError(DetailScope)
      ensures DetailScope in scopes && |drinks| == 0 ==> r == Abort(Unprocessable)
      ensures DetailScope in scopes && |drinks| > 0 ==> r == Ok(SortedRows(drinks))
    {
      if !Permits(scopes, ListDrinkDetails) {
        return AuthError(DetailScope);
      }
      var rows := SortedRows(drinks);
      EnumerationSize(rows, drinks);
      r := Catch(if |rows| == 0 then Abort(NotFound) else Ok(rows), Unprocessable);
    }

    /**
      `get_drinks_new` (scope `post:drinks`): adds one drink under the next id
      when both `title` and `recipe` are truthy, storing the recipe JSON-encoded.
      Otherwise 422 and nothing is added; `committed` is the database's
      verdict on the insert, and a refusal is answered 422 as well.
     */
    method PostDrink(scopes: set<string>, title: Option<string>, recipe: Option<Recipe>, committed: bool)
      returns (r: Reply<DrinkRow>)
      requires Valid()
      modifies this
      ensures Valid()
      ensures PostScope !in scopes ==>
        r == AuthError(PostScope) && drinks == old(drinks) && nextId == old(nextId)
      ensures PostScope in scopes && !(Truthy(title) && Truthy(recipe) && committed) ==>
        r == Abort(Unprocessable) && drinks == old(drinks) && nextId == old(nextId)
      ensures PostScope in scopes && Truthy(title) && Truthy(recipe) && committed ==>
        && old(nextId) !in old(drinks)
        && drinks == old(drinks)[old(nextId) := Drink(title.value, JsonText(recipe.value))]
        && |drinks| == |old(drinks)| + 1
        && nextId == old(nextId) + 1
        && r == Ok(DrinkRow(old(nextId), drinks[old(nextId)]))
        && r.body.id >= 1
    {
      if !Permits(scopes, CreateDrink) {
        return AuthError(PostScope);
      }
      if !(Truthy(title) && Truthy(recipe)) {
        return Abort(Unprocessable);
      }
      if !committed {
        return Catch(Raised, Unprocessable);
      }
      var id := nextId;
      var drink := Drink(title.value, JsonText(recipe.value));
      assert id !in drinks;
      drinks := drinks[id := drink];
      nextId := nextId + 1;
      r := Catch(Ok(DrinkRow(id, drink)), Unprocessable);
    }

    /**
      `get_drinks_edit` (scope `patch:drinks`): overwrites the title when a
      truthy title is given and the recipe when a truthy recipe is given, and
      answers with a one-element list holding the edited drink. For an id that
      is not in the table the guard `drink == 0` does not fire (a missing row is
      `None`, never `0`), so the attribute access on `None` raises inside the
      `try` and the call is answered 422.
     */
    method PatchDrink(scopes: set<string>, drinkId: int, title: Option<string>, recipe: Option<Recipe>)
      returns (r: Reply<seq<DrinkRow>>)
      requires Valid()
      modifies this
      ensures Valid() && nextId == old(nextId)
      ensures PatchScope !in scopes ==> r == AuthError(PatchScope) && drinks == old(drinks)
      ensures PatchScope in scopes && drinkId !in old(drinks) ==> r == Abort(Unprocessable) && drinks == old(drinks)
      ensures PatchScope in scopes && drinkId in old(drinks) ==>
        && drinks.Keys == old(drinks).Keys
        && (forall id :: id in drinks && id != drinkId ==> drinks[id] == old(drinks)[id])
        && drinks[drinkId].title == (if Truthy(title) then title.value else old(drinks)[drinkId].title)
        && drinks[drinkId].recipe == (if Truthy(recipe) then Assigned(recipe.value) else old(drinks)[drinkId].recipe)
        && r == Ok([DrinkRow(drinkId, drinks[drinkId])])
    {
      if !Permits(scopes, EditDrink) {
        return AuthError(PatchScope);
      }
      var row := if drinkId in drinks then Some(drinks[drinkId]) else None;
      if row.None? {
        // `drink == 0` is false for None; `drink.title = ...` or `drink.update()` then raises
        return Catch(Raised, Unprocessable);
      }
      var drink := row.value;
      if Truthy(title) {
        drink := drink.(title := title.value);
      }
      if Truthy(recipe) {
        drink := drink.(recipe := Assigned(recipe.value));
      }
      drinks := drinks[drinkId := drink];
      r := Catch(Ok([DrinkRow(drinkId, drink)]), Unprocessable);
    }

    /**
      `drinks_delete` (scope `delete:drinks`): removes the drink and echoes its
      id; a missing id is answered 422 (the guard `drink == 0` does not fire and
      `None.delete()` raises inside the `try`).
     */
    method DeleteDrink(scopes: set<string>, drinkId: int) returns (r: Reply<int>)
      requires Valid()
      modifies this
      ensures Valid() && nextId == old(nextId)
      ensures DeleteScope !in scopes ==> r == AuthError(DeleteScope) && drinks == old(drinks)
      ensures DeleteScope in scopes && drinkId !in old(drinks) ==> r == Abort(Unprocessable) && drinks == old(drinks)
      ensures DeleteScope in scopes && drinkId in old(drinks) ==>
        && drinks == old(drinks) - {drinkId}
        && |drinks| == |old(drinks)| - 1
        && r == Ok(drinkId)
    {
      if !Permits(scopes, RemoveDrink) {
        return AuthError(DeleteScope);
      }
      if drinkId !in drinks {
        // `drink == 0` is false for None; `drink.delete()` then raises
        return Catch(Raised, Unprocessable);
      }
      drinks := drinks - {drinkId};
      r := Catch(Ok(drinkId), Unprocessable);
    }
  }
}
