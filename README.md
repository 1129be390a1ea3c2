# Trivia and coffee-shop services in Dafny

This project models the request handlers of two small Flask services backed by
SQLAlchemy:

- the **trivia API** (`flaskr/__init__.py`): paging through the question table
  ten at a time, listing categories, deleting and adding questions, searching
  question texts, listing the questions of a category and drawing a quiz
  question that has not been asked yet;
- the **coffee-shop API** (`api.py`): listing drinks (openly and, with the
  `get:drinks-detail` scope, in id order), creating, editing and deleting a
  drink, each gated by the scope its `@requires_auth` decorator names.

Modules:

- `Http` (`http.dfy`): the outcome of a view function (`Reply`) and the
  `try: ... except Exception: abort(status)` wrapper (`Catch`). `abort` raises an
  `HTTPException`, which the handler's own `except Exception` catches. So every
  `abort(404)` written inside a `try` reaches the client as the `except`
  clause's status (422 in most handlers).
- `Seqs` (`seqs.dfy`): order-preserving filtering, the shape of every query with
  a `filter` and of every append loop.
- `Like` (`like.dfy`): SQL `ILIKE` pattern matching and its relation to
  case-insensitive substring search.
- `Trivia` (`trivia.dfy`): the trivia handlers. The tables are values passed in
  for the read-only handlers. The two handlers that change the table are
  methods of the class `TriviaDb`.
- `Drinks` (`drinks.dfy`): the drink table as a class `DrinkStore` with a map
  from id to drink, the scope table and the five drink handlers.

The patch and delete drink handlers guard a missing row with `drink == 0`. A
missing row is `None`, so that guard never fires. The model follows the code:
the attribute access on `None` raises inside the `try`, and the call is
answered 422.

## Model

| member | source | states |
|---|---|---|
| Http.Catch | projects/02_trivia_api/starter/backend/flaskr/__init__.py:38-51 | `try: ... except Exception: abort(status)`: an abort or any other exception in the block becomes `abort(status)`, an `abort(404)` included; every other outcome passes through unchanged |
| Trivia.SliceBound | projects/02_trivia_api/starter/backend/flaskr/__init__.py:19 | Python's clamping of a slice bound: in range it is kept, past the end it is the length, a negative bound counts from the end, and one before the start is 0 |
| Trivia.PySlice | projects/02_trivia_api/starter/backend/flaskr/__init__.py:19 | `s[start:end]`: as many elements as lie between the clamped bounds (none when they cross), each taken in order from the clamped start |
| Trivia.PaginateQuestions | projects/02_trivia_api/starter/backend/flaskr/__init__.py:11-21 | A page holds at most `QUESTIONS_PER_PAGE` (10) questions, all taken from the selection |
| Trivia.PageWindow | projects/02_trivia_api/starter/backend/flaskr/__init__.py:15-19 | For page 1 on, the page is the selection's window from `(page-1)*10`: its exact length (0 past the end, else at most 10) and its elements in order |
| Trivia.PageEmptyIff | projects/02_trivia_api/starter/backend/flaskr/__init__.py:15-19 | For page 1 on, the page is empty exactly when its first offset is past the last question |
| Trivia.PageZeroIsEmpty | projects/02_trivia_api/starter/backend/flaskr/__init__.py:14-19 | Page 0 slices `[-10:0]` and is always empty |
| Trivia.NegativePageCountsFromEnd | projects/02_trivia_api/starter/backend/flaskr/__init__.py:14-19 | A negative page is a block counted back from the end of the selection, as Python slicing clamps it |
| Trivia.PageOfIndex | projects/02_trivia_api/starter/backend/flaskr/__init__.py:15-19 | Question number i is found on page i/10+1 at position i mod 10 |
| Trivia.PagesUpToIsPrefix | projects/02_trivia_api/starter/backend/flaskr/__init__.py:15-19 | Pages 1..k laid end to end are the first 10k questions, each once and in order |
| Trivia.RetrieveCategories | projects/02_trivia_api/starter/backend/flaskr/__init__.py:36-51 | Success exactly when a category exists, with the full id-to-type map; otherwise 422 |
| Trivia.RetrieveQuestions | projects/02_trivia_api/starter/backend/flaskr/__init__.py:56-77 | For the table in id order (`order_by(Question.id)`), success exactly when the requested page is non-empty, with that page, the total count and the categories; otherwise 422 |
| Trivia.RetrievePastLastPageIs422 | projects/02_trivia_api/starter/backend/flaskr/__init__.py:60-63 | A page past the last question is answered 422, because the `abort(404)` is caught |
| Trivia.RetrieveExistingPageSucceeds | projects/02_trivia_api/starter/backend/flaskr/__init__.py:59-74 | A page that starts at an existing question is served and begins with that question |
| Trivia.FindQuestion | projects/02_trivia_api/starter/backend/flaskr/__init__.py:84 | `one_or_none` by id: a found row is in the table with that id; None means no row has the id |
| Trivia.WithoutId | projects/02_trivia_api/starter/backend/flaskr/__init__.py:89 | After the delete, exactly the rows whose id differs remain |
| Trivia.PrependKeepsAscending | projects/02_trivia_api/starter/backend/flaskr/__init__.py:91 | A row whose id is below every id of an id-ordered table can go in front and the table stays in id order |
| Trivia.FilterKeepsAscending | projects/02_trivia_api/starter/backend/flaskr/__init__.py:89-91 | Deleting rows keeps the table ordered by id |
| Trivia.WithoutPresentIdIsOneShorter | projects/02_trivia_api/starter/backend/flaskr/__init__.py:84-91 | With unique ascending ids, deleting a present id removes exactly one row |
| Trivia.TriviaDb.DeleteQuestion | projects/02_trivia_api/starter/backend/flaskr/__init__.py:81-108 | A missing id gives 422 and changes nothing. Otherwise the row goes, the count drops by one, the table stays ordered, and the reply holds the id, the requested page of the new table, the new count and the categories |
| Trivia.TriviaDb.AddQuestion | projects/02_trivia_api/starter/backend/flaskr/__init__.py:114-144 | A refused insert gives 404 and changes nothing. Otherwise the question is appended under the next id and the reply echoes that id, which is at least 1, the text, the page and the new count |
| Trivia.SearchResults | projects/02_trivia_api/starter/backend/flaskr/__init__.py:158 | The query returns exactly the questions whose text matches the `ILIKE` pattern `%term%` |
| Trivia.SearchQuestions | projects/02_trivia_api/starter/backend/flaskr/__init__.py:150-174 | An absent or empty term gives no response. Otherwise the matching questions and their count, taken in table order (the query fixes no order) |
| Trivia.LiteralSearchResults | projects/02_trivia_api/starter/backend/flaskr/__init__.py:147-148 | The intended search: exactly the questions whose text contains the term, ignoring case |
| Trivia.SearchIsLiteralWithoutWildcards | projects/02_trivia_api/starter/backend/flaskr/__init__.py:158 | For a term without `%` or `_`, the query is exactly the intended substring search |
| Trivia.PercentSearchReturnsAll | projects/02_trivia_api/starter/backend/flaskr/__init__.py:158 | The term `%` returns every question, although the intended search returns none of those without a `%` |
| Trivia.GetCategoryQuestions | projects/02_trivia_api/starter/backend/flaskr/__init__.py:179-197 | Returns exactly the questions of the category, taken in table order (the query fixes no order), their count and the category id |
| Trivia.QuizPool | projects/02_trivia_api/starter/backend/flaskr/__init__.py:210-213 | Category 0 draws from every question, any other from that category only |
| Trivia.Available | projects/02_trivia_api/starter/backend/flaskr/__init__.py:215-219 | Exactly the pool's questions whose id is not among the previous ones |
| Trivia.QuizExhaustedIff | projects/02_trivia_api/starter/backend/flaskr/__init__.py:215-221 | Nothing is available exactly when every question of the pool was asked before |
| Trivia.MakeQuiz | projects/02_trivia_api/starter/backend/flaskr/__init__.py:202-235 | Succeeds exactly when some available question exists, and the chosen question is available. No category gives 404; no previous list gives 404, or `success = False` when the pool is empty |
| Seqs.Filter | projects/02_trivia_api/starter/backend/flaskr/__init__.py:184-186 | A filtered query keeps exactly the rows that satisfy the condition, never more rows than the table |
| Seqs.FilterConcat | projects/02_trivia_api/starter/backend/flaskr/__init__.py:182 | Filtering keeps the table order: it distributes over concatenation |
| Seqs.FilterSnoc | projects/02_trivia_api/starter/backend/flaskr/__init__.py:217-219 | One step of an append loop that filters (the quiz loop, and the model's search and category loops, which fold the query's filter into the append loop) extends the result by the current row when it qualifies |
| Seqs.FilterEmpty | projects/02_trivia_api/starter/backend/flaskr/__init__.py:221 | The result is empty exactly when no row qualifies |
| Seqs.FilterKeepsAll | projects/02_trivia_api/starter/backend/flaskr/__init__.py:89-91 | A condition every row meets keeps the whole table |
| Seqs.FilterAgrees | projects/02_trivia_api/starter/backend/flaskr/__init__.py:158 | Two conditions that agree on every row select the same rows |
| Like.Matches | projects/02_trivia_api/starter/backend/flaskr/__init__.py:158 | `ILIKE`: a pattern without `%` matches only texts of its own length |
| Like.MatchesItself | projects/02_trivia_api/starter/backend/flaskr/__init__.py:158 | Every text matches itself used as a pattern, since `%` and `_` match themselves |
| Like.TrailingPercent | projects/02_trivia_api/starter/backend/flaskr/__init__.py:158 | Appending `%` to a pattern keeps every text it matched |
| Like.TermFindsItself | projects/02_trivia_api/starter/backend/flaskr/__init__.py:158 | The pattern `%term%` matches the text `term` itself, whatever wildcards the term holds |
| Trivia.SearchFindsExactText | projects/02_trivia_api/starter/backend/flaskr/__init__.py:158 | A question whose text is exactly the search term is always among the results |
| Like.PercentMatchesAll | projects/02_trivia_api/starter/backend/flaskr/__init__.py:158 | The pattern `%` matches every text |
| Like.PrefixMatches | projects/02_trivia_api/starter/backend/flaskr/__init__.py:158 | `word%` matches exactly the texts that begin with `word` up to case, when `word` has no wildcard |
| Like.LeadingPercent | projects/02_trivia_api/starter/backend/flaskr/__init__.py:158 | `%rest` matches exactly when `rest` matches some suffix of the text |
| Like.SurroundedTermMeansContains | projects/02_trivia_api/starter/backend/flaskr/__init__.py:158 | `%term%` matches exactly the texts containing the term up to case, when the term has no wildcard |
| Like.PercentTermMatchesEverything | projects/02_trivia_api/starter/backend/flaskr/__init__.py:158 | The pattern built from the term `%` matches every text, though a text without `%` does not contain the term |
| Drinks.RequiredScope | projects/03_coffee_shop_full_stack/starter_code/backend/src/api.py:20-123 | The scope table of the `@requires_auth` decorators: only the open drink listing (:20) has no scope; the others need the scopes named at :43, :66, :92 and :123 |
| Drinks.Permits | projects/03_coffee_shop_full_stack/starter_code/backend/src/api.py:43-123 | The decorator's gate: the open listing admits everyone; a gated endpoint admits exactly the callers holding its scope, and no caller without scopes |
| Drinks.ScopeOpensOneEndpoint | projects/03_coffee_shop_full_stack/starter_code/backend/src/api.py:43-123 | Each scope named by a `@requires_auth` decorator opens its own endpoint and no other gated endpoint |
| Drinks.DistinctIdsCount | projects/03_coffee_shop_full_stack/starter_code/backend/src/api.py:23-27 | Rows with distinct ids are as many as their ids |
| Drinks.ExtendListing | projects/03_coffee_shop_full_stack/starter_code/backend/src/api.py:25-27 | One more step of the listing loop adds a drink not yet listed and keeps every listed row exact and distinct |
| Drinks.EnumerationSize | projects/03_coffee_shop_full_stack/starter_code/backend/src/api.py:23-29 | A listing that holds every drink once has as many rows as the table has drinks |
| Drinks.LeastExists | projects/03_coffee_shop_full_stack/starter_code/backend/src/api.py:46 | A non-empty id set has a least id |
| Drinks.SortedRows | projects/03_coffee_shop_full_stack/starter_code/backend/src/api.py:46-47 | `order_by(Drink.id)`: every drink exactly once, each with its own data, ids strictly increasing |
| Drinks.DrinkStore.GetDrinks | projects/03_coffee_shop_full_stack/starter_code/backend/src/api.py:20-38 | An empty table gives 422. Otherwise every drink exactly once with its own data, as many rows as drinks |
| Drinks.DrinkStore.GetDrinksDetail | projects/03_coffee_shop_full_stack/starter_code/backend/src/api.py:42-61 | Without `get:drinks-detail` an auth error. An empty table gives 422. Otherwise every drink in id order |
| Drinks.DrinkStore.PostDrink | projects/03_coffee_shop_full_stack/starter_code/backend/src/api.py:65-87 | Without `post:drinks` an auth error. A falsy title or recipe, or a refused insert, gives 422 and changes nothing. Otherwise one drink is added under the next id, recipe JSON-encoded, and echoed |
| Drinks.DrinkStore.PatchDrink | projects/03_coffee_shop_full_stack/starter_code/backend/src/api.py:91-118 | Without `patch:drinks` an auth error. A missing id gives 422 and changes nothing. Otherwise only that drink changes: truthy title and recipe overwrite, the recipe unencoded. The reply is the one-element list of the edited drink |
| Drinks.DrinkStore.DeleteDrink | projects/03_coffee_shop_full_stack/starter_code/backend/src/api.py:122-141 | Without `delete:drinks` an auth error. A missing id gives 422 and changes nothing. Otherwise exactly that drink is removed and its id echoed |

## Left out

- CORS set-up, the `after_request` headers, the registered error handlers' JSON bodies and the `print` of each exception: none of them affects which reply a handler gives.
- Authentication: JWT decoding and the `AuthError` status codes. The auth module is not part of this model. The caller's verified permissions arrive as a set of scope strings, and a refusal is the `AuthError` reply carrying the missing scope.
- A request without a JSON body: `body.get` on `None` raises outside any `try` and gives a server error. The body fields are modelled as present-or-absent options.
- `format()`, `short()`, `long()` and `json.dumps` are treated as projections of the stored row. Their output shape and the JSON recipe text are not modelled; `StoredRecipe` only records whether the recipe went through `json.dumps`.
- The `category` column holds a string in the database; categories are modelled as integers. The `str(category_id)` conversion of the category listing is therefore not modelled.
- `Like.Lower`: case folding covers ASCII letters only, and `ILIKE`'s backslash escape character is not modelled.
- Trivia.TriviaDb.AddQuestion: absent body fields, type errors and a refused insert are folded into one `committed` parameter. An id that the database's sequence consumes for a failed insert is not modelled.
- Drinks.DrinkStore.PostDrink: a refused insert is the `committed` parameter; the sequence id it may consume is not modelled.
- Database failures in the queries and in `question.delete()` are not modelled. The model therefore never takes the `except` branch of a handler whose block only reads or deletes (for example the 422 of `get_categoryquestions` and `delete_question` when the database fails).
- Drinks.DrinkStore.PatchDrink and Drinks.DrinkStore.DeleteDrink: a database failure in `update()` or `delete()` on an existing row is not modelled.
- Trivia.SearchQuestions: an absent or empty search term makes the view return `None`, which Flask turns into a server error. The model stops at `NoResponse`. The endpoint comment promises an answer for every term; the model follows the code.
- Trivia.SearchQuestions, Trivia.GetCategoryQuestions and Trivia.MakeQuiz: `Query.all()` without `order_by` has no order fixed by SQL (the search at flaskr/__init__.py:158, the category listing at :182, the quiz pool at :211-213). The model takes table order, and MakeQuiz's contract promises only that the chosen question is available, not which one.
- Trivia.MakeQuiz: `random.choice` is a nondeterministic pick from the available questions. Randomness and its distribution are not modelled.
- Drinks.DrinkStore.GetDrinks: the order of `Drink.query.all()` is not fixed. The contract states which rows come back, not their order.
- The `page` query parameter is taken as an integer. A value that is not an integer falls back to page 1 in Flask, which the model does not show.

## Findings

| source | as written | input that shows it | evidently intended | confidence | as-written member | corrected member |
|---|---|---|---|---|---|---|
| projects/02_trivia_api/starter/backend/flaskr/__init__.py:158 | The search term is put into an `ILIKE` pattern without escaping, so `%` and `_` in the term act as wildcards | searchTerm `%` returns every question, including those whose text holds no `%` | Questions whose text contains the term as a literal substring, ignoring case | not executed | Trivia.PercentSearchReturnsAll | Trivia.LiteralSearchResults |
