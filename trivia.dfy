/**
  The trivia question service: pagination of the question table, the
  question and category listings, deletion and creation of questions, the
  search, the per-category listing and the quiz picker. The database is the
  in-memory table `TriviaDb.questions`, kept in ascending id order; request
  parameters and JSON body fields are plain arguments.
 */
module Trivia {
  import opened Http
  import opened Seqs
  import opened Like

  /** A row of the question table; `format()` is taken to be the row itself. */
  datatype Question = Question(id: int, question: string, answer: string, category: int, difficulty: int)

  /** Questions returned per page. */
  const QuestionsPerPage: int := 10

  function Min(a: int, b: int): int { if a <= b then a else b }
  function Max(a: int, b: int): int { if a <= b then b else a }

  // ---------------------------------------------------------------------
  // Pagination
  // ---------------------------------------------------------------------

  /** Python's clamping of a slice bound `i` against a length `n`: a negative bound counts from the end. */
  function SliceBound(i: int, n: nat): (k: nat)
    ensures k <= n
    ensures 0 <= i <= n ==> k == i
    ensures i > n ==> k == n
    ensures i < 0 && i + n >= 0 ==> k == i + n
    ensures i + n < 0 ==> k == 0
  {
    if i < 0 then Max(i + n, 0) else Min(i, n)
  }

  /**
    Python's `s[start:end]`: the elements whose index lies between the two
    clamped bounds, in order; empty when the bounds cross.
   */
  function PySlice<T>(s: seq<T>, start: int, end: int): (r: seq<T>)
    ensures |r| == Max(SliceBound(end, |s|) - SliceBound(start, |s|), 0)
    ensures forall k :: 0 <= k < |r| ==> r[k] == s[SliceBound(start, |s|) + k]
  {
    var lo, hi := SliceBound(start, |s|), SliceBound(end, |s|);
    if lo < hi then s[lo..hi] else []
  }

  /** `paginate_questions`: the `page`-th block of `QuestionsPerPage` questions of `selection`. */
  function PaginateQuestions(selection: seq<Question>, page: int): (r: seq<Question>)
    ensures |r| <= QuestionsPerPage
    ensures forall q :: q in r ==> q in selection
  {
    var start := (page - 1) * QuestionsPerPage;
    PySlice(selection, start, start + QuestionsPerPage)
  }

  /** For a page from 1 on, the page is the window of `selection` starting at `(page - 1) * 10`, in order. */
  lemma PageWindow(selection: seq<Question>, page: int)
    requires page >= 1
    ensures var start := (page - 1) * QuestionsPerPage;
      var r := PaginateQuestions(selection, page);
      && |r| == (if start >= |selection| then 0 else Min(QuestionsPerPage, |selection| - start))
      && forall k :: 0 <= k < |r| ==> r[k] == selection[start + k]
  {
  }

  /** A page from 1 on is empty exactly when its first offset is past the last question. */
  lemma PageEmptyIff(selection: seq<Question>, page: int)
    requires page >= 1
    ensures PaginateQuestions(selection, page) == [] <==> (page - 1) * QuestionsPerPage >= |selection|
  {
    PageWindow(selection, page);
  }

  /** Page 0 slices `[-10:0]`, which is always empty. */
  lemma PageZeroIsEmpty(selection: seq<Question>)
    ensures PaginateQuestions(selection, 0) == []
  {
  }

  /** A negative page counts blocks of ten back from the end of the selection. */
  lemma NegativePageCountsFromEnd(selection: seq<Question>, page: int)
    requires page < 0
    ensures PaginateQuestions(selection, page)
         == selection[Max(|selection| + (page - 1) * QuestionsPerPage, 0) .. Max(|selection| + page * QuestionsPerPage, 0)]
  {
  }

  /** Question number `i` (from 0) is found on page `i / 10 + 1` at position `i % 10`. */
  lemma PageOfIndex(selection: seq<Question>, i: int)
    requires 0 <= i < |selection|
    ensures var r := PaginateQuestions(selection, i / QuestionsPerPage + 1);
      i % QuestionsPerPage < |r| && r[i % QuestionsPerPage] == selection[i]
  {
    var page := i / QuestionsPerPage + 1;
    assert (page - 1) * QuestionsPerPage + i % QuestionsPerPage == i;
    PageWindow(selection, page);
  }

  /** Pages 1 to `k` laid end to end. */
  function PagesUpTo(selection: seq<Question>, k: nat): seq<Question>
  {
    if k == 0 then [] else PagesUpTo(selection, k - 1) + PaginateQuestions(selection, k)
  }

  /** Reading pages 1, 2, ..., k returns the first `10 * k` questions, each once and in order. */
  lemma {:induction false} PagesUpToIsPrefix(selection: seq<Question>, k: nat)
    ensures PagesUpTo(selection, k) == selection[..Min(k * QuestionsPerPage, |selection|)]
  {
    if k > 0 {
      PagesUpToIsPrefix(selection, k - 1);
      PageWindow(selection, k);
      var a := Min((k - 1) * QuestionsPerPage, |selection|);
      var b := Min(k * QuestionsPerPage, |selection|);
      assert PaginateQuestions(selection, k) == selection[a..b];
      assert selection[..a] + selection[a..b] == selection[..b];
    }
  }

  // ---------------------------------------------------------------------
  // Listings
  // ---------------------------------------------------------------------

  /** Body of a successful `GET /questions`. */
  datatype QuestionPage = QuestionPage(questions: seq<Question>, totalQuestions: int, categories: map<int, string>)

  /** `retrieve_categories`: the category map, or 422 when there is none (the `abort(404)` is caught). */
  function RetrieveCategories(categories: map<int, string>): (r: Reply<map<int, string>>)
    ensures r.Ok? <==> |categories| > 0
    ensures r.Ok? ==> r.body == categories
    ensures !r.Ok? ==> r == Abort(Unprocessable)
  {
    Catch(if |categories| == 0 then Abort(NotFound) else Ok(categories), Unprocessable)
  }

  /** `retrieve_questions`: one page of the table (in id order) with the total count and the categories. */
  function RetrieveQuestions(questions: seq<Question>, categories: map<int, string>, page: int): (r: Reply<QuestionPage>)
    requires IdsAscending(questions)
    ensures r.Ok? <==> PaginateQuestions(questions, page) != []
    ensures r.Ok? ==> r.body == QuestionPage(PaginateQuestions(questions, page), |questions|, categories)
    ensures !r.Ok? ==> r == Abort(Unprocessable)
  {
    var current := PaginateQuestions(questions, page);
    Catch(if |current| == 0 then Abort(NotFound) else Ok(QuestionPage(current, |questions|, categories)), Unprocessable)
  }

  /** Asking for a page past the last question is answered 422, not 404. */
  lemma RetrievePastLastPageIs422(questions: seq<Question>, categories: map<int, string>, page: int)
    requires IdsAscending(questions)
    requires page >= 1 && (page - 1) * QuestionsPerPage >= |questions|
    ensures RetrieveQuestions(questions, categories, page) == Abort(Unprocessable)
  {
    PageEmptyIff(questions, page);
  }

  /** Every page from 1 on that starts at an existing question is served. */
  lemma RetrieveExistingPageSucceeds(questions: seq<Question>, categories: map<int, string>, page: int)
    requires IdsAscending(questions)
    requires page >= 1 && (page - 1) * QuestionsPerPage < |questions|
    ensures RetrieveQuestions(questions, categories, page).Ok?
    ensures RetrieveQuestions(questions, categories, page).body.questions[0] == questions[(page - 1) * QuestionsPerPage]
  {
    PageWindow(questions, page);
  }

  // ---------------------------------------------------------------------
  // Search
  // ---------------------------------------------------------------------

  /** Body of a successful search. */
  datatype QuestionList = QuestionList(questions: seq<Question>, totalQuestions: int)

  /** `Question.question.ilike(f'%{search}%')`: the term is used as a pattern, unescaped. */
  function SearchHit(term: string): Question -> bool
  {
    (q: Question) => Matches(q.question, "%" + term + "%")
  }

  /** The questions the search query returns, in table order. */
  function SearchResults(questions: seq<Question>, term: string): (r: seq<Question>)
    ensures forall q :: q in r <==> q in questions && Matches(q.question, "%" + term + "%")
  {
    Filter(questions, SearchHit(term))
  }

  function LiteralHit(term: string): Question -> bool
  {
    (q: Question) => ContainsIgnoringCase(q.question, term)
  }

  /** The intended search: the questions whose text contains the term literally, ignoring case. */
  function LiteralSearchResults(questions: seq<Question>, term: string): (r: seq<Question>)
    ensures forall q :: q in r <==> q in questions && ContainsIgnoringCase(q.question, term)
  {
    Filter(questions, LiteralHit(term))
  }

  /** For a term without `%` or `_`, the query does return exactly the questions containing the term. */
  lemma SearchIsLiteralWithoutWildcards(questions: seq<Question>, term: string)
    requires NoWildcards(term)
    ensures SearchResults(questions, term) == LiteralSearchResults(questions, term)
  {
    forall q | q in questions
      ensures SearchHit(term)(q) == ContainsIgnoringCase(q.question, term)
    {
      SurroundedTermMeansContains(q.question, term);
    }
    FilterAgrees(questions, SearchHit(term), LiteralHit(term));
  }

  /** Whatever the term, a question whose text is exactly the term is among the search results. */
  lemma SearchFindsExactText(questions: seq<Question>, q: Question)
    requires q in questions
    ensures q in SearchResults(questions, q.question)
  {
    TermFindsItself(q.question);
  }

  /** A search for `%` returns every question, although no question text without a `%` contains it. */
  lemma PercentSearchReturnsAll(questions: seq<Question>)
    requires forall q, i :: q in questions && 0 <= i < |q.question| ==> q.question[i] != '%'
    ensures SearchResults(questions, "%") == questions
    ensures LiteralSearchResults(questions, "%") == []
  {
    forall q | q in questions
      ensures SearchHit("%")(q) && !ContainsIgnoringCase(q.question, "%")
    {
      PercentTermMatchesEverything(q.question);
    }
    FilterKeepsAll(questions, SearchHit("%"));
    FilterEmpty(questions, LiteralHit("%"));
  }

  /**
    `search_questions`: for a non-empty term, the matching questions and their
    count; for an absent or empty term the view returns nothing at all.
   */
  method SearchQuestions(questions: seq<Question>, searchTerm: Option<string>) returns (r: Reply<QuestionList>)
    ensures !Truthy(searchTerm) ==> r == NoResponse
    ensures Truthy(searchTerm) ==> r == Ok(QuestionList(SearchResults(questions, searchTerm.value), |SearchResults(questions, searchTerm.value)|))
  {
    if !Truthy(searchTerm) {
      return NoResponse;
    }
    var term := searchTerm.value;
    var found: seq<Question> := [];
    var i := 0;
    while i < |questions|
      invariant 0 <= i <= |questions|
      invariant found == Filter(questions[..i], SearchHit(term))
    {
      FilterSnoc(questions, i, SearchHit(term));
      if Matches(questions[i].question, "%" + term + "%") {
        found := found + [questions[i]];
      }
      i := i + 1;
    }
    assert questions[..i] == questions;
    r := Catch(Ok(QuestionList(found, |found|)), NotFound);
  }

  // ---------------------------------------------------------------------
  // Questions of one category
  // ---------------------------------------------------------------------

  /** Body of a successful per-category listing. */
  datatype CategoryQuestions = CategoryQuestions(questions: seq<Question>, totalQuestions: int, currentCategory: int)

  function InCategory(category: int): Question -> bool
  {
    (q: Question) => q.category == category
  }

  /** `get_categoryquestions`: every question of the category, in table order, and their count. */
  method GetCategoryQuestions(questions: seq<Question>, categoryId: int) returns (r: Reply<CategoryQuestions>)
    ensures r.Ok? && r.body.currentCategory == categoryId
    ensures forall q :: q in r.body.questions <==> q in questions && q.category == categoryId
    ensures r.body.questions == Filter(questions, InCategory(categoryId))
    ensures r.body.totalQuestions == |r.body.questions|
  {
    var found: seq<Question> := [];
    var i := 0;
    while i < |questions|
      invariant 0 <= i <= |questions|
      invariant found == Filter(questions[..i], InCategory(categoryId))
    {
      FilterSnoc(questions, i, InCategory(categoryId));
      if questions[i].category == categoryId {
        found := found + [questions[i]];
      }
      i := i + 1;
    }
    assert questions[..i] == questions;
    r := Catch(Ok(CategoryQuestions(found, |found|, categoryId)), Unprocessable);
  }

  // ---------------------------------------------------------------------
  // Quiz
  // ---------------------------------------------------------------------

  /** Body of a quiz reply: `success` tells whether a question was found. */
  datatype Quiz = Quiz(success: bool, question: Option<Question>)

  /** The questions the quiz draws from: one category, or all of them for category 0. */
  function QuizPool(questions: seq<Question>, category: int): (r: seq<Question>)
    ensures forall q :: q in r <==> q in questions && (category != 0 ==> q.category == category)
  {
    if category != 0 then Filter(questions, InCategory(category)) else questions
  }

  function Unseen(previous: seq<int>): Question -> bool
  {
    (q: Question) => q.id !in previous
  }

  /** The questions still available: in the pool and not among the previous question ids. */
  function Available(questions: seq<Question>, category: int, previous: seq<int>): (r: seq<Question>)
    ensures forall q :: q in r <==> q in questions && q.id !in previous && (category != 0 ==> q.category == category)
  {
    Filter(QuizPool(questions, category), Unseen(previous))
  }

  /** Nothing is available exactly when every question of the pool has already been asked. */
  lemma QuizExhaustedIff(questions: seq<Question>, category: int, previous: seq<int>)
    ensures Available(questions, category, previous) == [] <==> forall q :: q in QuizPool(questions, category) ==> q.id in previous
  {
    FilterEmpty(QuizPool(questions, category), Unseen(previous));
  }

  /**
    `make_quiz`: a question of the chosen category (0 for all) that is not
    among `previous`, picked by `random.choice`, or `success = False` when
    none is left. A missing `quiz_category`, or a missing
    `previous_questions` with a non-empty pool, raises inside the `try`, whose
    handler answers 404.
   */
  method MakeQuiz(questions: seq<Question>, previous: Option<seq<int>>, quizCategory: Option<int>) returns (r: Reply<Quiz>)
    ensures quizCategory.None? ==> r == Abort(NotFound)
    ensures quizCategory.Some? && previous.None? ==>
      r == (if QuizPool(questions, quizCategory.value) == [] then Ok(Quiz(false, None)) else Abort(NotFound))
    ensures quizCategory.Some? && previous.Some? ==>
      && r.Ok?
      && (r.body.success <==> Available(questions, quizCategory.value, previous.value) != [])
      && (r.body.success ==> r.body.question.Some? && r.body.question.value in Available(questions, quizCategory.value, previous.value))
      && (!r.body.success ==> r.body.question == None)
  {
    if quizCategory.None? {
      // `category['id']` on None raises a TypeError
      return Catch(Raised, NotFound);
    }
    var category := quizCategory.value;
    var questionSet := QuizPool(questions, category);
    var available: seq<Question> := [];
    var failed := false;
    var i := 0;
    while i < |questionSet| && !failed
      invariant 0 <= i <= |questionSet|
      invariant previous.None? ==> i == 0 && available == []
      invariant failed ==> previous.None? && |questionSet| > 0
      invariant previous.Some? ==> !failed && available == Filter(questionSet[..i], Unseen(previous.value))
      decreases |questionSet| - i, !failed
    {
      if previous.None? {
        // `question.id not in None` raises a TypeError
        failed := true;
      } else {
        FilterSnoc(questionSet, i, Unseen(previous.value));
        if questionSet[i].id !in previous.value {
          available := available + [questionSet[i]];
        }
        i := i + 1;
      }
    }
    if failed {
      return Catch(Raised, NotFound);
    }
    if previous.Some? {
      assert questionSet[..i] == questionSet;
    }
    if |available| > 0 {
      var k :| 0 <= k < |available|;
      r := Catch(Ok(Quiz(true, Some(available[k]))), NotFound);
    } else {
      r := Catch(Ok(Quiz(false, None)), NotFound);
    }
  }

  // ---------------------------------------------------------------------
  // The question table and the handlers that change it
  // ---------------------------------------------------------------------

  /** Ids strictly increase along the table, so ordering by id is the table order (`Drinks.IdsIncrease` is the same order on drink rows). */
  ghost predicate IdsAscending(qs: seq<Question>)
  {
    forall i, j :: 0 <= i < j < |qs| ==> qs[i].id < qs[j].id
  }

  /** `Question.query.filter(Question.id == id).one_or_none()`. */
  function FindQuestion(qs: seq<Question>, id: int): (r: Option<Question>)
    ensures r.Some? ==> r.value in qs && r.value.id == id
    ensures r.None? ==> forall q :: q in qs ==> q.id != id
  {
    if qs == [] then None
    else if qs[0].id == id then Some(qs[0])
    else FindQuestion(qs[1..], id)
  }

  function IdIsNot(id: int): Question -> bool
  {
    (q: Question) => q.id != id
  }

  /** The table without the row whose id is `id`. */
  function WithoutId(qs: seq<Question>, id: int): (r: seq<Question>)
    ensures forall q :: q in r <==> q in qs && q.id != id
  {
    Filter(qs, IdIsNot(id))
  }

  /** A row whose id is below every id of an ascending table can be put in front of it. */
  lemma PrependKeepsAscending(x: Question, qs: seq<Question>)
    requires IdsAscending(qs)
    requires forall y :: y in qs ==> x.id < y.id
    ensures IdsAscending([x] + qs)
  {
    var t := [x] + qs;
    forall i, j | 0 <= i < j < |t| ensures t[i].id < t[j].id {
      assert t[j] == qs[j - 1];
      if i > 0 {
        assert t[i] == qs[i - 1];
      } else {
        assert qs[j - 1] in qs;
      }
    }
  }

  /** Dropping rows keeps the ids ascending. */
  lemma {:induction false} FilterKeepsAscending(qs: seq<Question>, p: Question -> bool)
    requires IdsAscending(qs)
    ensures IdsAscending(Filter(qs, p))
  {
    if qs != [] {
      var rest := qs[1..];
      FilterKeepsAscending(rest, p);
      if p(qs[0]) {
        forall x | x in Filter(rest, p) ensures qs[0].id < x.id {
          var k :| 0 <= k < |rest| && rest[k] == x;
          assert qs[k + 1] == x;
        }
        assert Filter(qs, p) == [qs[0]] + Filter(rest, p);
        PrependKeepsAscending(qs[0], Filter(rest, p));
      } else {
        assert Filter(qs, p) == Filter(rest, p);
      }
    }
  }

  /** In a table with ascending ids, deleting an id that is present removes exactly one row. */
  lemma {:induction false} WithoutPresentIdIsOneShorter(qs: seq<Question>, id: int)
    requires IdsAscending(qs) && FindQuestion(qs, id).Some?
    ensures |WithoutId(qs, id)| == |qs| - 1
  {
    if qs[0].id == id {
      forall q | q in qs[1..] ensures IdIsNot(id)(q) {
        var k :| 0 <= k < |qs[1..]| && qs[1..][k] == q;
        assert qs[k + 1] == q;
      }
      FilterKeepsAll(qs[1..], IdIsNot(id));
    } else {
      WithoutPresentIdIsOneShorter(qs[1..], id);
    }
  }

  /** Body of a successful `DELETE /questions/<id>`. */
  datatype Deletion = Deletion(deleted: int, questions: seq<Question>, totalQuestions: int, categories: map<int, string>)

  /** Body of a successful `POST /questions`. */
  datatype Creation = Creation(questionId: int, questionCreated: string, questions: seq<Question>, totalQuestions: int, categories: map<int, string>)

  /** The trivia database: the question table in id order, the category table and the next id to hand out. */
  class TriviaDb {
    var questions: seq<Question>
    var categories: map<int, string>
    var nextId: int

    ghost predicate Valid()
      reads this
    {
      nextId >= 1 && IdsAscending(questions) && forall i :: 0 <= i < |questions| ==> questions[i].id < nextId
    }

    constructor (categories: map<int, string>)
      ensures Valid()
      ensures questions == [] && this.categories == categories && nextId == 1
    {
      this.questions := [];
      this.categories := categories;
      this.nextId := 1;
    }

    /**
      `delete_question`: removes the question with id `questionId` and answers
      with the requested page of what remains. A missing id is answered 422
      (the `abort(404)` is caught) and leaves the table as it was.
     */
    method DeleteQuestion(questionId: int, page: int) returns (r: Reply<Deletion>)
      requires Valid()
      modifies this
      ensures Valid()
      ensures categories == old(categories) && nextId == old(nextId)
      ensures FindQuestion(old(questions), questionId).None? ==>
        r == Abort(Unprocessable) && questions == old(questions)
      ensures FindQuestion(old(questions), questionId).Some? ==>
        && questions == WithoutId(old(questions), questionId)
        && |questions| == |old(questions)| - 1
        && r == Ok(Deletion(questionId, PaginateQuestions(questions, page), |questions|, categories))
    {
      var question := FindQuestion(questions, questionId);
      if question.None? {
        r := Catch(Abort(NotFound), Unprocessable);
        return;
      }
      WithoutPresentIdIsOneShorter(questions, questionId);
      FilterKeepsAscending(questions, IdIsNot(questionId));
      questions := WithoutId(questions, questionId);
      var current := PaginateQuestions(questions, page);
      r := Catch(Ok(Deletion(questionId, current, |questions|, categories)), Unprocessable);
    }

    /**
      `add_question`: inserts a question under the next id and answers with the
      requested page of the table. `committed` is the database's verdict on the
      insert; when it refuses, the `except` clause answers 404 and nothing is added.
     */
    method AddQuestion(question: string, answer: string, difficulty: int, category: int, page: int, committed: bool)
      returns (r: Reply<Creation>)
      requires Valid()
      modifies this
      ensures Valid()
      ensures categories == old(categories)
      ensures !committed ==> r == Abort(NotFound) && questions == old(questions) && nextId == old(nextId)
      ensures committed ==>
        && questions == old(questions) + [Question(old(nextId), question, answer, category, difficulty)]
        && nextId == old(nextId) + 1
        && r.Ok? && r.body.questionId >= 1
        && r == Ok(Creation(old(nextId), question, PaginateQuestions(questions, page), |old(questions)| + 1, categories))
    {
      if !committed {
        r := Catch(Raised, NotFound);
        return;
      }
      var row := Question(nextId, question, answer, category, difficulty);
      questions := questions + [row];
      nextId := nextId + 1;
      var current := PaginateQuestions(questions, page);
      r := Catch(Ok(Creation(row.id, row.question, current, |questions|, categories)), NotFound);
    }
  }
}
