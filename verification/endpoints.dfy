/** The request-independent decisions of the API routes. Each route is a
    function from the rows it reads (a snapshot of the store) and the
    request fields it uses to its outcome: an abort with an HTTP error, or
    a success body. */
module Endpoints {
  import opened Util
  import opened Models
  import opened Queries
  import opened Pagination
  import PySlice
  import Text

  /** The aborts these routes raise. */
  datatype HttpError = BadRequest | NotFound {
    function Status(): nat {
      match this
      case BadRequest => 400
      case NotFound => 404
    }
  }

  datatype Response<T> = Ok(body: T) | Abort(error: HttpError)

  /** Body of `GET /categories`. */
  datatype CategoriesBody = CategoriesBody(categories: map<int, string>)

  /** Body of `GET /questions`. */
  datatype ListingBody = ListingBody(
    questions: seq<Question>,
    totalQuestions: nat,
    categories: map<int, string>,
    currentCategory: Option<int>)

  /** Body of the search and per-category routes. */
  datatype PageBody = PageBody(
    questions: seq<Question>,
    totalQuestions: nat,
    currentCategory: Option<int>)

  /** The JSON body of `POST /quizzes`: `quiz_category` holds the id of the
      requested category (0 for all of them), or `None` when the field is
      missing or is JSON `null`; `data.get` returns `None` for both. */
  datatype QuizRequest = QuizRequest(quizCategory: Option<int>, previousQuestions: seq<int>)

  /** Body of `POST /quizzes`: the next question, or null when none is left. */
  datatype QuizBody = QuizBody(question: Option<Question>)

  /** `GET /categories`: always succeeds with the id-to-label map. */
  function ListCategories(cats: seq<Category>): (r: Response<CategoriesBody>)
    ensures r.Ok?
    ensures r.body.categories == FormatCategories(cats)
  {
    Ok(CategoriesBody(FormatCategories(cats)))
  }

  /** `GET /questions`: the requested page of all questions, or 404 when
      that page is empty. The total counts the whole table. */
  function ListQuestions(store: seq<Question>, cats: seq<Category>, pageArg: Option<string>)
    : (r: Response<ListingBody>)
    ensures r.Abort? ==> r.error == NotFound
    ensures r.Abort? <==> Paginate(store, PageNumber(pageArg)) == []
    ensures r.Ok? ==>
      && r.body.questions == Paginate(store, PageNumber(pageArg))
      && 1 <= |r.body.questions| <= QuestionsPerPage
      && (forall q :: q in r.body.questions ==> q in store)
      && r.body.totalQuestions == |store|
      && r.body.categories == FormatCategories(cats)
      && r.body.currentCategory == None
  {
    var page := PageNumber(pageArg);
    var questions := Paginate(store, page);
    if |questions| == 0 then Abort(NotFound)
    else Ok(ListingBody(questions, |store|, FormatCategories(cats), None))
  }

  /** `POST /questions/search`: never aborts. The page holds the window of
      the matching questions; the total counts every match. */
  function SearchQuestions(store: seq<Question>, term: string, pageArg: Option<string>)
    : (r: Response<PageBody>)
    ensures r.Ok?
    ensures r.body.currentCategory == None
    ensures r.body.totalQuestions == |SearchMatches(store, term)|
    ensures |r.body.questions| <= QuestionsPerPage
    ensures forall q :: q in r.body.questions ==>
      q in store && Text.ContainsIgnoringCase(q.question, term)
    ensures (forall q :: q in store ==> !Text.ContainsIgnoringCase(q.question, term)) ==>
      r.body.questions == [] && r.body.totalQuestions == 0
  {
    var page := PageNumber(pageArg);
    var start := (page - 1) * QuestionsPerPage;
    var end := start + QuestionsPerPage;
    var results := SearchMatches(store, term);
    assert results != [] ==> results[0] in results;
    Ok(PageBody(PySlice.Slice(results, start, end), |results|, None))
  }

  /** `GET /categories/<id>/questions`: the requested page of the
      category's questions, or 404 when that page is empty, including
      when no question has that category. The total is the size of the
      returned page, not of the category. */
  function CategoryQuestions(store: seq<Question>, categoryId: nat, pageArg: Option<string>)
    : (r: Response<PageBody>)
    ensures r.Abort? ==> r.error == NotFound
    ensures r.Abort? <==> Paginate(InCategory(store, categoryId), PageNumber(pageArg)) == []
    ensures (forall q :: q in store ==> q.category != categoryId) ==> r == Abort(NotFound)
    ensures r.Ok? ==>
      && r.body.questions == Paginate(InCategory(store, categoryId), PageNumber(pageArg))
      && (forall q :: q in r.body.questions ==> q in store && q.category == categoryId)
      && r.body.totalQuestions == |r.body.questions|
      && 1 <= r.body.totalQuestions <= QuestionsPerPage
      && r.body.currentCategory == None
  {
    var selection := InCategory(store, categoryId);
    var questions := Paginate(selection, PageNumber(pageArg));
    assert selection != [] ==> selection[0] in selection;
    if |questions| == 0 then Abort(NotFound)
    else Ok(PageBody(questions, |questions|, None))
  }

  /** `POST /quizzes`: 400 when `quiz_category` is missing; otherwise one
      question of the eligible set, or null when that set is empty.
      `random.choice` is modelled by `draw`, an arbitrary number supplied
      by the random source, reduced to an index of the eligible set. */
  function PlayQuiz(store: seq<Question>, request: QuizRequest, draw: nat)
    : (r: Response<QuizBody>)
    ensures request.quizCategory.None? <==> r == Abort(BadRequest)
    ensures request.quizCategory.Some? ==> r.Ok?
    ensures r.Ok? ==>
      var eligible := Eligible(store, request.quizCategory.value, request.previousQuestions);
      && (r.body.question.None? <==> eligible == [])
      && (r.body.question.Some? ==> r.body.question.value in eligible)
    ensures r.Ok? && r.body.question.Some? ==>
      var q := r.body.question.value;
      && q in store
      && q.id !in request.previousQuestions
      && (request.quizCategory.value != 0 ==> q.category == request.quizCategory.value)
  {
    match request.quizCategory
    case None => Abort(BadRequest)
    case Some(categoryId) =>
      var eligible := Eligible(store, categoryId, request.previousQuestions);
      if |eligible| > 0 then Ok(QuizBody(Some(eligible[draw % |eligible|])))
      else Ok(QuizBody(None))
  }

  /** From page 1 on, the listing is a 404 exactly when the page starts at
      or past the last question: with 12 questions, pages 1 and 2 succeed
      and page 3 is a 404. */
  lemma ListQuestionsBeyondLast(store: seq<Question>, cats: seq<Category>, pageArg: Option<string>)
    requires PageNumber(pageArg) >= 1
    ensures ListQuestions(store, cats, pageArg).Ok? <==>
            (PageNumber(pageArg) - 1) * QuestionsPerPage < |store|
  {
    PageEmptyBeyondLast(store, PageNumber(pageArg));
  }

  /** A negative page is not rejected: page -1 lists questions counted from
      the end of the table once there are more than ten of them. */
  lemma ListQuestionsNegativePage(store: seq<Question>, cats: seq<Category>, pageArg: Option<string>)
    requires PageNumber(pageArg) < 0
    ensures ListQuestions(store, cats, pageArg).Ok? <==> |store| > -PageNumber(pageArg) * QuestionsPerPage
  {
    PageNegative(store, PageNumber(pageArg));
  }

  /** An empty search term matches every question: the total is the size
      of the table and the page is the listing's page. */
  lemma SearchEmptyTerm(store: seq<Question>, pageArg: Option<string>)
    ensures SearchQuestions(store, "", pageArg).body.totalQuestions == |store|
    ensures SearchQuestions(store, "", pageArg).body.questions == Paginate(store, PageNumber(pageArg))
  {
    EmptyTermSelectsAll(store);
    assert SearchMatches(store, "") == store;
    SearchUsesSharedPaging(store, "", pageArg);
  }

  /** The search route repeats the window arithmetic inline; its page is
      the shared pagination applied to the matches. */
  lemma SearchUsesSharedPaging(store: seq<Question>, term: string, pageArg: Option<string>)
    ensures SearchQuestions(store, term, pageArg).body.questions ==
            Paginate(SearchMatches(store, term), PageNumber(pageArg))
  {
  }

  /** Without a match the search still succeeds, with an empty page and a
      zero total, whereas the listing of an empty table is a 404. */
  lemma SearchNeverFails(store: seq<Question>, cats: seq<Category>, term: string, pageArg: Option<string>)
    requires forall q :: q in store ==> !Text.ContainsIgnoringCase(q.question, term)
    ensures SearchQuestions(store, term, pageArg) == Ok(PageBody([], 0, None))
    ensures ListQuestions([], cats, pageArg) == Abort(NotFound)
  {
  }

  /** The category total is capped by the page: a category with more than
      ten questions reports 10 on its first page. */
  lemma CategoryTotalIsPageSize(store: seq<Question>, categoryId: nat)
    requires |InCategory(store, categoryId)| > QuestionsPerPage
    ensures CategoryQuestions(store, categoryId, None).Ok?
    ensures CategoryQuestions(store, categoryId, None).body.totalQuestions == QuestionsPerPage
    ensures CategoryQuestions(store, categoryId, None).body.totalQuestions < |InCategory(store, categoryId)|
  {
    PagePositive(InCategory(store, categoryId), 1);
  }

  /** Every question of the eligible set can be the one drawn: the draw
      `i` picks the eligible question at position `i`. */
  lemma EveryEligibleCanBeDrawn(store: seq<Question>, request: QuizRequest, i: nat)
    requires request.quizCategory.Some?
    requires i < |Eligible(store, request.quizCategory.value, request.previousQuestions)|
    ensures PlayQuiz(store, request, i) ==
            Ok(QuizBody(Some(Eligible(store, request.quizCategory.value, request.previousQuestions)[i])))
  {
    var e := Eligible(store, request.quizCategory.value, request.previousQuestions);
    assert i % |e| == i;
    assert PlayQuiz(store, request, i) == Ok(QuizBody(Some(e[i % |e|])));
  }

  /** A quiz with no eligible question left is not an error: it succeeds
      with a null question, whatever the draw. */
  lemma ExhaustedQuizIsNull(store: seq<Question>, request: QuizRequest, draw: nat)
    requires request.quizCategory.Some?
    requires Eligible(store, request.quizCategory.value, request.previousQuestions) == []
    ensures PlayQuiz(store, request, draw) == Ok(QuizBody(None))
  {
  }

  /** With exactly one eligible question the draw does not matter: that
      question is returned. */
  lemma SingleEligibleIsDeterministic(store: seq<Question>, request: QuizRequest, draw: nat, q: Question)
    requires request.quizCategory.Some?
    requires Eligible(store, request.quizCategory.value, request.previousQuestions) == [q]
    ensures PlayQuiz(store, request, draw) == Ok(QuizBody(Some(q)))
  {
  }
}
