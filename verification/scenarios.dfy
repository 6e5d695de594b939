/** Example requests, stated over concrete stores. */
module Scenarios {
  import opened Util
  import opened Models
  import opened Queries
  import opened Pagination
  import opened Endpoints
  import PyInt
  import Text

  /** A question with the given id and text, in category 1. */
  function Sample(id: int, text: string): Question {
    Question(id, text, "answer", 1, 1)
  }

  /** `?page=1` selects page 1. */
  lemma LiteralPageOne()
    ensures PageNumber(Some("1")) == 1
  {
    assert PyInt.IntToDecimal(1) == "1";
    DecimalPage(1);
  }

  /** `?page=2` selects page 2. */
  lemma LiteralPageTwo()
    ensures PageNumber(Some("2")) == 2
  {
    assert PyInt.IntToDecimal(2) == "2";
    DecimalPage(2);
  }

  /** `?page=3` selects page 3. */
  lemma LiteralPageThree()
    ensures PageNumber(Some("3")) == 3
  {
    assert PyInt.IntToDecimal(3) == "3";
    DecimalPage(3);
  }

  /** With 12 questions, `?page=1` lists 10 of them, `?page=2` the other
      2, and `?page=3` is a 404; every success reports all 12. */
  lemma TwelveQuestions(store: seq<Question>, cats: seq<Category>)
    requires |store| == 12
    ensures var r := ListQuestions(store, cats, Some("1"));
            r.Ok? && r.body.questions == store[..10] && r.body.totalQuestions == 12
    ensures var r := ListQuestions(store, cats, Some("2"));
            r.Ok? && r.body.questions == store[10..] && r.body.totalQuestions == 12
    ensures ListQuestions(store, cats, Some("3")) == Abort(NotFound)
  {
    LiteralPageOne();
    LiteralPageTwo();
    LiteralPageThree();
    PagePositive(store, 1);
    PagePositive(store, 2);
    PagePositive(store, 3);
  }

  /** A question whose text contains the term verbatim is found by the
      search, whatever the case of the term: searching "title" finds
      "What is the title of the book?". */
  lemma SearchFindsContainingQuestion(q: Question, term: string)
    requires Text.IsSubstring(term, q.question)
    ensures SearchQuestions([q], term, None) == Ok(PageBody([q], 1, None))
    ensures SearchQuestions([q], Text.Lower(term), None) == Ok(PageBody([q], 1, None))
  {
    Text.SubstringAt(term, q.question);
    var i :| Text.OccursAt(term, q.question, i);
    Text.OccurrenceMatches(q.question, term, i);
    Text.MatchIgnoresTermCase(q.question, term);
    var lterm := Text.Lower(term);
    assert q in SearchMatches([q], term) && q in SearchMatches([q], lterm);
    assert SearchMatches([q], term) == [q];
    assert SearchMatches([q], lterm) == [q];
    assert PageNumber(None) == 1;
    PagePositive([q], 1);
    SearchUsesSharedPaging([q], term, None);
    SearchUsesSharedPaging([q], lterm, None);
  }

  /** Quiz over all categories with ids 1, 2 and 3 already played and ids
      1 to 4 in the store: question 4 is returned, whatever the draw. */
  lemma QuizReturnsLastUnplayed(draw: nat)
    ensures var store := [Sample(1, "a"), Sample(2, "b"), Sample(3, "c"), Sample(4, "d")];
            PlayQuiz(store, QuizRequest(Some(0), [1, 2, 3]), draw) == Ok(QuizBody(Some(Sample(4, "d"))))
  {
    var store := [Sample(1, "a"), Sample(2, "b"), Sample(3, "c"), Sample(4, "d")];
    var e := Eligible(store, 0, [1, 2, 3]);
    assert e == [Sample(4, "d")];
    SingleEligibleIsDeterministic(store, QuizRequest(Some(0), [1, 2, 3]), draw, Sample(4, "d"));
  }

  /** A quiz request without `quiz_category` is a 400 before anything is read. */
  lemma QuizWithoutCategory(store: seq<Question>, previous: seq<int>, draw: nat)
    ensures PlayQuiz(store, QuizRequest(None, previous), draw).Abort?
    ensures PlayQuiz(store, QuizRequest(None, previous), draw).error.Status() == 400
  {
  }
}
