# Trivia API: request-independent core

A Dafny model of the decision logic of the trivia API's Flask routes. The
question and category tables are read-only snapshots (`seq<Question>`,
`seq<Category>`). Each route is a pure function from those snapshots and
the request fields it reads to its outcome: either an abort with an HTTP
error, or a success body.

- `Util`: `Option` and an order-preserving `Filter`. The filter gives SQL
  `WHERE` clauses their meaning over a table read in storage order.
- `PyInt`: Python's `int()` on a query-string value, and `str(n)` as its
  inverse. This is how the `page` argument is read with `type=int`.
- `PySlice`: Python's `s[start:stop]`, including how negative bounds and
  bounds past the end are normalised.
- `Text`: ASCII lower-casing and case-insensitive substring search. This
  is the meaning of `ILIKE '%term%'`.
- `Models`: the `Question` and `Category` records.
- `Pagination`: `paginate_questions`. The window is
  `start = (page - 1) * 10`, `end = start + 10`, applied as a Python slice.
- `Queries`: the filters the routes issue (search, category, quiz
  eligibility) and `format_categories`.
- `Endpoints`: `GET /categories`, `GET /questions`,
  `POST /questions/search`, `GET /categories/<id>/questions` and
  `POST /quizzes`.
- `Scenarios`: example requests, over concrete stores.

Behaviour of the code that the model keeps:
- A page of 0 or below is not rejected. Page 0 is the slice `[-10:0]`,
  which is always empty. Page -1 is `[-20:-10]`, counted from the end of
  the table, and it is non-empty once there are more than 10 questions.
- The category route never checks that the category exists. A category
  with no questions is a 404 only because its page is empty. Its
  `total_questions` is the length of the returned page, so it is at most 10.
- The search route never aborts. Its `total_questions` counts every match.
- `current_category` is always null.
- The page number is any integer `int()` yields from the `page` argument;
  nothing restricts it to positive pages.
- The distribution of the quiz pick is not modelled; the model states that
  every eligible question can be returned and nothing else can.
- A quiz request whose `quiz_category` is missing or JSON `null` is a 400;
  `data.get` returns `None` for both.

## Model

| member | source | states |
|---|---|---|
| Pagination.Paginate | backend/flaskr/__init__.py:13-21 | a page never holds more than 10 questions, and only questions of the selection |
| Pagination.PagePositive | backend/flaskr/__init__.py:15-19 | for page >= 1 the page is the selection at indices [(page-1)*10, page*10), in order, and its length is min(10, max(0, N-(page-1)*10)) |
| Pagination.PageEmptyBeyondLast | backend/flaskr/__init__.py:15-19 | for page >= 1 the page is empty exactly when (page-1)*10 >= N |
| Pagination.PageZeroIsEmpty | backend/flaskr/__init__.py:15-19 | page 0 is always empty |
| Pagination.PageNegative | backend/flaskr/__init__.py:15-19 | a negative page is a window counted from the end of the selection, non-empty exactly when N > -page*10 |
| Pagination.EveryQuestionOnItsPage | backend/flaskr/__init__.py:15-19 | question i of the selection is item i % 10 of page i / 10 + 1 |
| Pagination.PageNumber | backend/flaskr/__init__.py:14 | a page other than 1 comes only from an argument `int()` accepts, and an accepted argument is the page |
| Pagination.AbsentPageIsFirst | backend/flaskr/__init__.py:14 | a request without a page argument lists page 1 |
| Pagination.RejectedPageIsFirst | backend/flaskr/__init__.py:14 | a page argument that int() rejects lists page 1 |
| Pagination.SeparatorPageIsFirst | backend/flaskr/__init__.py:14 | a page argument starting with a separator 0x1C-0x1F, such as `?page=%1C2`, lists page 1 |
| Pagination.DecimalPage | backend/flaskr/__init__.py:14 | the decimal text of n selects exactly page n |
| Pagination.DigitPage | backend/flaskr/__init__.py:14 | a digit string with single underscores between digits selects the page it spells, also behind `+` or an extra leading zero; behind `-` it selects the negative page |
| PyInt.ParseInt | backend/flaskr/__init__.py:14 | text `int()` accepts holds at least one digit and only digits, whitespace, signs and underscores |
| PyInt.Accepts | backend/flaskr/__init__.py:14 | int() accepts every digit string with single underscores between digits and reads its decimal value; it reads the same value behind `+` or an extra leading zero, and its negation behind `-` |
| PyInt.AcceptsUnderscore | backend/flaskr/__init__.py:14 | int() accepts one underscore between two digit strings and reads the same number as without it |
| PyInt.AcceptedShape | backend/flaskr/__init__.py:14 | int() accepts a text exactly when, with surrounding whitespace stripped, it is a digit string with single underscores between digits, alone or behind one `+` or `-`; "1__0", "_1", "+-1" and "- 1" are rejected |
| PyInt.SeparatorRejected | backend/flaskr/__init__.py:14 | a separator 0x1C-0x1F anywhere in the text makes int() raise, so such a page argument means page 1 |
| PyInt.ParseIntRoundTrip | backend/flaskr/__init__.py:14 | int(str(n)) == n for every integer n (without the 4300-digit limit, see Left out) |
| PyInt.ParseIntIgnoresLeadingSpace | backend/flaskr/__init__.py:14 | a leading tab, line feed, vertical tab, form feed, carriage return or space does not change what int() returns |
| PyInt.ParseIntIgnoresTrailingSpace | backend/flaskr/__init__.py:14 | a trailing tab, line feed, vertical tab, form feed, carriage return or space does not change what int() returns |
| PyInt.NoDigitNoInt | backend/flaskr/__init__.py:14 | text with no digit, including the empty string, is rejected by int() |
| PySlice.Slice | backend/flaskr/__init__.py:19 | a slice is no longer than the sequence and holds only its elements |
| PySlice.Bound | backend/flaskr/__init__.py:19 | a slice bound is clamped into 0..N, a negative bound counting from the end and raised to 0 |
| PySlice.SliceNonNegative | backend/flaskr/__init__.py:19 | with non-negative bounds a slice is the ordinary sub-sequence clamped to the end, of length max(0, min(stop, N) - start) |
| PySlice.SliceNegative | backend/flaskr/__init__.py:19 | two negative bounds count from the end and are raised to 0 when still negative |
| PySlice.SliceToZeroIsEmpty | backend/flaskr/__init__.py:19 | a slice that stops at 0 is empty whatever its start |
| Text.LowerChar | backend/flaskr/__init__.py:98-99 | an ASCII capital becomes its own small letter, 32 code points on, and every other character is kept |
| Text.LowerCharSame | backend/flaskr/__init__.py:98-99 | two characters fold to the same character exactly when they are equal or one is the capital of the other |
| Text.Lower | backend/flaskr/__init__.py:98-99 | lower-casing keeps the length, folds each character on its own with LowerChar and leaves no upper-case letter |
| Text.ContainsIgnoringCase | backend/flaskr/__init__.py:98-99 | `text ILIKE '%term%'` holds exactly when the lower-cased term occurs at some index of the lower-cased text, so the term is never longer than the text |
| Text.LowerIdempotent | backend/flaskr/__init__.py:98-99 | lower-casing twice is lower-casing once |
| Text.SubstringAt | backend/flaskr/__init__.py:98-99 | the left-to-right substring test holds exactly when some window of the text equals the term |
| Text.OccurrenceMatches | backend/flaskr/__init__.py:98-99 | a verbatim occurrence of the term is a match |
| Text.EmptyTermMatches | backend/flaskr/__init__.py:98-99 | the empty term matches every text |
| Text.MatchIgnoresTermCase | backend/flaskr/__init__.py:98-99 | a term and its lower-case form match the same texts |
| Util.Filter | backend/flaskr/__init__.py:98-99 | the filter keeps exactly the elements that pass and is no longer than its input |
| Util.FilterAppend | backend/flaskr/__init__.py:98-99 | filtering a concatenation is the concatenation of the filters, so the store order is kept |
| Util.FilterKeepsAll | backend/flaskr/__init__.py:98-99 | a filter every element passes returns the whole sequence |
| Queries.SearchMatches | backend/flaskr/__init__.py:98-99 | a question is a match exactly when it is in the store and its text contains the term case-insensitively |
| Queries.EmptyTermSelectsAll | backend/flaskr/__init__.py:98-99 | the empty term selects the whole table |
| Queries.InCategory | backend/flaskr/__init__.py:115 | a question is selected exactly when it is in the store and has the requested category |
| Queries.Eligible | backend/flaskr/__init__.py:138-144 | a question is eligible exactly when it is in the store, its id is not a previous one, and, unless the id is 0, it has the requested category |
| Queries.FormatCategories | backend/flaskr/__init__.py:199-202 | the keys are exactly the category ids, and each id maps to the label of the last category with that id |
| Queries.FormatCategoriesUnique | backend/flaskr/__init__.py:199-202 | with unique ids every category's id maps to its own label |
| Queries.FormatCategoriesValues | backend/flaskr/__init__.py:199-202 | every value of the map is the label of a category with that id |
| Endpoints.ListCategories | backend/flaskr/__init__.py:39-45 | GET /categories always succeeds with the map format_categories builds, keyed by the category ids |
| Endpoints.ListQuestions | backend/flaskr/__init__.py:50-64 | GET /questions is a 404 exactly when the page is empty; otherwise it lists the page of the store for the requested page number (1 to 10 questions), the total is the size of the whole store and the current category is null |
| Endpoints.ListQuestionsBeyondLast | backend/flaskr/__init__.py:51-56 | from page 1 on, the listing succeeds exactly when (page-1)*10 < N |
| Endpoints.ListQuestionsNegativePage | backend/flaskr/__init__.py:51-56 | a negative page succeeds exactly when N > -page*10 |
| Endpoints.SearchQuestions | backend/flaskr/__init__.py:92-107 | search always succeeds; every listed question is in the store and matches the term; the total counts all matches; with no match the page is empty and the total is 0 |
| Endpoints.SearchUsesSharedPaging | backend/flaskr/__init__.py:94-104 | the window computed inline by the search route is the shared page window applied to the matches |
| Endpoints.SearchEmptyTerm | backend/flaskr/__init__.py:94-105 | an empty term reports the size of the store and lists the listing's page |
| Endpoints.SearchNeverFails | backend/flaskr/__init__.py:102-107 | with no match the search returns an empty page and total 0, where an empty listing is a 404 |
| Endpoints.CategoryQuestions | backend/flaskr/__init__.py:109-128 | a 404 exactly when the category's page is empty, including when no question has the category; otherwise it lists the page of the category's questions for the requested page number, every question has the category, and the total equals the page length, between 1 and 10 |
| Endpoints.CategoryTotalIsPageSize | backend/flaskr/__init__.py:116-124 | a category with more than 10 questions reports 10 on its first page, less than its size |
| Endpoints.PlayQuiz | backend/flaskr/__init__.py:130-157 | a missing or null quiz_category is exactly the 400 case and every other request succeeds; the question is null exactly when the eligible set is empty, and any question returned is eligible: unseen and, unless the id is 0, in the requested category |
| Endpoints.EveryEligibleCanBeDrawn | backend/flaskr/__init__.py:146-149 | the draw i returns the eligible question at position i, so every eligible question can be returned |
| Endpoints.ExhaustedQuizIsNull | backend/flaskr/__init__.py:148-157 | with no eligible question left the quiz succeeds with a null question, whatever the draw |
| Endpoints.SingleEligibleIsDeterministic | backend/flaskr/__init__.py:146-151 | with one eligible question that question is returned, whatever the draw |
| Scenarios.LiteralPageOne | backend/flaskr/__init__.py:14 | the argument "1" selects page 1 |
| Scenarios.LiteralPageTwo | backend/flaskr/__init__.py:14 | the argument "2" selects page 2 |
| Scenarios.LiteralPageThree | backend/flaskr/__init__.py:14 | the argument "3" selects page 3 |
| Scenarios.TwelveQuestions | backend/flaskr/__init__.py:51-64 | with 12 questions page 1 lists the first 10, page 2 the last 2, page 3 is a 404, and the total is 12 |
| Scenarios.SearchFindsContainingQuestion | backend/flaskr/__init__.py:97-107 | a question containing the term verbatim is found, also by the lower-cased term |
| Scenarios.QuizReturnsLastUnplayed | backend/flaskr/__init__.py:138-157 | with ids 1 to 4 stored, 1 to 3 played and category 0, question 4 is returned |
| Scenarios.QuizWithoutCategory | backend/flaskr/__init__.py:133-136 | a quiz request without quiz_category is answered 400 |

## Left out

- Routing, `request.get_json`, `jsonify`, CORS and the `after_request` headers (backend/flaskr/__init__.py:29-37): web-framework plumbing. Each route's outcome is an `Ok` body or an `Abort` code instead.
- The JSON bodies of the error handlers (backend/flaskr/__init__.py:159-197): constant framework responses. The 405 and 500 handlers are never reached by the modelled decisions.
- `POST /questions` and `DELETE /questions/<id>` (backend/flaskr/__init__.py:65-90): id assignment, insertion and deletion live in `models.py`, which is not part of this model. The delete route maps every exception to 422, and there is nothing more to state about that.
- The database itself: each query is modelled only by its filtering meaning over a snapshot in storage order. SQL returns rows in an unspecified order when there is no `ORDER BY`. The snapshot is also assumed not to change between the two reads of `GET /questions` (lines 51 and 61).
- Text.ContainsIgnoringCase: `%` and `_` inside a search term act as wildcards in `ILIKE` but are matched literally here. This is database behaviour.
- Text.ContainsIgnoringCase: a backslash in the search term is the default `LIKE` escape character in PostgreSQL and makes the next character literal; the model matches it as an ordinary character.
- Text.Lower: only ASCII letters are case-folded. Non-ASCII folding depends on the database.
- PyInt.ParseInt: since CPython 3.11 (and the security releases of 3.7 to 3.10), `int()` raises `ValueError` on a text of more than 4300 digits, so such a `page` argument means page 1. The model has no such limit and reads the number; ParseIntRoundTrip likewise holds here for every integer. The Python version running the service is not fixed by the repository.
- PyInt.ParseInt: only ASCII digits and ASCII whitespace are modelled. Python's `int()` also accepts other Unicode decimal digits and whitespace. Within ASCII it skips only tab through carriage return and space; the separators 0x1C-0x1F make it raise, although `str.isspace()` accepts them.
- Models.Question: the category is an integer. The store keeps it as text, and the category route converts the id with `str()` (line 111). Comparing with the text is assumed to be comparing the integers.
- Endpoints.PlayQuiz: `random.choice` is a `draw` parameter reduced to an index of the eligible set. Uniformity is not modelled. The debug `print` (line 152) is left out.
- Endpoints.PlayQuiz: the model assumes `previous_questions` is a list and that `quiz_category` carries an `id`. When either is missing, the route raises and answers 500; the model does not cover that case.
- Endpoints.SearchQuestions: the model assumes the body carries `searchTerm`. Without it the route raises and answers 500; the model does not cover that case. The term is the text after the f-string formats it (line 99): a JSON `null` does not raise but becomes `None`, so it searches for "none" in any case, and a number searches for its `str()`.
- Endpoints.CategoryQuestions: the unused `Category.query.filter_by` (line 114) and the bare `except` (lines 127-128) are left out. Any store failure there also becomes a 404.
