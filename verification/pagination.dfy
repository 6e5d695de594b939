/** The page window shared by the listing, search and category routes:
    `start = (page - 1) * 10`, `end = start + 10`, and a Python slice of the
    formatted selection between them. */
module Pagination {
  import opened Util
  import PyInt
  import PySlice

  const QuestionsPerPage: nat := 10

  /** The page number read from the `page` query argument with
      `args.get("page", 1, type=int)`: an absent argument, or one that
      `int()` rejects, means page 1. */
  function PageNumber(arg: Option<string>): (page: int)
    ensures page != 1 ==> arg.Some? && PyInt.ParseInt(arg.value) == Some(page)
    ensures arg.Some? && PyInt.ParseInt(arg.value).Some? ==> page == PyInt.ParseInt(arg.value).value
  {
    match arg
    case None => 1
    case Some(text) =>
      match PyInt.ParseInt(text)
      case None => 1
      case Some(n) => n
  }

  function WindowStart(page: int): int {
    (page - 1) * QuestionsPerPage
  }

  function WindowEnd(page: int): int {
    WindowStart(page) + QuestionsPerPage
  }

  /** `selection[start:end]` for the window of `page`. */
  function Paginate<T>(selection: seq<T>, page: int): (r: seq<T>)
    ensures |r| <= QuestionsPerPage
    ensures forall x :: x in r ==> x in selection
  {
    PySlice.Slice(selection, WindowStart(page), WindowEnd(page))
  }

  /** A request without a `page` argument lists page 1. */
  lemma AbsentPageIsFirst()
    ensures PageNumber(None) == 1
  {
  }

  /** A `page` argument that `int()` rejects lists page 1. */
  lemma RejectedPageIsFirst(text: string)
    requires PyInt.ParseInt(text).None?
    ensures PageNumber(Some(text)) == 1
  {
  }

  /** A `page` argument holding a separator 0x1C-0x1F, such as
      `?page=%1C2`, is rejected by `int()` and lists page 1. */
  lemma SeparatorPageIsFirst(c: char, text: string)
    requires 28 <= c as int <= 31
    ensures PageNumber(Some([c] + text)) == 1
  {
    assert text[..0] + [c] + text[0..] == [c] + text;
    PyInt.SeparatorRejected(c, text, 0);
  }

  /** The decimal text of `n` selects exactly page `n`. */
  lemma DecimalPage(n: int)
    ensures PageNumber(Some(PyInt.IntToDecimal(n))) == n
  {
    PyInt.ParseIntRoundTrip(n);
  }

  /** A digit string, with single underscores between digits, selects the
      page it spells, and so does the same string behind a `+` or an extra
      leading zero (`?page=02` is page 2, `?page=1_0` page 10); behind a
      `-` it selects the negative page. */
  lemma DigitPage(d: string)
    requires PyInt.WellFormedDigits(d)
    ensures PageNumber(Some(d)) == PyInt.DigitsValue(d)
    ensures PageNumber(Some("+" + d)) == PyInt.DigitsValue(d)
    ensures PageNumber(Some("0" + d)) == PyInt.DigitsValue(d)
    ensures PageNumber(Some("-" + d)) == -(PyInt.DigitsValue(d) as int)
  {
    var v := PyInt.DigitsValue(d);
    assert PageNumber(Some(d)) == v by { PyInt.Accepts(d); }
    assert PageNumber(Some("+" + d)) == v by { PyInt.Accepts(d); }
    assert PageNumber(Some("0" + d)) == v by { PyInt.Accepts(d); }
    assert PageNumber(Some("-" + d)) == -(v as int) by { PyInt.Accepts(d); }
  }

  /** For a page from 1 on, the page is the selection restricted to the
      indices `[(page - 1) * 10, page * 10)`, in their original order, and it
      holds `min(10, max(0, N - (page - 1) * 10))` questions. */
  lemma PagePositive<T>(selection: seq<T>, page: int)
    requires page >= 1
    ensures var n := |selection|;
            var start := PySlice.Min((page - 1) * 10, n);
            Paginate(selection, page) == selection[start..PySlice.Min(page * 10, n)]
    ensures |Paginate(selection, page)| ==
            PySlice.Min(10, PySlice.Max(0, |selection| - (page - 1) * 10))
  {
    PySlice.SliceNonNegative(selection, WindowStart(page), WindowEnd(page));
  }

  /** Page 1 onwards: a page is empty exactly when it starts at or past
      the end of the selection, i.e. beyond page `ceil(N / 10)`. */
  lemma PageEmptyBeyondLast<T>(selection: seq<T>, page: int)
    requires page >= 1
    ensures Paginate(selection, page) == [] <==> |selection| <= (page - 1) * 10
  {
    PagePositive(selection, page);
  }

  /** Page 0 gives the slice `[-10:0]`, which is always empty. */
  lemma PageZeroIsEmpty<T>(selection: seq<T>)
    ensures Paginate(selection, 0) == []
  {
    PySlice.SliceToZeroIsEmpty(selection, WindowStart(0));
  }

  /** A negative page gives a slice with two negative bounds, counted from
      the end of the selection: page -1 is `[-20:-10]`. Such a page is
      non-empty exactly when there are more than `-page * 10` questions. */
  lemma PageNegative<T>(selection: seq<T>, page: int)
    requires page < 0
    ensures var n := |selection|;
            Paginate(selection, page) ==
            selection[PySlice.Max(0, n + (page - 1) * 10)..PySlice.Max(0, n + page * 10)]
    ensures Paginate(selection, page) != [] <==> |selection| > -page * 10
  {
    PySlice.SliceNegative(selection, WindowStart(page), WindowEnd(page));
  }

  /** Every question of the selection is on exactly the page its index
      predicts: question `i` is item `i % 10` of page `i / 10 + 1`. */
  lemma EveryQuestionOnItsPage<T>(selection: seq<T>, i: nat)
    requires i < |selection|
    ensures var page := Paginate(selection, i / 10 + 1);
            i % 10 < |page| && page[i % 10] == selection[i]
  {
    PagePositive(selection, i / 10 + 1);
  }
}
