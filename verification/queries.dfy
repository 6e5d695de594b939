/** The store queries the routes issue, modelled by their filtering
    meaning over the question table read in storage order, and the
    category map built by `format_categories`. */
module Queries {
  import opened Util
  import opened Models
  import Text

  /** `Question.question.ilike('%term%')`. */
  function SearchMatches(store: seq<Question>, term: string): (r: seq<Question>)
    ensures forall q :: q in r <==> q in store && Text.ContainsIgnoringCase(q.question, term)
  {
    Filter(store, (q: Question) => Text.ContainsIgnoringCase(q.question, term))
  }

  /** An empty search term selects the whole table. */
  lemma EmptyTermSelectsAll(store: seq<Question>)
    ensures SearchMatches(store, "") == store
  {
    forall q | q in store
      ensures Text.ContainsIgnoringCase(q.question, "")
    {
      Text.EmptyTermMatches(q.question);
    }
    FilterKeepsAll(store, (q: Question) => Text.ContainsIgnoringCase(q.question, ""));
  }

  /** `filter_by(category=id)`. */
  function InCategory(store: seq<Question>, categoryId: int): (r: seq<Question>)
    ensures forall q :: q in r <==> q in store && q.category == categoryId
  {
    Filter(store, (q: Question) => q.category == categoryId)
  }

  /** The quiz's eligible set: the questions whose id is not among the
      previous ones, and, unless the category id is 0, that belong to the
      requested category. */
  function Eligible(store: seq<Question>, categoryId: int, previous: seq<int>): (r: seq<Question>)
    ensures forall q :: q in r <==>
      q in store && q.id !in previous && (categoryId != 0 ==> q.category == categoryId)
  {
    if categoryId == 0 then Filter(store, (q: Question) => q.id !in previous)
    else Filter(store, (q: Question) => q.category == categoryId && q.id !in previous)
  }

  /** The category that comes last in `cats` among those sharing its id. */
  predicate LastWithId(cats: seq<Category>, i: int)
    requires 0 <= i < |cats|
  {
    forall j :: i < j < |cats| ==> cats[j].id != cats[i].id
  }

  /** `{category.id: category.type for category in categories}`: every id
      becomes a key, and when ids repeat the later category overwrites the
      earlier one. */
  function FormatCategories(cats: seq<Category>): (m: map<int, string>)
    ensures m.Keys == set c | c in cats :: c.id
    ensures forall i :: 0 <= i < |cats| && LastWithId(cats, i) ==> m[cats[i].id] == cats[i].kind
  {
    if |cats| == 0 then map[]
    else
      var init := cats[..|cats| - 1];
      var last := cats[|cats| - 1];
      IdsOfSnoc(cats);
      LastWithIdOfSnoc(cats);
      FormatCategories(init)[last.id := last.kind]
  }

  /** The ids of a non-empty sequence are those of all but its last element,
      plus the last element's id. */
  lemma IdsOfSnoc(cats: seq<Category>)
    requires |cats| > 0
    ensures (set c | c in cats :: c.id) ==
            (set c | c in cats[..|cats| - 1] :: c.id) + {cats[|cats| - 1].id}
  {
    assert cats == cats[..|cats| - 1] + [cats[|cats| - 1]];
  }

  /** A category that is last with its id, and is not the final element,
      stays last with its id once the final element is dropped, and its id
      differs from the final element's. */
  lemma LastWithIdOfSnoc(cats: seq<Category>)
    requires |cats| > 0
    ensures forall i :: 0 <= i < |cats| - 1 && LastWithId(cats, i) ==>
      && LastWithId(cats[..|cats| - 1], i)
      && cats[..|cats| - 1][i] == cats[i]
      && cats[i].id != cats[|cats| - 1].id
  {
  }

  /** With unique ids, the map sends each category's id to its label. */
  lemma FormatCategoriesUnique(cats: seq<Category>)
    requires forall i, j :: 0 <= i < j < |cats| ==> cats[i].id != cats[j].id
    ensures forall c :: c in cats ==> c.id in FormatCategories(cats) && FormatCategories(cats)[c.id] == c.kind
  {
    forall c | c in cats
      ensures FormatCategories(cats)[c.id] == c.kind
    {
      var i :| 0 <= i < |cats| && cats[i] == c;
      assert LastWithId(cats, i);
    }
  }

  /** Every value of the map is the label of some category with that id. */
  lemma {:induction false} FormatCategoriesValues(cats: seq<Category>)
    ensures forall k :: k in FormatCategories(cats) ==>
      exists c :: c in cats && c.id == k && c.kind == FormatCategories(cats)[k]
  {
    if |cats| > 0 {
      var init := cats[..|cats| - 1];
      FormatCategoriesValues(init);
      assert forall c :: c in init ==> c in cats;
      assert cats[|cats| - 1] in cats;
    }
  }
}
