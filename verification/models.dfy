/** The two stored entities, as read-only snapshots of their rows. */
module Models {

  /** A trivia question. Its wire form carries every one of these fields,
      so a formatted question is modelled as the record itself. The
      category is the id of a `Category`; nothing checks that it exists. */
  datatype Question = Question(
    id: int,
    question: string,
    answer: string,
    category: int,
    difficulty: int)

  /** A question category: an id and a display label. */
  datatype Category = Category(id: int, kind: string)
}
