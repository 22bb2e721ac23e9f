/** noteFormSchema: a title and a content of at least one character each,
    with no upper bound. The form uses it; the server procedures do not. */
module NoteSchema {
  import opened Model

  const EnterTitle := "Enter title"
  const EnterContent := "Enter content"

  /** The issues a parse of `{title, content}` reports, field by field. */
  function Issues(title: string, content: string): (issues: seq<Issue>)
    ensures issues == [] <==> |title| >= 1 && |content| >= 1
    ensures Issue("title", EnterTitle) in issues <==> title == []
    ensures Issue("content", EnterContent) in issues <==> content == []
    ensures forall i | i in issues :: i == Issue("title", EnterTitle) || i == Issue("content", EnterContent)
    ensures |issues| <= 2
  {
    (if |title| < 1 then [Issue("title", EnterTitle)] else [])
    + (if |content| < 1 then [Issue("content", EnterContent)] else [])
  }

  predicate Accepts(title: string, content: string)
  {
    Issues(title, content) == []
  }

  /** Any non-empty title and content pass, however short or long. */
  lemma NoUpperBound(title: string, content: string)
    requires title != [] && content != []
    ensures Accepts(title, content)
  {
  }
}
