/** Python-literal cells spelt piece by piece: plain stretches and quoted
    strings, rendered with either quote character.  The cells of the sample
    runs are written here once. */
module Cells {
  /** A stretch of a Python-literal cell: text as it stands, or a string whose
      quotes the rendering supplies. */
  datatype Piece = Plain(text: string) | Quoted(text: string)

  /** A cell spelt piece by piece, first to last. */
  datatype Pieces = End | Then(first: Piece, rest: Pieces)

  /** The text the pieces spell with `q` as the string quote. */
  function Render(ps: Pieces, q: char): string
  {
    match ps
    case End => ""
    case Then(Plain(t), rest) => t + Render(rest, q)
    case Then(Quoted(t), rest) => [q] + t + [q] + Render(rest, q)
  }

  /** Text without a single quote. */
  predicate QuoteFree(t: string)
  {
    '\'' !in t
  }

  /** Text without a capital `T` or `F`. */
  predicate BooleanFree(t: string)
  {
    'T' !in t && 'F' !in t
  }

  /** No piece holds a single quote. */
  predicate Unquoted(ps: Pieces)
  {
    ps.End? || (QuoteFree(ps.first.text) && Unquoted(ps.rest))
  }

  /** No piece holds a single quote or a capital `T` or `F`. */
  predicate Clean(ps: Pieces)
  {
    ps.End? || (QuoteFree(ps.first.text) && BooleanFree(ps.first.text) && Clean(ps.rest))
  }

  /** A rendering of clean pieces holds a capital `T` or `F` nowhere, and
      none of its pieces holds a quote. */
  lemma {:induction false} RenderAvoids(ps: Pieces, q: char)
    requires q != 'T' && q != 'F'
    requires Clean(ps)
    ensures BooleanFree(Render(ps, q)) && Unquoted(ps)
  {
    if ps.Then? {
      RenderAvoids(ps.rest, q);
    }
  }

  /** `[{'Resource': 's3:bucket', 'Action': ['s3:Get','s3:Put']}]`. */
  const BucketDocument :=
    Then(Plain("[{"), Then(Quoted("Resource"), Then(Plain(": "), Then(Quoted("s3:bucket"), Then(Plain(", "),
    BucketActionList)))))

  /** The tail `'Action': ['s3:Get','s3:Put']}]` of that document. */
  const BucketActionList :=
    Then(Quoted("Action"), Then(Plain(": ["), Then(Quoted("s3:Get"), Then(Plain(","), Then(Quoted("s3:Put"),
    Then(Plain("]}]"), End))))))

  lemma BucketDocumentClean()
    ensures Clean(BucketDocument)
  {
    BucketActionListClean();
  }

  lemma BucketActionListClean()
    ensures Clean(BucketActionList)
  {
  }

  /** `[{'NotResource': 'x', 'Action': 'a'}]`. */
  const NotResourceDocument :=
    Then(Plain("[{"), Then(Quoted("NotResource"), Then(Plain(": "), Then(Quoted("x"), Then(Plain(", "),
    NotResourceActionList)))))

  /** The tail `'Action': 'a'}]` of that document. */
  const NotResourceActionList :=
    Then(Quoted("Action"), Then(Plain(": "), Then(Quoted("a"), Then(Plain("}]"), End))))

  lemma NotResourceDocumentClean()
    ensures Clean(NotResourceDocument)
  {
    NotResourceActionListClean();
  }

  lemma NotResourceActionListClean()
    ensures Clean(NotResourceActionList)
  {
  }

  /** A one-entry list cell `[{'key':'value'}]`. */
  function EntryList(key: string, value: string): Pieces
  {
    Then(Plain("[{"), Then(Quoted(key), Then(Plain(":"), Then(Quoted(value), Then(Plain("}]"), End)))))
  }

  /** A one-entry list cell is free of single quotes exactly when its key and
      value are. */
  lemma EntryListUnquoted(key: string, value: string)
    ensures Unquoted(EntryList(key, value)) <==> QuoteFree(key) && QuoteFree(value)
  {
    var tail := Then(Quoted(value), Then(Plain("}]"), End));
    assert Unquoted(Then(Plain("}]"), End));
    assert Unquoted(tail) <==> QuoteFree(value);
    assert Unquoted(Then(Plain(":"), tail)) <==> Unquoted(tail);
    assert QuoteFree(":") && QuoteFree("[{");
  }
}
