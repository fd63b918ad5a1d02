/** The textual repair applied to a stored document before it is handed to the
    JSON parser.  The cells hold Python-style literals, so single quotes become
    double quotes and the capitalised booleans become JSON's lower-case ones.
    Every replacement is a plain substring replacement, not a token replacement:
    `'TrueName'` becomes `"trueName"`, and an apostrophe inside a value is turned
    into a double quote just like a delimiter. */
module Repair {
  import opened Text

  /** A one-character pattern matches exactly where that character stands. */
  lemma SingleCharMatch(s: string, c: char)
    ensures forall k :: 0 <= k < |s| ==> (MatchAt(s, [c], k) <==> s[k] == c)
  {
    forall k | 0 <= k < |s|
      ensures MatchAt(s, [c], k) <==> s[k] == c
    {
      assert s[k..k + 1] == [s[k]];
    }
  }

  /** The quote-only repair of the attachment columns: `raw.replace("'", '"')`. */
  function RepairQuotes(raw: string): (r: string)
    ensures |r| == |raw|
    ensures forall k :: 0 <= k < |raw| ==> r[k] == if raw[k] == '\'' then '"' else raw[k]
    ensures !Occurs(r, "'")
  {
    ReplaceAllPointwise(raw, "'", "\"");
    ReplaceAllLeavesNoMatch(raw, "'", "\"");
    SingleCharMatch(raw, '\'');
    ReplaceAll(raw, "'", "\"")
  }

  /** The policy-document repair: quotes first, then `True`, then `False`.  Every
      single quote becomes a double quote, the `T` of every `True` and the `F`
      of every `False` of the original text become lower-case, and every other
      character is kept. */
  function RepairDocument(raw: string): (r: string)
    ensures |r| == |raw|
    ensures !Occurs(r, "'") && !Occurs(r, "True") && !Occurs(r, "False")
    ensures forall k :: 0 <= k < |raw| ==>
              r[k] == (if raw[k] == '\'' then '"'
                       else if MatchAt(raw, "True", k) then 't'
                       else if MatchAt(raw, "False", k) then 'f'
                       else raw[k])
  {
    var quoted := RepairQuotes(raw);
    var trues := ReplaceAll(quoted, "True", "true");
    ReplaceAllPointwise(quoted, "True", "true");
    ReplaceAllLeavesNoMatch(quoted, "True", "true");
    ReplaceAllKeepsAbsent(quoted, "True", "true", "'");
    var falses := ReplaceAll(trues, "False", "false");
    ReplaceAllPointwise(trues, "False", "false");
    ReplaceAllLeavesNoMatch(trues, "False", "false");
    ReplaceAllKeepsAbsent(trues, "False", "false", "'");
    ReplaceAllKeepsAbsent(trues, "False", "false", "True");
    BooleansSurviveQuotes(raw);
    FalseSurvivesTrue(raw, quoted, trues);
    falses
  }

  /** The quote repair neither creates nor destroys a `True` or a `False`. */
  lemma BooleansSurviveQuotes(raw: string)
    ensures forall k :: MatchAt(RepairQuotes(raw), "True", k) <==> MatchAt(raw, "True", k)
    ensures forall k :: MatchAt(RepairQuotes(raw), "False", k) <==> MatchAt(raw, "False", k)
  {
    var quoted := RepairQuotes(raw);
    forall k
      ensures MatchAt(quoted, "True", k) <==> MatchAt(raw, "True", k)
      ensures MatchAt(quoted, "False", k) <==> MatchAt(raw, "False", k)
    {
      MatchAtAgree(quoted, raw, "True", k);
      MatchAtAgree(quoted, raw, "False", k);
    }
  }

  /** Lower-casing the `True`s of the quote-repaired text neither creates nor
      destroys a `False` of the original. */
  lemma FalseSurvivesTrue(raw: string, quoted: string, trues: string)
    requires quoted == RepairQuotes(raw) && trues == ReplaceAll(quoted, "True", "true")
    ensures forall k :: MatchAt(trues, "False", k) <==> MatchAt(raw, "False", k)
  {
    ReplaceAllPointwise(quoted, "True", "true");
    BooleansSurviveQuotes(raw);
    forall k | 0 <= k < |raw| && MatchAt(quoted, "True", k)
      ensures raw[k] == 'T'
    {
      MatchAtHead(quoted, "True", k);
    }
    forall k
      ensures MatchAt(trues, "False", k) <==> MatchAt(raw, "False", k)
    {
      MatchAtAgree(trues, raw, "False", k);
    }
  }

  /** The quote repair works character by character, so it distributes over
      concatenation. */
  lemma RepairQuotesAppend(a: string, b: string)
    ensures RepairQuotes(a + b) == RepairQuotes(a) + RepairQuotes(b)
  {
    assert forall k :: 0 <= k < |a| ==> (a + b)[k] == a[k];
    assert forall k :: |a| <= k < |a| + |b| ==> (a + b)[k] == b[k - |a|];
  }

  /** Text without a single quote passes the quote repair unchanged. */
  lemma RepairQuotesPlain(p: string)
    requires '\'' !in p
    ensures RepairQuotes(p) == p
  {
  }

  /** A document without a `T` or an `F` holds no boolean, so its repair only
      swaps quotes. */
  lemma RepairDocumentWithoutBooleans(raw: string)
    requires 'T' !in raw && 'F' !in raw
    ensures RepairDocument(raw) == RepairQuotes(raw)
  {
    forall k | 0 <= k < |raw|
      ensures !MatchAt(raw, "True", k) && !MatchAt(raw, "False", k)
    {
      if MatchAt(raw, "True", k) {
        MatchAtHead(raw, "True", k);
      }
      if MatchAt(raw, "False", k) {
        MatchAtHead(raw, "False", k);
      }
    }
  }

  /** Repairing a repaired document changes nothing more. */
  lemma RepairDocumentIdempotent(raw: string)
    ensures RepairDocument(RepairDocument(raw)) == RepairDocument(raw)
  {
    var r := RepairDocument(raw);
    ReplaceAllWithoutMatch(r, "'", "\"");
    ReplaceAllWithoutMatch(r, "True", "true");
    ReplaceAllWithoutMatch(r, "False", "false");
  }

  /** Repairing quotes twice is repairing them once. */
  lemma RepairQuotesIdempotent(raw: string)
    ensures RepairQuotes(RepairQuotes(raw)) == RepairQuotes(raw)
  {
    ReplaceAllWithoutMatch(RepairQuotes(raw), "'", "\"");
  }

  /** A stretch of text without a single quote passes the quote repair unchanged. */
  lemma RepairQuotesKeepsWindow(raw: string, i: int, n: nat)
    requires 0 <= i && i + n <= |raw|
    requires '\'' !in raw[i..i + n]
    ensures RepairQuotes(raw)[i..i + n] == raw[i..i + n]
  {
    var r := RepairQuotes(raw);
    forall k | i <= k < i + n
      ensures r[k] == raw[k]
    {
      assert raw[k] == raw[i..i + n][k - i];
    }
  }

  /** The quote-only repair leaves capitalised booleans in place: a `True` or
      `False` in an attachment column reaches the parser unchanged. */
  lemma RepairQuotesKeepsBooleans(raw: string, i: int)
    ensures MatchAt(raw, "True", i) ==> MatchAt(RepairQuotes(raw), "True", i)
    ensures MatchAt(raw, "False", i) ==> MatchAt(RepairQuotes(raw), "False", i)
  {
    if MatchAt(raw, "True", i) {
      RepairQuotesKeepsWindow(raw, i, 4);
    }
    if MatchAt(raw, "False", i) {
      RepairQuotesKeepsWindow(raw, i, 5);
    }
  }
}
