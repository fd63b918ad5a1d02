/** The policy sheet: its rows, the re-joining of documents that were split
    over two columns, and the creation of one `Policy` node per row. */
module Policies {
  import opened Seqs
  import opened Graph

  /** One row of the policy sheet, missing cells already read as "".  A document
      too long for one cell continues in `extraPolicySpace`; `hasExtra` in the
      operations below says whether the sheet has that column at all. */
  datatype PolicyRow = PolicyRow(
    name: string,
    id: string,
    arn: string,
    policyObject: string,
    extraPolicySpace: string)

  /** The re-joining loop of the sheet loader: when the `ExtraPolicySpace` column
      exists, every row with a non-empty continuation gets it appended to its
      document; nothing else changes. */
  function MergeExtraSpace(rows: seq<PolicyRow>, hasExtra: bool): (r: seq<PolicyRow>)
    ensures |r| == |rows|
    ensures forall i :: 0 <= i < |rows| ==>
              r[i] == rows[i].(policyObject :=
                if hasExtra && rows[i].extraPolicySpace != ""
                then rows[i].policyObject + rows[i].extraPolicySpace
                else rows[i].policyObject)
    decreases |rows|
  {
    if |rows| == 0 then []
    else
      var row := rows[0];
      var merged := if hasExtra && row.extraPolicySpace != ""
                    then row.(policyObject := row.policyObject + row.extraPolicySpace)
                    else row;
      [merged] + MergeExtraSpace(rows[1..], hasExtra)
  }

  /** The `!= ''` guard does not change the outcome: every merged document is the
      original followed by the continuation column (empty when the column is
      absent), so the original is always a prefix of the merged text. */
  lemma MergedDocumentSplits(rows: seq<PolicyRow>, hasExtra: bool, i: int)
    requires 0 <= i < |rows|
    ensures MergeExtraSpace(rows, hasExtra)[i].policyObject ==
              rows[i].policyObject + (if hasExtra then rows[i].extraPolicySpace else "")
    ensures MergeExtraSpace(rows, hasExtra)[i].policyObject[..|rows[i].policyObject|] == rows[i].policyObject
  {
    var o := rows[i].policyObject;
    assert o + "" == o;
    assert (o + rows[i].extraPolicySpace)[..|o|] == o;
  }

  function NodeOf(row: PolicyRow): PolicyNode
  {
    PolicyNode(row.name, row.id, row.arn, row.policyObject)
  }

  /** The policy-node loop: `CREATE (:Policy {name, id, arn, policyObject})` per
      row.  Nothing is deduplicated: each row appends its own node, in order. */
  function CreatePolicies(g: Graph, rows: seq<PolicyRow>): (r: Graph)
    ensures r == g.(policies := r.policies)
    ensures |r.policies| == |g.policies| + |rows|
    ensures r.policies[..|g.policies|] == g.policies
    ensures forall k :: |g.policies| <= k < |r.policies| ==> r.policies[k] == NodeOf(rows[k - |g.policies|])
    decreases |rows|
  {
    if |rows| == 0 then g
    else CreatePolicies(g.(policies := g.policies + [NodeOf(rows[0])]), rows[1..])
  }

  /** The names of the rows, in order. */
  function RowNames(rows: seq<PolicyRow>): (r: seq<string>)
    ensures |r| == |rows|
    ensures forall j :: 0 <= j < |rows| ==> r[j] == rows[j].name
  {
    seq(|rows|, j requires 0 <= j < |rows| => rows[j].name)
  }

  /** After the loop the policy names are the earlier ones followed by the
      rows' names. */
  lemma {:induction false} CreatedNames(g: Graph, rows: seq<PolicyRow>)
    ensures PolicyNames(CreatePolicies(g, rows)) == PolicyNames(g) + RowNames(rows)
    decreases |rows|
  {
    if |rows| == 0 {
      assert RowNames(rows) == [];
    } else {
      var next := g.(policies := g.policies + [NodeOf(rows[0])]);
      CreatedNames(next, rows[1..]);
      assert PolicyNames(next) == PolicyNames(g) + [rows[0].name];
      assert RowNames(rows) == [rows[0].name] + RowNames(rows[1..]);
      ConcatAssoc(PolicyNames(g), [rows[0].name], RowNames(rows[1..]));
    }
  }

  /** A name absent from the earlier names and held once by the new ones is
      found exactly at its new position. */
  lemma FoundOnceAfter(before: seq<string>, after: seq<string>, x: string, i: nat)
    requires i < |after| && after[i] == x
    requires forall j :: 0 <= j < |after| && j != i ==> after[j] != x
    requires x !in before
    ensures IndicesOf(before + after, x) == [|before| + i]
  {
    var names := before + after;
    forall k | 0 <= k < |names| && names[k] == x
      ensures k == |before| + i
    {
      if k >= |before| {
        assert after[k - |before|] == x;
      }
    }
    IndicesOfSingle(names, x, |before| + i);
  }

  /** With distinct row names and no earlier policy of the same name, a lookup of
      a row's name finds exactly the node created for that row. */
  lemma CreatedPolicyIsFound(g: Graph, rows: seq<PolicyRow>, i: int)
    requires 0 <= i < |rows|
    requires forall j :: 0 <= j < |rows| && j != i ==> rows[j].name != rows[i].name
    requires forall p :: p in g.policies ==> p.name != rows[i].name
    ensures IndicesOf(PolicyNames(CreatePolicies(g, rows)), rows[i].name) == [|g.policies| + i]
  {
    var x, names := rows[i].name, PolicyNames(CreatePolicies(g, rows));
    assert IndicesOf(PolicyNames(g) + RowNames(rows), x) == [|g.policies| + i] by {
      forall k | 0 <= k < |g.policies|
        ensures PolicyNames(g)[k] != x
      {
        assert g.policies[k] in g.policies;
      }
      FoundOnceAfter(PolicyNames(g), RowNames(rows), x, i);
    }
    assert names == PolicyNames(g) + RowNames(rows) by {
      CreatedNames(g, rows);
    }
  }
}
