/** The resource phase: for every policy row the repaired document is parsed,
    and each statement MERGEs one `Resource` node per value of its `Resource`
    field, or, when it has none, one `NotResource` node per value of its
    `NotResource` field, keyed by the value and the policy's name.  An exception
    while handling a row is caught: the row's remaining statements are skipped,
    the nodes already merged for it stay, and the next row is processed. */
module ResourceNodes {
  import opened Json
  import opened Repair
  import opened Graph
  import opened Policies

  /** What one statement asks the resource loop to merge. */
  datatype MergePlan = MergeNothing | MergeEach(target: Target, names: seq<Json>)

  /** The branch the resource loop takes on one statement.  For a dict, a
      `Resource` key wins over a `NotResource` key and a singular value is merged
      as a one-element list.  Any other value raises, unless it mentions neither
      key (a string without either substring, a list without either string). */
  function ResourcePlan(stmt: Json): (r: Result<MergePlan>)
    ensures stmt.JObj? ==> r == Ok(
              if "Resource" in stmt.fields then MergeEach(ResourceTarget, AsList(stmt.fields["Resource"]))
              else if "NotResource" in stmt.fields then MergeEach(NotResourceTarget, AsList(stmt.fields["NotResource"]))
              else MergeNothing)
    ensures r.Err? <==> !stmt.JObj? && (Mentions(stmt, "Resource") || Mentions(stmt, "NotResource"))
  {
    var choice :- Preferred(stmt, "Resource", "NotResource");
    match choice
    case Neither => Ok(MergeNothing)
    case First(v) => Ok(MergeEach(ResourceTarget, AsList(v)))
    case Second(v) => Ok(MergeEach(NotResourceTarget, AsList(v)))
  }

  /** The keys that merging every value of `names` for policy `pname` ensures. */
  function KeysOf(names: seq<Json>, pname: string): set<ResKey>
  {
    set n | n in names :: ResKey(n, pname)
  }

  /** The merge loop over one field's values. */
  function MergeAll(g: Graph, target: Target, names: seq<Json>, pname: string): (r: Graph)
    ensures Keys(r, target) == Keys(g, target) + KeysOf(names, pname)
    ensures Keys(r, Other(target)) == Keys(g, Other(target))
    ensures r == g.(resources := r.resources, notResources := r.notResources)
    decreases |names|
  {
    if |names| == 0 then g
    else
      assert KeysOf(names, pname) == {ResKey(names[0], pname)} + KeysOf(names[1..], pname) by {
        assert names == [names[0]] + names[1..];
      }
      MergeAll(Merge(g, target, ResKey(names[0], pname)), target, names[1..], pname)
  }

  /** Merging a list of values twice over is merging it once. */
  lemma MergeAllRepeats(g: Graph, target: Target, names: seq<Json>, pname: string)
    ensures MergeAll(g, target, names + names, pname) == MergeAll(g, target, names, pname)
  {
    assert KeysOf(names + names, pname) == KeysOf(names, pname);
  }

  /** The keys a statement's plan adds under label `target`. */
  function PlanKeys(plan: MergePlan, target: Target, pname: string): set<ResKey>
  {
    if plan.MergeEach? && plan.target == target then KeysOf(plan.names, pname) else {}
  }

  /** The resource loop's body for one statement. */
  function ResourceStatement(g: Graph, stmt: Json, pname: string): (r: Result<Graph>)
    ensures r.Ok? <==> ResourcePlan(stmt).Ok?
    ensures r.Ok? ==> r.value == g.(
              resources := g.resources + PlanKeys(ResourcePlan(stmt).value, ResourceTarget, pname),
              notResources := g.notResources + PlanKeys(ResourcePlan(stmt).value, NotResourceTarget, pname))
  {
    var plan :- ResourcePlan(stmt);
    match plan
    case MergeNothing => Ok(g)
    case MergeEach(target, names) => Ok(MergeAll(g, target, names, pname))
  }

  /** A statement with a `Resource` key merges exactly its resource values under
      the policy's name and leaves the `NotResource` nodes alone, even when the
      statement also has a `NotResource` key. */
  lemma ResourceKeyWins(g: Graph, fields: map<string, Json>, pname: string)
    requires "Resource" in fields
    ensures ResourceStatement(g, JObj(fields), pname) ==
              Ok(g.(resources := g.resources + KeysOf(AsList(fields["Resource"]), pname)))
  {
  }

  /** The keys merged by the statements before the first one that raises. */
  function PrefixKeys(stmts: seq<Json>, target: Target, pname: string): set<ResKey>
    decreases |stmts|
  {
    if |stmts| == 0 then {}
    else match ResourcePlan(stmts[0])
      case Err(_) => {}
      case Ok(plan) => PlanKeys(plan, target, pname) + PrefixKeys(stmts[1..], target, pname)
  }

  /** The statement loop of one row: it stops at the first statement that raises,
      keeping what the earlier statements merged. */
  function ResourceStatements(g: Graph, stmts: seq<Json>, pname: string): (r: (Graph, Option<PyError>))
    ensures r.0 == g.(
              resources := g.resources + PrefixKeys(stmts, ResourceTarget, pname),
              notResources := g.notResources + PrefixKeys(stmts, NotResourceTarget, pname))
    ensures r.1.None? <==> forall i :: 0 <= i < |stmts| ==> ResourcePlan(stmts[i]).Ok?
    decreases |stmts|
  {
    if |stmts| == 0 then (g, None)
    else
      match ResourceStatement(g, stmts[0], pname)
      case Err(e) => (g, Some(e))
      case Ok(next) =>
        var r := ResourceStatements(next, stmts[1..], pname);
        assert forall i :: 1 <= i < |stmts| ==> stmts[1..][i - 1] == stmts[i];
        r
  }

  /** One row: repair the document, parse it, wrap a single statement into a
      list, and run the statement loop; a parse failure merges nothing. */
  function ResourceRow(g: Graph, row: PolicyRow, parse: Parser): (r: (Graph, Option<PyError>))
    ensures r.0 == g.(
              resources := g.resources + RowKeys(row, parse, ResourceTarget),
              notResources := g.notResources + RowKeys(row, parse, NotResourceTarget))
    ensures parse(RepairDocument(row.policyObject)).None? ==> r.1 == Some(DecodeError)
    ensures r.1.None? <==>
              && parse(RepairDocument(row.policyObject)).Some?
              && var stmts := AsList(parse(RepairDocument(row.policyObject)).value);
                 forall i :: 0 <= i < |stmts| ==> ResourcePlan(stmts[i]).Ok?
  {
    match parse(RepairDocument(row.policyObject))
    case None => (g, Some(DecodeError))
    case Some(doc) => ResourceStatements(g, AsList(doc), row.name)
  }

  /** The keys a row contributes under `target`, whatever the graph holds. */
  function RowKeys(row: PolicyRow, parse: Parser, target: Target): set<ResKey>
  {
    match parse(RepairDocument(row.policyObject))
    case None => {}
    case Some(doc) => PrefixKeys(AsList(doc), target, row.name)
  }

  /** The keys all rows contribute under `target`. */
  function PhaseKeys(rows: seq<PolicyRow>, parse: Parser, target: Target): set<ResKey>
    decreases |rows|
  {
    if |rows| == 0 then {} else RowKeys(rows[0], parse, target) + PhaseKeys(rows[1..], parse, target)
  }

  /** The whole phase.  Every row contributes its keys, including the rows after
      one that raised: the phase only ever adds the keys its rows name. */
  function ResourcePhase(g: Graph, rows: seq<PolicyRow>, parse: Parser): (r: Graph)
    ensures r == g.(
              resources := g.resources + PhaseKeys(rows, parse, ResourceTarget),
              notResources := g.notResources + PhaseKeys(rows, parse, NotResourceTarget))
    decreases |rows|
  {
    if |rows| == 0 then g
    else ResourcePhase(ResourceRow(g, rows[0], parse).0, rows[1..], parse)
  }

  /** Replaying the phase adds nothing. */
  lemma ResourcePhaseIdempotent(g: Graph, rows: seq<PolicyRow>, parse: Parser)
    ensures ResourcePhase(ResourcePhase(g, rows, parse), rows, parse) == ResourcePhase(g, rows, parse)
  {
  }

  lemma {:induction false} PhaseKeysAppend(rows1: seq<PolicyRow>, rows2: seq<PolicyRow>, parse: Parser, target: Target)
    ensures PhaseKeys(rows1 + rows2, parse, target) == PhaseKeys(rows1, parse, target) + PhaseKeys(rows2, parse, target)
    decreases |rows1|
  {
    if |rows1| > 0 {
      assert (rows1 + rows2)[1..] == rows1[1..] + rows2;
      PhaseKeysAppend(rows1[1..], rows2, parse, target);
    } else {
      assert rows1 + rows2 == rows2;
    }
  }

  /** The order of the rows does not matter to the resource phase. */
  lemma ResourcePhaseOrderIrrelevant(g: Graph, rows1: seq<PolicyRow>, rows2: seq<PolicyRow>, parse: Parser)
    ensures ResourcePhase(g, rows1 + rows2, parse) == ResourcePhase(g, rows2 + rows1, parse)
  {
    PhaseKeysAppend(rows1, rows2, parse, ResourceTarget);
    PhaseKeysAppend(rows2, rows1, parse, ResourceTarget);
    PhaseKeysAppend(rows1, rows2, parse, NotResourceTarget);
    PhaseKeysAppend(rows2, rows1, parse, NotResourceTarget);
  }

  /** A row whose document does not parse is skipped: the phase over the rows
      around it is the phase without it. */
  lemma ResourcePhaseSkipsUnparsable(g: Graph, rows1: seq<PolicyRow>, bad: PolicyRow, rows2: seq<PolicyRow>, parse: Parser)
    requires parse(RepairDocument(bad.policyObject)).None?
    ensures ResourcePhase(g, rows1 + [bad] + rows2, parse) == ResourcePhase(g, rows1 + rows2, parse)
  {
    forall target | true
      ensures PhaseKeys(rows1 + [bad] + rows2, parse, target) == PhaseKeys(rows1 + rows2, parse, target)
    {
      PhaseKeysAppend(rows1 + [bad], rows2, parse, target);
      PhaseKeysAppend(rows1, [bad], parse, target);
      PhaseKeysAppend(rows1, rows2, parse, target);
      assert PhaseKeys([bad], parse, target) == {} by {
        assert [bad][1..] == [];
      }
    }
  }

  /** A one-row phase whose document is a single statement that does not raise
      is that statement's merge. */
  lemma ResourcePhaseSingleStatement(g: Graph, row: PolicyRow, parse: Parser, stmt: Json)
    requires parse(RepairDocument(row.policyObject)) == Some(JArr([stmt]))
    requires ResourcePlan(stmt).Ok?
    ensures ResourcePhase(g, [row], parse) == ResourceStatement(g, stmt, row.name).value
  {
    assert [row][1..] == [];
    assert [stmt][1..] == [];
  }
}
