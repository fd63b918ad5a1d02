/** The action phase: for every policy row the repaired document is parsed
    again, and each statement's resource values are crossed with its action
    values.  Every (resource, action) pair issues one MATCH of the policy by name
    and of a resource-side node by (name, policy), then CREATEs a fresh action
    node with a `CONTAINS` edge from the policy and a `WORKS_ON` or
    `WORKS_NOT_ON` edge to the resource-side node.

    The code has four guarded cross-product loops, one per statement shape, but
    the field selection never fills its `not_resource_list` and stores
    `NotResource` values in `resource_list`; the two loops over
    `not_resource_list` therefore never run, and every action node is attached to
    a node labelled `Resource`.  The model keeps all four loops as written and
    proves that only two of them can create anything. */
module ActionNodes {
  import opened Json
  import opened Seqs
  import opened Repair
  import opened Graph
  import opened Policies

  /** The four lists the statement loop works with, after list normalisation. */
  datatype Fields = Fields(
    resources: seq<Json>,
    notResources: seq<Json>,
    actions: seq<Json>,
    notActions: seq<Json>)

  /** The field selection of the statement loop.  `Resource` wins over
      `NotResource` and either feeds the resource list; `Action` wins over
      `NotAction`; the not-resource list keeps its initial `[]`. */
  function SelectFields(stmt: Json): (r: Result<Fields>)
    ensures r.Ok? ==> r.value.notResources == []
    ensures r.Ok? ==> r.value.actions == [] || r.value.notActions == []
    ensures stmt.JObj? ==> r.Ok? && r.value == Fields(
              if "Resource" in stmt.fields then AsList(stmt.fields["Resource"])
              else if "NotResource" in stmt.fields then AsList(stmt.fields["NotResource"])
              else [],
              [],
              if "Action" in stmt.fields then AsList(stmt.fields["Action"]) else [],
              if "Action" !in stmt.fields && "NotAction" in stmt.fields then AsList(stmt.fields["NotAction"]) else [])
    ensures r.Err? <==>
              && !stmt.JObj?
              && (|| Mentions(stmt, "Resource") || Mentions(stmt, "NotResource")
                  || Mentions(stmt, "Action") || Mentions(stmt, "NotAction"))
  {
    var resource :- Preferred(stmt, "Resource", "NotResource");
    var action :- Preferred(stmt, "Action", "NotAction");
    var resourceList := if resource.Neither? then JArr([]) else resource.v;
    var notResourceList := JArr([]);
    var actionList := if action.First? then action.v else JArr([]);
    var notActionList := if action.Second? then action.v else JArr([]);
    Ok(Fields(AsList(resourceList), AsList(notResourceList), AsList(actionList), AsList(notActionList)))
  }

  /** How many of the attempts name a resource-side node that exists. */
  function LiveAttempts(keys: set<ResKey>, pname: string, attempts: seq<(Json, Json)>): (n: nat)
    ensures n <= |attempts|
    decreases |attempts|
  {
    if |attempts| == 0 then 0
    else (if ResKey(attempts[0].0, pname) in keys then 1 else 0) + LiveAttempts(keys, pname, attempts[1..])
  }

  /** The nodes the attempts create when each one whose resource-side node
      exists creates `m`. */
  function Yield(keys: set<ResKey>, pname: string, attempts: seq<(Json, Json)>, m: nat): nat
    decreases |attempts|
  {
    if |attempts| == 0 then 0
    else (if ResKey(attempts[0].0, pname) in keys then m else 0) + Yield(keys, pname, attempts[1..], m)
  }

  /** `m` nodes for every live attempt. */
  lemma {:induction false} YieldIsProduct(keys: set<ResKey>, pname: string, attempts: seq<(Json, Json)>, m: nat)
    ensures Yield(keys, pname, attempts, m) == LiveAttempts(keys, pname, attempts) * m
    decreases |attempts|
  {
    if |attempts| > 0 {
      YieldIsProduct(keys, pname, attempts[1..], m);
      var b := if ResKey(attempts[0].0, pname) in keys then 1 else 0;
      assert (b + LiveAttempts(keys, pname, attempts[1..])) * m == b * m + LiveAttempts(keys, pname, attempts[1..]) * m;
    }
  }

  /** Node `n` is one the attempts can create: it carries the attempts' label and
      edge, one attempted (resource, action) pair, a resource-side node that
      exists, and a policy node of the name. */
  predicate Spawned(g: Graph, pname: string, attempts: seq<(Json, Json)>,
                    kind: ActionKind, target: Target, edge: EdgeType, n: ActionNode)
  {
    && n.kind == kind && n.target == target && n.edge == edge
    && n.resource.forPolicy == pname && n.resource in Keys(g, target)
    && (n.resource.name, n.name) in attempts
    && n.policy < |g.policies| && g.policies[n.policy].name == pname
  }

  /** The MATCH/CREATE attempts for the given (resource, action) pairs, in order.
      Every attempt whose resource-side node exists creates one node per policy
      node of the name, and the new nodes are exactly the ones the attempts can
      create. */
  function ApplyAttempts(g: Graph, pname: string, attempts: seq<(Json, Json)>,
                         kind: ActionKind, target: Target, edge: EdgeType): (r: Graph)
    ensures r == g.(actions := r.actions)
    ensures |r.actions| == |g.actions| +
              Yield(Keys(g, target), pname, attempts, |IndicesOf(PolicyNames(g), pname)|)
    ensures r.actions[..|g.actions|] == g.actions
    ensures forall n :: n in r.actions[|g.actions|..] <==> Spawned(g, pname, attempts, kind, target, edge, n)
    decreases |attempts|
  {
    if |attempts| == 0 then g
    else
      var next := CreateAction(g, pname, attempts[0].0, attempts[0].1, kind, target, edge);
      var r := ApplyAttempts(next, pname, attempts[1..], kind, target, edge);
      assert PolicyNames(next) == PolicyNames(g);
      AttemptCountStep(g, next, r, pname, attempts, kind, target, edge);
      AttemptMembersStep(g, next, r, pname, attempts, kind, target, edge);
      r
  }

  /** One turn of the attempt loop, counted: the first attempt's nodes plus those
      of the rest. */
  lemma AttemptCountStep(g: Graph, next: Graph, r: Graph, pname: string, attempts: seq<(Json, Json)>,
                         kind: ActionKind, target: Target, edge: EdgeType)
    requires |attempts| > 0
    requires next == CreateAction(g, pname, attempts[0].0, attempts[0].1, kind, target, edge)
    requires PolicyNames(next) == PolicyNames(g)
    requires |r.actions| == |next.actions| +
               Yield(Keys(next, target), pname, attempts[1..], |IndicesOf(PolicyNames(next), pname)|)
    requires r.actions[..|next.actions|] == next.actions
    ensures |r.actions| == |g.actions| +
              Yield(Keys(g, target), pname, attempts, |IndicesOf(PolicyNames(g), pname)|)
    ensures r.actions[..|g.actions|] == g.actions
  {
    assert Keys(next, target) == Keys(g, target);
    PrefixOfPrefix(r.actions, next.actions, g.actions);
  }

  /** One turn of the attempt loop, by membership: the first attempt's nodes
      followed by those of the rest are the nodes of all the attempts. */
  lemma AttemptMembersStep(g: Graph, next: Graph, r: Graph, pname: string, attempts: seq<(Json, Json)>,
                           kind: ActionKind, target: Target, edge: EdgeType)
    requires |attempts| > 0
    requires next == CreateAction(g, pname, attempts[0].0, attempts[0].1, kind, target, edge)
    requires |r.actions| >= |next.actions| && r.actions[..|next.actions|] == next.actions
    requires forall n :: n in r.actions[|next.actions|..] <==> Spawned(next, pname, attempts[1..], kind, target, edge, n)
    ensures forall n :: n in r.actions[|g.actions|..] <==> Spawned(g, pname, attempts, kind, target, edge, n)
  {
    SplitTail(r.actions, next.actions, |g.actions|);
    assert attempts == [attempts[0]] + attempts[1..];
    assert Keys(next, target) == Keys(g, target) && next.policies == g.policies;
    forall n
      ensures Spawned(g, pname, attempts, kind, target, edge, n) <==>
                n in next.actions[|g.actions|..] || Spawned(next, pname, attempts[1..], kind, target, edge, n)
    {
      var pair := (n.resource.name, n.name);
      assert pair in attempts <==> pair == attempts[0] || pair in attempts[1..];
    }
  }

  /** One guarded loop of the statement body: `for resource in rs: for action in as:`. */
  function CrossProduct(g: Graph, pname: string, rs: seq<Json>, acts: seq<Json>,
                        kind: ActionKind, target: Target, edge: EdgeType): Graph
  {
    ApplyAttempts(g, pname, Cross(rs, acts), kind, target, edge)
  }

  /** The statement body.  The four loops run as written; the contract says
      what they amount to: the `Action` loop when there are actions, the
      `NotAction` loop against `Resource` nodes when there are not-actions, and
      nothing when either side is empty. */
  function ActionStatement(g: Graph, stmt: Json, pname: string): (r: Result<Graph>)
    ensures r.Ok? <==> SelectFields(stmt).Ok?
    ensures r.Ok? ==> (var f := SelectFields(stmt).value;
              r.value ==
                if f.resources != [] && f.actions != [] then
                  CrossProduct(g, pname, f.resources, f.actions, ActionLabel, ResourceTarget, WorksOn)
                else if f.resources != [] && f.notActions != [] then
                  CrossProduct(g, pname, f.resources, f.notActions, NotActionLabel, ResourceTarget, WorksNotOn)
                else g)
  {
    var f :- SelectFields(stmt);
    var g1 := if |f.resources| > 0 && |f.actions| > 0
              then CrossProduct(g, pname, f.resources, f.actions, ActionLabel, ResourceTarget, WorksOn)
              else g;
    var g2 := if |f.notResources| > 0 && |f.actions| > 0
              then CrossProduct(g1, pname, f.notResources, f.actions, NotActionLabel, NotResourceTarget, WorksNotOn)
              else g1;
    var g3 := if |f.notResources| > 0 && |f.notActions| > 0
              then CrossProduct(g2, pname, f.notResources, f.notActions, LowerNotActionLabel, NotResourceTarget, WorksNotOn)
              else g2;
    var g4 := if |f.resources| > 0 && |f.notActions| > 0
              then CrossProduct(g3, pname, f.resources, f.notActions, NotActionLabel, ResourceTarget, WorksNotOn)
              else g3;
    Ok(g4)
  }

  /** Whatever the statement, every action node it creates hangs off a `Resource`
      node, is never labelled `notAction`, and is an `Action` exactly when its
      edge is `WORKS_ON`. */
  lemma OnlyResourceBranchesFire(g: Graph, stmt: Json, pname: string)
    requires ActionStatement(g, stmt, pname).Ok?
    ensures var r := ActionStatement(g, stmt, pname).value;
            forall n :: n in r.actions[|g.actions|..] ==>
              && n.target == ResourceTarget
              && n.kind != LowerNotActionLabel
              && (n.kind == ActionLabel <==> n.edge == WorksOn)
  {
  }

  /** Crossing with an empty list issues no attempt. */
  lemma CrossProductEmpty(g: Graph, pname: string, rs: seq<Json>, acts: seq<Json>,
                          kind: ActionKind, target: Target, edge: EdgeType)
    requires rs == [] || acts == []
    ensures CrossProduct(g, pname, rs, acts, kind, target, edge) == g
  {
    assert |Cross(rs, acts)| == |rs| * |acts| == 0;
  }

  /** The statement shapes on a dict.  With an `Action` key the resource values
      (of `Resource`, else of `NotResource`) are crossed with the actions into
      `Action`/`WORKS_ON` nodes; with only a `NotAction` key into
      `NotAction`/`WORKS_NOT_ON` nodes, still against `Resource` nodes; with
      neither key nothing is created. */
  lemma ObjectStatementShapes(g: Graph, fields: map<string, Json>, pname: string)
    ensures var rs := if "Resource" in fields then AsList(fields["Resource"])
                      else if "NotResource" in fields then AsList(fields["NotResource"])
                      else [];
            ActionStatement(g, JObj(fields), pname) ==
              if "Action" in fields then
                Ok(CrossProduct(g, pname, rs, AsList(fields["Action"]), ActionLabel, ResourceTarget, WorksOn))
              else if "NotAction" in fields then
                Ok(CrossProduct(g, pname, rs, AsList(fields["NotAction"]), NotActionLabel, ResourceTarget, WorksNotOn))
              else Ok(g)
  {
    var f := SelectFields(JObj(fields)).value;
    if "Action" in fields {
      if f.resources == [] || f.actions == [] {
        CrossProductEmpty(g, pname, f.resources, f.actions, ActionLabel, ResourceTarget, WorksOn);
      }
    } else if "NotAction" in fields {
      if f.resources == [] || f.notActions == [] {
        CrossProductEmpty(g, pname, f.resources, f.notActions, NotActionLabel, ResourceTarget, WorksNotOn);
      }
    }
  }

  /** The action nodes for the attempts, one each, all hanging off the policy
      node at position `p`. */
  function NodesFor(pname: string, attempts: seq<(Json, Json)>, kind: ActionKind, p: nat,
                    target: Target, edge: EdgeType): (r: seq<ActionNode>)
    ensures |r| == |attempts|
    ensures forall i :: 0 <= i < |attempts| ==>
              r[i] == ActionNode(kind, attempts[i].1, p, ResKey(attempts[i].0, pname), target, edge)
  {
    seq(|attempts|, i requires 0 <= i < |attempts| =>
      ActionNode(kind, attempts[i].1, p, ResKey(attempts[i].0, pname), target, edge))
  }

  /** With exactly one policy node of the name and every attempted resource
      present, each attempt creates exactly one node, in attempt order. */
  lemma {:induction false} ApplyAttemptsOneEach(g: Graph, pname: string, attempts: seq<(Json, Json)>,
                                               kind: ActionKind, target: Target, edge: EdgeType, p: nat)
    requires IndicesOf(PolicyNames(g), pname) == [p]
    requires forall i :: 0 <= i < |attempts| ==> ResKey(attempts[i].0, pname) in Keys(g, target)
    ensures ApplyAttempts(g, pname, attempts, kind, target, edge).actions ==
              g.actions + NodesFor(pname, attempts, kind, p, target, edge)
    decreases |attempts|
  {
    if |attempts| > 0 {
      var next := CreateAction(g, pname, attempts[0].0, attempts[0].1, kind, target, edge);
      var node := ActionNode(kind, attempts[0].1, p, ResKey(attempts[0].0, pname), target, edge);
      OneAttempt(g, pname, attempts[0].0, attempts[0].1, kind, target, edge, p);
      assert PolicyNames(next) == PolicyNames(g);
      assert Keys(next, target) == Keys(g, target);
      assert forall i :: 0 <= i < |attempts| - 1 ==> attempts[1..][i] == attempts[i + 1];
      ApplyAttemptsOneEach(next, pname, attempts[1..], kind, target, edge, p);
      var tail := NodesFor(pname, attempts[1..], kind, p, target, edge);
      assert ApplyAttempts(g, pname, attempts, kind, target, edge) ==
             ApplyAttempts(next, pname, attempts[1..], kind, target, edge);
      NodesForCons(pname, attempts, kind, p, target, edge);
      ConcatAssoc(g.actions, [node], tail);
    }
  }

  lemma NodesForCons(pname: string, attempts: seq<(Json, Json)>, kind: ActionKind, p: nat,
                     target: Target, edge: EdgeType)
    requires |attempts| > 0
    ensures NodesFor(pname, attempts, kind, p, target, edge) ==
              [ActionNode(kind, attempts[0].1, p, ResKey(attempts[0].0, pname), target, edge)] +
              NodesFor(pname, attempts[1..], kind, p, target, edge)
  {
    var tail := NodesFor(pname, attempts[1..], kind, p, target, edge);
    assert forall i :: 0 < i < |attempts| ==> tail[i - 1] == NodesFor(pname, attempts, kind, p, target, edge)[i];
  }

  /** One attempt with one policy node of the name and its resource present
      creates exactly one node. */
  lemma OneAttempt(g: Graph, pname: string, resource: Json, action: Json,
                   kind: ActionKind, target: Target, edge: EdgeType, p: nat)
    requires IndicesOf(PolicyNames(g), pname) == [p]
    requires ResKey(resource, pname) in Keys(g, target)
    ensures CreateAction(g, pname, resource, action, kind, target, edge).actions ==
              g.actions + [ActionNode(kind, action, p, ResKey(resource, pname), target, edge)]
  {
    var next := CreateAction(g, pname, resource, action, kind, target, edge);
    var n := |g.actions|;
    var created := next.actions[n];
    assert created in next.actions[n..];
    assert created.policy in IndicesOf(PolicyNames(g), pname);
    assert next.actions == next.actions[..n] + [created];
  }

  /** The cross product for a statement whose policy name has one node and whose
      resources all exist: one fresh action node per (resource, action) pair, in
      the nested-loop order of the pairs, duplicates included. */
  lemma CrossProductAt(g: Graph, pname: string, rs: seq<Json>, acts: seq<Json>,
                       kind: ActionKind, target: Target, edge: EdgeType, p: nat)
    requires IndicesOf(PolicyNames(g), pname) == [p]
    requires forall x :: x in rs ==> ResKey(x, pname) in Keys(g, target)
    ensures CrossProduct(g, pname, rs, acts, kind, target, edge).actions ==
              g.actions + NodesFor(pname, Cross(rs, acts), kind, p, target, edge)
  {
    var attempts := Cross(rs, acts);
    forall k | 0 <= k < |attempts|
      ensures ResKey(attempts[k].0, pname) in Keys(g, target)
    {
      CrossMembers(rs, acts, attempts[k]);
    }
    ApplyAttemptsOneEach(g, pname, attempts, kind, target, edge, p);
  }

  /** An attempt whose policy or resource node is missing creates nothing, so a
      cross product over unmatched names leaves the graph as it was. */
  lemma {:induction false} ApplyAttemptsNoMatch(g: Graph, pname: string, attempts: seq<(Json, Json)>,
                                               kind: ActionKind, target: Target, edge: EdgeType)
    requires IndicesOf(PolicyNames(g), pname) == [] ||
             forall i :: 0 <= i < |attempts| ==> ResKey(attempts[i].0, pname) !in Keys(g, target)
    ensures ApplyAttempts(g, pname, attempts, kind, target, edge) == g
    decreases |attempts|
  {
    if |attempts| > 0 {
      var next := CreateAction(g, pname, attempts[0].0, attempts[0].1, kind, target, edge);
      assert next.actions == next.actions[..|g.actions|] == g.actions;
      assert next == g;
      if IndicesOf(PolicyNames(g), pname) != [] {
        assert forall i :: 1 <= i < |attempts| ==> attempts[1..][i - 1] == attempts[i];
      }
      ApplyAttemptsNoMatch(g, pname, attempts[1..], kind, target, edge);
    }
  }

  /** The position of the first statement the field selection raises on, or the
      number of statements when none does. */
  function FirstFailure(stmts: seq<Json>): (k: nat)
    ensures k <= |stmts|
    ensures forall i :: 0 <= i < k ==> SelectFields(stmts[i]).Ok?
    ensures k < |stmts| ==> SelectFields(stmts[k]).Err?
    decreases |stmts|
  {
    if |stmts| == 0 || SelectFields(stmts[0]).Err? then 0
    else
      var k := FirstFailure(stmts[1..]);
      assert forall i :: 1 <= i < |stmts| ==> stmts[1..][i - 1] == stmts[i];
      k + 1
  }

  /** The statement loop of one row: it stops at the first statement that
      raises; only action nodes are created. */
  function ActionStatements(g: Graph, stmts: seq<Json>, pname: string): (r: (Graph, Option<PyError>))
    ensures r.0 == g.(actions := r.0.actions)
    ensures |r.0.actions| >= |g.actions| && r.0.actions[..|g.actions|] == g.actions
    ensures r.1 == if FirstFailure(stmts) < |stmts| then Some(SelectFields(stmts[FirstFailure(stmts)]).error) else None
    decreases |stmts|
  {
    if |stmts| == 0 then (g, None)
    else
      match ActionStatement(g, stmts[0], pname)
      case Err(e) => (g, Some(e))
      case Ok(next) =>
        var r := ActionStatements(next, stmts[1..], pname);
        PrefixOfPrefix(r.0.actions, next.actions, g.actions);
        r
  }

  /** A statement that raises keeps the action nodes of the statements before it:
      the row ends in the state the statements before the failure reach. */
  lemma {:induction false} ActionStatementsKeepPrefix(g: Graph, stmts: seq<Json>, pname: string)
    ensures ActionStatements(g, stmts, pname).0 == ActionStatements(g, stmts[..FirstFailure(stmts)], pname).0
    decreases |stmts|
  {
    var k := FirstFailure(stmts);
    if |stmts| > 0 && k > 0 {
      var next := ActionStatement(g, stmts[0], pname).value;
      assert FirstFailure(stmts[1..]) == k - 1;
      ActionStatementsKeepPrefix(next, stmts[1..], pname);
      assert stmts[..k][1..] == stmts[1..][..k - 1];
      assert stmts[..k][0] == stmts[0];
      assert ActionStatements(g, stmts[..k], pname) == ActionStatements(next, stmts[..k][1..], pname);
    } else {
      assert stmts[..k] == [];
    }
  }

  /** Statements run one after another: after a batch in which no statement
      raises, the next batch starts from where the first ended, so two
      statements naming the same resource and action each add their own nodes. */
  lemma {:induction false} ActionStatementsSplit(g: Graph, s1: seq<Json>, s2: seq<Json>, pname: string)
    requires FirstFailure(s1) == |s1|
    ensures ActionStatements(g, s1 + s2, pname) == ActionStatements(ActionStatements(g, s1, pname).0, s2, pname)
    decreases |s1|
  {
    if |s1| > 0 {
      var next := ActionStatement(g, s1[0], pname).value;
      assert FirstFailure(s1[1..]) == |s1| - 1;
      assert (s1 + s2)[0] == s1[0];
      assert (s1 + s2)[1..] == s1[1..] + s2;
      ActionStatementsSplit(next, s1[1..], s2, pname);
    } else {
      assert s1 + s2 == s2;
    }
  }

  /** One row: repair the document, parse it, wrap a single statement into a
      list, and run the statement loop; a parse failure creates nothing. */
  function ActionRow(g: Graph, row: PolicyRow, parse: Parser): (r: (Graph, Option<PyError>))
    ensures r.0 == g.(actions := r.0.actions)
    ensures |r.0.actions| >= |g.actions| && r.0.actions[..|g.actions|] == g.actions
    ensures parse(RepairDocument(row.policyObject)).None? ==> r == (g, Some(DecodeError))
  {
    match parse(RepairDocument(row.policyObject))
    case None => (g, Some(DecodeError))
    case Some(doc) => ActionStatements(g, AsList(doc), row.name)
  }

  /** The whole phase: every row is processed, whether or not an earlier row
      raised, and only action nodes are added. */
  function ActionPhase(g: Graph, rows: seq<PolicyRow>, parse: Parser): (r: Graph)
    ensures r == g.(actions := r.actions)
    ensures |r.actions| >= |g.actions| && r.actions[..|g.actions|] == g.actions
    decreases |rows|
  {
    if |rows| == 0 then g
    else
      var next := ActionRow(g, rows[0], parse).0;
      var r := ActionPhase(next, rows[1..], parse);
      PrefixOfPrefix(r.actions, next.actions, g.actions);
      r
  }

  /** The phase over two batches of rows is the phase over the second batch
      started from where the first ended, failures in the first included. */
  lemma {:induction false} ActionPhaseSplit(g: Graph, rows1: seq<PolicyRow>, rows2: seq<PolicyRow>, parse: Parser)
    ensures ActionPhase(g, rows1 + rows2, parse) == ActionPhase(ActionPhase(g, rows1, parse), rows2, parse)
    decreases |rows1|
  {
    if |rows1| > 0 {
      assert (rows1 + rows2)[1..] == rows1[1..] + rows2;
      ActionPhaseSplit(ActionRow(g, rows1[0], parse).0, rows1[1..], rows2, parse);
    } else {
      assert rows1 + rows2 == rows2;
    }
  }

  /** A row whose document does not parse is skipped: the phase over the rows
      around it is the phase without it. */
  lemma ActionPhaseSkipsUnparsable(g: Graph, rows1: seq<PolicyRow>, bad: PolicyRow, rows2: seq<PolicyRow>, parse: Parser)
    requires parse(RepairDocument(bad.policyObject)).None?
    ensures ActionPhase(g, rows1 + [bad] + rows2, parse) == ActionPhase(g, rows1 + rows2, parse)
  {
    var mid := ActionPhase(g, rows1, parse);
    ActionPhaseSplit(g, rows1 + [bad], rows2, parse);
    ActionPhaseSplit(g, rows1, [bad], parse);
    ActionPhaseSplit(g, rows1, rows2, parse);
    assert ActionPhase(mid, [bad], parse) == mid by {
      assert [bad][1..] == [];
    }
  }

  /** A one-row phase whose document is a single statement that does not raise
      is that statement's cross products. */
  lemma ActionPhaseSingleStatement(g: Graph, row: PolicyRow, parse: Parser, stmt: Json)
    requires parse(RepairDocument(row.policyObject)) == Some(JArr([stmt]))
    requires SelectFields(stmt).Ok?
    ensures ActionPhase(g, [row], parse) == ActionStatement(g, stmt, row.name).value
  {
    var next := ActionStatement(g, stmt, row.name).value;
    assert [stmt][1..] == [];
    assert ActionStatements(g, [stmt], row.name) == ActionStatements(next, [], row.name);
    assert ActionRow(g, row, parse).0 == next;
    assert [row][1..] == [];
    assert ActionPhase(g, [row], parse) == ActionPhase(next, [], parse);
  }
}
