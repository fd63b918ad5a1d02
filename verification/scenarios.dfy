/** End-to-end runs of the loader on small inputs.  The JSON parser is a
    parameter of the model, so each run assumes only what parsing the repaired
    text yields. */
module Scenarios {
  import opened Json
  import opened Seqs
  import opened Repair
  import opened Graph
  import opened Policies
  import opened ResourceNodes
  import opened ActionNodes
  import opened Principals
  import opened Cells

  /** The policy pipeline on its own output: policy nodes, then the resource
      phase, then the action phase. */
  function LoadPolicies(g: Graph, rows: seq<PolicyRow>, parse: Parser): (r: Graph)
    ensures r.users == g.users && r.groups == g.groups && r.roles == g.roles
    ensures r.attachments == g.attachments && r.memberships == g.memberships
    ensures r.policies == CreatePolicies(g, rows).policies
  {
    ActionPhase(ResourcePhase(CreatePolicies(g, rows), rows, parse), rows, parse)
  }

  /** Pieces without a quote of their own, rendered with single quotes, repair
      to their rendering with double quotes. */
  lemma {:induction false} RenderRepaired(ps: Pieces)
    requires Unquoted(ps)
    ensures RepairQuotes(Render(ps, '\'')) == Render(ps, '"')
  {
    if ps.Then? {
      RenderRepaired(ps.rest);
      var rest := Render(ps.rest, '\'');
      var t := ps.first.text;
      RepairQuotesPlain(t);
      match ps.first
      case Plain(_) =>
        RepairQuotesAppend(t, rest);
      case Quoted(_) =>
        RepairQuotesAppend(['\''] + t + ['\''], rest);
        RepairQuotesAppend(['\''] + t, ['\'']);
        RepairQuotesAppend(['\''], t);
        assert RepairQuotes(['\'']) == ['"'] by {
          assert RepairQuotes(['\''])[0] == '"';
        }
    }
  }

  /** A document spelt by pieces without quotes or capitals `T` and `F` repairs
      to its double-quoted rendering. */
  lemma DocumentRepaired(ps: Pieces)
    requires Clean(ps)
    ensures RepairDocument(Render(ps, '\'')) == Render(ps, '"')
  {
    RenderAvoids(ps, '\'');
    RepairDocumentWithoutBooleans(Render(ps, '\''));
    RenderRepaired(ps);
  }

  lemma BucketDocumentRepaired()
    ensures RepairDocument(Render(BucketDocument, '\'')) == Render(BucketDocument, '"')
  {
    BucketDocumentClean();
    DocumentRepaired(BucketDocument);
  }

  lemma NotResourceDocumentRepaired()
    ensures RepairDocument(Render(NotResourceDocument, '\'')) == Render(NotResourceDocument, '"')
  {
    NotResourceDocumentClean();
    DocumentRepaired(NotResourceDocument);
  }

  /** A one-entry list cell whose key and value hold no quote repairs to its
      JSON text. */
  lemma EntryListRepaired(key: string, value: string)
    requires QuoteFree(key) && QuoteFree(value)
    ensures RepairQuotes(Render(EntryList(key, value), '\'')) == Render(EntryList(key, value), '"')
  {
    EntryListUnquoted(key, value);
    RenderRepaired(EntryList(key, value));
  }

  const Bucket := JStr("s3:bucket")
  const Get := JStr("s3:Get")
  const Put := JStr("s3:Put")

  /** `{'Resource': 's3:bucket', 'Action': ['s3:Get','s3:Put']}`. */
  const BucketStatement := JObj(map["Resource" := Bucket, "Action" := JArr([Get, Put])])

  /** The resource phase of the bucket policy: one resource node, scoped by
      the policy's name. */
  lemma BucketResources(row: PolicyRow, parse: Parser)
    requires row.name == "P1"
    requires parse(RepairDocument(row.policyObject)) == Some(JArr([BucketStatement]))
    ensures ResourcePhase(CreatePolicies(Empty, [row]), [row], parse) ==
              Empty.(policies := [NodeOf(row)], resources := {ResKey(Bucket, "P1")})
  {
    var g1 := CreatePolicies(Empty, [row]);
    assert g1 == Empty.(policies := [NodeOf(row)]);
    ResourcePhaseSingleStatement(g1, row, parse, BucketStatement);
    ResourceKeyWins(g1, BucketStatement.fields, "P1");
    assert KeysOf([Bucket], "P1") == {ResKey(Bucket, "P1")};
  }

  /** The bucket statement's cross product, in a graph with one P1 policy node
      at position 0, the bucket's resource node and no action node yet. */
  lemma BucketCross(g: Graph)
    requires IndicesOf(PolicyNames(g), "P1") == [0]
    requires ResKey(Bucket, "P1") in g.resources
    requires g.actions == []
    ensures CrossProduct(g, "P1", [Bucket], [Get, Put], ActionLabel, ResourceTarget, WorksOn) ==
              g.(actions := [ActionNode(ActionLabel, Get, 0, ResKey(Bucket, "P1"), ResourceTarget, WorksOn),
                             ActionNode(ActionLabel, Put, 0, ResKey(Bucket, "P1"), ResourceTarget, WorksOn)])
  {
    CrossProductAt(g, "P1", [Bucket], [Get, Put], ActionLabel, ResourceTarget, WorksOn, 0);
    assert Cross([Bucket], [Get, Put]) == [(Bucket, Get), (Bucket, Put)] by {
      assert Cross([Bucket], [Get, Put]) == Row(Bucket, [Get, Put]) + Cross([Bucket][1..], [Get, Put]);
    }
  }

  /** The action phase of the bucket policy, once its policy and resource nodes
      exist: one action node per action, in order. */
  lemma BucketActions(row: PolicyRow, parse: Parser)
    requires row.name == "P1"
    requires parse(RepairDocument(row.policyObject)) == Some(JArr([BucketStatement]))
    ensures var g := Empty.(policies := [NodeOf(row)], resources := {ResKey(Bucket, "P1")});
            ActionPhase(g, [row], parse) ==
              g.(actions := [ActionNode(ActionLabel, Get, 0, ResKey(Bucket, "P1"), ResourceTarget, WorksOn),
                             ActionNode(ActionLabel, Put, 0, ResKey(Bucket, "P1"), ResourceTarget, WorksOn)])
  {
    var g := Empty.(policies := [NodeOf(row)], resources := {ResKey(Bucket, "P1")});
    ActionPhaseSingleStatement(g, row, parse, BucketStatement);
    ObjectStatementShapes(g, BucketStatement.fields, "P1");
    IndicesOfSingle(PolicyNames(g), "P1", 0);
    BucketCross(g);
  }

  /** The bucket document `[{'Resource': 's3:bucket', 'Action': ['s3:Get','s3:Put']}]`
      repairs to the JSON text `[{"Resource": "s3:bucket", "Action": ["s3:Get","s3:Put"]}]`;
      if that parses to the one statement, policy P1 gets one policy node, one
      resource node scoped by the policy, and two action nodes, each hanging off
      that policy and that resource. */
  lemma BucketScenario(row: PolicyRow, parse: Parser)
    requires row.name == "P1"
    requires row.policyObject == Render(BucketDocument, '\'')
    requires parse(Render(BucketDocument, '"')) == Some(JArr([BucketStatement]))
    ensures var g := LoadPolicies(Empty, [row], parse);
            && g.policies == [NodeOf(row)]
            && g.resources == {ResKey(Bucket, "P1")}
            && g.notResources == {}
            && g.actions == [ActionNode(ActionLabel, Get, 0, ResKey(Bucket, "P1"), ResourceTarget, WorksOn),
                             ActionNode(ActionLabel, Put, 0, ResKey(Bucket, "P1"), ResourceTarget, WorksOn)]
  {
    BucketDocumentRepaired();
    BucketResources(row, parse);
    BucketActions(row, parse);
  }

  /** `{'NotResource': 'x', 'Action': 'a'}`. */
  const NotResourceStatement := JObj(map["NotResource" := JStr("x"), "Action" := JStr("a")])

  /** The resource phase of that policy: one `NotResource` node. */
  lemma NotResourceResources(row: PolicyRow, parse: Parser)
    requires row.name == "P2"
    requires parse(RepairDocument(row.policyObject)) == Some(JArr([NotResourceStatement]))
    ensures ResourcePhase(CreatePolicies(Empty, [row]), [row], parse) ==
              Empty.(policies := [NodeOf(row)], notResources := {ResKey(JStr("x"), "P2")})
  {
    var g1 := CreatePolicies(Empty, [row]);
    assert g1 == Empty.(policies := [NodeOf(row)]);
    ResourcePhaseSingleStatement(g1, row, parse, NotResourceStatement);
    assert KeysOf([JStr("x")], "P2") == {ResKey(JStr("x"), "P2")};
  }

  /** The action phase of that policy: the action is looked up against a
      `Resource` node named `x`, which does not exist, so nothing is created. */
  lemma NotResourceActions(row: PolicyRow, parse: Parser)
    requires row.name == "P2"
    requires parse(RepairDocument(row.policyObject)) == Some(JArr([NotResourceStatement]))
    ensures var g := Empty.(policies := [NodeOf(row)], notResources := {ResKey(JStr("x"), "P2")});
            ActionPhase(g, [row], parse) == g
  {
    var g := Empty.(policies := [NodeOf(row)], notResources := {ResKey(JStr("x"), "P2")});
    ActionPhaseSingleStatement(g, row, parse, NotResourceStatement);
    ObjectStatementShapes(g, NotResourceStatement.fields, "P2");
    var attempts := Cross([JStr("x")], [JStr("a")]);
    assert attempts == [(JStr("x"), JStr("a"))] by {
      assert attempts == Row(JStr("x"), [JStr("a")]) + Cross([JStr("x")][1..], [JStr("a")]);
    }
    ApplyAttemptsNoMatch(g, "P2", attempts, ActionLabel, ResourceTarget, WorksOn);
  }

  /** As written, the document `[{'NotResource': 'x', 'Action': 'a'}]` of a
      policy P2, once repaired to `[{"NotResource": "x", "Action": "a"}]` and
      parsed to its one statement, gets its `NotResource` node, but its action is
      looked up against a `Resource` node of that name, which this policy does
      not have: no action node is created. */
  lemma NotResourceScenario(row: PolicyRow, parse: Parser)
    requires row.name == "P2"
    requires row.policyObject == Render(NotResourceDocument, '\'')
    requires parse(Render(NotResourceDocument, '"')) == Some(JArr([NotResourceStatement]))
    ensures var g := LoadPolicies(Empty, [row], parse);
            && g.policies == [NodeOf(row)]
            && g.resources == {}
            && g.notResources == {ResKey(JStr("x"), "P2")}
            && g.actions == []
  {
    NotResourceDocumentRepaired();
    NotResourceResources(row, parse);
    NotResourceActions(row, parse);
  }

  /** The two list cells of the group scenario repair to their JSON texts. */
  lemma GroupCellsRepaired(row: PrincipalRow)
    requires row.attachedPolicies == Render(EntryList("PolicyName", "P1"), '\'')
    requires row.users == Render(EntryList("UserName", "bob"), '\'')
    ensures RepairQuotes(row.attachedPolicies) == Render(EntryList("PolicyName", "P1"), '"')
    ensures RepairQuotes(row.users) == Render(EntryList("UserName", "bob"), '"')
  {
    EntryListRepaired("PolicyName", "P1");
    EntryListRepaired("UserName", "bob");
  }

  /** A group G whose policy list `[{'PolicyName':'P1'}]` and member list
      `[{'UserName':'bob'}]` parse, once their quotes are repaired, to those
      lists, loaded into a graph with exactly one node each for bob, G and P1,
      gains one `IS_ATTACHED_TO` edge from P1 and one `PART_OF` edge from bob. */
  lemma GroupScenario(g: Graph, row: PrincipalRow, parse: Parser, user: nat, group: nat, policy: nat)
    requires row.name == "G"
    requires row.attachedPolicies == Render(EntryList("PolicyName", "P1"), '\'')
    requires row.users == Render(EntryList("UserName", "bob"), '\'')
    requires IndicesOf(g.users, "bob") == [user]
    requires IndicesOf(g.groups, "G") == [group]
    requires IndicesOf(PolicyNames(g), "P1") == [policy]
    requires parse(Render(EntryList("PolicyName", "P1"), '"')) == Some(JArr([JObj(map["PolicyName" := JStr("P1")])]))
    requires parse(Render(EntryList("UserName", "bob"), '"')) == Some(JArr([JObj(map["UserName" := JStr("bob")])]))
    ensures AttachGroups(g, [row], parse) ==
              (g.(attachments := g.attachments + [Attachment(policy, Group, group)],
                  memberships := g.memberships + [Membership(user, group)]), None)
  {
    GroupCellsRepaired(row);
    AttachGroupsOne(g, row, parse, "P1", "bob", user, group, policy);
  }
}
