/** The graph store as an abstract state, and the Cypher primitives the loader
    issues against it: CREATE of a node, MERGE of a keyed node, and
    MATCH-then-CREATE of edges (and of the action node between them).  A CREATE
    always adds; a MERGE adds its key only when it is not there yet; a
    MATCH-then-CREATE adds one item per matching combination of nodes and
    nothing when a pattern matches no node. */
module Graph {
  import opened Json
  import opened Seqs

  /** A `Policy` node with the row's identity and its raw document text. */
  datatype PolicyNode = PolicyNode(name: string, id: string, arn: string, policyObject: string)

  /** Identity of a `Resource` or `NotResource` node: the `name` the statement
      gave, scoped by `forPolicy`, the owning policy's name. */
  datatype ResKey = ResKey(name: Json, forPolicy: string)

  /** The label of a resource-side node. */
  datatype Target = ResourceTarget | NotResourceTarget

  /** The action labels the loader writes: `Action`, `NotAction`, and the
      lower-case `notAction` that one of its branches spells. */
  datatype ActionKind = ActionLabel | NotActionLabel | LowerNotActionLabel

  /** The relationship from an action node to its resource-side node. */
  datatype EdgeType = WorksOn | WorksNotOn

  /** A created action node named `name`, with a `CONTAINS` edge from the policy
      node at position `policy` and an `edge` to the `target` node whose key is
      `resource`. */
  datatype ActionNode = ActionNode(
    kind: ActionKind,
    name: Json,
    policy: nat,
    resource: ResKey,
    target: Target,
    edge: EdgeType)

  datatype PrincipalKind = User | Group | Role

  /** `(policy)-[:IS_ATTACHED_TO]->(principal)`, by node positions. */
  datatype Attachment = Attachment(policy: nat, kind: PrincipalKind, principal: nat)

  /** `(user)-[:PART_OF]->(group)`, by node positions. */
  datatype Membership = Membership(user: nat, group: nat)

  /** Nodes created with CREATE are sequences (a second CREATE of the same
      properties is a second node); nodes created with MERGE are sets of keys. */
  datatype Graph = Graph(
    policies: seq<PolicyNode>,
    resources: set<ResKey>,
    notResources: set<ResKey>,
    actions: seq<ActionNode>,
    users: seq<string>,
    groups: seq<string>,
    roles: seq<string>,
    attachments: seq<Attachment>,
    memberships: seq<Membership>)

  const Empty: Graph := Graph([], {}, {}, [], [], [], [], [], [])

  function PolicyNames(g: Graph): (r: seq<string>)
    ensures |r| == |g.policies|
    ensures forall i :: 0 <= i < |r| ==> r[i] == g.policies[i].name
  {
    seq(|g.policies|, i requires 0 <= i < |g.policies| => g.policies[i].name)
  }

  function Principals(g: Graph, kind: PrincipalKind): seq<string>
  {
    match kind
    case User => g.users
    case Group => g.groups
    case Role => g.roles
  }

  /** The keys of the nodes carrying label `target`. */
  function Keys(g: Graph, target: Target): set<ResKey>
  {
    match target
    case ResourceTarget => g.resources
    case NotResourceTarget => g.notResources
  }

  function Other(target: Target): Target
  {
    match target
    case ResourceTarget => NotResourceTarget
    case NotResourceTarget => ResourceTarget
  }

  /** The nodes a `name = $param` predicate selects when the parameter is a
      parsed JSON value: only a string can equal a stored string name. */
  function NamedIndices(names: seq<string>, v: Json): (r: seq<nat>)
    ensures forall i: nat :: i in r <==> i < |names| && JStr(names[i]) == v
  {
    if v.JStr? then IndicesOf(names, v.s) else []
  }

  /** `MERGE (n:<target> {name: key.name, forPolicy: key.forPolicy})`. */
  function Merge(g: Graph, target: Target, key: ResKey): (r: Graph)
    ensures Keys(r, target) == Keys(g, target) + {key}
    ensures Keys(r, Other(target)) == Keys(g, Other(target))
    ensures r == g.(resources := r.resources, notResources := r.notResources)
    ensures key in Keys(g, target) ==> r == g
  {
    match target
    case ResourceTarget => g.(resources := g.resources + {key})
    case NotResourceTarget => g.(notResources := g.notResources + {key})
  }

  /** The action nodes created for the matching policy positions `ps`. */
  function ActionsFor(ps: seq<nat>, key: ResKey, action: Json,
                      kind: ActionKind, target: Target, edge: EdgeType): (r: seq<ActionNode>)
    ensures |r| == |ps|
    ensures forall i :: 0 <= i < |ps| ==> r[i] == ActionNode(kind, action, ps[i], key, target, edge)
    ensures forall n :: n in r <==> n == ActionNode(kind, action, n.policy, key, target, edge) && n.policy in ps
  {
    var r := seq(|ps|, i requires 0 <= i < |ps| => ActionNode(kind, action, ps[i], key, target, edge));
    forall n: ActionNode | n == ActionNode(kind, action, n.policy, key, target, edge) && n.policy in ps
      ensures n in r
    {
      var i :| 0 <= i < |ps| && ps[i] == n.policy;
      assert r[i] == n;
    }
    r
  }

  /** One attempt of the action phase:
      `MATCH (p:Policy), (res:<target>) WHERE p.name = pname AND res.name = resource
       AND res.forPolicy = pname CREATE (p)-[:CONTAINS]->(:<kind> {name: action})-[:<edge>]->(res)`.
      A fresh action node is created for every matching policy node, provided the
      resource-side node exists. */
  function CreateAction(g: Graph, pname: string, resource: Json, action: Json,
                        kind: ActionKind, target: Target, edge: EdgeType): (r: Graph)
    ensures r == g.(actions := r.actions)
    ensures |r.actions| == |g.actions| +
              (if ResKey(resource, pname) in Keys(g, target) then |IndicesOf(PolicyNames(g), pname)| else 0)
    ensures r.actions[..|g.actions|] == g.actions
    ensures forall n :: n in r.actions[|g.actions|..] <==>
              && ResKey(resource, pname) in Keys(g, target)
              && n == ActionNode(kind, action, n.policy, ResKey(resource, pname), target, edge)
              && n.policy < |g.policies| && g.policies[n.policy].name == pname
  {
    var key := ResKey(resource, pname);
    var created := if key in Keys(g, target)
                   then ActionsFor(IndicesOf(PolicyNames(g), pname), key, action, kind, target, edge)
                   else [];
    assert (g.actions + created)[|g.actions|..] == created;
    g.(actions := g.actions + created)
  }

  /** `CREATE (:<kind> {name: name, ...})` of a principal node. */
  function CreatePrincipal(g: Graph, kind: PrincipalKind, name: string): (r: Graph)
    ensures Principals(r, kind) == Principals(g, kind) + [name]
    ensures forall k :: k != kind ==> Principals(r, k) == Principals(g, k)
    ensures r == g.(users := r.users, groups := r.groups, roles := r.roles)
  {
    match kind
    case User => g.(users := g.users + [name])
    case Group => g.(groups := g.groups + [name])
    case Role => g.(roles := g.roles + [name])
  }

  /** The attachment edges for the matching (principal, policy) position pairs. */
  function AttachmentsFor(pairs: seq<(nat, nat)>, kind: PrincipalKind): (r: seq<Attachment>)
    ensures |r| == |pairs|
    ensures forall i :: 0 <= i < |pairs| ==> r[i] == Attachment(pairs[i].1, kind, pairs[i].0)
    ensures forall e :: e in r <==> e.kind == kind && (e.principal, e.policy) in pairs
  {
    var r := seq(|pairs|, i requires 0 <= i < |pairs| => Attachment(pairs[i].1, kind, pairs[i].0));
    forall e: Attachment | e.kind == kind && (e.principal, e.policy) in pairs
      ensures e in r
    {
      var i :| 0 <= i < |pairs| && pairs[i] == (e.principal, e.policy);
      assert r[i] == e;
    }
    r
  }

  /** `MATCH (u:<kind>), (p:Policy) WHERE u.name = principal AND p.name = policyName
       CREATE (p)-[:IS_ATTACHED_TO]->(u)`: one edge per matching pair. */
  function Attach(g: Graph, kind: PrincipalKind, principal: string, policyName: Json): (r: Graph)
    ensures r == g.(attachments := r.attachments)
    ensures |r.attachments| == |g.attachments| +
              |IndicesOf(Principals(g, kind), principal)| * |NamedIndices(PolicyNames(g), policyName)|
    ensures r.attachments[..|g.attachments|] == g.attachments
    ensures forall e :: e in r.attachments[|g.attachments|..] <==>
              && e.kind == kind
              && e.principal < |Principals(g, kind)| && Principals(g, kind)[e.principal] == principal
              && e.policy < |g.policies| && JStr(g.policies[e.policy].name) == policyName
  {
    var us := IndicesOf(Principals(g, kind), principal);
    var ps := NamedIndices(PolicyNames(g), policyName);
    var created := AttachmentsFor(Cross(us, ps), kind);
    assert (g.attachments + created)[|g.attachments|..] == created;
    forall e
      ensures e in created <==> e.kind == kind && e.principal in us && e.policy in ps
    {
      CrossMembers(us, ps, (e.principal, e.policy));
    }
    g.(attachments := g.attachments + created)
  }

  /** The membership edges for the matching (user, group) position pairs. */
  function MembershipsFor(pairs: seq<(nat, nat)>): (r: seq<Membership>)
    ensures |r| == |pairs|
    ensures forall i :: 0 <= i < |pairs| ==> r[i] == Membership(pairs[i].0, pairs[i].1)
    ensures forall m :: m in r <==> (m.user, m.group) in pairs
  {
    var r := seq(|pairs|, i requires 0 <= i < |pairs| => Membership(pairs[i].0, pairs[i].1));
    forall m: Membership | (m.user, m.group) in pairs
      ensures m in r
    {
      var i :| 0 <= i < |pairs| && pairs[i] == (m.user, m.group);
      assert r[i] == m;
    }
    r
  }

  /** `MATCH (u:User), (g:Group) WHERE u.name = user AND g.name = group
       CREATE (u)-[:PART_OF]->(g)`: one edge per matching pair. */
  function Join(g: Graph, user: Json, group: string): (r: Graph)
    ensures r == g.(memberships := r.memberships)
    ensures |r.memberships| == |g.memberships| +
              |NamedIndices(g.users, user)| * |IndicesOf(g.groups, group)|
    ensures r.memberships[..|g.memberships|] == g.memberships
    ensures forall m :: m in r.memberships[|g.memberships|..] <==>
              && m.user < |g.users| && JStr(g.users[m.user]) == user
              && m.group < |g.groups| && g.groups[m.group] == group
  {
    var us := NamedIndices(g.users, user);
    var gs := IndicesOf(g.groups, group);
    var created := MembershipsFor(Cross(us, gs));
    assert (g.memberships + created)[|g.memberships|..] == created;
    forall m
      ensures m in created <==> m.user in us && m.group in gs
    {
      CrossMembers(us, gs, (m.user, m.group));
    }
    g.(memberships := g.memberships + created)
  }

  /** With one principal node of the name and one policy node of the name, an
      attachment creates exactly one edge between the two. */
  lemma AttachSingle(g: Graph, kind: PrincipalKind, principal: string, policyName: string, u: nat, p: nat)
    requires IndicesOf(Principals(g, kind), principal) == [u]
    requires IndicesOf(PolicyNames(g), policyName) == [p]
    ensures Attach(g, kind, principal, JStr(policyName)) == g.(attachments := g.attachments + [Attachment(p, kind, u)])
  {
    assert Cross([u], [p]) == [(u, p)] by {
      assert Cross([u], [p]) == Row(u, [p]) + Cross([u][1..], [p]);
    }
  }

  /** With one user node of the name and one group node of the name, a join
      creates exactly one edge between the two. */
  lemma JoinSingle(g: Graph, user: string, group: string, u: nat, q: nat)
    requires IndicesOf(g.users, user) == [u]
    requires IndicesOf(g.groups, group) == [q]
    ensures Join(g, JStr(user), group) == g.(memberships := g.memberships + [Membership(u, q)])
  {
    assert NamedIndices(g.users, JStr(user)) == [u];
    assert Cross([u], [q]) == [(u, q)] by {
      assert Cross([u], [q]) == Row(u, [q]) + Cross([u][1..], [q]);
    }
    assert MembershipsFor([(u, q)]) == [Membership(u, q)];
  }
}
