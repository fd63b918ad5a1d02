/** The principal sheets: one node per user, group or role, and the loops that
    attach policies to them and users to groups.  Each list cell is repaired
    by quote replacement only, parsed, and iterated entry by entry; every entry
    is subscripted for its name and issues one MATCH-then-CREATE of an edge.
    These loops have no exception handler: the first entry, row or document
    that raises ends the whole loop, and the edges created before it remain in
    the modelled state.  Commit and rollback are not modelled: the user and
    role loops commit once at the end, the group loop after each list. */
module Principals {
  import opened Json
  import opened Seqs
  import opened Repair
  import opened Graph

  /** One row of the users, groups or roles sheet, as far as the attachment
      loops read it: the principal's name, the text of its attached-policy list,
      and (groups only) the text of its member list. */
  datatype PrincipalRow = PrincipalRow(name: string, attachedPolicies: string, users: string)

  function Names(rows: seq<PrincipalRow>): (r: seq<string>)
    ensures |r| == |rows|
    ensures forall i :: 0 <= i < |rows| ==> r[i] == rows[i].name
  {
    seq(|rows|, i requires 0 <= i < |rows| => rows[i].name)
  }

  /** The node loop: `CREATE (:<kind> {name, ...})` per row, in order and without
      deduplication; the other principal kinds and everything else are kept. */
  function CreatePrincipals(g: Graph, kind: PrincipalKind, rows: seq<PrincipalRow>): (r: Graph)
    ensures Principals(r, kind) == Principals(g, kind) + Names(rows)
    ensures forall k :: k != kind ==> Principals(r, k) == Principals(g, k)
    ensures r == g.(users := r.users, groups := r.groups, roles := r.roles)
    decreases |rows|
  {
    if |rows| == 0 then g
    else
      var next := CreatePrincipal(g, kind, rows[0].name);
      var r := CreatePrincipals(next, kind, rows[1..]);
      var before, after, rest := Principals(g, kind), Principals(r, kind), Names(rows[1..]);
      assert after == (before + [rows[0].name]) + rest;
      assert Names(rows) == [rows[0].name] + rest;
      ConcatAssoc(before, [rows[0].name], rest);
      r
  }

  /** The values `entry[key]` yields for the entries before the first one whose
      subscript raises, and the exception of that entry if there is one. */
  function Lookups(entries: seq<Json>, key: string): (r: (seq<Json>, Option<PyError>))
    ensures |r.0| <= |entries|
    ensures forall i :: 0 <= i < |r.0| ==> Subscript(entries[i], key) == Ok(r.0[i])
    ensures r.1.None? ==> |r.0| == |entries|
    ensures r.1.Some? ==> |r.0| < |entries| && Subscript(entries[|r.0|], key) == Err(r.1.value)
    decreases |entries|
  {
    if |entries| == 0 then ([], None)
    else
      match Subscript(entries[0], key)
      case Err(e) => ([], Some(e))
      case Ok(v) =>
        var rest := Lookups(entries[1..], key);
        assert forall i :: 1 <= i < |entries| ==> entries[1..][i - 1] == entries[i];
        ([v] + rest.0, rest.1)
  }

  /** A list of entries that all carry the key is read completely. */
  lemma {:induction false} LookupsComplete(entries: seq<Json>, key: string)
    requires forall i :: 0 <= i < |entries| ==> entries[i].JObj? && key in entries[i].fields
    ensures Lookups(entries, key).1 == None
    ensures |Lookups(entries, key).0| == |entries|
    decreases |entries|
  {
    if |entries| > 0 {
      assert forall i :: 0 <= i < |entries| - 1 ==> entries[1..][i] == entries[i + 1];
      LookupsComplete(entries[1..], key);
    }
  }

  /** How many nodes of `names` the looked-up values name, counted once per
      value: a value repeated in the list counts every time. */
  function Hits(names: seq<string>, vs: seq<Json>): nat
    decreases |vs|
  {
    if |vs| == 0 then 0 else |NamedIndices(names, vs[0])| + Hits(names, vs[1..])
  }

  /** The new attachments: of the principal named `principal` to the policies
      whose name is one of `names`. */
  predicate AttachedBy(g: Graph, kind: PrincipalKind, principal: string, names: seq<Json>, e: Attachment)
  {
    && e.kind == kind
    && e.principal < |Principals(g, kind)| && Principals(g, kind)[e.principal] == principal
    && e.policy < |g.policies| && JStr(g.policies[e.policy].name) in names
  }

  /** One turn of the attachment loop: the edges of the first name followed by
      those of the rest are the edges of all the names. */
  lemma AttachStep(g: Graph, kind: PrincipalKind, principal: string, name: Json, rest: seq<Json>, r: Graph)
    requires r == g.(attachments := r.attachments)
    requires |r.attachments| >= |Attach(g, kind, principal, name).attachments|
    requires r.attachments[..|Attach(g, kind, principal, name).attachments|] == Attach(g, kind, principal, name).attachments
    requires forall e :: e in r.attachments[|Attach(g, kind, principal, name).attachments|..] <==>
               AttachedBy(Attach(g, kind, principal, name), kind, principal, rest, e)
    ensures |r.attachments| >= |g.attachments| && r.attachments[..|g.attachments|] == g.attachments
    ensures forall e :: e in r.attachments[|g.attachments|..] <==> AttachedBy(g, kind, principal, [name] + rest, e)
  {
    var next := Attach(g, kind, principal, name);
    var a, n := r.attachments, |g.attachments|;
    SplitTail(a, next.attachments, n);
    assert a[..n] == a[..|next.attachments|][..n];
    assert forall e :: AttachedBy(next, kind, principal, rest, e) == AttachedBy(g, kind, principal, rest, e);
  }

  /** The edges a MATCH-then-CREATE makes between `a` nodes at one end and
      `b` at the other. */
  function Times(a: nat, b: nat): nat
  {
    a * b
  }

  lemma TimesCommutes(a: nat, b: nat)
    ensures Times(a, b) == b * a
  {
  }

  /** The edges created for the looked-up values when each named node pairs
      with `m` nodes at the other end: `m` per named node, value by value. */
  function Edges(names: seq<string>, vs: seq<Json>, m: nat): nat
    decreases |vs|
  {
    if |vs| == 0 then 0 else Times(m, |NamedIndices(names, vs[0])|) + Edges(names, vs[1..], m)
  }

  /** That count is the product of `m` and the hits. */
  lemma {:induction false} EdgesIsProduct(names: seq<string>, vs: seq<Json>, m: nat)
    ensures Edges(names, vs, m) == m * Hits(names, vs)
    decreases |vs|
  {
    if |vs| > 0 {
      EdgesIsProduct(names, vs[1..], m);
      assert Times(m, |NamedIndices(names, vs[0])|) + m * Hits(names, vs[1..]) ==
             m * (|NamedIndices(names, vs[0])| + Hits(names, vs[1..]));
    }
  }

  /** One turn of the attachment loop, counted: the first name's edges and the
      rest's add up. */
  lemma AttachCountStep(g: Graph, kind: PrincipalKind, principal: string, name: Json, rest: seq<Json>, count: nat)
    requires var next := Attach(g, kind, principal, name);
             count == |next.attachments| +
               Edges(PolicyNames(next), rest, |IndicesOf(Principals(next, kind), principal)|)
    ensures count == |g.attachments| +
              Edges(PolicyNames(g), [name] + rest, |IndicesOf(Principals(g, kind), principal)|)
  {
    var next := Attach(g, kind, principal, name);
    assert PolicyNames(next) == PolicyNames(g);
    assert Principals(next, kind) == Principals(g, kind);
    assert ([name] + rest)[1..] == rest;
  }

  /** The loop `for policy in entries: MATCH ... CREATE (p)-[:IS_ATTACHED_TO]->(u)`
      with `policy['PolicyName']`: it attaches the principal to every policy named
      by the entries before the first one that raises, and stops there. */
  function AttachEntries(g: Graph, kind: PrincipalKind, principal: string, entries: seq<Json>): (r: (Graph, Option<PyError>))
    ensures r.0 == g.(attachments := r.0.attachments)
    ensures |r.0.attachments| >= |g.attachments| && r.0.attachments[..|g.attachments|] == g.attachments
    ensures r.1 == Lookups(entries, "PolicyName").1
    ensures forall e :: e in r.0.attachments[|g.attachments|..] <==>
              AttachedBy(g, kind, principal, Lookups(entries, "PolicyName").0, e)
    ensures |r.0.attachments| == |g.attachments| +
              Edges(PolicyNames(g), Lookups(entries, "PolicyName").0, |IndicesOf(Principals(g, kind), principal)|)
    decreases |entries|
  {
    if |entries| == 0 then (g, None)
    else
      match Subscript(entries[0], "PolicyName")
      case Err(e) => (g, Some(e))
      case Ok(name) =>
        var next := Attach(g, kind, principal, name);
        var r := AttachEntries(next, kind, principal, entries[1..]);
        var rest := Lookups(entries[1..], "PolicyName").0;
        assert Lookups(entries, "PolicyName").0 == [name] + rest;
        AttachStep(g, kind, principal, name, rest, r.0);
        AttachCountStep(g, kind, principal, name, rest, |r.0.attachments|);
        r
  }

  /** The attachment loop creates one edge per principal node of the name for
      every policy node named by every entry read, repeated names included. */
  lemma AttachEntriesCount(g: Graph, kind: PrincipalKind, principal: string, entries: seq<Json>)
    ensures |AttachEntries(g, kind, principal, entries).0.attachments| == |g.attachments| +
              |IndicesOf(Principals(g, kind), principal)| * Hits(PolicyNames(g), Lookups(entries, "PolicyName").0)
  {
    EdgesIsProduct(PolicyNames(g), Lookups(entries, "PolicyName").0, |IndicesOf(Principals(g, kind), principal)|);
  }

  /** One row's policy attachments: quote repair only (a `True` or `False` in
      the text is kept), parse, iterate, attach. */
  function AttachPolicies(g: Graph, kind: PrincipalKind, principal: string, raw: string, parse: Parser): (r: (Graph, Option<PyError>))
    ensures r.0 == g.(attachments := r.0.attachments)
    ensures |r.0.attachments| >= |g.attachments| && r.0.attachments[..|g.attachments|] == g.attachments
    ensures parse(RepairQuotes(raw)).None? ==> r == (g, Some(DecodeError))
    ensures parse(RepairQuotes(raw)).Some? && Entries(parse(RepairQuotes(raw)).value).Err? ==>
              r == (g, Some(Entries(parse(RepairQuotes(raw)).value).error))
  {
    match parse(RepairQuotes(raw))
    case None => (g, Some(DecodeError))
    case Some(doc) =>
      match Entries(doc)
      case Err(e) => (g, Some(e))
      case Ok(entries) => AttachEntries(g, kind, principal, entries)
  }

  /** The attachment loop of the users sheet and of the roles sheet: row by row,
      until a row raises. */
  function AttachAll(g: Graph, kind: PrincipalKind, rows: seq<PrincipalRow>, parse: Parser): (r: (Graph, Option<PyError>))
    ensures r.0 == g.(attachments := r.0.attachments)
    ensures |r.0.attachments| >= |g.attachments| && r.0.attachments[..|g.attachments|] == g.attachments
    decreases |rows|
  {
    if |rows| == 0 then (g, None)
    else
      var (next, err) := AttachPolicies(g, kind, rows[0].name, rows[0].attachedPolicies, parse);
      if err.Some? then (next, err)
      else
        var r := AttachAll(next, kind, rows[1..], parse);
        PrefixOfPrefix(r.0.attachments, next.attachments, g.attachments);
        r
  }

  /** The loop over two batches of rows: the second batch runs from where the
      first ended, and not at all when the first raised. */
  lemma {:induction false} AttachAllSplit(g: Graph, kind: PrincipalKind, rows1: seq<PrincipalRow>, rows2: seq<PrincipalRow>, parse: Parser)
    ensures AttachAll(g, kind, rows1 + rows2, parse) ==
              var first := AttachAll(g, kind, rows1, parse);
              if first.1.Some? then first else AttachAll(first.0, kind, rows2, parse)
    decreases |rows1|
  {
    if |rows1| > 0 {
      assert (rows1 + rows2)[0] == rows1[0];
      assert (rows1 + rows2)[1..] == rows1[1..] + rows2;
      var next := AttachPolicies(g, kind, rows1[0].name, rows1[0].attachedPolicies, parse);
      if next.1.None? {
        AttachAllSplit(next.0, kind, rows1[1..], rows2, parse);
      }
    } else {
      assert rows1 + rows2 == rows2;
    }
  }

  /** The new memberships: of the users named by one of `names` in `group`. */
  predicate JoinedBy(g: Graph, group: string, names: seq<Json>, m: Membership)
  {
    && m.user < |g.users| && JStr(g.users[m.user]) in names
    && m.group < |g.groups| && g.groups[m.group] == group
  }

  /** One turn of the member loop: the edges of the first name followed by
      those of the rest are the edges of all the names. */
  lemma JoinStep(g: Graph, group: string, name: Json, rest: seq<Json>, r: Graph)
    requires r == g.(memberships := r.memberships)
    requires |r.memberships| >= |Join(g, name, group).memberships|
    requires r.memberships[..|Join(g, name, group).memberships|] == Join(g, name, group).memberships
    requires forall m :: m in r.memberships[|Join(g, name, group).memberships|..] <==>
               JoinedBy(Join(g, name, group), group, rest, m)
    ensures |r.memberships| >= |g.memberships| && r.memberships[..|g.memberships|] == g.memberships
    ensures forall m :: m in r.memberships[|g.memberships|..] <==> JoinedBy(g, group, [name] + rest, m)
  {
    var next := Join(g, name, group);
    var a, n := r.memberships, |g.memberships|;
    SplitTail(a, next.memberships, n);
    assert a[..n] == a[..|next.memberships|][..n];
    assert forall m :: JoinedBy(next, group, rest, m) == JoinedBy(g, group, rest, m);
  }

  /** One turn of the member loop, counted. */
  lemma JoinCountStep(g: Graph, group: string, name: Json, rest: seq<Json>, count: nat)
    requires var next := Join(g, name, group);
             count == |next.memberships| + Edges(next.users, rest, |IndicesOf(next.groups, group)|)
    ensures count == |g.memberships| + Edges(g.users, [name] + rest, |IndicesOf(g.groups, group)|)
  {
    var next := Join(g, name, group);
    var q, h := |IndicesOf(g.groups, group)|, |NamedIndices(g.users, name)|;
    assert Edges(next.users, rest, |IndicesOf(next.groups, group)|) == Edges(g.users, rest, q) by {
      assert next.users == g.users && next.groups == g.groups;
    }
    TimesCommutes(q, h);
    assert Edges(g.users, [name] + rest, q) == Times(q, h) + Edges(g.users, rest, q) by {
      assert ([name] + rest)[1..] == rest;
    }
  }

  /** The loop `for user in entries: MATCH ... CREATE (u)-[:PART_OF]->(g)` with
      `user['UserName']`: it joins every user named by the entries before the
      first one that raises, and stops there. */
  function JoinEntries(g: Graph, group: string, entries: seq<Json>): (r: (Graph, Option<PyError>))
    ensures r.0 == g.(memberships := r.0.memberships)
    ensures |r.0.memberships| >= |g.memberships| && r.0.memberships[..|g.memberships|] == g.memberships
    ensures r.1 == Lookups(entries, "UserName").1
    ensures forall m :: m in r.0.memberships[|g.memberships|..] <==>
              JoinedBy(g, group, Lookups(entries, "UserName").0, m)
    ensures |r.0.memberships| == |g.memberships| +
              Edges(g.users, Lookups(entries, "UserName").0, |IndicesOf(g.groups, group)|)
    decreases |entries|
  {
    if |entries| == 0 then (g, None)
    else
      match Subscript(entries[0], "UserName")
      case Err(e) => (g, Some(e))
      case Ok(name) =>
        var next := Join(g, name, group);
        var r := JoinEntries(next, group, entries[1..]);
        var rest := Lookups(entries[1..], "UserName").0;
        assert Lookups(entries, "UserName").0 == [name] + rest;
        JoinStep(g, group, name, rest, r.0);
        JoinCountStep(g, group, name, rest, |r.0.memberships|);
        r
  }

  /** The member loop creates one edge per group node of the name for every
      user node named by every entry read, repeated names included. */
  lemma JoinEntriesCount(g: Graph, group: string, entries: seq<Json>)
    ensures |JoinEntries(g, group, entries).0.memberships| == |g.memberships| +
              |IndicesOf(g.groups, group)| * Hits(g.users, Lookups(entries, "UserName").0)
  {
    EdgesIsProduct(g.users, Lookups(entries, "UserName").0, |IndicesOf(g.groups, group)|);
  }

  /** One group's member list: quote repair only, parse, iterate, join. */
  function JoinUsers(g: Graph, group: string, raw: string, parse: Parser): (r: (Graph, Option<PyError>))
    ensures r.0 == g.(memberships := r.0.memberships)
    ensures |r.0.memberships| >= |g.memberships| && r.0.memberships[..|g.memberships|] == g.memberships
    ensures parse(RepairQuotes(raw)).None? ==> r == (g, Some(DecodeError))
    ensures parse(RepairQuotes(raw)).Some? && Entries(parse(RepairQuotes(raw)).value).Err? ==>
              r == (g, Some(Entries(parse(RepairQuotes(raw)).value).error))
  {
    match parse(RepairQuotes(raw))
    case None => (g, Some(DecodeError))
    case Some(doc) =>
      match Entries(doc)
      case Err(e) => (g, Some(e))
      case Ok(entries) => JoinEntries(g, group, entries)
  }

  /** One row of the group loop: its policies are attached first, then its
      users are joined; a failure in the first step skips the second. */
  function GroupRow(g: Graph, row: PrincipalRow, parse: Parser): (r: (Graph, Option<PyError>))
    ensures r.0 == g.(attachments := r.0.attachments, memberships := r.0.memberships)
    ensures |r.0.attachments| >= |g.attachments| && r.0.attachments[..|g.attachments|] == g.attachments
    ensures |r.0.memberships| >= |g.memberships| && r.0.memberships[..|g.memberships|] == g.memberships
    ensures AttachPolicies(g, Group, row.name, row.attachedPolicies, parse).1.Some? ==>
              r == AttachPolicies(g, Group, row.name, row.attachedPolicies, parse)
  {
    var (next, err) := AttachPolicies(g, Group, row.name, row.attachedPolicies, parse);
    if err.Some? then (next, err)
    else JoinUsers(next, row.name, row.users, parse)
  }

  /** The attachment loop of the groups sheet, row by row until a row raises. */
  function AttachGroups(g: Graph, rows: seq<PrincipalRow>, parse: Parser): (r: (Graph, Option<PyError>))
    ensures r.0 == g.(attachments := r.0.attachments, memberships := r.0.memberships)
    ensures |r.0.attachments| >= |g.attachments| && r.0.attachments[..|g.attachments|] == g.attachments
    ensures |r.0.memberships| >= |g.memberships| && r.0.memberships[..|g.memberships|] == g.memberships
    decreases |rows|
  {
    if |rows| == 0 then (g, None)
    else
      var (next, err) := GroupRow(g, rows[0], parse);
      if err.Some? then (next, err)
      else
        var r := AttachGroups(next, rows[1..], parse);
        PrefixOfPrefix(r.0.attachments, next.attachments, g.attachments);
        PrefixOfPrefix(r.0.memberships, next.memberships, g.memberships);
        r
  }

  /** A list cell holding one entry that names a policy, for a principal and a
      policy with one node each, attaches exactly that policy. */
  lemma AttachPoliciesOne(g: Graph, kind: PrincipalKind, principal: string, raw: string, parse: Parser,
                          name: string, u: nat, p: nat)
    requires parse(RepairQuotes(raw)) == Some(JArr([JObj(map["PolicyName" := JStr(name)])]))
    requires IndicesOf(Principals(g, kind), principal) == [u]
    requires IndicesOf(PolicyNames(g), name) == [p]
    ensures AttachPolicies(g, kind, principal, raw, parse) ==
              (g.(attachments := g.attachments + [Attachment(p, kind, u)]), None)
  {
    var entry := JObj(map["PolicyName" := JStr(name)]);
    AttachSingle(g, kind, principal, name, u, p);
    var next := Attach(g, kind, principal, JStr(name));
    assert Subscript(entry, "PolicyName") == Ok(JStr(name));
    assert [entry][1..] == [];
    assert AttachEntries(g, kind, principal, [entry]) == AttachEntries(next, kind, principal, []);
  }

  /** A list cell holding one entry that names a user, for a user and a group
      with one node each, joins exactly that user. */
  lemma JoinUsersOne(g: Graph, group: string, raw: string, parse: Parser, name: string, u: nat, q: nat)
    requires parse(RepairQuotes(raw)) == Some(JArr([JObj(map["UserName" := JStr(name)])]))
    requires IndicesOf(g.users, name) == [u]
    requires IndicesOf(g.groups, group) == [q]
    ensures JoinUsers(g, group, raw, parse) == (g.(memberships := g.memberships + [Membership(u, q)]), None)
  {
    var entry := JObj(map["UserName" := JStr(name)]);
    JoinSingle(g, name, group, u, q);
    var next := Join(g, JStr(name), group);
    assert Subscript(entry, "UserName") == Ok(JStr(name));
    assert [entry][1..] == [];
    assert JoinEntries(g, group, [entry]) == JoinEntries(next, group, []);
  }

  /** The group loop over two batches of rows: the second batch runs from where
      the first ended, and not at all when the first raised. */
  lemma {:induction false} AttachGroupsSplit(g: Graph, rows1: seq<PrincipalRow>, rows2: seq<PrincipalRow>, parse: Parser)
    ensures AttachGroups(g, rows1 + rows2, parse) ==
              var first := AttachGroups(g, rows1, parse);
              if first.1.Some? then first else AttachGroups(first.0, rows2, parse)
    decreases |rows1|
  {
    if |rows1| > 0 {
      assert (rows1 + rows2)[0] == rows1[0];
      assert (rows1 + rows2)[1..] == rows1[1..] + rows2;
      var next := GroupRow(g, rows1[0], parse);
      if next.1.None? {
        AttachGroupsSplit(next.0, rows1[1..], rows2, parse);
      }
    } else {
      assert rows1 + rows2 == rows2;
    }
  }

  /** The user loader and the role loader: every row's node is created first,
      then the attachment loop runs over the same rows.  Only principal nodes of
      that kind and attachments are added. */
  function LoadPrincipals(g: Graph, kind: PrincipalKind, rows: seq<PrincipalRow>, parse: Parser): (r: (Graph, Option<PyError>))
    requires kind != Group
    ensures Principals(r.0, kind) == Principals(g, kind) + Names(rows)
    ensures forall k :: k != kind ==> Principals(r.0, k) == Principals(g, k)
    ensures r.0 == g.(users := r.0.users, groups := r.0.groups, roles := r.0.roles, attachments := r.0.attachments)
    ensures |r.0.attachments| >= |g.attachments| && r.0.attachments[..|g.attachments|] == g.attachments
  {
    var created := CreatePrincipals(g, kind, rows);
    assert created.attachments == g.attachments;
    AttachAll(created, kind, rows, parse)
  }

  /** The group loader: every group node is created first, then each row's
      policies are attached and its users joined. */
  function LoadGroups(g: Graph, rows: seq<PrincipalRow>, parse: Parser): (r: (Graph, Option<PyError>))
    ensures r.0.groups == g.groups + Names(rows)
    ensures r.0 == g.(groups := r.0.groups, attachments := r.0.attachments, memberships := r.0.memberships)
    ensures |r.0.attachments| >= |g.attachments| && r.0.attachments[..|g.attachments|] == g.attachments
    ensures |r.0.memberships| >= |g.memberships| && r.0.memberships[..|g.memberships|] == g.memberships
  {
    var created := CreatePrincipals(g, Group, rows);
    assert Principals(created, User) == Principals(g, User);
    assert Principals(created, Role) == Principals(g, Role);
    assert created == g.(groups := Principals(created, Group));
    AttachGroups(created, rows, parse)
  }

  /** A group row whose lists each hold one entry, for names with one node each,
      adds exactly one attachment and one membership and raises nothing. */
  lemma GroupRowOne(g: Graph, row: PrincipalRow, parse: Parser, policyName: string, userName: string,
                    u: nat, q: nat, p: nat)
    requires parse(RepairQuotes(row.attachedPolicies)) == Some(JArr([JObj(map["PolicyName" := JStr(policyName)])]))
    requires parse(RepairQuotes(row.users)) == Some(JArr([JObj(map["UserName" := JStr(userName)])]))
    requires IndicesOf(g.users, userName) == [u]
    requires IndicesOf(g.groups, row.name) == [q]
    requires IndicesOf(PolicyNames(g), policyName) == [p]
    ensures GroupRow(g, row, parse) ==
              (g.(attachments := g.attachments + [Attachment(p, Group, q)],
                  memberships := g.memberships + [Membership(u, q)]), None)
  {
    AttachPoliciesOne(g, Group, row.name, row.attachedPolicies, parse, policyName, q, p);
    var g1 := g.(attachments := g.attachments + [Attachment(p, Group, q)]);
    assert PolicyNames(g1) == PolicyNames(g);
    JoinUsersOne(g1, row.name, row.users, parse, userName, u, q);
  }

  /** The group loop over such a row alone. */
  lemma AttachGroupsOne(g: Graph, row: PrincipalRow, parse: Parser, policyName: string, userName: string,
                        u: nat, q: nat, p: nat)
    requires parse(RepairQuotes(row.attachedPolicies)) == Some(JArr([JObj(map["PolicyName" := JStr(policyName)])]))
    requires parse(RepairQuotes(row.users)) == Some(JArr([JObj(map["UserName" := JStr(userName)])]))
    requires IndicesOf(g.users, userName) == [u]
    requires IndicesOf(g.groups, row.name) == [q]
    requires IndicesOf(PolicyNames(g), policyName) == [p]
    ensures AttachGroups(g, [row], parse) ==
              (g.(attachments := g.attachments + [Attachment(p, Group, q)],
                  memberships := g.memberships + [Membership(u, q)]), None)
  {
    GroupRowOne(g, row, parse, policyName, userName, u, q, p);
    AttachGroupsSingleRow(g, row, parse);
  }

  /** The group loop over one row is that row. */
  lemma AttachGroupsSingleRow(g: Graph, row: PrincipalRow, parse: Parser)
    ensures AttachGroups(g, [row], parse) == GroupRow(g, row, parse)
  {
    assert [row][1..] == [];
  }
}
