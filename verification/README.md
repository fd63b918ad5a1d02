# IAM policy loader — Dafny model

This project models the data loader of iam-collector (`data_loader/load_data.py`).
The loader reads AWS IAM policies, users, groups and roles from a spreadsheet and writes
them into a Neo4j graph:

- **Policy nodes.** One `Policy` node is created per policy row. A document split over the
  `ExtraPolicySpace` column is joined back first.
- **Resource phase.** Each policy document is repaired into JSON: `'` becomes `"`,
  `True` becomes `true`, and `False` becomes `false`. The repaired text is parsed and
  normalised to a list of statements. Each statement then MERGEs one `Resource` node per
  value of its `Resource` field. A statement with no `Resource` field MERGEs one
  `NotResource` node per value of its `NotResource` field instead. Every such node is
  keyed by the value and the policy's name.
- **Action phase.** Each document is parsed again. Every statement's resource values are
  crossed with its action values. Each pair MATCHes the policy and a resource-side node,
  then CREATEs a fresh action node between them.
- **Principals.** User, group and role nodes are created. Their attached-policy lists,
  and each group's member list, are repaired (quotes only), parsed and turned into
  `IS_ATTACHED_TO` and `PART_OF` edges.

The graph store is modelled as an abstract state (`Graph.Graph`):

- Nodes created with CREATE are sequences, so a second CREATE adds a second node.
- Nodes created with MERGE are sets of keys.
- A MATCH-then-CREATE adds one item per matching combination of nodes, and nothing when
  a pattern matches no node.

The JSON parser is a parameter (`Json.Parser`, a partial function from text to value).
Python's operators on parsed values are modelled with their real semantics, not only on
objects:

- `in` is a key test on a dict, a substring test on a string, an element test on a list,
  and a `TypeError` otherwise.
- Subscript raises on anything but a dict that holds the key.
- Iteration yields a list's items. A dict yields its keys and a string its characters, so
  the loop's first subscript raises.

Every exception a row or entry can raise is modelled as a `Result` or a returned
`Option<PyError>`:

- The policy phases catch errors per row. A failing row keeps what it merged or created
  before the error, and the next row runs.
- The principal loops have no handler. The first error ends the loop.

The action phase is modelled as written:

- Its four guarded cross-product loops are all present.
- The field selection stores `NotResource` values in `resource_list` and never fills
  `not_resource_list`, so only the `Action`/`WORKS_ON` loop and the last
  `NotAction`/`WORKS_NOT_ON` loop can create anything.
- Both of those loops look up `Resource` nodes. A statement pairing `NotResource` with
  `Action` therefore finds its action a partner only if some statement of the same policy
  lists that value under `Resource`. In a policy where none does, it creates no action
  node: its `NotResource` node exists, but no `Resource` node of that name does
  (`Scenarios.NotResourceScenario`).

Modules, one per file:

| module | file | covers |
|---|---|---|
| `Seqs` | `seqs.dfy` | name lookup and the row-major cross product |
| `Text` | `text.dfy` | Python's `str.replace` |
| `Repair` | `repair.dfy` | document and quote repair |
| `Json` | `json.dfy` | parsed values and Python's operators on them |
| `Graph` | `graph.dfy` | the store and its MERGE, CREATE and MATCH primitives |
| `Policies` | `policies.dfy` | the policy sheet |
| `ResourceNodes` | `resource_nodes.dfy` | the resource phase |
| `ActionNodes` | `action_nodes.dfy` | the action phase |
| `Principals` | `principals.dfy` | the principal loaders |
| `Cells` | `cells.dfy` | sample Python-literal cells, spelt piece by piece |
| `Scenarios` | `scenarios.dfy` | what the repair makes of those cells, and end-to-end runs |

## Model

| member | source | states |
|---|---|---|
| Text.ReplaceAll | data_loader/load_data.py:46 | Python's replace-all of a non-empty pattern; a replacement as long as the pattern keeps the text's length |
| Text.ReplaceAllPointwise | data_loader/load_data.py:46-48 | for a pattern and a replacement of equal length that differ only in their first character (as `'` and `"`, `True` and `true`, `False` and `false` do), the replace-all changes exactly the first character of every occurrence in the input and nothing else |
| Text.ReplaceAllLeavesNoMatch | data_loader/load_data.py:46-48 | after a replace-all whose replacement differs from the pattern in its first character, the pattern occurs nowhere in the result |
| Text.ReplaceAllKeepsAbsent | data_loader/load_data.py:46-48 | a replacement whose new character does not appear in a text `q` creates no occurrence of `q`, so a later step cannot bring back what an earlier step removed |
| Text.ReplaceAllWithoutMatch | data_loader/load_data.py:47-48 | replacing a pattern that does not occur leaves the text unchanged |
| Repair.RepairQuotes | data_loader/load_data.py:203 | the quote repair of the attachment lists keeps the length, turns every `'` into `"`, keeps every other character, and leaves no `'` |
| Repair.RepairDocument | data_loader/load_data.py:46-48 | the three-step document repair keeps the length and leaves no `'`, `True` or `False`; each output character is `"` where the input has `'`, `t` where an input `True` starts, `f` where an input `False` starts, and the input character everywhere else |
| Repair.BooleansSurviveQuotes | data_loader/load_data.py:46-48 | the quote step neither creates nor destroys an occurrence of `True` or `False` |
| Repair.FalseSurvivesTrue | data_loader/load_data.py:46-48 | after the quote and `True` steps, `False` occurs exactly where it occurred in the stored document |
| Repair.RepairDocumentWithoutBooleans | data_loader/load_data.py:46-48 | a document with no capital `T` or `F` is repaired by the quote step alone |
| Repair.RepairQuotesAppend | data_loader/load_data.py:203 | the quote repair works piecewise: repairing a concatenation concatenates the repairs |
| Repair.RepairQuotesPlain | data_loader/load_data.py:203 | text without a `'` passes the quote repair unchanged |
| Repair.RepairDocumentIdempotent | data_loader/load_data.py:98-100 | repairing an already repaired document changes nothing |
| Repair.RepairQuotesIdempotent | data_loader/load_data.py:226 | repairing quotes twice is repairing them once |
| Repair.RepairQuotesKeepsBooleans | data_loader/load_data.py:262 | the quote-only repair of the principal lists leaves every `True` and `False` in place |
| Json.AsList | data_loader/load_data.py:53-55 | the list normalisation keeps a list and wraps anything else into a singleton, and it is empty exactly for the empty list |
| Json.AsListStable | data_loader/load_data.py:120-122 | normalising a normalised value changes nothing |
| Json.In | data_loader/load_data.py:60 | `key in v` raises exactly on null, booleans and numbers, and is a key test on a dict |
| Json.Subscript | data_loader/load_data.py:61 | `v[key]` succeeds exactly on a dict holding the key and then yields the key's value |
| Json.Entries | data_loader/load_data.py:205 | iterating with a subscripting body gets through exactly a list, an empty dict or an empty string, and then visits the list's items (none otherwise) |
| Json.Preferred | data_loader/load_data.py:115-118 | on a dict the first key wins whenever present, then the second, else neither; the idiom raises exactly on a non-dict in which either key test does not answer a plain no |
| Seqs.IndicesOf | data_loader/load_data.py:146 | the nodes a name lookup finds are exactly the positions holding that name, in increasing order |
| Seqs.IndicesOfSingle | data_loader/load_data.py:146 | a name held at exactly one position is found exactly there |
| Seqs.Cross | data_loader/load_data.py:142-143 | the nested loops visit as many pairs as the product of the two list lengths |
| Seqs.CrossAt | data_loader/load_data.py:142-143 | the nested loops visit resource i with action j at position i times the number of actions plus j, inside the range of all pairs |
| Seqs.CrossMembers | data_loader/load_data.py:142-143 | a pair is visited exactly when its resource and its action are both in their lists |
| Graph.NamedIndices | data_loader/load_data.py:208 | a lookup by a parsed value finds exactly the nodes whose stored name is that value as a string |
| Graph.Merge | data_loader/load_data.py:69 | a MERGE adds its key to its label's key set, leaves the other label's set and all else alone, and changes nothing when the key is present |
| Graph.CreateAction | data_loader/load_data.py:144-150 | one attempt keeps the earlier action nodes, adds one node per policy node of the name when the resource node exists (none otherwise), and every new node carries that action, resource, label and edge |
| Graph.CreatePrincipal | data_loader/load_data.py:195-196 | creating a principal appends its name to its kind's nodes and leaves the other kinds alone |
| Graph.Attach | data_loader/load_data.py:206-210 | an attachment adds one edge per (principal node, policy node) pair with the two names, exactly those edges, and keeps the earlier ones |
| Graph.Join | data_loader/load_data.py:239-243 | a join adds one edge per (user node, group node) pair with the two names, exactly those edges, and keeps the earlier ones |
| Graph.AttachSingle | data_loader/load_data.py:206-210 | with one node for each name, an attachment adds exactly the edge between them |
| Graph.JoinSingle | data_loader/load_data.py:239-243 | with one node for each name, a join adds exactly the edge between them |
| Policies.MergeExtraSpace | data_loader/load_data.py:23-26 | when the continuation column exists, each row with a non-empty continuation gets it appended to its document; no other row or field changes |
| Policies.MergedDocumentSplits | data_loader/load_data.py:23-26 | every re-joined document is the original followed by the continuation (empty when the column is absent), so the original is its prefix |
| Policies.CreatePolicies | data_loader/load_data.py:34-38 | the policy loop appends one node per row, in row order, without deduplication, and touches nothing else |
| Policies.CreatedNames | data_loader/load_data.py:34-38 | after the policy loop the policy names are the earlier ones followed by the rows' names, in row order |
| Policies.CreatedPolicyIsFound | data_loader/load_data.py:36 | with distinct row names and no earlier policy of a row's name, looking that name up finds exactly the node created for the row |
| ResourceNodes.ResourcePlan | data_loader/load_data.py:60-77 | on a dict, `Resource` wins over `NotResource` and either is normalised to a list; on any other value the statement raises exactly when it mentions either key |
| ResourceNodes.MergeAll | data_loader/load_data.py:67-70 | merging a field's values adds exactly their keys under the policy's name to one label and leaves the other label alone |
| ResourceNodes.MergeAllRepeats | data_loader/load_data.py:67-70 | merging a list of values twice over is merging it once |
| ResourceNodes.ResourceStatement | data_loader/load_data.py:57-82 | a statement fails exactly when its plan raises, and otherwise adds exactly its plan's keys to the matching label |
| ResourceNodes.ResourceKeyWins | data_loader/load_data.py:60-70 | a statement with a `Resource` key grows only the `Resource` set, by exactly its values' keys, even with a `NotResource` key present |
| ResourceNodes.ResourceStatements | data_loader/load_data.py:57-88 | a row's statement loop keeps the keys of the statements before the first one that raises, and reports no error exactly when no statement raises |
| ResourceNodes.ResourceRow | data_loader/load_data.py:45-88 | a row adds to each label exactly the keys its statements before the first failing one name; a document that does not parse merges nothing and reports a decode error; the row reports no error exactly when its document parses and none of its statements raises |
| ResourceNodes.ResourcePhase | data_loader/load_data.py:45-88 | the phase adds to each label exactly the keys every row contributes, the rows after a failing one included, and changes nothing else |
| ResourceNodes.ResourcePhaseIdempotent | data_loader/load_data.py:42-90 | replaying the resource phase adds nothing |
| ResourceNodes.ResourcePhaseOrderIrrelevant | data_loader/load_data.py:45-88 | the order of the policy rows does not change the resource phase's outcome |
| ResourceNodes.ResourcePhaseSkipsUnparsable | data_loader/load_data.py:50-88 | a row whose document does not parse is skipped: the phase with it equals the phase without it |
| ResourceNodes.ResourcePhaseSingleStatement | data_loader/load_data.py:51-57 | a one-row phase over a one-statement document is that statement's merge |
| ActionNodes.SelectFields | data_loader/load_data.py:110-139 | on a dict, `Resource` (else `NotResource`) fills the resource list, `Action` wins over `NotAction`, and the not-resource list stays empty; at most one action list is non-empty; it raises exactly on a non-dict mentioning any of the four keys |
| ActionNodes.ApplyAttempts | data_loader/load_data.py:142-150 | the attempts only add action nodes after the earlier ones: as many as the policy nodes of the name for every attempt whose resource node exists, counted attempt by attempt; a node is among the new ones exactly when it is for an attempted pair, an existing resource node of the policy, and a policy node of the name |
| ActionNodes.YieldIsProduct | data_loader/load_data.py:142-150 | that count is the number of attempts whose resource node exists times the number of policy nodes of the name |
| ActionNodes.ActionStatement | data_loader/load_data.py:141-183 | the four loops amount to the `Action` cross product when there are actions, the `NotAction` cross product against `Resource` nodes when there are not-actions, and nothing otherwise |
| ActionNodes.OnlyResourceBranchesFire | data_loader/load_data.py:152-172 | every action node a statement creates hangs off a `Resource` node, is never labelled `notAction`, and is an `Action` exactly when its edge is `WORKS_ON` |
| ActionNodes.CrossProductEmpty | data_loader/load_data.py:141 | an empty resource or action list creates nothing |
| ActionNodes.ObjectStatementShapes | data_loader/load_data.py:115-183 | for a dict statement: with `Action`, resources × actions as `Action`/`WORKS_ON`; else with `NotAction`, resources × not-actions as `NotAction`/`WORKS_NOT_ON` against `Resource` nodes; else nothing |
| ActionNodes.OneAttempt | data_loader/load_data.py:144-150 | with one policy node of the name at position p and the resource node present, an attempt appends exactly the node for that action, policy node p, that resource, label and edge |
| ActionNodes.ApplyAttemptsOneEach | data_loader/load_data.py:144-150 | with one policy node of the name at position p and every attempted resource present, the attempts append exactly one such node per attempt, in attempt order |
| ActionNodes.CrossProductAt | data_loader/load_data.py:141-150 | under the same conditions a cross product appends exactly the nodes for the (resource, action) pairs in row-major order, duplicates included, so resource i with action j lands at position i times the number of actions plus j (`Seqs.CrossAt`) |
| ActionNodes.ApplyAttemptsNoMatch | data_loader/load_data.py:144-147 | attempts whose policy or resource node is missing leave the graph unchanged |
| ActionNodes.FirstFailure | data_loader/load_data.py:109-139 | the position found is the first statement whose field selection raises, or the end |
| ActionNodes.ActionStatements | data_loader/load_data.py:109-185 | a row's statement loop only adds action nodes and reports exactly the error of the first statement whose field selection raises |
| ActionNodes.ActionStatementsSplit | data_loader/load_data.py:109-183 | after statements none of which raises, the next statements run from the state they reached, so two statements naming the same resource and action each create their own nodes |
| ActionNodes.ActionStatementsKeepPrefix | data_loader/load_data.py:102-185 | a row that raises ends as the statements before the failure leave it |
| ActionNodes.ActionRow | data_loader/load_data.py:98-107 | a row only adds action nodes, and a document that does not parse adds nothing and reports a decode error |
| ActionNodes.ActionPhase | data_loader/load_data.py:96-186 | the phase only adds action nodes and keeps the earlier ones |
| ActionNodes.ActionPhaseSplit | data_loader/load_data.py:96-186 | the phase over two batches is the second batch run from where the first ended, failures in the first included |
| ActionNodes.ActionPhaseSkipsUnparsable | data_loader/load_data.py:102-186 | a row whose document does not parse is skipped: the phase with it equals the phase without it |
| ActionNodes.ActionPhaseSingleStatement | data_loader/load_data.py:103-109 | a one-row phase over a one-statement document is that statement's cross products |
| Principals.CreatePrincipals | data_loader/load_data.py:194-198 | the node loop appends one node per row of its kind, in order, and leaves the other kinds alone |
| Principals.Lookups | data_loader/load_data.py:210 | the names read are the subscripts of the entries before the first failing one, and the error is that entry's |
| Principals.LookupsComplete | data_loader/load_data.py:210 | entries that all are dicts with the key are read to the end without error |
| Principals.AttachEntries | data_loader/load_data.py:205-210 | the entry loop keeps the earlier edges and reports the first failing entry's error; a new edge is one from the principal to a policy named before that entry, every such edge is new, and their number is, entry by entry, the principal's nodes for each policy node named |
| Principals.EdgesIsProduct | data_loader/load_data.py:205-210 | that count, summed entry by entry, is the number of nodes at one end times the nodes the entries name, repeated names counted again |
| Principals.AttachEntriesCount | data_loader/load_data.py:205-210 | the entry loop creates the principal's node count times the number of policy nodes the entries read name, a policy named twice getting two edges |
| Principals.AttachPolicies | data_loader/load_data.py:203-210 | a row's attachments only add edges; an unparsable or non-iterable list adds nothing and reports its error |
| Principals.AttachAll | data_loader/load_data.py:202-210 | the users' (and roles') attachment loop only adds edges and keeps the earlier ones |
| Principals.AttachAllSplit | data_loader/load_data.py:261-269 | after a row raises, no later row runs; otherwise the later rows run from where the earlier ones ended |
| Principals.JoinEntries | data_loader/load_data.py:238-243 | the member loop keeps the earlier edges and reports the first failing entry's error; a new edge is one from a user named before that entry to the group, every such edge is new, and their number is, entry by entry, the group's nodes for each user node named |
| Principals.JoinEntriesCount | data_loader/load_data.py:238-243 | the member loop creates the group's node count times the number of user nodes the entries read name, a user named twice getting two edges |
| Principals.JoinUsers | data_loader/load_data.py:236-243 | a group's member list only adds edges; an unparsable or non-iterable list adds nothing and reports its error |
| Principals.GroupRow | data_loader/load_data.py:225-244 | a group row only adds edges, and when its policy list raises its member list is not read |
| Principals.AttachGroups | data_loader/load_data.py:225-244 | the group loop only adds attachment and membership edges and keeps the earlier ones |
| Principals.AttachGroupsSplit | data_loader/load_data.py:224-244 | after a group row raises, no later row runs; otherwise the later rows run from where the earlier ones ended |
| Principals.AttachPoliciesOne | data_loader/load_data.py:226-233 | a one-entry policy list, for names with one node each, adds exactly one edge and no error |
| Principals.JoinUsersOne | data_loader/load_data.py:236-243 | a one-entry member list, for names with one node each, adds exactly one edge and no error |
| Principals.GroupRowOne | data_loader/load_data.py:225-244 | a group row whose two lists each hold one entry, for names with one node each, adds exactly one attachment and one membership and raises nothing |
| Principals.AttachGroupsOne | data_loader/load_data.py:224-244 | the group loop over that row alone ends in the same state, without error |
| Principals.LoadPrincipals | data_loader/load_data.py:191-211 | the user and role loaders append their nodes and otherwise only add attachments |
| Principals.LoadGroups | data_loader/load_data.py:214-244 | the group loader appends the group nodes and otherwise only adds attachments and memberships |
| Scenarios.LoadPolicies | data_loader/load_data.py:277-281 | the three policy phases in order leave the principals and their edges alone and add exactly the rows' policy nodes |
| Scenarios.RenderRepaired | data_loader/load_data.py:203 | a Python-literal cell whose strings hold no `'` repairs, by quote replacement, to the same cell written with double quotes |
| Scenarios.DocumentRepaired | data_loader/load_data.py:46-48 | such a cell with no capital `T` or `F` either goes through the full document repair as through the quote step alone |
| Scenarios.BucketDocumentRepaired | data_loader/load_data.py:46-48 | the bucket document `[{'Resource': 's3:bucket', 'Action': ['s3:Get','s3:Put']}]` repairs to its double-quoted JSON text |
| Scenarios.NotResourceDocumentRepaired | data_loader/load_data.py:98-100 | the document `[{'NotResource': 'x', 'Action': 'a'}]` repairs to its double-quoted JSON text |
| Scenarios.EntryListRepaired | data_loader/load_data.py:226 | a one-entry list cell `[{'key':'value'}]` whose key and value hold no `'` repairs to its double-quoted JSON text |
| Scenarios.GroupCellsRepaired | data_loader/load_data.py:226-237 | the group scenario's policy list and member list repair to their JSON texts |
| Scenarios.BucketResources | data_loader/load_data.py:57-70 | the bucket policy's resource phase adds exactly one `Resource` key, the bucket scoped by the policy |
| Scenarios.BucketCross | data_loader/load_data.py:141-150 | the bucket statement's cross product, with one P1 node and the bucket's resource node, appends the `Get` node and then the `Put` node |
| Scenarios.BucketActions | data_loader/load_data.py:141-150 | the bucket policy's action phase adds exactly the `Get` and `Put` action nodes, in that order |
| Scenarios.BucketScenario | data_loader/load_data.py:45-150 | the single-quoted bucket document stored for P1, if its repaired text parses to its one statement, gives one policy node, one resource node scoped by P1 and two action nodes to and from them |
| Scenarios.NotResourceResources | data_loader/load_data.py:72-82 | the `NotResource` policy's resource phase adds exactly one `NotResource` key and no `Resource` key |
| Scenarios.NotResourceActions | data_loader/load_data.py:141-150 | its action phase looks the action up against a `Resource` node that does not exist and creates nothing |
| Scenarios.NotResourceScenario | data_loader/load_data.py:45-150 | the single-quoted document `[{'NotResource': 'x', 'Action': 'a'}]`, if its repaired text parses to its one statement, gets its `NotResource` node but no action node |
| Scenarios.GroupScenario | data_loader/load_data.py:224-244 | a group whose single-quoted cells list P1 and bob, if the repaired texts parse to those lists, gains exactly one edge from each |

## Left out

- Reading the spreadsheet (`data_loader/load_data.py:13-20`): `read_excel`, the `fillna('')` of the policy sheet, and the column rename of the roles sheet are library I/O. Policy rows are plain records whose missing cells are `""`, as `fillna('')` makes them.
- Blank cells of the principal sheets. Only the policy sheet is filled (`:19`), so a blank `AttachedPolicies` or `Users` cell is read as NaN, and `.replace` on it raises `AttributeError` (`:203`, `:226`, `:236`, `:262`) before anything is parsed. Principal rows hold strings in the model, so this failure is not modelled.
- The py2neo connection and its transactions (`:32-39`, `:43`, `:90`, `:94`, `:188`, `:201-211`, `:224-244`, `:259-270`): the store is a state that keeps every issued effect. Commit, rollback and atomicity are not modelled. Neither is the group loop's reuse, on its second row, of a transaction it has already committed (`:234-235`, `:244`).
- `json.loads` (`:51`, `:103`, `:204`, `:227`, `:237`) is the `Parser` parameter; the parser itself is not modelled.
- JSON numbers are integers (floats are not modelled), and objects are maps, so the key order of a dict is dropped. Key order only matters when a non-empty dict is iterated in an attachment loop, and that raises on its first key whatever the order.
- The store's refusal of some property values is not modelled. A null or map as a MERGE property, or a map as a CREATE property (an `Action` entry such as `{"a": 1}` at `:144-150`), raises inside the store, so a MERGE or CREATE that the store would refuse is modelled as succeeding.
- Diagnostic printing (`:85-88`, `:186`).
- The properties copied into principal nodes (`:195-198`, `:218-221`, `:251-256`): a principal node is modelled by its name only. The version/statement mix-up at `:255` is therefore out of scope too.
- The `__main__` wiring (`:273-283`); `Scenarios.LoadPolicies` composes the three policy phases the way it calls them.
- Text.ReplaceAll: requires a non-empty pattern. Python's replace with an empty pattern inserts between characters, but the loader never uses one.
- Principal names are strings. A policy or user name read from a list matches a node only when it is a JSON string equal to the stored name.
- Principals.LoadPrincipals and Principals.LoadGroups: these contracts state only what the loaders add and keep. The edges themselves are stated by the entry-loop members they are built from.
