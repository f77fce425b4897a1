/**
 * The records the editor's node helpers work on: workflow nodes, node-type
 * descriptors, stored credentials, issue sets and execution run data, plus
 * the read-only view of the editor's stores (node-type registry, credential
 * catalog, user session, pinned data) as one `Context` value.
 */
module NodeData {
  import opened Wrappers

  /** Parameter values of a node by parameter name; an absent key is `undefined`. */
  type Parameters = map<string, string>

  /** A node's selected credential of one type: `{id, name}`, or the legacy bare name. */
  datatype CredentialSelection =
    | Details(id: Option<string>, name: string)
    | BareName(name: string)

  /** A workflow node as the editor holds it. */
  datatype Node = Node(
    name: string,
    nodeType: string,
    typeVersion: int,
    parameters: Parameters,
    credentials: Option<map<string, CredentialSelection>>,
    disabled: bool,
    notesInFlow: bool,
    notes: Option<string>)

  /** A credential stored on the server, as listed for one credential type. */
  datatype StoredCredential = StoredCredential(id: string, name: string)

  /** A credential type a node type declares; when it is shown is decided by `Context.displayCredential`. */
  datatype CredentialDescription = CredentialDescription(name: string, required: bool)

  datatype PropertyOption = PropertyOption(name: string, value: string)

  datatype Property = Property(name: string, options: Option<seq<PropertyOption>>)

  /** A node-type descriptor; `credentials` is `undefined` when the type declares none. */
  datatype NodeTypeDescription = NodeTypeDescription(
    displayName: string,
    properties: seq<Property>,
    credentials: Option<seq<CredentialDescription>>,
    subtitle: Option<string>)

  /** Locale message keys, with the values they interpolate. */
  datatype Message =
    | NotSet(nodeTypeName: string)                                  // nodeIssues.credentials.notSet
    | NotIdentified(credentialName: string, credentialType: string) // nodeIssues.credentials.notIdentified
    | NotIdentifiedHint                                             // nodeIssues.credentials.notIdentified.hint
    | DoNotExist(credentialName: string, credentialType: string)    // nodeIssues.credentials.doNotExist
    | DoNotExistHint                                                // nodeIssues.credentials.doNotExist.hint
    | Unset(credentialType: string)                                 // nodeHelpers.credentialsUnset

  /** Messages by field (parameter name or credential type name). */
  type IssueMap = map<string, seq<Message>>

  /** `INodeIssues`: an absent category is `None` / `false`. */
  datatype IssueSet = IssueSet(
    typeUnknown: bool,
    parameters: Option<IssueMap>,
    credentials: Option<IssueMap>,
    execution: bool)

  /** The empty issue object `{}`. */
  const NO_ISSUES := IssueSet(false, None, None, false)

  /** Binary attachments of one item, by binary property name. */
  type BinaryKeyData = map<string, string>

  datatype Item = Item(json: Parameters, binary: Option<BinaryKeyData>)

  /** `ITaskDataConnections`: the `main` outputs, each a list of items or `null`. */
  datatype Connections = Connections(main: Option<seq<Option<seq<Item>>>>)

  /** One run of a node: its error, if any, and its output data, if any. */
  datatype TaskData = TaskData(error: Option<string>, data: Option<Connections>)

  /** `IRunData`: the runs of every node that ran, by node name. */
  type RunData = map<string, seq<TaskData>>

  /**
   * What the helpers read from the editor's stores and from code outside
   * this file: the node-type registry, the credential-type catalog (name to
   * display name), the stored credentials per type, the current user's
   * "use" permission and owner flag, the credentials used by the workflow,
   * the pinned node names, the display rule for a credential field, and the
   * parameter validator and issue merge of the workflow library.
   */
  datatype Context = Context(
    nodeTypes: map<(string, int), NodeTypeDescription>,
    credentialTypes: map<string, string>,
    storedCredentials: map<string, seq<StoredCredential>>,
    canUse: StoredCredential -> bool,
    isInstanceOwner: bool,
    usedCredentials: set<string>,
    pinned: set<string>,
    displayCredential: (Node, CredentialDescription) -> bool,
    parameterIssues: (seq<Property>, Node) -> Option<IssueSet>,
    mergeIssues: (IssueSet, Option<IssueSet>) -> IssueSet)

  /** The registry's descriptor for the node's type and version, if known. */
  function NodeTypeOf(ctx: Context, node: Node): Option<NodeTypeDescription> {
    var key := (node.nodeType, node.typeVersion);
    if key in ctx.nodeTypes then Some(ctx.nodeTypes[key]) else None
  }

  /** All stored credentials of one credential type (an empty list for an unknown type). */
  function StoredOf(ctx: Context, credentialType: string): seq<StoredCredential> {
    if credentialType in ctx.storedCredentials then ctx.storedCredentials[credentialType] else []
  }

  /** The display name of a credential type, falling back to its name when the catalog lacks it. */
  function CredentialDisplayName(ctx: Context, credentialType: string): string {
    if credentialType in ctx.credentialTypes then ctx.credentialTypes[credentialType] else credentialType
  }

  /** The value of a node parameter, `None` when it is undefined. */
  function Param(node: Node, key: string): Option<string> {
    if key in node.parameters then Some(node.parameters[key]) else None
  }

  /** `Array.prototype.filter`: the elements satisfying `p`, in order. */
  function Filter<T(==,!new)>(s: seq<T>, p: T -> bool): (r: seq<T>)
    ensures |r| <= |s|
    ensures forall x :: x in r <==> x in s && p(x)
    decreases |s|
  {
    if s == [] then [] else (if p(s[0]) then [s[0]] else []) + Filter(s[1..], p)
  }

  /** Filtering keeps every copy of an element that satisfies `p` and no copy of one that does not. */
  lemma {:induction false} FilterCounts<T(!new)>(s: seq<T>, p: T -> bool, x: T)
    ensures multiset(Filter(s, p))[x] == if p(x) then multiset(s)[x] else 0
    decreases |s|
  {
    if s != [] {
      assert s == [s[0]] + s[1..];
      FilterCounts(s[1..], p, x);
    }
  }

  /** Filtering distributes over concatenation, so the kept elements stay in their order. */
  lemma {:induction false} FilterAppend<T(!new)>(a: seq<T>, b: seq<T>, p: T -> bool)
    ensures Filter(a + b, p) == Filter(a, p) + Filter(b, p)
    decreases |a|
  {
    if a == [] {
      assert a + b == b;
    } else {
      var head := if p(a[0]) then [a[0]] else [];
      FilterUnfold(a + b, p);
      assert (a + b)[1..] == a[1..] + b;
      FilterAppend(a[1..], b, p);
      FilterUnfold(a, p);
      ConcatAssoc(head, Filter(a[1..], p), Filter(b, p));
    }
  }

  /** One step of `Filter` on a non-empty list. */
  lemma FilterUnfold<T(!new)>(s: seq<T>, p: T -> bool)
    requires s != []
    ensures Filter(s, p) == (if p(s[0]) then [s[0]] else []) + Filter(s[1..], p)
  {
  }

  /** Concatenation is associative. */
  lemma ConcatAssoc<T>(x: seq<T>, y: seq<T>, z: seq<T>)
    ensures x + (y + z) == (x + y) + z
  {
  }

  /** Two distinct positions satisfying `p` leave at least two elements after filtering. */
  lemma {:induction false} FilterKeepsTwo<T(!new)>(s: seq<T>, p: T -> bool, i: nat, j: nat)
    requires i < j < |s| && p(s[i]) && p(s[j])
    ensures |Filter(s, p)| >= 2
  {
    if i == 0 {
      assert s[j] in s[1..];
      assert s[j] in Filter(s[1..], p);
    } else {
      FilterKeepsTwo(s[1..], p, i - 1, j - 1);
    }
  }

  /** Nothing is left when no element satisfies `p`. */
  lemma {:induction false} FilterNone<T(!new)>(s: seq<T>, p: T -> bool)
    requires forall x :: x in s ==> !p(x)
    ensures Filter(s, p) == []
  {
    if s != [] {
      assert s[0] in s;
      assert forall x :: x in s[1..] ==> x in s;
      FilterNone(s[1..], p);
    }
  }
}
