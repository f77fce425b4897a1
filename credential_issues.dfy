/**
 * The credential validator of a workflow node (`getNodeCredentialIssues` and
 * its helpers): three authentication short-circuits, then one check per
 * declared credential type, collected into a map from credential type name
 * to messages that is reported as `null` when it stays empty.
 */
module CredentialIssues {
  import opened Wrappers
  import opened NodeData

  const GENERIC_CREDENTIAL_TYPE := "genericCredentialType"
  const PREDEFINED_CREDENTIAL_TYPE := "predefinedCredentialType"

  /** `hasProxyAuth`: the node has a `nodeCredentialType` parameter. */
  function HasProxyAuth(node: Node): (b: bool)
    ensures b <==> Param(node, "nodeCredentialType").Some?
  {
    "nodeCredentialType" in node.parameters
  }

  /** `node.credentials?.[type]` is truthy: an object always is, a legacy name unless it is empty. */
  predicate IsSet(sel: CredentialSelection) {
    sel.Details? || sel.name != ""
  }

  /** The node's selection for a credential type, when it is set. */
  function SelectionOf(node: Node, credentialType: string): Option<CredentialSelection> {
    if node.credentials.Some? && credentialType in node.credentials.value
       && IsSet(node.credentials.value[credentialType])
    then Some(node.credentials.value[credentialType])
    else None
  }

  /** A legacy bare name is read as `{id: null, name}`; a details selection is kept. */
  function Normalize(sel: CredentialSelection): (r: CredentialSelection)
    ensures r.Details? && r.name == sel.name
    ensures sel.BareName? ==> r.id.None?
    ensures sel.Details? ==> r == sel
  {
    match sel
    case Details(_, _) => sel
    case BareName(name) => Details(None, name)
  }

  /** The first credential with the given id (`find` on `id ===`). */
  function FindById(creds: seq<StoredCredential>, id: string): (r: Option<StoredCredential>)
    ensures r.Some? ==> r.value in creds && r.value.id == id
    ensures r.None? <==> forall c :: c in creds ==> c.id != id
  {
    if creds == [] then None
    else if creds[0].id == id then Some(creds[0])
    else
      assert forall c :: c in creds ==> c == creds[0] || c in creds[1..];
      FindById(creds[1..], id)
  }

  /** `selectedCredsAreUnusable`: the node has no selections, or none under this type. */
  function SelectedCredsAreUnusable(node: Node, credentialType: string): (b: bool)
    ensures b ==> SelectionOf(node, credentialType).None?
  {
    node.credentials.None? || credentialType !in node.credentials.value
  }

  /**
   * `selectedCredsDoNotExist`: a set selection of this type whose id no
   * stored credential carries; a legacy name or an id-less selection
   * therefore never matches.
   */
  function SelectedCredsDoNotExist(node: Node, credentialType: string, stored: seq<StoredCredential>): (b: bool)
    ensures b <==> SelectionOf(node, credentialType).Some?
                   && forall c :: c in stored ==> Some(c.id) != Normalize(SelectionOf(node, credentialType).value).id
  {
    match SelectionOf(node, credentialType)
    case None => false
    case Some(sel) =>
      var id := Normalize(sel).id;
      id.None? || FindById(stored, id.value).None?
  }

  /** `reportUnsetCredential`: a single "credentials unset" entry under the type's name. */
  function ReportUnsetCredential(ctx: Context, credentialType: string): (r: IssueSet)
    ensures !r.typeUnknown && r.parameters.None? && !r.execution && r.credentials.Some?
    ensures r.credentials.value.Keys == {credentialType}
    ensures r.credentials.value[credentialType] == [Unset(CredentialDisplayName(ctx, credentialType))]
  {
    IssueSet(false, None, Some(map[credentialType := [Unset(CredentialDisplayName(ctx, credentialType))]]), false)
  }

  /**
   * The credential type that one of the three authentication short-circuits
   * reports as unset, in the order the validator tries them; `None` when
   * none fires and the per-type loop runs.
   */
  function AuthShortCircuit(ctx: Context, node: Node): Option<string> {
    var authentication := Param(node, "authentication");
    var genericAuthType := Param(node, "genericAuthType");
    var nodeCredentialType := Param(node, "nodeCredentialType");
    if authentication == Some(GENERIC_CREDENTIAL_TYPE) && genericAuthType.Some?
       && genericAuthType.value != "" && SelectedCredsAreUnusable(node, genericAuthType.value)
    then genericAuthType
    else if HasProxyAuth(node) && authentication == Some(PREDEFINED_CREDENTIAL_TYPE)
       && nodeCredentialType.value != "" && node.credentials.Some?
       && SelectedCredsDoNotExist(node, nodeCredentialType.value, StoredOf(ctx, nodeCredentialType.value))
    then nodeCredentialType
    else if HasProxyAuth(node) && authentication == Some(PREDEFINED_CREDENTIAL_TYPE)
       && nodeCredentialType.value != "" && SelectedCredsAreUnusable(node, nodeCredentialType.value)
    then nodeCredentialType
    else None
  }

  /** The stored credentials of a type that the current user may use. */
  function UsableOf(ctx: Context, credentialType: string): seq<StoredCredential> {
    Filter(StoredOf(ctx, credentialType), ctx.canUse)
  }

  /** The selection's id is truthy and some credential carries it. */
  predicate IdMatches(creds: seq<StoredCredential>, id: Option<string>) {
    id.Some? && id.value != "" && FindById(creds, id.value).Some?
  }

  /** The credentials whose name is the given one. */
  function NameMatches(creds: seq<StoredCredential>, name: string): seq<StoredCredential> {
    Filter(creds, (c: StoredCredential) => c.name == name)
  }

  /** The key `usedCredentials[id]` reads: a `null` id becomes the property name "null". */
  function UsedKey(id: Option<string>): string {
    if id.Some? then id.value else "null"
  }

  /** The check of a set selection against the credentials of its type the user may use. */
  function MatchSelection(ctx: Context, credentialType: string, sel: CredentialSelection): Option<seq<Message>> {
    var selected := Normalize(sel);
    var usable := UsableOf(ctx, credentialType);
    if IdMatches(usable, selected.id) then None
    else
      var nameMatches := NameMatches(usable, selected.name);
      var display := CredentialDisplayName(ctx, credentialType);
      if |nameMatches| > 1 then
        Some([NotIdentified(selected.name, display), NotIdentifiedHint])
      else if |nameMatches| == 0 && UsedKey(selected.id) !in ctx.usedCredentials && !ctx.isInstanceOwner then
        Some([DoNotExist(selected.name, display), DoNotExistHint])
      else
        None
  }

  /** The entry one declared credential type contributes, `None` when it contributes none. */
  function DescriptorIssue(ctx: Context, nodeType: NodeTypeDescription, node: Node, d: CredentialDescription)
    : Option<seq<Message>>
  {
    if !ctx.displayCredential(node, d) then None
    else match SelectionOf(node, d.name)
      case None => if d.required then Some([NotSet(nodeType.displayName)]) else None
      case Some(sel) => MatchSelection(ctx, d.name, sel)
  }

  /** The `foundIssues` map after the loop has visited `descs` in order. */
  function FoldIssues(ctx: Context, nodeType: NodeTypeDescription, node: Node, descs: seq<CredentialDescription>)
    : IssueMap
    decreases |descs|
  {
    if descs == [] then map[]
    else
      var found := FoldIssues(ctx, nodeType, node, descs[..|descs| - 1]);
      var d := descs[|descs| - 1];
      match DescriptorIssue(ctx, nodeType, node, d)
      case None => found
      case Some(messages) => found[d.name := messages]
  }

  /** One more iteration of the loop adds the entry of the next declared type, if it has one. */
  lemma FoldStep(ctx: Context, nodeType: NodeTypeDescription, node: Node, descs: seq<CredentialDescription>, i: nat)
    requires i < |descs|
    ensures FoldIssues(ctx, nodeType, node, descs[..i + 1])
         == match DescriptorIssue(ctx, nodeType, node, descs[i])
            case None => FoldIssues(ctx, nodeType, node, descs[..i])
            case Some(messages) => FoldIssues(ctx, nodeType, node, descs[..i])[descs[i].name := messages]
  {
    assert descs[..i + 1][..i] == descs[..i];
  }

  /**
   * The credential issues of a node. `given` is the descriptor the caller
   * passes; when it is absent the registry is asked.
   */
  function CredentialIssues(ctx: Context, node: Node, given: Option<NodeTypeDescription>): (r: Option<IssueSet>)
    ensures node.disabled ==> r.None?
    ensures r.Some? ==>
              && r.value.credentials.Some? && r.value.credentials.value != map[]
              && !r.value.typeUnknown && r.value.parameters.None? && !r.value.execution
  {
    if node.disabled then None
    else
      var nodeType := if given.Some? then given else NodeTypeOf(ctx, node);
      if nodeType.None? || nodeType.value.credentials.None? then None
      else match AuthShortCircuit(ctx, node)
        case Some(t) => Some(ReportUnsetCredential(ctx, t))
        case None =>
          var found := FoldIssues(ctx, nodeType.value, node, nodeType.value.credentials.value);
          if |found| == 0 then None else Some(IssueSet(false, None, Some(found), false))
  }

  /** `getNodeCredentialIssues`: the validator as the editor runs it, one declared type per iteration. */
  method GetNodeCredentialIssues(ctx: Context, node: Node, given: Option<NodeTypeDescription>)
    returns (r: Option<IssueSet>)
    ensures r == CredentialIssues(ctx, node, given)
  {
    if node.disabled {
      return None;
    }
    var nodeType := given;
    if nodeType.None? {
      nodeType := NodeTypeOf(ctx, node);
    }
    if nodeType.None? || nodeType.value.credentials.None? {
      return None;
    }

    var authentication := Param(node, "authentication");
    var genericAuthType := Param(node, "genericAuthType");
    var nodeCredentialType := Param(node, "nodeCredentialType");
    if authentication == Some(GENERIC_CREDENTIAL_TYPE) && genericAuthType.Some?
       && genericAuthType.value != "" && SelectedCredsAreUnusable(node, genericAuthType.value)
    {
      return Some(ReportUnsetCredential(ctx, genericAuthType.value));
    }
    if HasProxyAuth(node) && authentication == Some(PREDEFINED_CREDENTIAL_TYPE)
       && nodeCredentialType.value != "" && node.credentials.Some?
    {
      var stored := StoredOf(ctx, nodeCredentialType.value);
      if SelectedCredsDoNotExist(node, nodeCredentialType.value, stored) {
        return Some(ReportUnsetCredential(ctx, nodeCredentialType.value));
      }
    }
    if HasProxyAuth(node) && authentication == Some(PREDEFINED_CREDENTIAL_TYPE)
       && nodeCredentialType.value != "" && SelectedCredsAreUnusable(node, nodeCredentialType.value)
    {
      return Some(ReportUnsetCredential(ctx, nodeCredentialType.value));
    }

    var descs := nodeType.value.credentials.value;
    var foundIssues: IssueMap := map[];
    for i := 0 to |descs|
      invariant foundIssues == FoldIssues(ctx, nodeType.value, node, descs[..i])
    {
      var d := descs[i];
      FoldStep(ctx, nodeType.value, node, descs, i);
      if !ctx.displayCredential(node, d) {
        continue;
      }
      var credentialDisplayName := CredentialDisplayName(ctx, d.name);
      var selection := SelectionOf(node, d.name);
      if selection.None? {
        if d.required {
          foundIssues := foundIssues[d.name := [NotSet(nodeType.value.displayName)]];
        }
      } else {
        var selected := Normalize(selection.value);
        var userCredentials := UsableOf(ctx, d.name);
        if selected.id.Some? && selected.id.value != "" {
          var idMatch := FindById(userCredentials, selected.id.value);
          if idMatch.Some? {
            continue;
          }
        }
        var nameMatches := NameMatches(userCredentials, selected.name);
        if |nameMatches| > 1 {
          foundIssues := foundIssues[d.name := [NotIdentified(selected.name, credentialDisplayName), NotIdentifiedHint]];
          continue;
        }
        if |nameMatches| == 0 {
          var isCredentialUsedInWorkflow := UsedKey(selected.id) in ctx.usedCredentials;
          if !isCredentialUsedInWorkflow && !ctx.isInstanceOwner {
            foundIssues := foundIssues[d.name := [DoNotExist(selected.name, credentialDisplayName), DoNotExistHint]];
          }
        }
      }
    }
    assert descs[..|descs|] == descs;

    if |foundIssues| == 0 {
      return None;
    }
    return Some(IssueSet(false, None, Some(foundIssues), false));
  }

  // ---------------------------------------------------------------------
  // Properties of the validator

  /** Declared credential types carry distinct names. */
  predicate NamesUnique(descs: seq<CredentialDescription>) {
    forall i, j :: 0 <= i < j < |descs| ==> descs[i].name != descs[j].name
  }

  function Lookup(m: IssueMap, key: string): Option<seq<Message>> {
    if key in m then Some(m[key]) else None
  }

  /** The messages a validator result holds for one credential type. */
  function EntryFor(r: Option<IssueSet>, credentialType: string): Option<seq<Message>> {
    if r.Some? && r.value.credentials.Some? then Lookup(r.value.credentials.value, credentialType) else None
  }

  /** A type has an entry after the loop exactly when some declared type of that name produced one. */
  lemma {:induction false} FoldKeys(
    ctx: Context, nodeType: NodeTypeDescription, node: Node, descs: seq<CredentialDescription>, key: string)
    ensures key in FoldIssues(ctx, nodeType, node, descs)
        <==> exists i :: 0 <= i < |descs| && descs[i].name == key
                         && DescriptorIssue(ctx, nodeType, node, descs[i]).Some?
    decreases |descs|
  {
    if descs != [] {
      var n := |descs| - 1;
      var prefix := descs[..n];
      FoldKeys(ctx, nodeType, node, prefix, key);
      if key in FoldIssues(ctx, nodeType, node, descs) {
        if key !in FoldIssues(ctx, nodeType, node, prefix) {
          assert descs[n].name == key && DescriptorIssue(ctx, nodeType, node, descs[n]).Some?;
        } else {
          var i :| 0 <= i < |prefix| && prefix[i].name == key
                   && DescriptorIssue(ctx, nodeType, node, prefix[i]).Some?;
          assert descs[i] == prefix[i];
        }
      } else {
        forall i | 0 <= i < |descs| && descs[i].name == key
          ensures DescriptorIssue(ctx, nodeType, node, descs[i]).None?
        {
          if i < n {
            assert prefix[i] == descs[i];
          }
        }
      }
    }
  }

  /** With distinct names, a declared type's entry after the loop is exactly the one it produced. */
  lemma {:induction false} FoldEntry(
    ctx: Context, nodeType: NodeTypeDescription, node: Node, descs: seq<CredentialDescription>, i: nat)
    requires NamesUnique(descs) && i < |descs|
    ensures Lookup(FoldIssues(ctx, nodeType, node, descs), descs[i].name)
         == DescriptorIssue(ctx, nodeType, node, descs[i])
    decreases |descs|
  {
    var n := |descs| - 1;
    var prefix := descs[..n];
    assert NamesUnique(prefix) by {
      forall a, b | 0 <= a < b < |prefix| ensures prefix[a].name != prefix[b].name {
        assert prefix[a] == descs[a] && prefix[b] == descs[b];
      }
    }
    if i == n {
      if DescriptorIssue(ctx, nodeType, node, descs[n]).None? {
        FoldKeys(ctx, nodeType, node, prefix, descs[n].name);
      }
    } else {
      assert prefix[i] == descs[i];
      FoldEntry(ctx, nodeType, node, prefix, i);
      assert descs[n].name != descs[i].name;
    }
  }

  /** The ordinary path: an enabled node, a known type with declared credentials, no short-circuit. */
  predicate LoopDecides(ctx: Context, node: Node, nodeType: NodeTypeDescription) {
    && !node.disabled
    && nodeType.credentials.Some?
    && AuthShortCircuit(ctx, node).None?
  }

  /**
   * The validator reports `null` for a type without declared credentials;
   * otherwise every entry is keyed by the short-circuit's type or by a
   * declared type that is displayed.
   */
  lemma CredentialIssuesShape(ctx: Context, node: Node, given: Option<NodeTypeDescription>)
    ensures var r := CredentialIssues(ctx, node, given);
            var nodeType := if given.Some? then given else NodeTypeOf(ctx, node);
            && (nodeType.None? || nodeType.value.credentials.None? ==> r.None?)
            && (r.Some? ==>
                  && nodeType.Some? && nodeType.value.credentials.Some?
                  && (AuthShortCircuit(ctx, node).Some? ==>
                        r.value.credentials.value.Keys == {AuthShortCircuit(ctx, node).value})
                  && (AuthShortCircuit(ctx, node).None? ==>
                        forall key :: key in r.value.credentials.value ==>
                          exists d :: d in nodeType.value.credentials.value && d.name == key
                                      && ctx.displayCredential(node, d)))
  {
    var r := CredentialIssues(ctx, node, given);
    var nodeType := if given.Some? then given else NodeTypeOf(ctx, node);
    if r.Some? && AuthShortCircuit(ctx, node).Some? {
      var t := AuthShortCircuit(ctx, node).value;
      assert t in r.value.credentials.value;
    }
    if r.Some? && AuthShortCircuit(ctx, node).None? {
      var found := r.value.credentials.value;
      assert |found| != 0;
      var descs := nodeType.value.credentials.value;
      forall key | key in r.value.credentials.value
        ensures exists d :: d in descs && d.name == key && ctx.displayCredential(node, d)
      {
        FoldKeys(ctx, nodeType.value, node, descs, key);
        var i :| 0 <= i < |descs| && descs[i].name == key
                 && DescriptorIssue(ctx, nodeType.value, node, descs[i]).Some?;
        assert descs[i] in descs;
      }
    }
  }

  /**
   * Each short-circuit stops the validator with one "unset" entry keyed by
   * the type it names: generic auth whose type has no selection, then proxy
   * auth whose selection no stored credential matches by id, then proxy auth
   * with no selection of that type. An empty declared list still reaches them.
   */
  lemma AuthShortCircuitReportsUnset(ctx: Context, node: Node, nodeType: NodeTypeDescription, t: string)
    requires !node.disabled && nodeType.credentials.Some?
    requires
      || (Param(node, "authentication") == Some(GENERIC_CREDENTIAL_TYPE)
          && Param(node, "genericAuthType") == Some(t) && t != ""
          && SelectedCredsAreUnusable(node, t))
      || (Param(node, "authentication") != Some(GENERIC_CREDENTIAL_TYPE)
          && Param(node, "authentication") == Some(PREDEFINED_CREDENTIAL_TYPE)
          && Param(node, "nodeCredentialType") == Some(t) && t != ""
          && (SelectedCredsDoNotExist(node, t, StoredOf(ctx, t)) || SelectedCredsAreUnusable(node, t)))
    ensures CredentialIssues(ctx, node, Some(nodeType))
         == Some(IssueSet(false, None, Some(map[t := [Unset(CredentialDisplayName(ctx, t))]]), false))
  {
  }

  /** Without proxy authentication only the generic short-circuit can fire, and it names `genericAuthType`. */
  lemma WithoutProxyAuthOnlyGeneric(ctx: Context, node: Node)
    ensures !HasProxyAuth(node) && AuthShortCircuit(ctx, node).Some? ==>
              Param(node, "authentication") == Some(GENERIC_CREDENTIAL_TYPE)
              && AuthShortCircuit(ctx, node) == Param(node, "genericAuthType")
  {
  }

  /** A node with no selection of the type has nothing that could be missing from the store. */
  lemma UnusableIsNotMissing(node: Node, credentialType: string, stored: seq<StoredCredential>)
    requires SelectedCredsAreUnusable(node, credentialType)
    ensures !SelectedCredsDoNotExist(node, credentialType, stored)
  {
  }

  /** On the ordinary path a declared type's entry is the one its own check produces. */
  lemma EntryIsDescriptorIssue(ctx: Context, node: Node, nodeType: NodeTypeDescription, d: CredentialDescription)
    requires LoopDecides(ctx, node, nodeType)
    requires NamesUnique(nodeType.credentials.value) && d in nodeType.credentials.value
    ensures EntryFor(CredentialIssues(ctx, node, Some(nodeType)), d.name)
         == DescriptorIssue(ctx, nodeType, node, d)
  {
    var descs := nodeType.credentials.value;
    var i :| 0 <= i < |descs| && descs[i] == d;
    FoldEntry(ctx, nodeType, node, descs, i);
  }

  /** A declared type whose display condition is false never gets an entry. */
  lemma HiddenTypeHasNoEntry(ctx: Context, node: Node, nodeType: NodeTypeDescription, d: CredentialDescription)
    requires LoopDecides(ctx, node, nodeType)
    requires NamesUnique(nodeType.credentials.value) && d in nodeType.credentials.value
    requires !ctx.displayCredential(node, d)
    ensures EntryFor(CredentialIssues(ctx, node, Some(nodeType)), d.name).None?
  {
    EntryIsDescriptorIssue(ctx, node, nodeType, d);
  }

  /** A shown type without a selection: one "not set" message if required, nothing if optional. */
  lemma MissingSelection(ctx: Context, node: Node, nodeType: NodeTypeDescription, d: CredentialDescription)
    requires LoopDecides(ctx, node, nodeType)
    requires NamesUnique(nodeType.credentials.value) && d in nodeType.credentials.value
    requires ctx.displayCredential(node, d) && SelectionOf(node, d.name).None?
    ensures EntryFor(CredentialIssues(ctx, node, Some(nodeType)), d.name)
         == if d.required then Some([NotSet(nodeType.displayName)]) else None
  {
    EntryIsDescriptorIssue(ctx, node, nodeType, d);
  }

  /** A selection whose id a usable credential carries is accepted, whatever names the credentials share. */
  lemma IdMatchAccepted(
    ctx: Context, node: Node, nodeType: NodeTypeDescription, d: CredentialDescription, sel: CredentialSelection,
    c: StoredCredential)
    requires LoopDecides(ctx, node, nodeType)
    requires NamesUnique(nodeType.credentials.value) && d in nodeType.credentials.value
    requires ctx.displayCredential(node, d) && SelectionOf(node, d.name) == Some(sel)
    requires sel.Details? && sel.id == Some(c.id) && c.id != ""
    requires c in StoredOf(ctx, d.name) && ctx.canUse(c)
    ensures EntryFor(CredentialIssues(ctx, node, Some(nodeType)), d.name).None?
  {
    EntryIsDescriptorIssue(ctx, node, nodeType, d);
    assert c in UsableOf(ctx, d.name);
  }

  /** Without an id match, exactly one usable credential of the selected name is accepted. */
  lemma SingleNameMatchAccepted(
    ctx: Context, node: Node, nodeType: NodeTypeDescription, d: CredentialDescription, sel: CredentialSelection)
    requires LoopDecides(ctx, node, nodeType)
    requires NamesUnique(nodeType.credentials.value) && d in nodeType.credentials.value
    requires ctx.displayCredential(node, d) && SelectionOf(node, d.name) == Some(sel)
    requires |NameMatches(UsableOf(ctx, d.name), sel.name)| == 1
    ensures EntryFor(CredentialIssues(ctx, node, Some(nodeType)), d.name).None?
  {
    EntryIsDescriptorIssue(ctx, node, nodeType, d);
  }

  /** No usable credential carries the selection's id (a legacy or id-less selection never matches). */
  predicate NoIdMatch(ctx: Context, credentialType: string, sel: CredentialSelection) {
    forall c :: c in StoredOf(ctx, credentialType) && ctx.canUse(c) ==> Some(c.id) != Normalize(sel).id
  }

  /**
   * Two usable credentials of the selected name and no id match: the entry
   * is the "not identified" detail and its hint.
   */
  lemma AmbiguousNameReported(
    ctx: Context, node: Node, nodeType: NodeTypeDescription, d: CredentialDescription, sel: CredentialSelection,
    i: nat, j: nat)
    requires LoopDecides(ctx, node, nodeType)
    requires NamesUnique(nodeType.credentials.value) && d in nodeType.credentials.value
    requires ctx.displayCredential(node, d) && SelectionOf(node, d.name) == Some(sel)
    requires NoIdMatch(ctx, d.name, sel)
    requires i < j < |StoredOf(ctx, d.name)|
    requires ctx.canUse(StoredOf(ctx, d.name)[i]) && StoredOf(ctx, d.name)[i].name == sel.name
    requires ctx.canUse(StoredOf(ctx, d.name)[j]) && StoredOf(ctx, d.name)[j].name == sel.name
    ensures EntryFor(CredentialIssues(ctx, node, Some(nodeType)), d.name)
         == Some([NotIdentified(sel.name, CredentialDisplayName(ctx, d.name)), NotIdentifiedHint])
  {
    EntryIsDescriptorIssue(ctx, node, nodeType, d);
    var usable := UsableOf(ctx, d.name);
    assert !IdMatches(usable, Normalize(sel).id);
    FilterOfFilterKeepsTwo(StoredOf(ctx, d.name), ctx.canUse, (c: StoredCredential) => c.name == sel.name, i, j);
  }

  /**
   * No usable credential of the selected name and no id match: "does not
   * exist" with its hint, unless the user owns the instance or the workflow
   * already uses that credential id.
   */
  lemma MissingCredentialReported(
    ctx: Context, node: Node, nodeType: NodeTypeDescription, d: CredentialDescription, sel: CredentialSelection)
    requires LoopDecides(ctx, node, nodeType)
    requires NamesUnique(nodeType.credentials.value) && d in nodeType.credentials.value
    requires ctx.displayCredential(node, d) && SelectionOf(node, d.name) == Some(sel)
    requires NoIdMatch(ctx, d.name, sel)
    requires forall c :: c in StoredOf(ctx, d.name) && ctx.canUse(c) ==> c.name != sel.name
    ensures EntryFor(CredentialIssues(ctx, node, Some(nodeType)), d.name)
         == if ctx.isInstanceOwner || UsedKey(Normalize(sel).id) in ctx.usedCredentials then None
            else Some([DoNotExist(sel.name, CredentialDisplayName(ctx, d.name)), DoNotExistHint])
  {
    EntryIsDescriptorIssue(ctx, node, nodeType, d);
    assert !IdMatches(UsableOf(ctx, d.name), Normalize(sel).id);
    FilterNone(UsableOf(ctx, d.name), (c: StoredCredential) => c.name == sel.name);
  }

  /** A legacy bare name is checked exactly as `{id: null, name}`. */
  lemma BareNameIsIdlessDetails(ctx: Context, credentialType: string, name: string)
    ensures MatchSelection(ctx, credentialType, BareName(name))
         == MatchSelection(ctx, credentialType, Details(None, name))
  {
  }

  /** Filtering by `p` then by `q` keeps two positions that satisfy both. */
  lemma {:induction false} FilterOfFilterKeepsTwo(
    s: seq<StoredCredential>, p: StoredCredential -> bool, q: StoredCredential -> bool, i: nat, j: nat)
    requires i < j < |s| && p(s[i]) && q(s[i]) && p(s[j]) && q(s[j])
    ensures |Filter(Filter(s, p), q)| >= 2
  {
    var tail := Filter(s[1..], p);
    if i == 0 {
      assert Filter(s, p) == [s[0]] + tail;
      assert ([s[0]] + tail)[1..] == tail;
      assert s[j] in s[1..];
      assert s[j] in Filter(tail, q);
    } else {
      FilterOfFilterKeepsTwo(s[1..], p, q, i - 1, j - 1);
      if p(s[0]) {
        assert Filter(s, p) == [s[0]] + tail;
        assert ([s[0]] + tail)[1..] == tail;
      } else {
        assert Filter(s, p) == tail;
      }
    }
  }
}
