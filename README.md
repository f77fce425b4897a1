# nodeHelpers — a Dafny model of the n8n editor's node helpers

This project models the editor-side helper mixin `nodeHelpers` of the n8n
workflow editor (`packages/editor-ui/src/mixins/nodeHelpers.ts`). It covers
these helpers:

- the issue checks: the whole-node check, the execution-error test, the credential validator and its two selection predicates;
- the write-back of those issues into the workflow store;
- the run-data slicing used to show a node's input and binary attachments;
- the bulk enable/disable toggle with its undo grouping and telemetry;
- the canvas subtitle;
- the two small parameter tests (proxy authentication, custom API call).

The shared data model is in `node_data.dfy`. It holds nodes, credential selections, node type descriptions, issue sets, run data, and a `Context`. The `Context` collects what the mixin reads from the stores:

- the node type registry;
- the credential type catalog;
- the stored credentials;
- the use-permission test;
- the instance-owner flag;
- the credential ids used in the workflow;
- the pinned node names;
- the display condition for credential fields;
- the parameter validator and the issue merge of the `n8n-workflow` library.

Each of these is a value or a function parameter, so every check is a pure function of the context and its inputs.

The modules:

- `CredentialIssues` (`credential_issues.dfy`): `getNodeCredentialIssues`.
  - The specification function `CredentialIssues` is the three authentication short-circuits followed by a fold over the declared credential types.
  - The method `GetNodeCredentialIssues` is the source's loop with its `continue`s, proved equal to that function.
  - Lemmas state what each declared type contributes: nothing when it is hidden or matched by id or by a single name, "not set" when a required one has no selection, "not identified" for an ambiguous name, and "does not exist" for a missing credential unless the user owns the instance or the workflow already uses it.
- `NodeIssues` (`node_issues.dfy`): `getNodeIssues` and `hasNodeExecutionIssues`, as methods with the source's control flow.
- `RunData` (`run_data.dfy`): `getMainInputData`, `getNodeInputData` and `getBinaryData`. Each of the three is modelled both as written and with the corrected guards; see "Findings".
- `Subtitle` (`subtitle.dfy`): `getNodeSubtitle`. The expression engine is a parameter that either yields a value or fails.
- `ParameterChecks` (`parameter_checks.dfy`): `isCustomApiCallSelected`, with JavaScript's `String.prototype.includes` defined by recursion and proved equal to "occurs at some index". `hasProxyAuth` is `CredentialIssues.HasProxyAuth`, next to the short-circuits that use it.
- `WorkflowStore` (`workflow_store.dfy`): a `Store` class for the workflow store that the mixin writes to.
  - The fields are the node records, the per-node issue sets, the run data, and an event log of the history and telemetry calls.
  - Its methods are the `update*Issues` routines and `disableNodes`.
  - `DisableNodes` is specified by functions of the old state: `Toggled`, `Cleared`, `Bracketed(ToggleEvents(..))` and `RefreshedSlots`.
  - Lemmas about those functions give the undo bracketing, the telemetry and undo-command counts, and the parity of a node listed several times.

## Model

| member | source | states |
|---|---|---|
| CredentialIssues.Normalize | packages/editor-ui/src/mixins/nodeHelpers.ts:315-323 | a legacy string selection is read as a details selection with a null id and the same name; a details selection is kept |
| CredentialIssues.FindById | packages/editor-ui/src/mixins/nodeHelpers.ts:339-341 | the result is a credential of the list carrying the id, and it is absent exactly when no credential carries the id |
| CredentialIssues.HasProxyAuth | packages/editor-ui/src/mixins/nodeHelpers.ts:57-59 | proxy authentication is on exactly when the `nodeCredentialType` parameter is defined |
| CredentialIssues.WithoutProxyAuthOnlyGeneric | packages/editor-ui/src/mixins/nodeHelpers.ts:255-286 | without proxy authentication, only the generic short-circuit can fire, and it reports `genericAuthType` |
| CredentialIssues.SelectedCredsAreUnusable | packages/editor-ui/src/mixins/nodeHelpers.ts:577-579 | when it holds, the node has no set selection of the type |
| CredentialIssues.SelectedCredsDoNotExist | packages/editor-ui/src/mixins/nodeHelpers.ts:585-597 | holds exactly when the node has a set selection of the type and no stored credential has its id |
| CredentialIssues.ReportUnsetCredential | packages/editor-ui/src/mixins/nodeHelpers.ts:157-169 | an issue set with only the `credentials` category, keyed by the type's name alone, holding one "unset" message with the type's display name |
| CredentialIssues.UnusableIsNotMissing | packages/editor-ui/src/mixins/nodeHelpers.ts:577-597 | a node without a selection of the type is never reported as selecting a missing credential of that type |
| CredentialIssues.GetNodeCredentialIssues | packages/editor-ui/src/mixins/nodeHelpers.ts:230-384 | the loop over the declared credential types, with its early exits and `continue`s, returns exactly the specification `CredentialIssues` |
| CredentialIssues.CredentialIssues | packages/editor-ui/src/mixins/nodeHelpers.ts:230-384 | null for a disabled node; any result has only the `credentials` category set, and it is never an empty map |
| CredentialIssues.CredentialIssuesShape | packages/editor-ui/src/mixins/nodeHelpers.ts:230-243 | null for a type without declared credentials; every key is either the short-circuit's type or a displayed declared type |
| CredentialIssues.AuthShortCircuitReportsUnset | packages/editor-ui/src/mixins/nodeHelpers.ts:255-286 | generic auth without a selection of its type, proxy auth whose selection has no stored id match, or proxy auth without a selection: the result is the single "unset" entry for that type, even when the declared list is empty |
| CredentialIssues.FoldKeys | packages/editor-ui/src/mixins/nodeHelpers.ts:288-374 | after the loop a type has an entry exactly when a declared type of that name produced one |
| CredentialIssues.FoldEntry | packages/editor-ui/src/mixins/nodeHelpers.ts:288-374 | with distinct declared names, each type's entry after the loop is exactly what its own iteration produced |
| CredentialIssues.EntryIsDescriptorIssue | packages/editor-ui/src/mixins/nodeHelpers.ts:288-374 | with distinct declared names, on the path without short-circuit, the entry the validator returns for a declared type is that type's own check |
| CredentialIssues.HiddenTypeHasNoEntry | packages/editor-ui/src/mixins/nodeHelpers.ts:289-292 | with distinct declared names, a declared type whose display condition is false never gets an entry |
| CredentialIssues.MissingSelection | packages/editor-ui/src/mixins/nodeHelpers.ts:304-312 | with distinct declared names, a displayed type without a selection gets one "not set" message naming the node type when required, and nothing when optional |
| CredentialIssues.IdMatchAccepted | packages/editor-ui/src/mixins/nodeHelpers.ts:338-345 | with distinct declared names, a selection whose id a stored, usable credential carries gets no entry |
| CredentialIssues.SingleNameMatchAccepted | packages/editor-ui/src/mixins/nodeHelpers.ts:347-360 | with distinct declared names, exactly one usable credential with the selected name gets no entry |
| CredentialIssues.AmbiguousNameReported | packages/editor-ui/src/mixins/nodeHelpers.ts:347-358 | with distinct declared names, two usable credentials with the selected name and no id match give the "not identified" message and its hint |
| CredentialIssues.MissingCredentialReported | packages/editor-ui/src/mixins/nodeHelpers.ts:360-372 | with distinct declared names, no usable credential with the selected name and no id match give "does not exist" and its hint, unless the user owns the instance or the workflow uses that credential id |
| CredentialIssues.BareNameIsIdlessDetails | packages/editor-ui/src/mixins/nodeHelpers.ts:318-323 | a legacy string selection is judged exactly like a details selection with a null id and that name |
| NodeData.Filter | packages/editor-ui/src/mixins/nodeHelpers.ts:327-332 | the filtered list is no longer than the input and holds exactly the input's elements that pass the test |
| NodeData.FilterCounts | packages/editor-ui/src/mixins/nodeHelpers.ts:327-332 | every copy of an element that passes the test is kept and no copy of one that fails, so the counts at lines 350 and 360 are the numbers of matching credentials |
| NodeData.FilterAppend | packages/editor-ui/src/mixins/nodeHelpers.ts:327-332 | filtering distributes over concatenation, so the kept elements stay in their order |
| NodeIssues.HasNodeExecutionIssues | packages/editor-ui/src/mixins/nodeHelpers.ts:141-155 | true exactly when the run data has runs for the node and one of them carries an error |
| NodeIssues.GetNodeIssues | packages/editor-ui/src/mixins/nodeHelpers.ts:88-137 | disabled or pinned nodes give null; an unknown type gives exactly `typeUnknown` (unless ignored) plus the execution flag; a known type gives the parameter and credential issues; the execution flag is set whenever a run failed and `execution` is not ignored |
| RunData.MainInputData | packages/editor-ui/src/mixins/nodeHelpers.ts:430-444 | the items of output `outputIndex`, or no items when `main` is absent, too short or the slot is null |
| RunData.MainInputDataGuardGap | packages/editor-ui/src/mixins/nodeHelpers.ts:438 | the guard as written yields `undefined` exactly at `outputIndex == main.length`, and agrees with the corrected guard everywhere else |
| RunData.MainInputDataUndefinedOnEmptyMain | packages/editor-ui/src/mixins/nodeHelpers.ts:438 | an empty `main` read at index 0 yields `undefined` as written and no items when corrected |
| RunData.NodeInputData | packages/editor-ui/src/mixins/nodeHelpers.ts:402-427 | the items of the node's run `runIndex` at output `outputIndex`, or none when the node, execution, run data, run or run data is missing |
| RunData.NodeInputDataRunIndexGap | packages/editor-ui/src/mixins/nodeHelpers.ts:417-422 | as written, the function throws exactly when the node has runs but none at `runIndex`; whenever it returns items, they are the corrected result |
| RunData.BinaryFieldsAppend | packages/editor-ui/src/mixins/nodeHelpers.ts:470-475 | collecting binaries distributes over concatenation of item lists |
| RunData.BinaryFieldsBounds | packages/editor-ui/src/mixins/nodeHelpers.ts:470-475 | at most one binary per item, and a binary is collected exactly when some item carries it |
| RunData.GetBinaryData | packages/editor-ui/src/mixins/nodeHelpers.ts:447-478 | no binaries when the node or its run's data is missing; otherwise the binaries, in item order, of the run's main output `outputIndex` (read with the corrected guard) |
| RunData.BinaryDataGap | packages/editor-ui/src/mixins/nodeHelpers.ts:466-471 | as written, `getBinaryData` throws exactly when the run's `main` has exactly `outputIndex` outputs, and otherwise returns the corrected result |
| RunData.BinaryDataThrowsPastLastOutput | packages/editor-ui/src/mixins/nodeHelpers.ts:466-471 | one output holding an item with a binary, read at output 1: as written the call throws, corrected it returns no binaries |
| Subtitle.FindProperty | packages/editor-ui/src/mixins/nodeHelpers.ts:546-550 | the first property with the name, and absent exactly when none has it |
| Subtitle.FindOption | packages/editor-ui/src/mixins/nodeHelpers.ts:559-561 | the first option with the value, and absent exactly when none has it |
| Subtitle.NodeSubtitle | packages/editor-ui/src/mixins/nodeHelpers.ts:515-569 | no data gives nothing; inline notes win; then the type's template (an evaluation failure gives nothing); then the operation's label; otherwise nothing |
| Subtitle.OperationLabelIsFirstMatch | packages/editor-ui/src/mixins/nodeHelpers.ts:540-566 | the label is the name of the first option, in the first `operation` property, whose value is the operation |
| Subtitle.OperationLabelFallback | packages/editor-ui/src/mixins/nodeHelpers.ts:540-564 | the raw operation is shown when the type is unknown, has no `operation` property, that property lists no options, or no option has the value |
| ParameterChecks.IncludesIffOccurs | packages/editor-ui/src/mixins/nodeHelpers.ts:66-67 | `includes` holds exactly when the text occurs at some index |
| ParameterChecks.IsCustomApiCallSelected | packages/editor-ui/src/mixins/nodeHelpers.ts:61-70 | false when the nested parameters are not an object, and false when neither `resource` nor `operation` is defined |
| ParameterChecks.CustomApiCallSelectedIff | packages/editor-ui/src/mixins/nodeHelpers.ts:61-70 | a custom API call is selected exactly when the nested parameters are an object whose `resource` or `operation` contains the custom API call key |
| ParameterChecks.ExactKeySelected | packages/editor-ui/src/mixins/nodeHelpers.ts:61-70 | a single example: an object whose `resource` or `operation` is exactly the key is recognised |
| WorkflowStore.Store.UpdateNodesExecutionIssues | packages/editor-ui/src/mixins/nodeHelpers.ts:172-182 | every node's `execution` slot becomes whether one of its runs failed; other slots and unknown names keep their value |
| WorkflowStore.Store.UpdateNodeCredentialIssues | packages/editor-ui/src/mixins/nodeHelpers.ts:185-198 | the node's `credentials` slot becomes the validator's credential issues, or is cleared when there are none |
| WorkflowStore.Store.UpdateNodeParameterIssues | packages/editor-ui/src/mixins/nodeHelpers.ts:201-227 | the node's `parameters` slot becomes the parameter validator's issues; nothing changes when the type is unknown |
| WorkflowStore.Store.UpdateNodesCredentialsIssues | packages/editor-ui/src/mixins/nodeHelpers.ts:387-400 | every node's `credentials` slot is recomputed from its record; other slots and unknown names keep their value |
| WorkflowStore.Store.RefreshNodeIssues | packages/editor-ui/src/mixins/nodeHelpers.ts:502-503 | parameter issues then credential issues are refreshed from the node's record |
| WorkflowStore.Store.ToggleNode | packages/editor-ui/src/mixins/nodeHelpers.ts:485-508 | one iteration: the flag is negated, the run data is dropped, telemetry gets the old flag, slots are refreshed from the new record, the undo command is logged when tracked, and no other node's slots change |
| WorkflowStore.Store.ToggleEach | packages/editor-ui/src/mixins/nodeHelpers.ts:484-509 | the loop leaves exactly the state `ToggledFrom` describes for the whole list |
| WorkflowStore.Store.DisableNodes | packages/editor-ui/src/mixins/nodeHelpers.ts:480-513 | the new records, run data, log and issue slots are the specification functions of the old state and the list; records stay filed under their names |
| WorkflowStore.Toggled | packages/editor-ui/src/mixins/nodeHelpers.ts:484-500 | toggling keeps the set of nodes and changes no field of a record other than `disabled` |
| WorkflowStore.ToggledParity | packages/editor-ui/src/mixins/nodeHelpers.ts:484-500 | a node's final flag is its first flag negated once per occurrence in the list, so a node listed twice is back where it started |
| WorkflowStore.RefreshedTwice | packages/editor-ui/src/mixins/nodeHelpers.ts:502-503 | refreshing a node's slots twice for the same type is refreshing them once from the later record |
| WorkflowStore.StepCounts | packages/editor-ui/src/mixins/nodeHelpers.ts:494-508 | one node's calls are one telemetry event plus one undo command exactly when tracked, and no group start or stop |
| WorkflowStore.ToggleEventCounts | packages/editor-ui/src/mixins/nodeHelpers.ts:484-509 | the loop emits one telemetry event per listed node and one undo command per listed node when tracked, and none otherwise |
| WorkflowStore.PushesRecordToggle | packages/editor-ui/src/mixins/nodeHelpers.ts:504-508 | every undo command names a listed node and records its old flag and the negation |
| WorkflowStore.DisableNodesLog | packages/editor-ui/src/mixins/nodeHelpers.ts:480-513 | with tracking, the log opens with one group start, closes with one group stop and holds one undo command per node between; without tracking, no history call; one telemetry event per node either way |

## Left out

- The Vue component, the Pinia stores, locale strings and the telemetry client are not modelled. Messages are tags carrying their interpolation arguments, and the history and telemetry calls are entries in the store's event log.
- The workflow store's own setters (`setNodeIssue`, `clearNodeExecutionData`, `updateNodeProperties`) are not part of this file. They are modelled by their effect on the store's maps: a `null` value deletes an issue category.
- The `n8n-workflow` routines `NodeHelpers.getNodeParametersIssues`, `NodeHelpers.mergeIssues` and `NodeHelpers.displayParameterPath` are opaque parameters of the context. So is the credential permission test `getCredentialPermissions`.
- `getParameterValue` and `displayParameter` are thin wrappers over foreign code (`lodash.get` and the display-path routine). The first is not modelled; the second is the context's display condition.
- The expression engine used by `getNodeSubtitle` is a parameter. The time zone and placeholder arguments it receives are not modelled.
- Parameter values are strings, and nested parameter objects are not modelled. For `isCustomApiCallSelected`, a nested `parameters` value that is not an object literal is `None`, and an array-valued `resource` or `operation` (where `includes` tests membership) is not modelled.
- `disabled` is a boolean. An undefined flag (which `=== true` treats as false) is not distinguished.
- Run and output indexes are natural numbers. Negative indexes are not modelled.
- `EnableNodeToggleCommand` is represented only by its constructor arguments.
- WorkflowStore.Store.DisableNodes takes node names. The source takes node objects, which are the store's own records, so the toggle, telemetry and undo command all see the record being updated. A caller passing a stale copy of a record is not modelled.
- WorkflowStore.Store.UpdateNodesExecutionIssues and WorkflowStore.Store.UpdateNodesCredentialsIssues visit the nodes in an unspecified order, not the store's list order. Each node writes only its own slot, so the result does not depend on the order.
- CredentialIssues.AuthShortCircuit: when the credential type catalog has no entry for the short-circuit's type, the source passes `null` to `reportUnsetCredential` and throws. The model reports under the type's name with that name as the display label.
- CredentialIssues.AuthShortCircuit: when `authentication` is the generic type but `genericAuthType` is absent, the source also reaches `reportUnsetCredential(null)` and throws. The model skips that short-circuit instead.
- CredentialIssues.EntryIsDescriptorIssue, CredentialIssues.HiddenTypeHasNoEntry, CredentialIssues.MissingSelection, CredentialIssues.IdMatchAccepted, CredentialIssues.SingleNameMatchAccepted, CredentialIssues.AmbiguousNameReported and CredentialIssues.MissingCredentialReported assume the node type declares each credential type once. The source does not check this. When a name repeats, the later declaration's entry replaces or keeps the earlier one, so the per-type properties need not hold. The fold itself (`CredentialIssues.FoldKeys`, `CredentialIssues.GetNodeCredentialIssues`) has no such condition.
- NodeIssues.GetNodeIssues: for a known node type, the execution flag is stated on the merge result. The merge routine is opaque, so the other categories of the merged result are not described further.

## Findings

| source | as written | input that shows it | evidently intended | confidence | as-written member | corrected member |
|---|---|---|---|---|---|---|
| packages/editor-ui/src/mixins/nodeHelpers.ts:438 | the guard `connectionsData.main.length < outputIndex` lets `outputIndex == main.length` through, so `main[outputIndex]` is `undefined` and `undefined` is returned instead of a list | `main = []`, `outputIndex = 0` | `main.length <= outputIndex`, returning `[]` | not executed | RunData.MainInputDataAsWritten (lemmas RunData.MainInputDataGuardGap, RunData.MainInputDataUndefinedOnEmptyMain) | RunData.MainInputData |
| packages/editor-ui/src/mixins/nodeHelpers.ts:420 | `runData[node.name][runIndex].data` is read without checking that run `runIndex` exists, so a missing run throws a `TypeError` | a node with one recorded run, `runIndex = 1` | return `[]` when the run is missing, as `getBinaryData` does at line 462 | not executed | RunData.NodeInputDataAsWritten (lemma RunData.NodeInputDataRunIndexGap) | RunData.NodeInputData |
| packages/editor-ui/src/mixins/nodeHelpers.ts:471 | `getBinaryData` reads `inputData.length` on the result of `getMainInputData`, which is `undefined` when the guard at line 438 lets `outputIndex == main.length` through, so the call throws a `TypeError` | a run whose `main` is one output holding an item with a binary, `outputIndex = 1` | no binaries, from the corrected `getMainInputData` | not executed | RunData.BinaryDataAsWritten (lemmas RunData.BinaryDataGap, RunData.BinaryDataThrowsPastLastOutput) | RunData.GetBinaryData |
