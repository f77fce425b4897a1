/**
 * The subtitle shown under a node on the canvas (`getNodeSubtitle`): its
 * notes, else its type's subtitle template, else the label of its selected
 * operation.
 */
module Subtitle {
  import opened Wrappers
  import opened NodeData

  /** The outcome of evaluating a subtitle template with the expression engine. */
  datatype Evaluation = Evaluated(value: Option<string>) | Failed

  /** The first property of the given name (`properties.find`). */
  function FindProperty(props: seq<Property>, name: string): (r: Option<Property>)
    ensures r.None? <==> forall i :: 0 <= i < |props| ==> props[i].name != name
    ensures r.Some? ==>
              exists i :: 0 <= i < |props| && props[i] == r.value && props[i].name == name
                          && forall j :: 0 <= j < i ==> props[j].name != name
  {
    if props == [] then None
    else if props[0].name == name then Some(props[0])
    else
      var r := FindProperty(props[1..], name);
      assert forall i :: 1 <= i < |props| ==> props[i] == props[1..][i - 1];
      r
  }

  /** The first option whose value is the given one (`options.find`). */
  function FindOption(options: seq<PropertyOption>, value: string): (r: Option<PropertyOption>)
    ensures r.None? <==> forall i :: 0 <= i < |options| ==> options[i].value != value
    ensures r.Some? ==>
              exists i :: 0 <= i < |options| && options[i] == r.value && options[i].value == value
                          && forall j :: 0 <= j < i ==> options[j].value != value
  {
    if options == [] then None
    else if options[0].value == value then Some(options[0])
    else
      var r := FindOption(options[1..], value);
      assert forall i :: 1 <= i < |options| ==> options[i] == options[1..][i - 1];
      r
  }

  /** The display label of an operation value, falling back to the value itself. */
  function OperationLabel(nodeType: Option<NodeTypeDescription>, operation: string): string {
    if nodeType.None? then operation
    else match FindProperty(nodeType.value.properties, "operation")
      case None => operation
      case Some(operationData) =>
        if operationData.options.None? then operation
        else match FindOption(operationData.options.value, operation)
          case None => operation
          case Some(optionData) => optionData.name
  }

  /**
   * `getNodeSubtitle`; the expression engine is the `evaluate` parameter.
   * Precedence: no data gives nothing; inline notes win over a template and
   * an operation; a template wins over an operation and its failure gives
   * nothing; an operation gives its label; otherwise nothing.
   */
  function NodeSubtitle(
    data: Option<Node>, nodeType: Option<NodeTypeDescription>, evaluate: (Node, string) -> Evaluation)
    : (r: Option<string>)
    ensures data.None? ==> r.None?
    ensures data.Some? && data.value.notesInFlow ==> r == data.value.notes
    ensures data.Some? && !data.value.notesInFlow && nodeType.Some? && nodeType.value.subtitle.Some? ==>
              r == match evaluate(data.value, nodeType.value.subtitle.value)
                   case Evaluated(v) => v
                   case Failed => None
    ensures data.Some? && !data.value.notesInFlow && (nodeType.None? || nodeType.value.subtitle.None?) ==>
              r == if "operation" in data.value.parameters
                   then Some(OperationLabel(nodeType, data.value.parameters["operation"]))
                   else None
  {
    if data.None? then None
    else if data.value.notesInFlow then data.value.notes
    else if nodeType.Some? && nodeType.value.subtitle.Some? then
      match evaluate(data.value, nodeType.value.subtitle.value)
      case Evaluated(v) => v
      case Failed => None
    else if "operation" in data.value.parameters then
      Some(OperationLabel(nodeType, data.value.parameters["operation"]))
    else None
  }

  /**
   * When the first `operation` property lists options and option `k` is the
   * first whose value is the operation, the label is that option's name.
   */
  lemma OperationLabelIsFirstMatch(nodeType: NodeTypeDescription, operation: string, i: nat, k: nat)
    requires i < |nodeType.properties| && nodeType.properties[i].name == "operation"
    requires forall j :: 0 <= j < i ==> nodeType.properties[j].name != "operation"
    requires nodeType.properties[i].options.Some?
    requires k < |nodeType.properties[i].options.value|
    requires nodeType.properties[i].options.value[k].value == operation
    requires forall l :: 0 <= l < k ==> nodeType.properties[i].options.value[l].value != operation
    ensures OperationLabel(Some(nodeType), operation) == nodeType.properties[i].options.value[k].name
  {
    var props := nodeType.properties;
    var found := FindProperty(props, "operation");
    var i' :| 0 <= i' < |props| && props[i'] == found.value && props[i'].name == "operation"
              && forall j :: 0 <= j < i' ==> props[j].name != "operation";
    assert i' == i;
    var options := props[i].options.value;
    var option := FindOption(options, operation);
    var k' :| 0 <= k' < |options| && options[k'] == option.value && options[k'].value == operation
              && forall l :: 0 <= l < k' ==> options[l].value != operation;
    assert k' == k;
  }

  /**
   * The label falls back to the raw operation when the type is unknown, has
   * no `operation` property, its first one lists no options, or no option
   * has that value.
   */
  lemma OperationLabelFallback(nodeType: Option<NodeTypeDescription>, operation: string)
    requires
      || nodeType.None?
      || (forall j :: 0 <= j < |nodeType.value.properties| ==> nodeType.value.properties[j].name != "operation")
      || (exists i :: 0 <= i < |nodeType.value.properties|
            && nodeType.value.properties[i].name == "operation"
            && (forall j :: 0 <= j < i ==> nodeType.value.properties[j].name != "operation")
            && (nodeType.value.properties[i].options.None?
                || forall l :: 0 <= l < |nodeType.value.properties[i].options.value| ==>
                     nodeType.value.properties[i].options.value[l].value != operation))
    ensures OperationLabel(nodeType, operation) == operation
  {
    if nodeType.Some? {
      var props := nodeType.value.properties;
      var found := FindProperty(props, "operation");
      if found.Some? {
        var i' :| 0 <= i' < |props| && props[i'] == found.value && props[i'].name == "operation"
                  && forall j :: 0 <= j < i' ==> props[j].name != "operation";
        var i :| 0 <= i < |props| && props[i].name == "operation"
                 && (forall j :: 0 <= j < i ==> props[j].name != "operation")
                 && (props[i].options.None?
                     || forall l :: 0 <= l < |props[i].options.value| ==> props[i].options.value[l].value != operation);
        assert i == i';
      }
    }
  }
}
