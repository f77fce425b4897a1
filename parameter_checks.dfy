/**
 * The parameter test `isCustomApiCallSelected`: whether the node's
 * `resource` or `operation` parameter names the custom API call entry.
 */
module ParameterChecks {
  import opened Wrappers
  import opened NodeData

  /** The option value a node's resource or operation takes when the user picks a custom API call. */
  const CUSTOM_API_CALL_KEY := "__CUSTOM_API_CALL__"

  /** `sub` occurs in `s` starting at index `i`. */
  predicate OccursAt(s: string, sub: string, i: int) {
    0 <= i && i + |sub| <= |s| && s[i..i + |sub|] == sub
  }

  /** `s.includes(sub)`: tries each start position from the left. */
  function Includes(s: string, sub: string): bool
    decreases |s|
  {
    if |sub| > |s| then false
    else if s[..|sub|] == sub then true
    else Includes(s[1..], sub)
  }

  /** `includes` holds exactly when the text occurs at some position; in particular the empty text is in every string. */
  lemma {:induction false} IncludesIffOccurs(s: string, sub: string)
    ensures Includes(s, sub) <==> exists i :: OccursAt(s, sub, i)
    decreases |s|
  {
    if |sub| > |s| {
      forall i | OccursAt(s, sub, i)
        ensures false
      {
      }
    } else if s[..|sub|] == sub {
      assert OccursAt(s, sub, 0);
    } else {
      IncludesIffOccurs(s[1..], sub);
      if exists i :: OccursAt(s[1..], sub, i) {
        var i :| OccursAt(s[1..], sub, i);
        assert s[1..][i..i + |sub|] == s[i + 1..i + 1 + |sub|];
        assert OccursAt(s, sub, i + 1);
      }
      if exists i :: OccursAt(s, sub, i) {
        var i :| OccursAt(s, sub, i);
        assert i != 0;
        assert s[1..][i - 1..i - 1 + |sub|] == s[i..i + |sub|];
        assert OccursAt(s[1..], sub, i - 1);
      }
    }
  }

  /** `parameters.<key>.includes(CUSTOM_API_CALL_KEY)`, false when the key is undefined. */
  predicate NamesCustomApiCall(parameters: Parameters, key: string) {
    key in parameters && Includes(parameters[key], CUSTOM_API_CALL_KEY)
  }

  /**
   * `isCustomApiCallSelected`: `parameters` is the node values' nested
   * `parameters` entry, `None` when that entry is not an object literal.
   */
  function IsCustomApiCallSelected(parameters: Option<Parameters>): (b: bool)
    ensures parameters.None? ==> !b
    ensures parameters.Some? && "resource" !in parameters.value && "operation" !in parameters.value ==> !b
  {
    parameters.Some?
    && (NamesCustomApiCall(parameters.value, "resource") || NamesCustomApiCall(parameters.value, "operation"))
  }

  /**
   * A custom API call is selected exactly when the nested parameters are an
   * object whose `resource` or `operation` contains the key somewhere.
   */
  lemma CustomApiCallSelectedIff(parameters: Option<Parameters>)
    ensures IsCustomApiCallSelected(parameters) <==>
            parameters.Some? &&
            (("resource" in parameters.value &&
              exists i :: OccursAt(parameters.value["resource"], CUSTOM_API_CALL_KEY, i)) ||
             ("operation" in parameters.value &&
              exists i :: OccursAt(parameters.value["operation"], CUSTOM_API_CALL_KEY, i)))
  {
    if parameters.Some? {
      if "resource" in parameters.value {
        IncludesIffOccurs(parameters.value["resource"], CUSTOM_API_CALL_KEY);
      }
      if "operation" in parameters.value {
        IncludesIffOccurs(parameters.value["operation"], CUSTOM_API_CALL_KEY);
      }
    }
  }

  /** A value that merely equals the key, with nothing around it, is recognised. */
  lemma ExactKeySelected(key: string)
    requires key == "resource" || key == "operation"
    ensures IsCustomApiCallSelected(Some(map[key := CUSTOM_API_CALL_KEY]))
  {
    var p := map[key := CUSTOM_API_CALL_KEY];
    assert p[key][..|CUSTOM_API_CALL_KEY|] == CUSTOM_API_CALL_KEY;
  }
}
