/**
 * The stored record of an accepted action (`ActionEnvelope` in
 * cmanage/inbox.py), the shape check `submit` runs first, and the dict view
 * every public operation hands out.
 */
module Envelopes {
  import opened Wrappers
  import opened Json

  /** An accepted action with the id and timestamp assigned at submission.
      Being a value, it cannot be changed through any copy of it. */
  datatype ActionEnvelope = ActionEnvelope(id: string, ts: string, action: Json)

  /** An action `submit` accepts: a dict whose `type` is a non-empty string and
      whose `payload` and `meta`, where present, are dicts. */
  predicate IsWellFormedAction(action: Json)
  {
    && action.JObj?
    && HasNonEmptyType(action.fields)
    && ("payload" in action.fields ==> action.fields["payload"].JObj?)
    && ("meta" in action.fields ==> action.fields["meta"].JObj?)
  }

  predicate HasNonEmptyType(fields: map<string, Json>)
  {
    "type" in fields && fields["type"].JStr? && fields["type"].s != []
  }

  const NotADict := TypeError("action must be a dict")
  const BadType := ValueError("action.type must be a non-empty string")
  const BadPayload := TypeError("action.payload must be a dict if provided")
  const BadMeta := TypeError("action.meta must be a dict if provided")

  /** `_validate_action`: the exception it raises, or `None` when it returns.
      The checks run in order, so each error means every earlier check passed. */
  function ValidateAction(action: Json): (r: Option<PyException>)
    ensures r.None? <==> IsWellFormedAction(action)
    ensures r == Some(NotADict) <==> !action.JObj?
    ensures r == Some(BadType) <==> action.JObj? && !HasNonEmptyType(action.fields)
    ensures r == Some(BadPayload) <==>
      && action.JObj? && HasNonEmptyType(action.fields)
      && "payload" in action.fields && !action.fields["payload"].JObj?
    ensures r == Some(BadMeta) <==>
      && action.JObj? && HasNonEmptyType(action.fields)
      && ("payload" in action.fields ==> action.fields["payload"].JObj?)
      && "meta" in action.fields && !action.fields["meta"].JObj?
  {
    if !action.JObj? then Some(NotADict)
    else if !HasNonEmptyType(action.fields) then Some(BadType)
    else if "payload" in action.fields && !action.fields["payload"].JObj? then Some(BadPayload)
    else if "meta" in action.fields && !action.fields["meta"].JObj? then Some(BadMeta)
    else None
  }

  /** `_envelope_to_dict`: the public view, a dict of exactly `id`, `ts` and
      `action`. */
  function EnvelopeToDict(e: ActionEnvelope): (r: Json)
    ensures r.JObj? && r.fields.Keys == {"id", "ts", "action"}
    ensures r.fields["id"] == JStr(e.id) && r.fields["ts"] == JStr(e.ts) && r.fields["action"] == e.action
  {
    JObj(map["id" := JStr(e.id), "ts" := JStr(e.ts), "action" := e.action])
  }

  /** The view loses nothing: two envelopes with the same view are the same. */
  lemma EnvelopeToDictInjective(e1: ActionEnvelope, e2: ActionEnvelope)
    requires EnvelopeToDict(e1) == EnvelopeToDict(e2)
    ensures e1 == e2
  {
    var f1, f2 := EnvelopeToDict(e1).fields, EnvelopeToDict(e2).fields;
    assert f1["id"] == f2["id"] && f1["ts"] == f2["ts"] && f1["action"] == f2["action"];
  }

  /** The dict views of a list of envelopes, in the same order. */
  function Views(es: seq<ActionEnvelope>): (vs: seq<Json>)
    ensures |vs| == |es| && forall i :: 0 <= i < |es| ==> vs[i] == EnvelopeToDict(es[i])
  {
    seq(|es|, i requires 0 <= i < |es| => EnvelopeToDict(es[i]))
  }

  lemma ViewsAppend(a: seq<ActionEnvelope>, b: seq<ActionEnvelope>)
    ensures Views(a + b) == Views(a) + Views(b)
  {
  }
}
