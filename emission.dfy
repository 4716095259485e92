/**
 * `build_observation` of cmanage/emission.py: the record describing one
 * inbox event, holding a copy of the envelope's view and, when given, of
 * the claim.
 */
module Emission {
  import opened Wrappers
  import opened Json
  import opened Envelopes

  /** `build_observation`: a dict of `event`, `observedAt` and `envelope`,
      and `claim` exactly when a claim dict is given (an empty one included).
      Both the envelope and the claim are dicts, as the source annotates
      them, so `claim=None` is the only way to leave the claim out. */
  function BuildObservation(event: string, envelope: map<string, Json>, observedAt: string,
                            claim: Option<map<string, Json>>): (r: Json)
    ensures r.JObj?
    ensures r.fields.Keys == {"event", "observedAt", "envelope"} + (if claim.Some? then {"claim"} else {})
    ensures "claim" in r.fields <==> claim.Some?
  {
    var payload := map["event" := JStr(event), "observedAt" := JStr(observedAt), "envelope" := JObj(envelope)];
    if claim.Some? then JObj(payload["claim" := JObj(claim.value)]) else JObj(payload)
  }

  /** The fields of an observation, read back: the inverse of
      `BuildObservation` on the dicts it builds. */
  function ReadObservation(obs: Json): (r: Option<(string, map<string, Json>, string, Option<map<string, Json>>)>)
  {
    if obs.JObj? && "event" in obs.fields && "observedAt" in obs.fields && "envelope" in obs.fields
       && obs.fields["event"].JStr? && obs.fields["observedAt"].JStr? && obs.fields["envelope"].JObj?
       && ("claim" in obs.fields ==> obs.fields["claim"].JObj?)
    then
      var claim := if "claim" in obs.fields then Some(obs.fields["claim"].fields) else None;
      Some((obs.fields["event"].s, obs.fields["envelope"].fields, obs.fields["observedAt"].s, claim))
    else None
  }

  lemma KeysDiffer()
    ensures "event" != "observedAt" && "event" != "envelope" && "event" != "claim"
    ensures "observedAt" != "envelope" && "observedAt" != "claim" && "envelope" != "claim"
  {
    assert "event"[1] != "observedAt"[1] && "event"[1] != "envelope"[1] && "event"[0] != "claim"[0];
    assert "observedAt"[0] != "envelope"[0] && "observedAt"[0] != "claim"[0] && "envelope"[0] != "claim"[0];
  }

  /** An observation carries its event, its time, the envelope and the claim
      unchanged: reading it back gives its inputs. */
  lemma ReadBuildObservation(event: string, envelope: map<string, Json>, observedAt: string,
                             claim: Option<map<string, Json>>)
    ensures ReadObservation(BuildObservation(event, envelope, observedAt, claim))
            == Some((event, envelope, observedAt, claim))
  {
    KeysDiffer();
  }

  /** Different inputs give different observations. */
  lemma BuildObservationInjective(e1: string, v1: map<string, Json>, t1: string, c1: Option<map<string, Json>>,
                                  e2: string, v2: map<string, Json>, t2: string, c2: Option<map<string, Json>>)
    requires BuildObservation(e1, v1, t1, c1) == BuildObservation(e2, v2, t2, c2)
    ensures e1 == e2 && v1 == v2 && t1 == t2 && c1 == c2
  {
    ReadBuildObservation(e1, v1, t1, c1);
    ReadBuildObservation(e2, v2, t2, c2);
  }

  /** The observation of a submitted envelope names that envelope's id, as
      every observation of one submission does, whatever its event. */
  lemma ObservationNamesEnvelope(event: string, e: ActionEnvelope, observedAt: string,
                                 claim: Option<map<string, Json>>)
    ensures var obs := BuildObservation(event, EnvelopeToDict(e).fields, observedAt, claim);
            obs.fields["envelope"].JObj? && obs.fields["envelope"].fields["id"] == JStr(e.id)
  {
    KeysDiffer();
  }
}
