/**
 * `CManageInbox` of cmanage/inbox.py: an append-only list of envelopes and
 * an index of them by id, updated in place by `submit` and read by `list`
 * and `get`.  The envelope's id (`uuid4`) and timestamp (the UTC clock) are
 * parameters of `Submit`.
 */
module Inbox {
  import opened Wrappers
  import opened Json
  import opened Envelopes
  import opened Order
  import opened Cursor
  import opened Paging

  /** The index `_by_id` once the envelopes of `s` were submitted in order:
      each id to the last envelope submitted under it. */
  function IndexOf(s: seq<ActionEnvelope>): (m: map<string, ActionEnvelope>)
    ensures forall k :: k in m ==> m[k].id == k
  {
    if s == [] then map[] else IndexOf(s[..|s| - 1])[s[|s| - 1].id := s[|s| - 1]]
  }

  /** The index holds exactly the ids of the list. */
  lemma {:induction false} IndexOfKeys(s: seq<ActionEnvelope>, k: string)
    ensures k in IndexOf(s) <==> exists i :: 0 <= i < |s| && s[i].id == k
    decreases |s|
  {
    if s != [] {
      var t := s[..|s| - 1];
      IndexOfKeys(t, k);
      if k in IndexOf(t) {
        var i :| 0 <= i < |t| && t[i].id == k;
        assert s[i].id == k;
      }
      if exists i :: 0 <= i < |s| && s[i].id == k {
        var i :| 0 <= i < |s| && s[i].id == k;
        if i < |t| { assert t[i].id == k; }
      }
    }
  }

  /** `s[i]` is the last envelope of `s` with id `k`. */
  predicate LastWithId(s: seq<ActionEnvelope>, i: int, k: string)
  {
    0 <= i < |s| && s[i].id == k && forall j :: i < j < |s| ==> s[j].id != k
  }

  /** An id maps to the last envelope submitted under it. */
  lemma {:induction false} IndexOfLast(s: seq<ActionEnvelope>, i: int)
    requires 0 <= i < |s| && LastWithId(s, i, s[i].id)
    ensures s[i].id in IndexOf(s) && IndexOf(s)[s[i].id] == s[i]
    decreases |s|
  {
    if i < |s| - 1 {
      var t := s[..|s| - 1];
      assert t[i] == s[i];
      IndexOfLast(t, i);
    }
  }

  class CManageInbox {
    /** `_items`: the envelopes in submission order. */
    var items: seq<ActionEnvelope>
    /** `_by_id`: the envelopes by id. */
    var byId: map<string, ActionEnvelope>

    /** The index is the one the submissions built. */
    ghost predicate Valid()
      reads this
    {
      byId == IndexOf(items)
    }

    /** A new inbox holds nothing; nothing is shared between inboxes. */
    constructor ()
      ensures Valid() && items == [] && byId == map[]
    {
      items := [];
      byId := map[];
    }

    /** `submit`: validate the action, then append the envelope made of it
        with the given id and timestamp, index it under its id, and return
        its view.  A refused action changes nothing. */
    method Submit(action: Json, id: string, ts: string) returns (r: Result<Json, PyException>)
      requires Valid()
      modifies this
      ensures Valid()
      ensures ValidateAction(action).Some? ==>
                r == Err(ValidateAction(action).value) && items == old(items) && byId == old(byId)
      ensures ValidateAction(action).None? ==>
                items == old(items) + [ActionEnvelope(id, ts, action)] &&
                r == Ok(EnvelopeToDict(ActionEnvelope(id, ts, action))) &&
                Get(id) == Some(r.value)
      ensures id !in old(byId) && old(DistinctIds(items)) ==> DistinctIds(items)
    {
      var error := ValidateAction(action);
      if error.Some? {
        return Err(error.value);
      }
      var envelope := ActionEnvelope(id, ts, action);
      forall i | 0 <= i < |items| ensures items[i].id != id || id in byId {
        IndexOfKeys(items, id);
      }
      items := items + [envelope];
      byId := byId[envelope.id := envelope];
      assert items[..|items| - 1] == old(items);
      r := Ok(EnvelopeToDict(envelope));
    }

    /** `get`: the view of the envelope indexed under the id, if any.  With
        several envelopes under one id it is the last one submitted. */
    function Get(envelopeId: string): (r: Option<Json>)
      reads this
      requires Valid()
      ensures r.Some? <==> exists i :: 0 <= i < |items| && items[i].id == envelopeId
      ensures forall i :: LastWithId(items, i, envelopeId) ==> r == Some(EnvelopeToDict(items[i]))
    {
      IndexOfKeys(items, envelopeId);
      assert forall i :: LastWithId(items, i, envelopeId) ==> byId[envelopeId] == items[i] by {
        forall i | LastWithId(items, i, envelopeId) {
          IndexOfLast(items, i);
        }
      }
      if envelopeId in byId then Some(EnvelopeToDict(byId[envelopeId])) else None
    }

    /** `list`: decode the cursor, sort the envelopes by key, slice after
        the cursor, and return the views with the cursor of the last one. */
    method List(cursor: Option<string>, limit: Option<int>) returns (r: Result<Listing, PyException>)
      ensures r == ListPage(items, cursor, limit)
    {
      ListPageIs(items, cursor, limit);
      var start: Option<Key> := None;
      if cursor.Some? {
        var decoded := DecodeCursor(cursor.value);
        if decoded.Err? {
          return Err(decoded.error);
        }
        start := Some(decoded.value);
      }
      assert StartKey(cursor) == Ok(start);
      var ordered := SortByKey(items);
      var page := SliceAfterCursor(ordered, start, limit);
      var next: Option<string> := None;
      if page != [] {
        var c := EncodeCursorFromLast(page);
        next := Some(c.value);
      }
      assert next == NextCursor(page);
      r := Ok(Listing(Views(page), next));
    }
  }
}
