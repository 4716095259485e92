/**
 * The listing cursor of cmanage/inbox.py: the key `(ts, id)` of the last
 * listed envelope, written as compact sorted-key JSON, encoded in UTF-8 and
 * then in padded URL-safe base64.
 */
module Cursor {
  import opened Wrappers
  import opened Json
  import JsonDump
  import Base64
  import Utf8
  import opened Envelopes
  import opened Order

  /** The one error `_decode_cursor` raises, whatever went wrong inside. */
  const InvalidCursor := ValueError("invalid cursor")

  /** The error `_encode_cursor_from_last` raises on no items. */
  const EmptyItems := ValueError("cannot encode cursor from empty items")

  /** `_encode_cursor`: `{"id":…,"ts":…}` in UTF-8, then URL-safe base64. */
  function EncodeCursor(ts: string, id: string): (c: string)
    ensures |c| % 4 == 0 && c != []
  {
    var text := JsonDump.CursorPayload(ts, id);
    assert text[0] == '{';
    Base64.Encode(Utf8.Encode(text))
  }

  /** The lookups `data["ts"]`, `data["id"]` and the two string tests of
      `_decode_cursor`: a dict with string values under both keys gives the
      key; anything else (not a dict, a key missing, a non-string value) is
      the invalid-cursor error. */
  function ExtractKey(data: Json): (r: Result<Key, PyException>)
    ensures r.Ok? <==> data.JObj? && "ts" in data.fields && "id" in data.fields
                       && data.fields["ts"].JStr? && data.fields["id"].JStr?
    ensures r.Ok? ==> r.value == (data.fields["ts"].s, data.fields["id"].s)
    ensures r.Err? ==> r.error == InvalidCursor
  {
    if data.JObj? && "ts" in data.fields && "id" in data.fields then
      match (data.fields["ts"], data.fields["id"])
      case (JStr(ts), JStr(id)) => Ok((ts, id))
      case _ => Err(InvalidCursor)
    else Err(InvalidCursor)
  }

  /** `_decode_cursor`: base64, then UTF-8, then JSON, then the two lookups; a
      failure at any stage is the invalid-cursor error. */
  function DecodeCursor(cursor: string): (r: Result<Key, PyException>)
    ensures r.Err? ==> r.error == InvalidCursor
    ensures r.Ok? ==> |cursor| % 4 == 0
  {
    match Base64.Decode(cursor)
    case None => Err(InvalidCursor)
    case Some(raw) =>
      match Utf8.Decode(raw)
      case None => Err(InvalidCursor)
      case Some(text) =>
        match Loads(text)
        case None => Err(InvalidCursor)
        case Some(data) => ExtractKey(data)
  }

  /** Decoding goes through the three stages in turn. */
  lemma DecodeStages(cursor: string, raw: seq<byte>, text: string, data: Json)
    requires Base64.Decode(cursor) == Some(raw)
    requires Utf8.Decode(raw) == Some(text)
    requires Loads(text) == Some(data)
    ensures DecodeCursor(cursor) == ExtractKey(data)
  {
  }

  /** The dict a cursor payload parses to yields its key. */
  lemma ExtractPayloadKey(ts: string, id: string)
    ensures ExtractKey(JObj(map["id" := JStr(id), "ts" := JStr(ts)])) == Ok((ts, id))
  {
    var data := JObj(map["id" := JStr(id), "ts" := JStr(ts)]);
    assert "ts" != "id" by { assert "ts"[0] != "id"[0]; }
    assert data.fields["ts"] == JStr(ts) && data.fields["id"] == JStr(id);
  }

  /** A cursor decodes to the key it was made from, for every timestamp and
      id, whatever characters they hold. */
  lemma DecodeEncodeCursor(ts: string, id: string)
    ensures DecodeCursor(EncodeCursor(ts, id)) == Ok((ts, id))
  {
    var text := JsonDump.CursorPayload(ts, id);
    var raw := Utf8.Encode(text);
    Base64.DecodeEncode(raw);
    Utf8.DecodeEncode(text);
    JsonDump.CursorPayloadRoundTrip(ts, id);
    DecodeStages(Base64.Encode(raw), raw, text, JObj(map["id" := JStr(id), "ts" := JStr(ts)]));
    ExtractPayloadKey(ts, id);
  }

  /** Different keys give different cursors. */
  lemma EncodeCursorInjective(k1: Key, k2: Key)
    requires EncodeCursor(k1.0, k1.1) == EncodeCursor(k2.0, k2.1)
    ensures k1 == k2
  {
    DecodeEncodeCursor(k1.0, k1.1);
    DecodeEncodeCursor(k2.0, k2.1);
  }

  /** The cursor of the listing tests, `"not-a-valid-cursor"`, is refused
      with the invalid-cursor error. */
  lemma MalformedCursorRejected()
    ensures DecodeCursor("not-a-valid-cursor") == Err(InvalidCursor)
  {
    assert |"not-a-valid-cursor"| == 18;
  }

  /** `_encode_cursor_from_last`: walk the items keeping the last one, and
      encode its key; no items is an error. */
  method EncodeCursorFromLast(items: seq<ActionEnvelope>) returns (r: Result<string, PyException>)
    ensures items == [] <==> r.Err?
    ensures r.Err? ==> r.error == EmptyItems
    ensures r.Ok? ==> DecodeCursor(r.value) == Ok(OrderKey(items[|items| - 1]))
    ensures r.Ok? ==> r.value == EncodeCursor(items[|items| - 1].ts, items[|items| - 1].id)
  {
    var last: Option<ActionEnvelope> := None;
    var i := 0;
    while i < |items|
      invariant 0 <= i <= |items|
      invariant last == if i == 0 then None else Some(items[i - 1])
    {
      last := Some(items[i]);
      i := i + 1;
    }
    if last.None? {
      return Err(EmptyItems);
    }
    DecodeEncodeCursor(last.value.ts, last.value.id);
    return Ok(EncodeCursor(last.value.ts, last.value.id));
  }
}
