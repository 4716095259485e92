# cmanage inbox — a Dafny model

This project models the action inbox of `cmanage`. That is the in-memory,
append-only `CManageInbox` of `cmanage/inbox.py` and the observation record
`build_observation` of `cmanage/emission.py`.

An inbox holds two things: the list of accepted envelopes (`_items`) and an
index of them by id (`_by_id`). `submit` first checks the shape of an action.
It then wraps the action in an `ActionEnvelope` with an id and a timestamp,
appends it and indexes it. `get` looks an envelope up by id.

`list` works in four steps:

- It sorts the envelopes by the key `(ts, id)`.
- It skips every envelope whose key is at or below the key in the cursor.
- It cuts the page at the limit.
- It hands back the views of the page together with a cursor for the last
  envelope on it.

A cursor is the compact, sorted-key JSON text `{"id":…,"ts":…}`, encoded in
UTF-8 and then in padded URL-safe base 64 (section 5 of RFC 4648).

Modules, one file each:

| file | module | what it holds |
|---|---|---|
| `wrappers.dfy` | `Wrappers` | `Option`, `Result`, the two Python exceptions raised (`TypeError`, `ValueError`), bytes |
| `base64.dfy` | `Base64` | `urlsafe_b64encode` / `urlsafe_b64decode` and their round trip |
| `utf8.dfy` | `Utf8` | UTF-8 encoding and strict decoding (RFC 3629) and their round trip |
| `json.dfy` | `Json` | the JSON value type and the reader behind `json.loads` |
| `json_dump.dfy` | `JsonDump` | the `json.dumps` output for the cursor payload, and its reading back |
| `envelopes.dfy` | `Envelopes` | `ActionEnvelope`, `_validate_action`, `_envelope_to_dict` |
| `order.dfy` | `Order` | `_order_key`, Python's ordering of strings and tuples, `sorted` |
| `cursor.dfy` | `Cursor` | `_encode_cursor`, `_decode_cursor`, `_encode_cursor_from_last` |
| `paging.dfy` | `Paging` | `_slice_after_cursor`, the result of `list`, readers paging through the inbox |
| `inbox.dfy` | `Inbox` | the class `CManageInbox` with `submit`, `list` and `get` |
| `emission.dfy` | `Emission` | `build_observation` |

Several things the code does differ from a first reading of the inbox's
description. The model follows the code in each case:

- Listing order and cursors use the key `(ts, id)`, not the submission
  order or a submission index. When the clock hands out increasing
  timestamps, the key order is the submission order
  (`Order.SortKeepsAscending`). Otherwise it is not
  (`Order.ListingOrderIsKeyOrder`).
- A refused action raises `TypeError` (not a dict, or a non-dict `payload`
  or `meta`) or `ValueError` (a missing, non-string or empty `type`). There
  is no error type of the inbox's own.
- `_slice_after_cursor` compares the page length to the limit only after
  appending. A limit of zero or below therefore still returns one envelope
  when any is left (`Paging.PageSize`, `Paging.PageLength`).
- Every malformed cursor raises the same `ValueError("invalid cursor")`,
  whatever stage of decoding failed.

The imperative parts are written imperatively:

- `CManageInbox` is a class whose `items` and `byId` fields `Submit`
  reassigns.
- `_slice_after_cursor` and `_encode_cursor_from_last` are methods with
  loops.

`_slice_after_cursor`, `_encode_cursor_from_last` and `list` are proved
against the functions `Paging.SliceSpec`, `Cursor.EncodeCursor` and
`Paging.ListPage`, and lemmas then prove the properties of those functions.
`Submit` states its whole new state, the list and the index, and keeps the
index the index of the list.

## Model

| member | source | states |
|---|---|---|
| Envelopes.ValidateAction | cmanage/inbox.py:64-74 | no error exactly for a dict whose `type` is a non-empty string and whose `payload` and `meta`, where present, are dicts; `TypeError` exactly when the action is not a dict; `ValueError` exactly when it is a dict without a non-empty string `type`; the payload and meta `TypeError`s exactly when every earlier check passed and that field is present and not a dict |
| Envelopes.EnvelopeToDict | cmanage/inbox.py:127-132 | the view is a dict with exactly the keys `id`, `ts`, `action`, holding the envelope's id, timestamp and action |
| Envelopes.EnvelopeToDictInjective | cmanage/inbox.py:127-132 | two envelopes with the same view are the same envelope |
| Envelopes.Views | cmanage/inbox.py:57 | the list of views has one view per envelope, in the same order |
| Envelopes.ViewsAppend | cmanage/inbox.py:57 | the views of two lists joined are the two lists of views joined |
| Order.OrderKeyCompare | cmanage/inbox.py:81-82 | `_order_key` orders by timestamp first and by id only between equal timestamps; two keys are equal exactly when both timestamp and id are |
| Order.KeyLeTotalOrder | cmanage/inbox.py:119 | tuple `<=` relates any two keys one way, and both ways only for equal keys |
| Order.KeyLtStrictTotalOrder | cmanage/inbox.py:81-82 | Python's `<` on `(ts, id)` tuples of strings is irreflexive, transitive, asymmetric, and relates every two different keys one way |
| Order.NotLeIsAbove | cmanage/inbox.py:119 | a key is not skipped (`not key <= start`) exactly when it is above the cursor's key |
| Order.SortByKey | cmanage/inbox.py:54 | `sorted(items, key=_order_key)` is a permutation of the items with keys in ascending order |
| Order.SortStrict | cmanage/inbox.py:54 | with no key twice, the sorted list has strictly increasing keys |
| Order.SortedUnique | cmanage/inbox.py:54 | two lists with strictly increasing keys and the same elements are equal, so there is only one listing order |
| Order.DistinctIdsDistinctKeys | cmanage/inbox.py:81-82 | distinct ids give distinct keys |
| Order.SortKeepsAscending | cmanage/inbox.py:54 | when keys already increase in submission order, sorting leaves the list as it is |
| Order.ListingOrderIsKeyOrder | cmanage/inbox.py:54 | an envelope with an earlier timestamp is listed first even when submitted later |
| Base64.Encode | cmanage/inbox.py:87 | the encoding's length is a multiple of four, and it is empty exactly when the bytes are |
| Base64.Decode | cmanage/inbox.py:92 | the strict reader: only a text of whole groups of four, padded only at the end, decodes, so its length is a multiple of four; CPython's reader accepts more (see Left out) |
| Base64.DecodeEncode | cmanage/inbox.py:85-92 | decoding the URL-safe encoding of any bytes gives those bytes |
| Utf8.Encode | cmanage/inbox.py:87 | `.encode("utf-8")` gives at least one byte per character, and exactly one per character for ASCII text |
| Utf8.Decode | cmanage/inbox.py:93 | the strict `.decode("utf-8")` gives no more characters than bytes, and ASCII bytes always decode, one character each |
| Utf8.DecodeEncodeChar | cmanage/inbox.py:87 | the strict decoder reads the encoding of one character back as that character and its length |
| Utf8.DecodeEncode | cmanage/inbox.py:85-93 | decoding the UTF-8 encoding of any string gives that string |
| JsonDump.CursorPayload | cmanage/inbox.py:86 | the compact payload is an object text: it opens with `{` and closes with `}` |
| JsonDump.CursorPayloadAscii | cmanage/inbox.py:86-87 | with `ensure_ascii`, the payload is ASCII whatever characters `ts` and `id` hold |
| JsonDump.EscapeAscii | cmanage/inbox.py:86 | the escaped body of any string is ASCII |
| Json.Loads | cmanage/inbox.py:93 | `json.loads` of an empty or blank text raises |
| JsonDump.EscapeRoundTrip | cmanage/inbox.py:86 | the JSON reader turns the ASCII escape `json.dumps` writes for any character (short escapes, `\uXXXX`, surrogate pairs) back into that character |
| JsonDump.StringRoundTrip | cmanage/inbox.py:86 | the reader turns the escaped body of any string and a closing quote back into that string, leaving what follows |
| JsonDump.QuoteRoundTrip | cmanage/inbox.py:86 | a quoted string literal reads back as that string |
| JsonDump.MemberRoundTrip | cmanage/inbox.py:86 | one `"key":"value"` member reads back as that key and value |
| JsonDump.CursorPayloadRoundTrip | cmanage/inbox.py:86-93 | `json.loads` of the compact sorted-key payload of `(ts, id)` is the dict `{"id": id, "ts": ts}` |
| Cursor.EncodeCursor | cmanage/inbox.py:85-87 | a cursor is a non-empty text whose length is a multiple of four |
| Cursor.ExtractKey | cmanage/inbox.py:94-98 | the key comes back exactly when the data is a dict with string values under `ts` and `id`, and it is those two values; otherwise the invalid-cursor error |
| Cursor.DecodeCursor | cmanage/inbox.py:90-100 | every failure is `ValueError("invalid cursor")`; a cursor that decodes has a length that is a multiple of four |
| Cursor.DecodeEncodeCursor | cmanage/inbox.py:85-100 | the cursor of any `(ts, id)` decodes to `(ts, id)`, whatever characters they hold |
| Cursor.EncodeCursorInjective | cmanage/inbox.py:85-87 | different keys give different cursors |
| Cursor.MalformedCursorRejected | cmanage/inbox.py:90-100 | the token `"not-a-valid-cursor"` is refused with the invalid-cursor error |
| Cursor.EncodeCursorFromLast | cmanage/inbox.py:103-109 | an error exactly for no items, and then the empty-items `ValueError`; otherwise the cursor of the last item, which decodes to that item's key |
| Paging.Remaining | cmanage/inbox.py:117-121 | the envelopes the loop does not skip are never more than the envelopes it walks; which ones they are is `Paging.RemainingMembers` |
| Paging.RemainingMembers | cmanage/inbox.py:118-121 | an envelope is kept exactly when it is in the list and, given a cursor, its key is strictly above the cursor's |
| Paging.PageSize | cmanage/inbox.py:117-123 | a page holds no more than what is left, at least one item when anything is left, and everything left without a limit |
| Paging.SliceIsPrefix | cmanage/inbox.py:117-123 | the page `SliceSpec` describes is a prefix of the unskipped envelopes, empty only when none is left, at most `limit` items for a limit of one or more, at most one for a lower limit, and all of them without a limit |
| Paging.SliceAfterCursor | cmanage/inbox.py:112-124 | the loop returns the first `PageSize` envelopes not skipped by the cursor, in their order |
| Paging.RemainingIsSuffix | cmanage/inbox.py:118-121 | in an ascending list the skipped envelopes come first, so what is kept is a suffix |
| Paging.RemainingAfter | cmanage/inbox.py:119 | with strictly increasing keys, the cursor of the envelope at position `m` keeps exactly the envelopes after `m` |
| Paging.PageResumes | cmanage/inbox.py:112-124 | a page followed by what its last key keeps is what the page's own cursor kept; an empty page means nothing was left |
| Paging.StartKey | cmanage/inbox.py:53 | no cursor starts from the beginning; a cursor fails exactly when it does not decode, with the invalid-cursor error |
| Paging.ListSorted | cmanage/inbox.py:53-57 | on sorted envelopes: an error exactly for a cursor that does not decode; no more items than envelopes; no next cursor exactly when the page is empty |
| Paging.ListPage | cmanage/inbox.py:42-57 | `list`: an error exactly for a cursor that does not decode, and then `ValueError("invalid cursor")`; no more items than envelopes; `nextCursor` is `None` exactly when the page is empty |
| Paging.NextCursor | cmanage/inbox.py:56 | there is a next cursor exactly when the page is not empty |
| Paging.NextCursorStart | cmanage/inbox.py:56 | the cursor of a non-empty page decodes to the key of its last envelope |
| Paging.RestIs | cmanage/inbox.py:53-57 | the unlimited listing from a cursor is the views of every envelope above the cursor's key |
| Paging.ListEverything | cmanage/inbox.py:53-57 | listing the sorted envelopes from the start without a limit gives all their views |
| Paging.ListAll | cmanage/inbox.py:53-57 | `list()` with no cursor and no limit returns the views of all envelopes in ascending key order |
| Paging.PageLength | cmanage/inbox.py:117-123 | a page holds at most `limit` items for a limit of one or more, at most one for a limit below one, everything left without a limit, and everything left when it is shorter than the limit |
| Paging.PageThenRest | cmanage/inbox.py:53-57 | the views of a non-empty page followed by everything from its next cursor are everything from the cursor it was listed with |
| Paging.SortedResumes | cmanage/inbox.py:53-57 | on envelopes with strictly increasing keys: the page followed by everything from its `nextCursor` is everything from its own cursor, and no `nextCursor` means nothing is left |
| Paging.ListingResumes | cmanage/inbox.py:42-57 | for distinct keys, whatever the limit, the page `list` returns followed by the unlimited listing from its `nextCursor` is the unlimited listing from the page's cursor; no `nextCursor` means nothing was left |
| Paging.EmptyInboxListsNothing | cmanage/inbox.py:42-57 | an empty inbox lists no items and no `nextCursor` |
| Paging.StepKeepsUnread | cmanage/inbox.py:42-57 | one `list` call delivers a part of what a reader has left, and what is then left is the rest; a reader that is not done received something |
| Paging.ReadKeepsUnread | cmanage/inbox.py:42-57 | for any limits, what a reader received followed by what it has left is what it had left at the start |
| Paging.ReadCompletes | cmanage/inbox.py:42-57 | a reader given more calls than it has items left finishes, having received all of them |
| Paging.DoneReadsNothing | cmanage/inbox.py:56 | a reader that got no `nextCursor` receives nothing more |
| Paging.IndependentReaders | cmanage/inbox.py:42-57 | readers starting without a cursor, each with its own limits, each receive the view of every envelope once in key order, which is the submission order when keys increase in it |
| Inbox.IndexOf | cmanage/inbox.py:39 | every id in the index maps to an envelope with that id |
| Inbox.IndexOfKeys | cmanage/inbox.py:39 | the index holds exactly the ids of the submitted envelopes |
| Inbox.IndexOfLast | cmanage/inbox.py:39 | an id maps to the last envelope submitted under it |
| Inbox.CManageInbox.constructor | cmanage/inbox.py:25-27 | a new inbox has no envelopes and an empty index, which agree |
| Inbox.CManageInbox.Submit | cmanage/inbox.py:29-40 | a refused action gives its exception and changes neither the list nor the index; an accepted one is appended as `(id, ts, action)` at the end of the list, the index stays the index of the list, the result is its view, `get(id)` is that view, and a fresh id keeps the ids distinct |
| Inbox.CManageInbox.Get | cmanage/inbox.py:59-62 | a view exactly when some envelope has the id, and then the view of the last envelope submitted under it; `None` for an unknown id |
| Inbox.CManageInbox.List | cmanage/inbox.py:42-57 | the result is `ListPage` of the current envelopes, and the inbox is not changed, so repeating the call gives the same result |
| Emission.BuildObservation | cmanage/emission.py:27-40 | a dict with exactly the keys `event`, `observedAt`, `envelope`, and `claim` exactly when a claim dict is given (`claim=None` adds no key) |
| Emission.ReadBuildObservation | cmanage/emission.py:33-39 | the observation carries the event, the envelope, the time and the claim unchanged |
| Emission.BuildObservationInjective | cmanage/emission.py:27-40 | different arguments give different observations |
| Emission.ObservationNamesEnvelope | cmanage/emission.py:36 | the observation of a submitted envelope's view holds that envelope's id |

## Left out

- `ObservationEmitter.emit` (cmanage/emission.py:18-24) starts a thread per observation. That is concurrency and is not modelled.
- `_emit_observation` (cmanage/emission.py:43-49) appends to a file and ignores every failure. That is file I/O and is not modelled.
- `uuid.uuid4()` and `_utc_iso_now` (cmanage/inbox.py:34-35, 77-78) are randomness and the clock. The id and the timestamp are parameters of `Submit` instead.
- `copy.deepcopy` (cmanage/inbox.py:32, 131; cmanage/emission.py:36, 39) has nothing to do in a model where actions are values. No caller can change a stored action, and `build_observation` cannot change its arguments.
- Inbox.CManageInbox.Submit: a repeated id is not excluded. As in the source, the index then points at the later envelope. Distinct ids are kept only when the new id is fresh.
- Base64.Decode: the reader is stricter than CPython's non-strict `urlsafe_b64decode`. It decodes only whole groups of four URL-safe characters with padding in the last group, whereas CPython accepts `+` and `/`, skips other characters and stops at the first complete padding; CPython decodes `YQ==\n` to `b"a"`, and this reader refuses it.
- Cursor.DecodeCursor: the base 64 reader is stricter than CPython's `urlsafe_b64decode`. It refuses any character outside the URL-safe alphabet, padding before the last group, and a length that is not a multiple of four. CPython instead accepts `+` and `/`, skips other characters and stops at the first complete padding. So some tokens that the source decodes are refused here. Every cursor that `_encode_cursor` writes is accepted by both.
- Json.Loads: a `\u` escape of a lone surrogate is refused, whereas Python keeps it in the string. Nesting depth and the length of integers are unbounded, whereas Python raises on deep nesting and on integers over 4300 digits. Numbers other than integers keep their text.
- JsonDump: only the payload of `_encode_cursor`, a dict of two strings, is written. `json.dumps` of other values is not modelled.
- Actions are JSON values with string keys. Python dicts with other keys or holding non-JSON objects are not modelled.
- `list` with a `limit` that is not an integer or `None`, or a `cursor` that is not a string, is not modelled. The types of the parameters rule these out.
- `claim`, the `emit_target` constructor argument and `parse_emit_target` are used by tests/test_inbox.py but are not defined in cmanage/inbox.py or cmanage/emission.py. They are not part of this model.
