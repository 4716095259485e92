/**
 * Cursor paging of cmanage/inbox.py: `_slice_after_cursor`, the listing
 * `CManageInbox.list` returns, and what several readers paging through the
 * same inbox with their own cursors and limits receive.
 */
module Paging {
  import opened Wrappers
  import opened Json
  import opened Envelopes
  import opened Order
  import opened Cursor

  // ---------------------------------------------------------------- slicing

  /** Whether `_slice_after_cursor` keeps an envelope: with no cursor every
      one, otherwise those whose key is not `<=` the cursor's key. */
  predicate Kept(e: ActionEnvelope, start: Option<Key>)
  {
    start.None? || !KeyLe(OrderKey(e), start.value)
  }

  /** The envelopes of `s` the slice does not skip, in their order: all of
      them without a cursor. */
  function Remaining(s: seq<ActionEnvelope>, start: Option<Key>): (r: seq<ActionEnvelope>)
    ensures |r| <= |s|
  {
    if s == [] then []
    else if Kept(s[0], start) then [s[0]] + Remaining(s[1..], start)
    else Remaining(s[1..], start)
  }

  /** The slice keeps exactly the envelopes whose key is above the cursor's. */
  lemma {:induction false} RemainingMembers(s: seq<ActionEnvelope>, start: Option<Key>, e: ActionEnvelope)
    ensures e in Remaining(s, start) <==> e in s && (start.None? || KeyLt(start.value, OrderKey(e)))
    decreases |s|
  {
    if start.Some? {
      NotLeIsAbove(OrderKey(e), start.value);
    }
    if s != [] {
      assert e in s <==> e == s[0] || e in s[1..] by {
        assert s == [s[0]] + s[1..];
      }
      RemainingMembers(s[1..], start, e);
    }
  }

  /** How many of `n` unskipped envelopes a page holds.  The loop tests
      `len(result) >= limit` only after appending, so it stops at `limit`
      items, and a limit below one still lets one item through. */
  function PageSize(limit: Option<int>, n: nat): (k: nat)
    ensures k <= n && (n > 0 ==> k > 0)
    ensures limit.None? ==> k == n
  {
    match limit
    case None => n
    case Some(l) => if l <= 1 then (if n == 0 then 0 else 1) else if n <= l then n else l
  }

  /** What `_slice_after_cursor` returns: the first `PageSize` unskipped
      envelopes. */
  function SliceSpec(ordered: seq<ActionEnvelope>, start: Option<Key>, limit: Option<int>): seq<ActionEnvelope>
  {
    var rem := Remaining(ordered, start);
    rem[..PageSize(limit, |rem|)]
  }

  /** The page is a prefix of the unskipped envelopes, empty only when there
      are none, never longer than a limit of one or more and at most one
      item for a lower limit, and all of them without a limit. */
  lemma SliceIsPrefix(ordered: seq<ActionEnvelope>, start: Option<Key>, limit: Option<int>)
    ensures var r, rem := SliceSpec(ordered, start, limit), Remaining(ordered, start);
            |r| <= |rem| && r == rem[..|r|] &&
            (r == [] <==> rem == []) &&
            (limit.Some? && limit.value >= 1 ==> |r| <= limit.value) &&
            (limit.Some? && limit.value < 1 ==> |r| <= 1) &&
            (limit.None? ==> r == rem)
  {
    var rem := Remaining(ordered, start);
    assert rem[..|rem|] == rem;
  }

  lemma {:induction false} RemainingAppend(a: seq<ActionEnvelope>, b: seq<ActionEnvelope>, start: Option<Key>)
    ensures Remaining(a + b, start) == Remaining(a, start) + Remaining(b, start)
    decreases |a|
  {
    if a == [] {
      assert a + b == b;
    } else {
      assert (a + b)[0] == a[0] && (a + b)[1..] == a[1..] + b;
      RemainingAppend(a[1..], b, start);
      var x, y := Remaining(a[1..], start), Remaining(b, start);
      assert [a[0]] + (x + y) == ([a[0]] + x) + y;
    }
  }

  /** Looking at one more envelope adds it to the unskipped ones if kept. */
  lemma RemainingStep(ordered: seq<ActionEnvelope>, i: int, start: Option<Key>)
    requires 0 <= i < |ordered|
    ensures Remaining(ordered[..i + 1], start)
            == Remaining(ordered[..i], start) + (if Kept(ordered[i], start) then [ordered[i]] else [])
  {
    assert ordered[..i + 1] == ordered[..i] + [ordered[i]];
    RemainingAppend(ordered[..i], [ordered[i]], start);
  }

  /** When the loop breaks, the page it holds is the specified one. */
  lemma SliceFull(ordered: seq<ActionEnvelope>, i: int, start: Option<Key>, limit: Option<int>)
    requires 0 <= i < |ordered| && limit.Some?
    requires var r := Remaining(ordered[..i + 1], start);
             r != [] && |r| >= limit.value && (|r| == 1 || |r| - 1 < limit.value)
    ensures Remaining(ordered[..i + 1], start) == SliceSpec(ordered, start, limit)
  {
    var r := Remaining(ordered[..i + 1], start);
    assert ordered == ordered[..i + 1] + ordered[i + 1..];
    RemainingAppend(ordered[..i + 1], ordered[i + 1..], start);
    var rem := Remaining(ordered, start);
    assert PageSize(limit, |rem|) == |r|;
    assert rem[..|r|] == r;
  }

  /** When the loop runs to the end, the page it holds is the specified one. */
  lemma SliceExhausted(ordered: seq<ActionEnvelope>, start: Option<Key>, limit: Option<int>)
    requires var r := Remaining(ordered, start);
             limit.Some? && r != [] ==> |r| < limit.value
    ensures Remaining(ordered, start) == SliceSpec(ordered, start, limit)
  {
    var r := Remaining(ordered, start);
    assert r[..|r|] == r;
  }

  /** `_slice_after_cursor`: walk the sorted envelopes, skip those at or
      before the cursor, append the others and stop once the page is full
      (the source breaks out of the loop and returns the page; here the
      return is immediate). */
  method SliceAfterCursor(ordered: seq<ActionEnvelope>, start: Option<Key>, limit: Option<int>)
    returns (result: seq<ActionEnvelope>)
    ensures result == SliceSpec(ordered, start, limit)
  {
    result := [];
    for i := 0 to |ordered|
      invariant result == Remaining(ordered[..i], start)
      invariant limit.Some? && result != [] ==> |result| < limit.value
    {
      var env := ordered[i];
      RemainingStep(ordered, i, start);
      if start.Some? && KeyLe(OrderKey(env), start.value) {
        continue;
      }
      result := result + [env];
      if limit.Some? && |result| >= limit.value {
        SliceFull(ordered, i, start, limit);
        return;
      }
    }
    assert ordered[..|ordered|] == ordered;
    SliceExhausted(ordered, start, limit);
  }

  // ---------------------------------------------------------------- listing

  /** The dict `list` returns: the page's envelope views and the cursor to
      pass next. */
  datatype Listing = Listing(items: seq<Json>, nextCursor: Option<string>)

  /** The cursor argument as a key: none for no cursor, else the decoded key. */
  function StartKey(cursor: Option<string>): (r: Result<Option<Key>, PyException>)
    ensures r.Err? <==> cursor.Some? && DecodeCursor(cursor.value).Err?
    ensures r.Err? ==> r.error == InvalidCursor
  {
    match cursor
    case None => Ok(None)
    case Some(c) =>
      match DecodeCursor(c)
      case Ok(k) => Ok(Some(k))
      case Err(e) => Err(e)
  }

  /** The cursor a page hands back: that of its last envelope, none exactly
      for an empty page (`NextCursorStart` shows that it decodes to that
      envelope's key). */
  function NextCursor(page: seq<ActionEnvelope>): (c: Option<string>)
    ensures c.None? <==> page == []
  {
    if page == [] then None else Some(EncodeCursor(page[|page| - 1].ts, page[|page| - 1].id))
  }

  /** The part of `CManageInbox.list` after the sort: the page of the
      envelopes `ordered`, already in key order, after the cursor. */
  function ListSorted(ordered: seq<ActionEnvelope>, cursor: Option<string>, limit: Option<int>)
    : (r: Result<Listing, PyException>)
    ensures r.Err? <==> cursor.Some? && DecodeCursor(cursor.value).Err?
    ensures r.Err? ==> r.error == InvalidCursor
    ensures r.Ok? ==> |r.value.items| <= |ordered|
    ensures r.Ok? ==> (r.value.nextCursor.None? <==> r.value.items == [])
  {
    match StartKey(cursor)
    case Err(e) => Err(e)
    case Ok(start) =>
      var page := SliceSpec(ordered, start, limit);
      Ok(Listing(Views(page), NextCursor(page)))
  }

  /** `CManageInbox.list` over the envelopes `items` in submission order:
      decode the cursor, sort, slice, and return the page's views with the
      cursor of its last envelope. */
  function ListPage(items: seq<ActionEnvelope>, cursor: Option<string>, limit: Option<int>)
    : (r: Result<Listing, PyException>)
    ensures r.Err? <==> cursor.Some? && DecodeCursor(cursor.value).Err?
    ensures r.Err? ==> r.error == InvalidCursor
    ensures r.Ok? ==> |r.value.items| <= |items|
    ensures r.Ok? ==> (r.value.nextCursor.None? <==> r.value.items == [])
  {
    ListSorted(SortByKey(items), cursor, limit)
  }

  /** Everything the listing holds from `cursor` on, as `list` without a
      limit returns it; nothing for a refused cursor. */
  function Rest(ordered: seq<ActionEnvelope>, cursor: Option<string>): seq<Json>
  {
    match ListSorted(ordered, cursor, None)
    case Ok(l) => l.items
    case Err(_) => []
  }

  // ---------------------------------------------------------------- slice lemmas

  /** A kept envelope keeps every later one of an ascending list. */
  lemma KeptUpward(s: seq<ActionEnvelope>, start: Option<Key>, i: int, j: int)
    requires Ascending(s) && 0 <= i <= j < |s| && Kept(s[i], start)
    ensures Kept(s[j], start)
  {
    if start.Some? {
      NotLeIsAbove(OrderKey(s[i]), start.value);
      NotLeIsAbove(OrderKey(s[j]), start.value);
      KeyLtStrictTotalOrder(start.value, OrderKey(s[i]), OrderKey(s[j]));
    }
  }

  lemma {:induction false} RemainingAll(s: seq<ActionEnvelope>, start: Option<Key>)
    requires forall i :: 0 <= i < |s| ==> Kept(s[i], start)
    ensures Remaining(s, start) == s
    decreases |s|
  {
    if s != [] {
      RemainingAll(s[1..], start);
    }
  }

  lemma {:induction false} RemainingNone(s: seq<ActionEnvelope>, start: Option<Key>)
    requires forall i :: 0 <= i < |s| ==> !Kept(s[i], start)
    ensures Remaining(s, start) == []
    decreases |s|
  {
    if s != [] {
      RemainingNone(s[1..], start);
    }
  }

  /** In an ascending list the skipped envelopes come first: what is left is
      a suffix. */
  lemma {:induction false} RemainingIsSuffix(s: seq<ActionEnvelope>, start: Option<Key>)
    requires Ascending(s)
    ensures Remaining(s, start) == s[|s| - |Remaining(s, start)|..]
    decreases |s|
  {
    if s != [] {
      if Kept(s[0], start) {
        forall j | 0 <= j < |s| ensures Kept(s[j], start) {
          KeptUpward(s, start, 0, j);
        }
        RemainingAll(s, start);
      } else {
        RemainingIsSuffix(s[1..], start);
      }
    }
  }

  /** With strictly increasing keys, the cursor of the envelope at `m` leaves
      exactly the envelopes after `m`. */
  lemma RemainingAfter(s: seq<ActionEnvelope>, m: int)
    requires StrictlyAscending(s) && 0 <= m < |s|
    ensures Remaining(s, Some(OrderKey(s[m]))) == s[m + 1..]
  {
    var start := Some(OrderKey(s[m]));
    var a, b := s[..m + 1], s[m + 1..];
    assert s == a + b;
    RemainingAppend(a, b, start);
    forall i | 0 <= i < |a| ensures !Kept(a[i], start) {
      assert a[i] == s[i];
    }
    RemainingNone(a, start);
    forall i | 0 <= i < |b| ensures Kept(b[i], start) {
      assert b[i] == s[m + 1 + i];
      NotLeIsAbove(OrderKey(b[i]), OrderKey(s[m]));
    }
    RemainingAll(b, start);
  }

  /** A run `s[k..k+n]` of a strictly ascending list is followed by what the
      key of its last envelope leaves. */
  lemma RunResumes(s: seq<ActionEnvelope>, k: int, n: int)
    requires StrictlyAscending(s) && 0 <= k && 1 <= n && k + n <= |s|
    ensures s[k..] == s[k..k + n] + Remaining(s, Some(OrderKey(s[k + n - 1])))
  {
    RemainingAfter(s, k + n - 1);
    assert s[k..] == s[k..k + n] + s[k + n..];
  }

  /** A non-empty page of a strictly ascending list is a run of it. */
  lemma PageIsRun(s: seq<ActionEnvelope>, start: Option<Key>, limit: Option<int>)
    requires StrictlyAscending(s)
    requires SliceSpec(s, start, limit) != []
    ensures var rem := Remaining(s, start);
            var k, n := |s| - |rem|, |SliceSpec(s, start, limit)|;
            0 <= k && 1 <= n && k + n <= |s| &&
            rem == s[k..] && SliceSpec(s, start, limit) == s[k..k + n]
  {
    var rem := Remaining(s, start);
    RemainingIsSuffix(s, start);
    var k, n := |s| - |rem|, PageSize(limit, |rem|);
    assert rem[..n] == s[k..k + n];
  }

  /** A page is followed, in the unlimited listing from the same cursor, by
      exactly what its last key leaves: nothing is skipped or repeated. */
  lemma PageResumes(s: seq<ActionEnvelope>, start: Option<Key>, limit: Option<int>)
    requires StrictlyAscending(s)
    ensures var p := SliceSpec(s, start, limit);
            (p == [] ==> Remaining(s, start) == []) &&
            (p != [] ==> Remaining(s, start) == p + Remaining(s, Some(OrderKey(p[|p| - 1]))))
  {
    var p := SliceSpec(s, start, limit);
    if p != [] {
      PageIsRun(s, start, limit);
      var k := |s| - |Remaining(s, start)|;
      RunResumes(s, k, |p|);
    }
  }

  // ---------------------------------------------------------------- listing lemmas

  /** The unlimited listing from a cursor. */
  lemma RestIs(ordered: seq<ActionEnvelope>, cursor: Option<string>, start: Option<Key>)
    requires StartKey(cursor) == Ok(start)
    ensures Rest(ordered, cursor) == Views(Remaining(ordered, start))
  {
    var rem := Remaining(ordered, start);
    assert rem[..|rem|] == rem;
  }

  /** Listing from the start without a limit gives every envelope, in key order. */
  lemma ListEverything(ordered: seq<ActionEnvelope>)
    ensures Rest(ordered, None) == Views(ordered)
  {
    RestIs(ordered, None, None);
    RemainingAll(ordered, None);
  }

  /** A page holds at most `limit` items (at most one for a limit below one),
      all of them without a limit, and a page shorter than the limit ends the
      listing. */
  lemma PageLength(ordered: seq<ActionEnvelope>, cursor: Option<string>, limit: Option<int>)
    requires ListSorted(ordered, cursor, limit).Ok?
    ensures var page := ListSorted(ordered, cursor, limit).value.items;
            (limit.Some? && limit.value >= 1 ==> |page| <= limit.value) &&
            (limit.Some? && limit.value < 1 ==> |page| <= 1) &&
            (limit.None? ==> page == Rest(ordered, cursor)) &&
            (limit.Some? && |page| < limit.value ==> page == Rest(ordered, cursor))
  {
    RestIs(ordered, cursor, StartKey(cursor).value);
    var rem := Remaining(ordered, StartKey(cursor).value);
    assert rem[..|rem|] == rem;
  }

  /** The cursor a non-empty page hands back decodes to its last key. */
  lemma NextCursorStart(p: seq<ActionEnvelope>)
    requires p != []
    ensures StartKey(NextCursor(p)) == Ok(Some(OrderKey(p[|p| - 1])))
  {
    DecodeEncodeCursor(p[|p| - 1].ts, p[|p| - 1].id);
  }

  /** A listing that decodes its cursor is the page after it and the
      page's cursor. */
  lemma ListSortedIs(ordered: seq<ActionEnvelope>, cursor: Option<string>, limit: Option<int>)
    requires StartKey(cursor).Ok?
    ensures ListSorted(ordered, cursor, limit)
            == Ok(Listing(Views(SliceSpec(ordered, StartKey(cursor).value, limit)),
                          NextCursor(SliceSpec(ordered, StartKey(cursor).value, limit))))
  {
  }

  /** Everything from a page's cursor is what lies above its last key. */
  lemma RestAfter(ordered: seq<ActionEnvelope>, p: seq<ActionEnvelope>)
    requires p != []
    ensures Rest(ordered, NextCursor(p)) == Views(Remaining(ordered, Some(OrderKey(p[|p| - 1]))))
  {
    NextCursorStart(p);
    RestIs(ordered, NextCursor(p), Some(OrderKey(p[|p| - 1])));
  }

  /** A non-empty page followed by everything from its cursor is everything
      from the cursor it was listed with. */
  lemma PageThenRest(ordered: seq<ActionEnvelope>, cursor: Option<string>, start: Option<Key>, limit: Option<int>)
    requires StrictlyAscending(ordered) && StartKey(cursor) == Ok(start)
    requires SliceSpec(ordered, start, limit) != []
    ensures Rest(ordered, cursor)
            == Views(SliceSpec(ordered, start, limit)) + Rest(ordered, NextCursor(SliceSpec(ordered, start, limit)))
  {
    var p := SliceSpec(ordered, start, limit);
    var above := Remaining(ordered, Some(OrderKey(p[|p| - 1])));
    calc {
      Rest(ordered, cursor);
    == { RestIs(ordered, cursor, start); }
      Views(Remaining(ordered, start));
    == { PageResumes(ordered, start, limit); }
      Views(p + above);
    == { ViewsAppend(p, above); }
      Views(p) + Views(above);
    == { RestAfter(ordered, p); }
      Views(p) + Rest(ordered, NextCursor(p));
    }
  }

  /** `ListingResumes` on a list already in strictly increasing key order. */
  lemma SortedResumes(ordered: seq<ActionEnvelope>, cursor: Option<string>, limit: Option<int>)
    requires StrictlyAscending(ordered)
    requires ListSorted(ordered, cursor, limit).Ok?
    ensures ListSorted(ordered, cursor, limit).value.nextCursor.None? ==> Rest(ordered, cursor) == []
    ensures ListSorted(ordered, cursor, limit).value.nextCursor.Some? ==>
              Rest(ordered, cursor) == ListSorted(ordered, cursor, limit).value.items
                                       + Rest(ordered, ListSorted(ordered, cursor, limit).value.nextCursor)
  {
    var start := StartKey(cursor).value;
    var p := SliceSpec(ordered, start, limit);
    ListSortedIs(ordered, cursor, limit);
    if p == [] {
      RestIs(ordered, cursor, start);
      PageResumes(ordered, start, limit);
    } else {
      PageThenRest(ordered, cursor, start, limit);
    }
  }

  /** The page of a cursor followed by everything from the page's next cursor
      is everything from the first cursor; an empty page (no next cursor)
      means nothing is left.  This holds for every limit, which is why
      readers with their own cursors and limits each see the whole listing. */
  lemma ListingResumes(items: seq<ActionEnvelope>, cursor: Option<string>, limit: Option<int>)
    requires DistinctKeys(items)
    requires ListPage(items, cursor, limit).Ok?
    ensures ListPage(items, cursor, limit).value.nextCursor.None? ==> Rest(SortByKey(items), cursor) == []
    ensures ListPage(items, cursor, limit).value.nextCursor.Some? ==>
              Rest(SortByKey(items), cursor) == ListPage(items, cursor, limit).value.items
                                                + Rest(SortByKey(items), ListPage(items, cursor, limit).value.nextCursor)
  {
    SortStrict(items);
    SortedResumes(SortByKey(items), cursor, limit);
  }

  /** `list` is the listing of the key-sorted envelopes: the cursor's error
      when it does not decode, else the page after it and the page's cursor. */
  lemma ListPageIs(items: seq<ActionEnvelope>, cursor: Option<string>, limit: Option<int>)
    ensures StartKey(cursor).Err? ==> ListPage(items, cursor, limit) == Err(StartKey(cursor).error)
    ensures StartKey(cursor).Ok? ==>
              ListPage(items, cursor, limit)
              == Ok(Listing(Views(SliceSpec(SortByKey(items), StartKey(cursor).value, limit)),
                            NextCursor(SliceSpec(SortByKey(items), StartKey(cursor).value, limit))))
  {
  }

  /** `list()` with neither cursor nor limit returns the view of every
      envelope, in key order: `SortByKey` is a permutation of the submissions
      with ascending keys. */
  lemma ListAll(items: seq<ActionEnvelope>)
    ensures ListPage(items, None, None).Ok?
    ensures ListPage(items, None, None).value.items == Views(SortByKey(items))
  {
    var s := SortByKey(items);
    ListSortedIs(s, None, None);
    RemainingAll(s, None);
    assert s[..|s|] == s;
  }

  /** The empty inbox lists nothing and hands back no cursor. */
  lemma EmptyInboxListsNothing(cursor: Option<string>, limit: Option<int>)
    requires StartKey(cursor).Ok?
    ensures ListPage([], cursor, limit) == Ok(Listing([], None))
  {
    assert SortByKey([]) == [];
  }

  // ---------------------------------------------------------------- readers

  /** An orchestrator paging through the inbox: reading from a cursor (none
      at first), or done after an empty page or a refused cursor. */
  datatype Reader = Reading(cursor: Option<string>) | Done

  /** One `list` call with the given limit, over the inbox's envelopes in
      listing order (`list` sorts them first, and without submissions between
      the calls they stay the same): the reader's next state and the items it
      received. */
  function Step(ordered: seq<ActionEnvelope>, rd: Reader, limit: Option<int>): (Reader, seq<Json>)
  {
    match rd
    case Done => (Done, [])
    case Reading(c) =>
      match ListSorted(ordered, c, limit)
      case Err(_) => (Done, [])
      case Ok(l) => (if l.nextCursor.Some? then Reading(l.nextCursor) else Done, l.items)
  }

  /** What a reader has still to receive. */
  function Unread(ordered: seq<ActionEnvelope>, rd: Reader): seq<Json>
  {
    match rd
    case Done => []
    case Reading(c) => Rest(ordered, c)
  }

  /** A reader calling `list` once per limit of `limits`: its final state and
      everything it received, in order. */
  function ReadWith(ordered: seq<ActionEnvelope>, rd: Reader, limits: seq<Option<int>>): (Reader, seq<Json>)
    decreases |limits|
  {
    if limits == [] then (rd, [])
    else
      var step := Step(ordered, rd, limits[0]);
      var more := ReadWith(ordered, step.0, limits[1..]);
      (more.0, step.1 + more.1)
  }

  /** What one call delivers plus what is then left is what was left before;
      and a reader that is not done afterwards received something. */
  lemma StepKeepsUnread(ordered: seq<ActionEnvelope>, rd: Reader, limit: Option<int>)
    requires StrictlyAscending(ordered)
    ensures Step(ordered, rd, limit).1 + Unread(ordered, Step(ordered, rd, limit).0) == Unread(ordered, rd)
    ensures Step(ordered, rd, limit).0.Reading? ==> Step(ordered, rd, limit).1 != []
  {
    if rd.Reading? {
      var c := rd.cursor;
      if ListSorted(ordered, c, limit).Err? {
        assert ListSorted(ordered, c, None).Err?;
      } else {
        SortedResumes(ordered, c, limit);
      }
    }
  }

  lemma Regroup(page: seq<Json>, more: seq<Json>, left: seq<Json>, mid: seq<Json>, all: seq<Json>)
    requires page + mid == all && more + left == mid
    ensures (page + more) + left == all
  {
  }

  /** Whatever limits a reader uses, what it has received followed by what it
      has still to receive is what it had to receive at the start. */
  lemma {:induction false} ReadKeepsUnread(ordered: seq<ActionEnvelope>, rd: Reader, limits: seq<Option<int>>)
    requires StrictlyAscending(ordered)
    ensures ReadWith(ordered, rd, limits).1 + Unread(ordered, ReadWith(ordered, rd, limits).0) == Unread(ordered, rd)
    decreases |limits|
  {
    if limits != [] {
      var step := Step(ordered, rd, limits[0]);
      var more := ReadWith(ordered, step.0, limits[1..]);
      StepKeepsUnread(ordered, rd, limits[0]);
      ReadKeepsUnread(ordered, step.0, limits[1..]);
      Regroup(step.1, more.1, Unread(ordered, more.0), Unread(ordered, step.0), Unread(ordered, rd));
    }
  }

  /** A reader given more calls than it has items to receive finishes, having
      received all of them. */
  lemma {:induction false} ReadCompletes(ordered: seq<ActionEnvelope>, rd: Reader, limits: seq<Option<int>>)
    requires StrictlyAscending(ordered)
    requires |limits| > |Unread(ordered, rd)|
    ensures ReadWith(ordered, rd, limits) == (Done, Unread(ordered, rd))
    decreases |limits|
  {
    var next := Step(ordered, rd, limits[0]).0;
    StepKeepsUnread(ordered, rd, limits[0]);
    if next.Done? {
      if limits[1..] != [] {
        DoneReadsNothing(ordered, limits[1..]);
      }
    } else {
      ReadCompletes(ordered, next, limits[1..]);
    }
  }

  lemma {:induction false} DoneReadsNothing(ordered: seq<ActionEnvelope>, limits: seq<Option<int>>)
    ensures ReadWith(ordered, Done, limits) == (Done, [])
    decreases |limits|
  {
    if limits != [] {
      DoneReadsNothing(ordered, limits[1..]);
      var none: seq<Json> := [];
      assert none + none == none;
    }
  }

  /** Readers starting with no cursor, each with its own sequence of limits,
      all receive every envelope exactly once, in key order; when the
      timestamps increase in submission order that is the submission order. */
  lemma IndependentReaders(items: seq<ActionEnvelope>, limits: seq<Option<int>>)
    requires DistinctKeys(items)
    requires |limits| > |items|
    ensures ReadWith(SortByKey(items), Reading(None), limits) == (Done, Views(SortByKey(items)))
    ensures StrictlyAscending(items) ==> ReadWith(SortByKey(items), Reading(None), limits).1 == Views(items)
  {
    SortStrict(items);
    ListEverything(SortByKey(items));
    ReadCompletes(SortByKey(items), Reading(None), limits);
    if StrictlyAscending(items) {
      SortKeepsAscending(items);
    }
  }
}
