/**
 * The listing order of cmanage/inbox.py: envelopes sort by the key
 * `(ts, id)`, compared as Python compares tuples of strings, that is
 * lexicographically by code point, first by `ts` and then by `id`.
 */
module Order {
  import opened Envelopes

  /** `(ts, id)`, the key of `_order_key` and the content of a cursor. */
  type Key = (string, string)

  /** `_order_key`. */
  function OrderKey(e: ActionEnvelope): (k: Key)
  {
    (e.ts, e.id)
  }

  /** Python's `a < b` on strings: the first differing code point decides, and
      a proper prefix comes first. */
  predicate StrLt(a: string, b: string)
    decreases |a|
  {
    if a == [] then b != []
    else b != [] && (a[0] < b[0] || (a[0] == b[0] && StrLt(a[1..], b[1..])))
  }

  lemma {:induction false} StrLtIrreflexive(a: string)
    ensures !StrLt(a, a)
    decreases |a|
  {
    if a != [] { StrLtIrreflexive(a[1..]); }
  }

  lemma {:induction false} StrLtAsymmetric(a: string, b: string)
    requires StrLt(a, b)
    ensures !StrLt(b, a)
    decreases |a|
  {
    if a != [] && b != [] && a[0] == b[0] { StrLtAsymmetric(a[1..], b[1..]); }
  }

  lemma {:induction false} StrLtTransitive(a: string, b: string, c: string)
    requires StrLt(a, b) && StrLt(b, c)
    ensures StrLt(a, c)
    decreases |a|
  {
    if a != [] && a[0] == b[0] && b[0] == c[0] { StrLtTransitive(a[1..], b[1..], c[1..]); }
  }

  lemma {:induction false} StrLtTotal(a: string, b: string)
    requires a != b
    ensures StrLt(a, b) || StrLt(b, a)
    decreases |a|
  {
    if a != [] && b != [] && a[0] == b[0] {
      assert a == [a[0]] + a[1..] && b == [b[0]] + b[1..];
      StrLtTotal(a[1..], b[1..]);
    }
  }

  /** Python's `<` on `(ts, id)` tuples. */
  predicate KeyLt(a: Key, b: Key)
  {
    StrLt(a.0, b.0) || (a.0 == b.0 && StrLt(a.1, b.1))
  }

  /** Python's `<=` on `(ts, id)` tuples, the test `_slice_after_cursor` skips on. */
  predicate KeyLe(a: Key, b: Key)
  {
    a == b || KeyLt(a, b)
  }

  /** Tuple order is a strict total order: `<` is irreflexive and transitive, and
      of two different keys exactly one is below the other. */
  lemma KeyLtStrictTotalOrder(a: Key, b: Key, c: Key)
    ensures !KeyLt(a, a)
    ensures KeyLt(a, b) && KeyLt(b, c) ==> KeyLt(a, c)
    ensures a != b <==> (KeyLt(a, b) || KeyLt(b, a))
    ensures !(KeyLt(a, b) && KeyLt(b, a))
  {
    StrLtIrreflexive(a.0);
    StrLtIrreflexive(a.1);
    if KeyLt(a, b) && KeyLt(b, c) {
      if StrLt(a.0, b.0) && StrLt(b.0, c.0) { StrLtTransitive(a.0, b.0, c.0); }
      if a.0 == b.0 && b.0 == c.0 { StrLtTransitive(a.1, b.1, c.1); }
    }
    if a != b {
      if a.0 != b.0 { StrLtTotal(a.0, b.0); } else { StrLtTotal(a.1, b.1); }
    }
    if KeyLt(a, b) {
      if StrLt(a.0, b.0) { StrLtAsymmetric(a.0, b.0); }
      if a.0 == b.0 { StrLtAsymmetric(a.1, b.1); }
    }
  }

  /** A key is skipped by a cursor exactly when it is not above the cursor's key. */
  lemma NotLeIsAbove(k: Key, start: Key)
    ensures !KeyLe(k, start) <==> KeyLt(start, k)
  {
    KeyLtStrictTotalOrder(k, start, k);
  }

  /** Sorting by `_order_key` compares timestamps first and ids only
      between equal timestamps, and two keys agree exactly when both fields do. */
  lemma OrderKeyCompare(e1: ActionEnvelope, e2: ActionEnvelope)
    ensures KeyLt(OrderKey(e1), OrderKey(e2)) <==> StrLt(e1.ts, e2.ts) || (e1.ts == e2.ts && StrLt(e1.id, e2.id))
    ensures OrderKey(e1) == OrderKey(e2) <==> e1.ts == e2.ts && e1.id == e2.id
  {
  }

  /** Tuple `<=` is a total order: any two keys compare one way, and only
      equal keys compare both ways. */
  lemma KeyLeTotalOrder(a: Key, b: Key)
    ensures KeyLe(a, b) || KeyLe(b, a)
    ensures KeyLe(a, b) && KeyLe(b, a) ==> a == b
  {
    KeyLtStrictTotalOrder(a, b, a);
  }

  lemma KeyLeTransitive(a: Key, b: Key, c: Key)
    requires KeyLe(a, b) && KeyLe(b, c)
    ensures KeyLe(a, c)
  {
    KeyLtStrictTotalOrder(a, b, c);
  }

  // ---------------------------------------------------------------- sorting

  /** Keys never decrease along `s`. */
  predicate Ascending(s: seq<ActionEnvelope>)
  {
    forall i, j :: 0 <= i < j < |s| ==> KeyLe(OrderKey(s[i]), OrderKey(s[j]))
  }

  /** Keys strictly increase along `s`. */
  predicate StrictlyAscending(s: seq<ActionEnvelope>)
  {
    forall i, j :: 0 <= i < j < |s| ==> KeyLt(OrderKey(s[i]), OrderKey(s[j]))
  }

  /** No id occurs twice, the invariant the inbox keeps. */
  predicate DistinctIds(s: seq<ActionEnvelope>)
  {
    forall i, j :: 0 <= i < j < |s| ==> s[i].id != s[j].id
  }

  /** No key occurs twice; follows from distinct ids, as a key holds the id. */
  predicate DistinctKeys(s: seq<ActionEnvelope>)
  {
    forall i, j :: 0 <= i < j < |s| ==> OrderKey(s[i]) != OrderKey(s[j])
  }

  /** A key at or below the first of an ascending list is at or below all of it. */
  lemma BelowFirst(k: Key, s: seq<ActionEnvelope>)
    requires Ascending(s) && s != [] && KeyLe(k, OrderKey(s[0]))
    ensures forall j :: 0 <= j < |s| ==> KeyLe(k, OrderKey(s[j]))
  {
    forall j | 0 <= j < |s| ensures KeyLe(k, OrderKey(s[j])) {
      if j > 0 { KeyLeTransitive(k, OrderKey(s[0]), OrderKey(s[j])); }
    }
  }

  /** The first element of an ascending list is at or below every element of
      `t`, the rest of it with `x` (which is above the first) added. */
  lemma FirstBelowInsert(x: ActionEnvelope, s: seq<ActionEnvelope>, t: seq<ActionEnvelope>)
    requires Ascending(s) && s != [] && !KeyLe(OrderKey(x), OrderKey(s[0]))
    requires multiset(t) == multiset(s[1..]) + multiset{x}
    ensures forall j :: 0 <= j < |t| ==> KeyLe(OrderKey(s[0]), OrderKey(t[j]))
  {
    forall j | 0 <= j < |t| ensures KeyLe(OrderKey(s[0]), OrderKey(t[j])) {
      assert t[j] in multiset(t);
      if t[j] == x {
        KeyLtStrictTotalOrder(OrderKey(x), OrderKey(s[0]), OrderKey(x));
      } else {
        assert t[j] in multiset(s[1..]);
        var k :| 0 <= k < |s[1..]| && s[1..][k] == t[j];
        assert s[k + 1] == t[j];
      }
    }
  }

  /** `x` placed in front of the first element whose key is not below its own. */
  function Insert(x: ActionEnvelope, s: seq<ActionEnvelope>): (r: seq<ActionEnvelope>)
    requires Ascending(s)
    ensures multiset(r) == multiset(s) + multiset{x}
    ensures Ascending(r)
  {
    if s == [] then [x]
    else if KeyLe(OrderKey(x), OrderKey(s[0])) then
      BelowFirst(OrderKey(x), s);
      [x] + s
    else
      var t := Insert(x, s[1..]);
      FirstBelowInsert(x, s, t);
      SplitFirst(s);
      [s[0]] + t
  }

  lemma SplitFirst(s: seq<ActionEnvelope>)
    requires s != []
    ensures s == [s[0]] + s[1..]
  {
  }

  /** `sorted(items, key=_order_key)`: the items in ascending key order. */
  function SortByKey(s: seq<ActionEnvelope>): (r: seq<ActionEnvelope>)
    ensures multiset(r) == multiset(s) && |r| == |s|
    ensures Ascending(r)
  {
    if s == [] then [] else
      assert s == [s[0]] + s[1..];
      Insert(s[0], SortByKey(s[1..]))
  }

  /** An element of a permutation of `s` sits at some position of `s`. */
  lemma InPermutation(t: seq<ActionEnvelope>, s: seq<ActionEnvelope>, j: int)
    requires multiset(t) == multiset(s) && 0 <= j < |t|
    ensures exists k :: 0 <= k < |s| && s[k] == t[j]
  {
    assert t[j] in multiset(s);
  }

  /** The first element of a strictly ascending list is below every element
      of `t`, the rest of it with `x` (which is above the first) added. */
  lemma FirstBelowInsertStrict(x: ActionEnvelope, s: seq<ActionEnvelope>, t: seq<ActionEnvelope>)
    requires StrictlyAscending(s) && s != [] && !KeyLe(OrderKey(x), OrderKey(s[0]))
    requires multiset(t) == multiset(s[1..]) + multiset{x}
    ensures forall j :: 0 <= j < |t| ==> KeyLt(OrderKey(s[0]), OrderKey(t[j]))
  {
    forall j | 0 <= j < |t| ensures KeyLt(OrderKey(s[0]), OrderKey(t[j])) {
      assert t[j] in multiset(t);
      if t[j] == x {
        KeyLtStrictTotalOrder(OrderKey(x), OrderKey(s[0]), OrderKey(x));
      } else {
        assert t[j] in multiset(s[1..]);
        var k :| 0 <= k < |s[1..]| && s[1..][k] == t[j];
        assert s[k + 1] == t[j];
      }
    }
  }

  lemma BelowFirstStrict(x: ActionEnvelope, s: seq<ActionEnvelope>)
    requires StrictlyAscending(s) && s != [] && KeyLe(OrderKey(x), OrderKey(s[0]))
    requires OrderKey(s[0]) != OrderKey(x)
    ensures forall j :: 0 <= j < |s| ==> KeyLt(OrderKey(x), OrderKey(s[j]))
  {
    forall j | 0 <= j < |s| ensures KeyLt(OrderKey(x), OrderKey(s[j])) {
      if j > 0 { KeyLtStrictTotalOrder(OrderKey(x), OrderKey(s[0]), OrderKey(s[j])); }
    }
  }

  lemma {:induction false} InsertStrict(x: ActionEnvelope, s: seq<ActionEnvelope>)
    requires StrictlyAscending(s)
    requires forall j :: 0 <= j < |s| ==> OrderKey(s[j]) != OrderKey(x)
    ensures StrictlyAscending(Insert(x, s))
    decreases |s|
  {
    if s != [] {
      if KeyLe(OrderKey(x), OrderKey(s[0])) {
        BelowFirstStrict(x, s);
      } else {
        InsertStrict(x, s[1..]);
        FirstBelowInsertStrict(x, s, Insert(x, s[1..]));
      }
    }
  }

  /** With no key twice, the sorted list has strictly increasing keys. */
  lemma {:induction false} SortStrict(s: seq<ActionEnvelope>)
    requires DistinctKeys(s)
    ensures StrictlyAscending(SortByKey(s))
  {
    if s != [] {
      var t := SortByKey(s[1..]);
      SortStrict(s[1..]);
      forall j | 0 <= j < |t| ensures OrderKey(t[j]) != OrderKey(s[0]) {
        assert s == [s[0]] + s[1..];
        InPermutation(t, s[1..], j);
      }
      InsertStrict(s[0], t);
    }
  }

  /** The first element of a strictly ascending list is below all others. */
  lemma FirstIsLeast(a: seq<ActionEnvelope>, i: int)
    requires StrictlyAscending(a) && 0 <= i < |a|
    ensures i != 0 ==> KeyLt(OrderKey(a[0]), OrderKey(a[i]))
  {
  }

  /** Of two sorted permutations of each other, the first elements agree. */
  lemma HeadsEqual(a: seq<ActionEnvelope>, b: seq<ActionEnvelope>)
    requires StrictlyAscending(a) && StrictlyAscending(b)
    requires multiset(a) == multiset(b) && a != []
    ensures |b| == |a| && a[0] == b[0]
  {
    assert |b| == |a| by { assert |multiset(a)| == |a| && |multiset(b)| == |b|; }
    InPermutation(a, b, 0);
    InPermutation(b, a, 0);
    var i :| 0 <= i < |a| && a[i] == b[0];
    var j :| 0 <= j < |b| && b[j] == a[0];
    KeyLtStrictTotalOrder(OrderKey(a[0]), OrderKey(b[0]), OrderKey(a[0]));
    FirstIsLeast(a, i);
    FirstIsLeast(b, j);
  }

  /** Removing the same first element from two permutations leaves permutations. */
  lemma TailPermutation(a: seq<ActionEnvelope>, b: seq<ActionEnvelope>)
    requires multiset(a) == multiset(b) && a != [] && b != [] && a[0] == b[0]
    ensures multiset(a[1..]) == multiset(b[1..])
  {
    assert a == [a[0]] + a[1..] && b == [b[0]] + b[1..];
    assert multiset(a[1..]) == multiset(a) - multiset{a[0]};
    assert multiset(b[1..]) == multiset(b) - multiset{b[0]};
  }

  /** Two lists with strictly increasing keys and the same elements are equal:
      with distinct keys there is exactly one sorted order, so any correct sort
      gives the listing this model computes. */
  lemma {:induction false} SortedUnique(a: seq<ActionEnvelope>, b: seq<ActionEnvelope>)
    requires StrictlyAscending(a) && StrictlyAscending(b)
    requires multiset(a) == multiset(b)
    ensures a == b
    decreases |a|
  {
    if a == [] {
      assert |b| == 0 by { assert |multiset(b)| == |b|; }
    } else {
      HeadsEqual(a, b);
      TailPermutation(a, b);
      assert a == [a[0]] + a[1..] && b == [b[0]] + b[1..];
      SortedUnique(a[1..], b[1..]);
    }
  }

  /** Distinct ids give distinct keys. */
  lemma DistinctIdsDistinctKeys(s: seq<ActionEnvelope>)
    requires DistinctIds(s)
    ensures DistinctKeys(s)
  {
  }

  /** When keys already increase in submission order (the clock moved forward
      between submissions), the listing order is the submission order. */
  lemma SortKeepsAscending(s: seq<ActionEnvelope>)
    requires StrictlyAscending(s)
    ensures SortByKey(s) == s
  {
    forall i, j | 0 <= i < j < |s| ensures OrderKey(s[i]) != OrderKey(s[j]) {
      KeyLtStrictTotalOrder(OrderKey(s[i]), OrderKey(s[j]), OrderKey(s[i]));
    }
    SortStrict(s);
    SortedUnique(SortByKey(s), s);
  }

  /** The listing follows the key, not the submission order: an envelope
      stamped earlier is listed first even when it was submitted later. */
  lemma ListingOrderIsKeyOrder(late: ActionEnvelope, early: ActionEnvelope)
    requires StrLt(early.ts, late.ts)
    ensures SortByKey([late, early]) == [early, late]
  {
    StrLtAsymmetric(early.ts, late.ts);
    assert [late, early][1..] == [early];
  }
}
