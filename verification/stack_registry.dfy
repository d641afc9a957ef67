/**
 The tab-stack registry of background.js: the `tab2top` JavaScript `Map` from a
 tab id to the id of the top (host) tab of its stack, with the four queries that
 read it and the two `Map` primitives (`set`, `delete`) the handlers use to
 change it.

 A JavaScript `Map` iterates in insertion order, and two handlers depend on that
 order (`getRest` returns its ids in it, and `toggleStack` samples the FIRST
 guest), so the registry keeps its keys in iteration order next to the map.
 */
module StackRegistry {

  /** A browser tab id: an opaque integer handle. */
  type TabId = int

  datatype Option<T> = None | Some(value: T)

  /** The `tab2top` map: `order` lists its keys in iteration order, `top` maps
      each key to the top tab of its stack. */
  datatype Registry = Registry(order: seq<TabId>, top: map<TabId, TabId>)

  /** The registry as the extension starts: `new Map()`. */
  const Empty: Registry := Registry([], map[])

  /** The role of a tab, derived from the registry alone. */
  datatype Role = Free | Host | Guest(host: TabId)

  function Elems(s: seq<TabId>): (e: set<TabId>)
    ensures forall x :: x in e <==> x in s
  {
    set x | x in s
  }

  predicate Distinct(s: seq<TabId>) {
    forall i, j :: 0 <= i < j < |s| ==> s[i] != s[j]
  }

  /** `a` is `b` with some elements left out: whatever survives keeps its
      relative order. */
  predicate SubSeq(a: seq<TabId>, b: seq<TabId>)
    decreases |b|
  {
    a == [] || (b != [] && ((a[0] == b[0] && SubSeq(a[1..], b[1..])) || SubSeq(a, b[1..])))
  }

  lemma {:induction false} SubSeqRefl(a: seq<TabId>)
    ensures SubSeq(a, a)
    decreases |a|
  {
    if a != [] {
      SubSeqRefl(a[1..]);
    }
  }

  lemma {:induction false} SubSeqTrans(a: seq<TabId>, b: seq<TabId>, c: seq<TabId>)
    requires SubSeq(a, b) && SubSeq(b, c)
    ensures SubSeq(a, c)
    decreases |c|
  {
    if a != [] {
      if SubSeq(b, c[1..]) {
        SubSeqTrans(a, b, c[1..]);
      } else if a[0] == b[0] && SubSeq(a[1..], b[1..]) {
        SubSeqTrans(a[1..], b[1..], c[1..]);
      } else {
        SubSeqTrans(a, b[1..], c[1..]);
      }
    }
  }

  /** A repetition-free sequence has as many elements as its set of
      elements. */
  lemma {:induction false} DistinctCount(s: seq<TabId>)
    requires Distinct(s)
    ensures |Elems(s)| == |s|
  {
    if s != [] {
      assert Distinct(s[1..]) && s[0] !in s[1..];
      DistinctCount(s[1..]);
      assert Elems(s) == {s[0]} + Elems(s[1..]);
    }
  }

  /** Everything kept by a subsequence comes from the original. */
  lemma {:induction false} SubSeqElems(a: seq<TabId>, b: seq<TabId>)
    ensures SubSeq(a, b) ==> forall x :: x in a ==> x in b
    decreases |b|
  {
    if a != [] && b != [] {
      SubSeqElems(a[1..], b[1..]);
      SubSeqElems(a, b[1..]);
    }
  }

  /** Within a repetition-free sequence, a subsequence is fixed by its set of
      elements. */
  lemma {:induction false} SubSeqUnique(a: seq<TabId>, b: seq<TabId>, c: seq<TabId>)
    requires Distinct(c)
    requires SubSeq(a, c) && SubSeq(b, c)
    requires forall x :: x in a <==> x in b
    ensures a == b
    decreases |c|
  {
    if c != [] {
      SubSeqElems(a, c[1..]);
      SubSeqElems(b, c[1..]);
      assert Distinct(c[1..]) && c[0] !in c[1..];
      if c[0] in a {
        assert a[0] == c[0] && b[0] == c[0];
        assert a == [a[0]] + a[1..] && b == [b[0]] + b[1..];
        SubSeqElems(a[1..], c[1..]);
        SubSeqElems(b[1..], c[1..]);
        assert SubSeq(a[1..], c[1..]) && SubSeq(b[1..], c[1..]);
        forall x ensures x in a[1..] <==> x in b[1..] {
          assert x in a[1..] <==> x in a && x != c[0];
          assert x in b[1..] <==> x in b && x != c[0];
        }
        SubSeqUnique(a[1..], b[1..], c[1..]);
      } else {
        SubSeqUnique(a, b, c[1..]);
      }
    }
  }

  /** The representation invariant of a JavaScript `Map`: every key is iterated
      exactly once. */
  predicate WellFormed(r: Registry) {
    Distinct(r.order) && Elems(r.order) == r.top.Keys
  }

  /** `k` is a guest of `h`: a member mapped to `h` that is not `h` itself. */
  predicate IsGuestOf(r: Registry, k: TabId, h: TabId) {
    k in r.top && r.top[k] == h && k != h
  }

  /** Every value is a member that maps to itself: no chains. */
  predicate ValuesAreHosts(r: Registry) {
    forall k :: k in r.top ==> r.top[k] in r.top && r.top[r.top[k]] == r.top[k]
  }

  /** Every host has at least one guest: no stack of one. */
  predicate HostsHaveGuests(r: Registry) {
    forall h :: h in r.top && r.top[h] == h ==> exists g :: g in r.top && IsGuestOf(r, g, h)
  }

  /** The structural invariant every transition keeps. */
  predicate Valid(r: Registry) {
    WellFormed(r) && ValuesAreHosts(r) && HostsHaveGuests(r)
  }

  // ---------------------------------------------------------------------------
  // Queries

  /** `isStacked`: the id has an entry, so a loop over the map meets it. */
  predicate IsStacked(r: Registry, id: TabId)
    ensures WellFormed(r) ==> (IsStacked(r, id) <==> id in r.order)
  {
    id in r.top
  }

  /** `getTop`: `tab2top.get(id)`, which is `undefined` (here `None`) for an
      unstacked id; `getTop` in background.js only logs in that case. */
  function GetTop(r: Registry, id: TabId): Option<TabId> {
    if id in r.top then Some(r.top[id]) else None
  }

  /** `isTop`: `id === tab2top.get(id)`; an `undefined` lookup never equals an id. */
  predicate IsTop(r: Registry, id: TabId) {
    GetTop(r, id) == Some(id)
  }

  /** The role classification used by the handlers. */
  function RoleOf(r: Registry, id: TabId): Role {
    if id !in r.top then Free
    else if r.top[id] == id then Host
    else Guest(r.top[id])
  }

  /** The keys of `ks`, in order, whose entry in `top` is `t`. */
  function WithTop(ks: seq<TabId>, top: map<TabId, TabId>, t: TabId): (m: seq<TabId>)
    ensures forall k :: k in m <==> k in ks && k in top && top[k] == t
    ensures Distinct(ks) ==> Distinct(m)
    ensures SubSeq(m, ks)
    ensures (forall i :: 0 <= i < |ks| ==> ks[i] in top && top[ks[i]] == t) ==> m == ks
    ensures (forall i :: 0 <= i < |ks| ==> !(ks[i] in top && top[ks[i]] == t)) ==> m == []
  {
    if ks == [] then []
    else
      var tail := ks[1..];
      var rest := WithTop(tail, top, t);
      assert ks == [ks[0]] + tail;
      assert forall i :: 0 <= i < |tail| ==> tail[i] == ks[i + 1];
      if ks[0] in top && top[ks[0]] == t then
        var m := [ks[0]] + rest;
        assert m[0] == ks[0] && m[1..] == rest;
        assert SubSeq(m, ks);
        m
      else
        assert SubSeq(rest, ks);
        rest
  }

  /** Selecting by top distributes over concatenation. */
  lemma {:induction false} WithTopAppend(a: seq<TabId>, b: seq<TabId>, top: map<TabId, TabId>, t: TabId)
    ensures WithTop(a + b, top, t) == WithTop(a, top, t) + WithTop(b, top, t)
    decreases |a|
  {
    if a == [] {
      assert a + b == b;
    } else {
      var ab := a + b;
      assert ab[0] == a[0] && ab[1..] == a[1..] + b;
      WithTopAppend(a[1..], b, top, t);
      if a[0] in top && top[a[0]] == t {
        calc {
          WithTop(ab, top, t);
          [a[0]] + WithTop(a[1..] + b, top, t);
          [a[0]] + (WithTop(a[1..], top, t) + WithTop(b, top, t));
          ([a[0]] + WithTop(a[1..], top, t)) + WithTop(b, top, t);
        }
      } else {
        assert WithTop(ab, top, t) == WithTop(a[1..] + b, top, t);
      }
    }
  }

  /** The elements of `ks`, in order, that are not in `drop`. */
  function Keep(ks: seq<TabId>, drop: set<TabId>): (kept: seq<TabId>)
    ensures forall k :: k in kept <==> k in ks && k !in drop
    ensures Distinct(ks) ==> Distinct(kept)
    ensures (forall i :: 0 <= i < |ks| ==> ks[i] !in drop) ==> kept == ks
    ensures (forall i :: 0 <= i < |ks| ==> ks[i] in drop) ==> kept == []
    ensures SubSeq(kept, ks)
  {
    if ks == [] then []
    else if ks[0] in drop then Keep(ks[1..], drop)
    else [ks[0]] + Keep(ks[1..], drop)
  }

  /** Dropping one value from a repetition-free sequence of two or more
      leaves its first element, or its second when the first is dropped. */
  lemma KeepOneFirst(ks: seq<TabId>, h: TabId)
    requires Distinct(ks) && |ks| >= 2
    ensures var kept := Keep(ks, {h});
            |kept| > 0 && kept[0] == (if ks[0] == h then ks[1] else ks[0])
  {
    assert ks[1..][0] == ks[1];
    if ks[0] == h {
      assert ks[1] != h;
    }
  }

  /** Every member whose top is `t`, in iteration order, `t` itself included. */
  function MembersWithTop(r: Registry, t: TabId): (m: seq<TabId>)
    requires WellFormed(r)
    ensures forall k :: k in m <==> k in r.top && r.top[k] == t
    ensures Distinct(m)
    ensures SubSeq(m, r.order)
  {
    WithTop(r.order, r.top, t)
  }

  /** `getRest`: the other members of `id`'s stack, in iteration order; an
      unstacked id has top `undefined`, which no value equals. */
  function GetRest(r: Registry, id: TabId): (rest: seq<TabId>)
    requires WellFormed(r)
    ensures !IsStacked(r, id) ==> rest == []
    ensures IsStacked(r, id) ==> forall k :: k in rest <==> IsGuestOf(r, k, r.top[id])
    ensures Distinct(rest)
    ensures SubSeq(rest, r.order)
  {
    match GetTop(r, id)
    case None => []
    case Some(t) =>
      var m := MembersWithTop(r, t);
      SubSeqTrans(Keep(m, {t}), m, r.order);
      Keep(m, {t})
  }

  // ---------------------------------------------------------------------------
  // The Map primitives

  /** `tab2top.set(k, v)`: a new key is appended to the iteration order, an
      existing key keeps its place. */
  function Put(r: Registry, k: TabId, v: TabId): (r': Registry)
    ensures r'.top == r.top[k := v]
    ensures WellFormed(r) ==> WellFormed(r')
    ensures k !in r.top ==> r'.order == r.order + [k]
    ensures k in r.top ==> r'.order == r.order
  {
    if k in r.top then Registry(r.order, r.top[k := v])
    else Registry(r.order + [k], r.top[k := v])
  }

  /** `tab2top.set(k, v)` for every `k` of `ks`, in order: the sets for all
      but the last key, then the last one. */
  function PutAll(r: Registry, ks: seq<TabId>, v: TabId): (r': Registry)
    ensures WellFormed(r) ==> WellFormed(r')
    ensures forall k :: k in r'.top <==> k in r.top || k in ks
    ensures forall k :: k in ks ==> r'.top[k] == v
    ensures forall k :: k in r.top && k !in ks ==> r'.top[k] == r.top[k]
    ensures |r.order| <= |r'.order| && r'.order[..|r.order|] == r.order
  {
    if ks == [] then r
    else
      var init := ks[..|ks| - 1];
      assert forall k :: k in ks <==> k in init || k == ks[|ks| - 1] by {
        assert ks == init + [ks[|ks| - 1]];
      }
      Put(PutAll(r, init, v), ks[|ks| - 1], v)
  }

  /** Keys that were all new are appended to the iteration order in the order
      they were set. */
  lemma {:induction false} PutAllAppends(r: Registry, ks: seq<TabId>, v: TabId)
    requires Distinct(ks)
    requires forall k :: k in ks ==> k !in r.top
    ensures PutAll(r, ks, v).order == r.order + ks
  {
    if ks != [] {
      var init, last := ks[..|ks| - 1], ks[|ks| - 1];
      assert ks == init + [last];
      assert last !in init;
      PutAllAppends(r, init, v);
      assert r.order + init + [last] == r.order + ks;
    }
  }

  /** Fresh keys all set to a fresh member `h` of them form a stack of their
      own: the members with top `h` are exactly those keys, in the order they
      were set. */
  lemma {:induction false} PutAllFreshStack(r: Registry, ks: seq<TabId>, h: TabId)
    requires WellFormed(r) && ValuesAreHosts(r)
    requires Distinct(ks)
    requires forall k :: k in ks ==> k !in r.top
    requires h in ks
    ensures MembersWithTop(PutAll(r, ks, h), h) == ks
  {
    var r' := PutAll(r, ks, h);
    PutAllAppends(r, ks, h);
    WithTopAppend(r.order, ks, r'.top, h);
    OldKeysOffFreshTop(r, ks, h);
    FreshKeysOnTop(r, ks, h);
  }

  lemma OldKeysOffFreshTop(r: Registry, ks: seq<TabId>, h: TabId)
    requires WellFormed(r) && ValuesAreHosts(r)
    requires forall k :: k in ks ==> k !in r.top
    requires h in ks
    ensures WithTop(r.order, PutAll(r, ks, h).top, h) == []
  {
    var top := PutAll(r, ks, h).top;
    forall j | 0 <= j < |r.order|
      ensures !(r.order[j] in top && top[r.order[j]] == h)
    {
      var k := r.order[j];
      assert k in r.top && k !in ks;
      assert r.top[k] in r.top;
    }
  }

  lemma FreshKeysOnTop(r: Registry, ks: seq<TabId>, h: TabId)
    ensures WithTop(ks, PutAll(r, ks, h).top, h) == ks
  {
    var top := PutAll(r, ks, h).top;
    forall j | 0 <= j < |ks|
      ensures ks[j] in top && top[ks[j]] == h
    {
      assert ks[j] in ks;
    }
  }

  /** `tab2top.delete(k)` for every `k` of `drop`. */
  function RemoveKeys(r: Registry, drop: set<TabId>): (r': Registry)
    ensures r'.top == r.top - drop
    ensures WellFormed(r) ==> WellFormed(r')
    ensures SubSeq(r'.order, r.order)
  {
    Registry(Keep(r.order, drop), r.top - drop)
  }

  /** `tab2top.delete(k)`; deleting an absent key changes nothing. */
  function Remove(r: Registry, k: TabId): (r': Registry)
    requires WellFormed(r)
    ensures WellFormed(r')
    ensures r'.top == r.top - {k}
    ensures k !in r.top ==> r' == r
    ensures SubSeq(r'.order, r.order)
  {
    RemoveKeys(r, {k})
  }

  // ---------------------------------------------------------------------------
  // Properties of the queries

  /** `isTop` holds exactly for a stacked id that maps to itself; for an
      unstacked id it is false. */
  lemma IsTopIsSelfMapped(r: Registry, id: TabId)
    ensures IsTop(r, id) <==> IsStacked(r, id) && r.top[id] == id
    ensures !IsStacked(r, id) ==> !IsTop(r, id)
    ensures IsTop(r, id) <==> RoleOf(r, id) == Host
  {
  }

  /** In a valid registry `getTop` of a member is a host: following a tab to
      its top never needs a second hop. */
  lemma GetTopIsHost(r: Registry, id: TabId)
    requires Valid(r)
    requires IsStacked(r, id)
    ensures GetTop(r, id).Some?
    ensures IsTop(r, GetTop(r, id).value)
    ensures RoleOf(r, id) == Host || RoleOf(r, id) == Guest(GetTop(r, id).value)
  {
  }

  /** `getRest` of a member lists its whole stack but the top, whichever member
      it is asked about. */
  lemma GetRestSameForWholeStack(r: Registry, a: TabId, b: TabId)
    requires Valid(r)
    requires IsStacked(r, a) && IsStacked(r, b) && r.top[a] == r.top[b]
    ensures GetRest(r, a) == GetRest(r, b)
  {
  }

  /** `getRest` is the only repetition-free list of the stack's guests that
      follows the map's iteration order. */
  lemma GetRestIsIterationOrder(r: Registry, id: TabId, xs: seq<TabId>)
    requires WellFormed(r)
    requires IsStacked(r, id)
    requires Distinct(xs) && SubSeq(xs, r.order)
    requires forall k :: k in xs <==> IsGuestOf(r, k, r.top[id])
    ensures xs == GetRest(r, id)
  {
    SubSeqUnique(xs, GetRest(r, id), r.order);
  }

  /** When every entry maps to `t`, the members with top `t` are all the keys,
      in iteration order. */
  lemma OneStackMembers(r: Registry, t: TabId)
    requires WellFormed(r)
    requires forall k :: k in r.top ==> r.top[k] == t
    ensures MembersWithTop(r, t) == r.order
  {
    assert forall i :: 0 <= i < |r.order| ==> r.order[i] in r.top;
  }

  /** In a valid registry a member's `getRest` is never empty: its stack has at
      least one guest. */
  lemma {:induction false} GetRestOfMemberNonEmpty(r: Registry, id: TabId)
    requires Valid(r)
    requires IsStacked(r, id)
    ensures |GetRest(r, id)| >= 1
  {
    var h := r.top[id];
    assert h in r.top && r.top[h] == h;
    var g :| IsGuestOf(r, g, h);
    assert g in GetRest(r, id);
  }

  /** The empty registry satisfies the invariant. */
  lemma EmptyIsValid()
    ensures Valid(Empty)
  {
  }
}
