/**
 The handlers of background.js that read and change the tab-stack registry:
 `stack`, `unstack`, `toggleStack`, `handleRemoved` and `handleActivated`.

 Each handler is one atomic transition on a `State`: the registry plus the
 browser's hidden flag of every tab, kept as the set of hidden tab ids. The
 browser calls that only move or highlight tabs are not modelled;
 `tabs.hide`/`tabs.show` become changes of the hidden set, the title prefix and
 toolbar enable/disable become an `Indicator`, and each user-visible
 notification becomes the handler's outcome.
 */
module StackController {
  import opened StackRegistry

  /** A tab as the browser's tab query returns it: its id and whether it is the
      active tab of the window. */
  datatype Tab = Tab(id: TabId, active: bool)

  /** The registry plus the set of tabs whose hidden flag is set. */
  datatype State = State(reg: Registry, hidden: set<TabId>)

  /** The state after a handler, with what the handler reported. */
  datatype Step<O> = Step(state: State, outcome: O)

  /** The outcome of `stack`. `NoActiveTab` is the `TypeError` that `stack`
      raises on `activTab.id` when no selected tab is active, before any
      write. */
  datatype StackOutcome = TooFewTabs | DoubleStacking | NoActiveTab | Stacked(host: TabId)

  /** The outcome of `unstack`; `removed` lists the deleted keys in iteration
      order. */
  datatype UnstackOutcome = NothingToUnstack | Unstacked(removed: seq<TabId>)

  /** The outcome of `toggleStack`; `expanded` says whether the host branch
      showed the guests (rather than hiding them). */
  datatype ToggleOutcome = NotInStack | HostToggled(host: TabId, expanded: bool) | GuestToggled(host: TabId)

  /** The outcome of `handleRemoved`, by notification: the whole stack went
      because its top closed (`shown` lists the deleted ids), the stack went
      because only its top was left, or nothing was reported. */
  datatype RemoveOutcome = TopRemoved(shown: seq<TabId>) | OnlyTopLeft(host: TabId) | Quiet

  /** The toolbar and window-title intent of `handleActivated`. */
  datatype Indicator = Indicator(enabled: bool, titlePreface: string)

  const HostPreface: string := "Stack Top  :: "
  const GuestPreface: string := "Stack Sub :: "

  function Ids(sel: seq<Tab>): (ids: seq<TabId>)
    ensures |ids| == |sel|
    ensures forall i :: 0 <= i < |sel| ==> ids[i] == sel[i].id
    ensures forall i :: 0 <= i < |sel| ==> sel[i].id in ids
  {
    seq(|sel|, i requires 0 <= i < |sel| => sel[i].id)
  }

  /** Some selected tab already has a registry entry. */
  predicate AnyStacked(r: Registry, sel: seq<Tab>) {
    exists i :: 0 <= i < |sel| && IsStacked(r, sel[i].id)
  }

  /** The selection `stack` accepts: at least two tabs, none stacked yet, one
      of them active. */
  predicate Stackable(r: Registry, sel: seq<Tab>) {
    |sel| >= 2 && !AnyStacked(r, sel) && exists i :: 0 <= i < |sel| && sel[i].active
  }

  /** `selectedTabs.filter(t => t.active)[0]`: the first active tab, if any. */
  function FirstActive(sel: seq<Tab>): (a: Option<TabId>)
    ensures a.None? <==> forall i :: 0 <= i < |sel| ==> !sel[i].active
    ensures a.Some? ==> exists i :: 0 <= i < |sel| && sel[i].active && sel[i].id == a.value &&
                           forall j :: 0 <= j < i ==> !sel[j].active
  {
    if sel == [] then None
    else if sel[0].active then Some(sel[0].id)
    else
      var a := FirstActive(sel[1..]);
      assert a.Some? ==> exists i :: 1 <= i < |sel| && sel[i].active && sel[i].id == a.value &&
                           forall j :: 0 <= j < i ==> !sel[j].active by {
        if a.Some? {
          var i :| 0 <= i < |sel[1..]| && sel[1..][i].active && sel[1..][i].id == a.value &&
                   forall j :: 0 <= j < i ==> !sel[1..][j].active;
          assert forall j :: 0 <= j < i + 1 ==> !sel[j].active by {
            forall j | 0 <= j < i + 1 ensures !sel[j].active {
              if j > 0 { assert sel[j] == sel[1..][j - 1]; }
            }
          }
        }
      }
      a
  }

  // ---------------------------------------------------------------------------
  // toggleStack

  /** `toggleStack(activTab)`. The registry is only read. For the host, the
      first guest's hidden flag decides: hidden guests are all shown, otherwise
      all are hidden. For a guest, every guest of its host is hidden. */
  function Toggle(s: State, id: TabId): (st: Step<ToggleOutcome>)
    requires WellFormed(s.reg)
    ensures st.state.reg == s.reg
    ensures !IsStacked(s.reg, id) ==> st == Step(s, NotInStack)
    ensures IsTop(s.reg, id) ==>
              var rest := GetRest(s.reg, id);
              && st.outcome == HostToggled(id, |rest| > 0 && rest[0] in s.hidden)
              && forall g :: IsGuestOf(s.reg, g, id) ==> (g in st.state.hidden <==> !st.outcome.expanded)
    ensures IsStacked(s.reg, id) && !IsTop(s.reg, id) ==>
              && st.outcome == GuestToggled(s.reg.top[id])
              && (Valid(s.reg) ==> forall g :: IsGuestOf(s.reg, g, s.reg.top[id]) ==> g in st.state.hidden)
    ensures IsTop(s.reg, id) ==>
              forall k :: !IsGuestOf(s.reg, k, id) ==> (k in st.state.hidden <==> k in s.hidden)
    ensures forall k :: k !in s.reg.top ==> (k in st.state.hidden <==> k in s.hidden)
    ensures Valid(s.reg) ==>
              forall k :: !(IsStacked(s.reg, id) && IsGuestOf(s.reg, k, s.reg.top[id])) ==>
                (k in st.state.hidden <==> k in s.hidden)
  {
    if !IsStacked(s.reg, id) then Step(s, NotInStack)
    else if IsTop(s.reg, id) then
      var guests := GetRest(s.reg, id);
      var show := |guests| > 0 && guests[0] in s.hidden;
      var hidden := if show then s.hidden - Elems(guests) else s.hidden + Elems(guests);
      Step(State(s.reg, hidden), HostToggled(id, show))
    else
      var host := s.reg.top[id];
      Step(State(s.reg, s.hidden + Elems(GetRest(s.reg, host))), GuestToggled(host))
  }

  // ---------------------------------------------------------------------------
  // stack

  /** The map right after the `set` loop of a successful `stack`: the host is
      a top, its guests are the other selected tabs, and the first of them
      in iteration order is the first selected tab other than the host. */
  lemma {:induction false} FreshStackFacts(s: State, sel: seq<Tab>, h: TabId)
    requires WellFormed(s.reg)
    requires Stackable(s.reg, sel)
    requires FirstActive(sel) == Some(h)
    ensures forall k :: k in Ids(sel) ==> k !in s.reg.top
    ensures var reg := PutAll(s.reg, Ids(sel), h);
            && IsTop(reg, h)
            && (Valid(s.reg) ==> forall k :: IsGuestOf(reg, k, h) <==> k in Ids(sel) && k != h)
            && (Valid(s.reg) && Distinct(Ids(sel)) ==>
                  var rest := GetRest(reg, h);
                  |rest| > 0 && rest[0] == (if sel[0].id == h then sel[1].id else sel[0].id))
  {
    var o, ids := s.reg, Ids(sel);
    var reg := PutAll(o, ids, h);
    var i :| 0 <= i < |sel| && sel[i].active && sel[i].id == h;
    assert ids[i] == h;
    assert forall k :: k in ids ==> k !in o.top by {
      forall k | k in ids ensures k !in o.top {
        var j :| 0 <= j < |ids| && ids[j] == k;
        assert !IsStacked(o, sel[j].id);
      }
    }
    if Valid(o) {
      forall k | k in o.top && k !in ids ensures reg.top[k] != h {
        assert o.top[k] in o.top;
      }
      if Distinct(ids) {
        PutAllFreshStack(o, ids, h);
        KeepOneFirst(ids, h);
      }
    }
  }

  /** The toggle that ends a successful `stack` changes the hidden flag of
      the other selected tabs only, and gives them all one flag: the opposite
      of the old flag of the first of them. */
  lemma {:induction false} FreshToggleHidden(s: State, sel: seq<Tab>, h: TabId)
    requires WellFormed(s.reg)
    requires Stackable(s.reg, sel)
    requires FirstActive(sel) == Some(h)
    ensures var t := Toggle(State(PutAll(s.reg, Ids(sel), h), s.hidden), h).state;
            Valid(s.reg) ==>
              && (forall k :: k !in Ids(sel) || k == h ==> (k in t.hidden <==> k in s.hidden))
              && (forall i, j :: 0 <= i < |sel| && 0 <= j < |sel| && sel[i].id != h && sel[j].id != h ==>
                    (sel[i].id in t.hidden <==> sel[j].id in t.hidden))
    ensures var t := Toggle(State(PutAll(s.reg, Ids(sel), h), s.hidden), h).state;
            Valid(s.reg) && Distinct(Ids(sel)) ==>
              var first := if sel[0].id == h then sel[1].id else sel[0].id;
              forall i :: 0 <= i < |sel| && sel[i].id != h ==> (sel[i].id in t.hidden <==> first !in s.hidden)
  {
    var reg := PutAll(s.reg, Ids(sel), h);
    var t := Toggle(State(reg, s.hidden), h);
    FreshStackFacts(s, sel, h);
    if Valid(s.reg) {
      forall i | 0 <= i < |sel| && sel[i].id != h ensures IsGuestOf(reg, sel[i].id, h) {
        assert sel[i].id == Ids(sel)[i];
      }
      forall k | k !in Ids(sel) || k == h ensures k in t.state.hidden <==> k in s.hidden {
        assert !IsGuestOf(reg, k, h);
      }
      if Distinct(Ids(sel)) {
        var rest := GetRest(reg, h);
        assert t.outcome.expanded == (rest[0] in s.hidden);
      }
    }
  }

  /** The success path of `stack`: every selected tab is set to the host `h`,
      then the new stack is toggled from `h`, which hides the guests when the
      first of them was visible. */
  function StackOnto(s: State, sel: seq<Tab>, h: TabId): (st: State)
    requires WellFormed(s.reg)
    requires Stackable(s.reg, sel)
    requires FirstActive(sel) == Some(h)
    ensures WellFormed(st.reg)
    ensures forall k :: IsStacked(st.reg, k) <==> IsStacked(s.reg, k) || k in Ids(sel)
    ensures forall i :: 0 <= i < |sel| ==> sel[i].id in st.reg.top && st.reg.top[sel[i].id] == h
    ensures forall k :: k in s.reg.top ==> k in st.reg.top && st.reg.top[k] == s.reg.top[k]
    ensures Distinct(Ids(sel)) ==> st.reg.order == s.reg.order + Ids(sel)
    ensures Valid(s.reg) ==>
              && (forall k :: k !in Ids(sel) || k == h ==> (k in st.hidden <==> k in s.hidden))
              && (forall i, j :: 0 <= i < |sel| && 0 <= j < |sel| && sel[i].id != h && sel[j].id != h ==>
                    (sel[i].id in st.hidden <==> sel[j].id in st.hidden))
    ensures Valid(s.reg) && Distinct(Ids(sel)) ==>
              var first := if sel[0].id == h then sel[1].id else sel[0].id;
              forall i :: 0 <= i < |sel| && sel[i].id != h ==> (sel[i].id in st.hidden <==> first !in s.hidden)
  {
    var reg := PutAll(s.reg, Ids(sel), h);
    FreshStackFacts(s, sel, h);
    FreshToggleHidden(s, sel, h);
    assert Distinct(Ids(sel)) ==> reg.order == s.reg.order + Ids(sel) by {
      if Distinct(Ids(sel)) {
        PutAllAppends(s.reg, Ids(sel), h);
      }
    }
    Toggle(State(reg, s.hidden), h).state
  }

  /** `stack()` on the window's highlighted tabs `sel`. Fewer than two tabs, or
      any selected tab already stacked, leaves everything unchanged; otherwise
      every selected tab is mapped to the active one and the new stack is
      toggled from its host. */
  function Stack(s: State, sel: seq<Tab>): (st: Step<StackOutcome>)
    requires WellFormed(s.reg)
    ensures WellFormed(st.state.reg)
    ensures |sel| < 2 ==> st == Step(s, TooFewTabs)
    ensures |sel| >= 2 && AnyStacked(s.reg, sel) ==> st == Step(s, DoubleStacking)
    ensures st.outcome.NoActiveTab? ==> st.state == s
    ensures |sel| >= 2 && !AnyStacked(s.reg, sel) && (forall i :: 0 <= i < |sel| ==> !sel[i].active) ==>
              st == Step(s, NoActiveTab)
    ensures st.outcome.Stacked? <==> Stackable(s.reg, sel)
    ensures st.outcome.Stacked? ==> FirstActive(sel) == Some(st.outcome.host)
    ensures st.outcome.Stacked? && Distinct(Ids(sel)) ==> st.state.reg.order == s.reg.order + Ids(sel)
    ensures st.outcome.Stacked? ==>
              var h := st.outcome.host;
              && (exists i :: 0 <= i < |sel| && sel[i].active && sel[i].id == h)
              && (forall k :: IsStacked(st.state.reg, k) <==> IsStacked(s.reg, k) || k in Ids(sel))
              && (forall i :: 0 <= i < |sel| ==> sel[i].id in st.state.reg.top && st.state.reg.top[sel[i].id] == h)
              && (forall k :: k in s.reg.top ==> k in st.state.reg.top && st.state.reg.top[k] == s.reg.top[k])
    ensures Valid(s.reg) && st.outcome.Stacked? ==>
              var h := st.outcome.host;
              && (forall k :: k !in Ids(sel) || k == h ==> (k in st.state.hidden <==> k in s.hidden))
              && (forall i, j :: 0 <= i < |sel| && 0 <= j < |sel| && sel[i].id != h && sel[j].id != h ==>
                    (sel[i].id in st.state.hidden <==> sel[j].id in st.state.hidden))
    ensures Valid(s.reg) && Distinct(Ids(sel)) && st.outcome.Stacked? ==>
              var h := st.outcome.host;
              var first := if sel[0].id == h then sel[1].id else sel[0].id;
              forall i :: 0 <= i < |sel| && sel[i].id != h ==> (sel[i].id in st.state.hidden <==> first !in s.hidden)
  {
    if |sel| < 2 then Step(s, TooFewTabs)
    else if AnyStacked(s.reg, sel) then Step(s, DoubleStacking)
    else match FirstActive(sel)
      case None => Step(s, NoActiveTab)
      case Some(h) => Step(StackOnto(s, sel, h), Stacked(h))
  }

  // ---------------------------------------------------------------------------
  // unstack

  /** `unstack()` with the window's active tab `active`. If it is stacked,
      EVERY key of the registry is deleted (every stack, not only the active
      tab's) and all of them are shown; otherwise nothing changes. */
  function Unstack(s: State, active: TabId): (st: Step<UnstackOutcome>)
    requires WellFormed(s.reg)
    ensures WellFormed(st.state.reg)
    ensures IsStacked(s.reg, active) ==>
              && st.state.reg == Empty
              && st.outcome.Unstacked?
              && Elems(st.outcome.removed) == s.reg.top.Keys
              && Distinct(st.outcome.removed)
              && SubSeq(st.outcome.removed, s.reg.order)
              && (forall k :: k in s.reg.top ==> k !in st.state.hidden)
              && (forall k :: k !in s.reg.top ==> (k in st.state.hidden <==> k in s.hidden))
    ensures !IsStacked(s.reg, active) ==> st == Step(s, NothingToUnstack)
  {
    if IsStacked(s.reg, active) then
      var removed := s.reg.order;
      SubSeqRefl(removed);
      var reg := RemoveKeys(s.reg, Elems(removed));
      Step(State(reg, s.hidden - Elems(removed)), Unstacked(removed))
    else
      Step(s, NothingToUnstack)
  }

  // ---------------------------------------------------------------------------
  // handleRemoved

  /** The top branch of `handleRemoved`: every entry whose value is the closed
      top `id` is deleted, `id`'s own included, and those tabs are shown. */
  function RemoveTop(s: State, id: TabId): (st: Step<RemoveOutcome>)
    requires WellFormed(s.reg)
    ensures WellFormed(st.state.reg)
    ensures forall k :: k in st.state.reg.top <==> k in s.reg.top && s.reg.top[k] != id
    ensures forall k :: k in st.state.reg.top ==> st.state.reg.top[k] == s.reg.top[k]
    ensures forall k :: k in s.reg.top && s.reg.top[k] == id ==> k !in st.state.hidden
    ensures forall k :: !(k in s.reg.top && s.reg.top[k] == id) ==> (k in st.state.hidden <==> k in s.hidden)
    ensures SubSeq(st.state.reg.order, s.reg.order)
    ensures st.outcome.TopRemoved?
    ensures forall k :: k in st.outcome.shown <==> k in s.reg.top && s.reg.top[k] == id
    ensures Distinct(st.outcome.shown) && SubSeq(st.outcome.shown, s.reg.order)
  {
    var gone := MembersWithTop(s.reg, id);
    Step(State(RemoveKeys(s.reg, Elems(gone)), s.hidden - Elems(gone)), TopRemoved(gone))
  }

  /** Deleting the entries of a member `id` and of its top: the top's entry
      first, then `id`'s. */
  function DeleteWithTop(s: State, id: TabId): (st: State)
    requires WellFormed(s.reg)
    requires IsStacked(s.reg, id)
    ensures WellFormed(st.reg)
    ensures st.hidden == s.hidden
    ensures st.reg.top == s.reg.top - {id, s.reg.top[id]}
    ensures SubSeq(st.reg.order, s.reg.order)
  {
    var once := Remove(s.reg, s.reg.top[id]);
    SubSeqTrans(Remove(once, id).order, once.order, s.reg.order);
    State(Remove(once, id), s.hidden)
  }

  /** The other branch of `handleRemoved`: `getRest` is taken before any
      delete; when it has exactly one entry (the closed guest itself) the
      top's entry is deleted too; then the closed tab's own entry goes. An
      unstacked id has an empty `getRest`, and deleting it changes nothing. */
  function RemoveNonTop(s: State, id: TabId): (st: Step<RemoveOutcome>)
    requires WellFormed(s.reg)
    requires !IsTop(s.reg, id)
    ensures WellFormed(st.state.reg)
    ensures st.state.hidden == s.hidden
    ensures IsStacked(s.reg, id) && |GetRest(s.reg, id)| == 1 ==>
              st.state.reg.top == s.reg.top - {id, s.reg.top[id]} && st.outcome == OnlyTopLeft(s.reg.top[id])
    ensures IsStacked(s.reg, id) && |GetRest(s.reg, id)| != 1 ==>
              st.state.reg.top == s.reg.top - {id} && st.outcome == Quiet
    ensures !IsStacked(s.reg, id) ==> st == Step(s, Quiet)
    ensures SubSeq(st.state.reg.order, s.reg.order)
  {
    var rest := GetRest(s.reg, id);
    if |rest| == 1 then
      Step(DeleteWithTop(s, id), OnlyTopLeft(s.reg.top[id]))
    else
      Step(State(Remove(s.reg, id), s.hidden), Quiet)
  }

  /** `handleRemoved(tabId)`: closing a top deletes (and shows) its whole
      stack; closing the last guest deletes the top's entry too; closing
      another guest deletes only its own entry; an unstacked tab changes
      nothing. */
  function HandleRemoved(s: State, id: TabId): (st: Step<RemoveOutcome>)
    requires WellFormed(s.reg)
    ensures WellFormed(st.state.reg)
    ensures IsTop(s.reg, id) ==>
              && (forall k :: k in st.state.reg.top <==> k in s.reg.top && s.reg.top[k] != id)
              && (forall k :: k in st.state.reg.top ==> st.state.reg.top[k] == s.reg.top[k])
              && (forall k :: k in s.reg.top && s.reg.top[k] == id ==> k !in st.state.hidden)
              && (forall k :: !(k in s.reg.top && s.reg.top[k] == id) ==> (k in st.state.hidden <==> k in s.hidden))
              && st.outcome.TopRemoved?
              && (forall k :: k in st.outcome.shown <==> k in s.reg.top && s.reg.top[k] == id)
              && Distinct(st.outcome.shown) && SubSeq(st.outcome.shown, s.reg.order)
    ensures IsStacked(s.reg, id) && !IsTop(s.reg, id) && |GetRest(s.reg, id)| == 1 ==>
              && st.state.reg.top == s.reg.top - {id, s.reg.top[id]}
              && st.state.hidden == s.hidden
              && st.outcome == OnlyTopLeft(s.reg.top[id])
    ensures IsStacked(s.reg, id) && !IsTop(s.reg, id) && |GetRest(s.reg, id)| != 1 ==>
              st.state.reg.top == s.reg.top - {id} && st.state.hidden == s.hidden && st.outcome == Quiet
    ensures !IsStacked(s.reg, id) ==> st == Step(s, Quiet)
    ensures SubSeq(st.state.reg.order, s.reg.order)
  {
    if IsTop(s.reg, id) then RemoveTop(s, id) else RemoveNonTop(s, id)
  }

  // ---------------------------------------------------------------------------
  // handleActivated

  /** `handleActivated`: the toolbar button is enabled exactly for stacked
      tabs, and the window title is prefixed by the tab's role. */
  function Activated(r: Registry, id: TabId): (ind: Indicator)
    ensures RoleOf(r, id) == Free ==> ind == Indicator(false, "")
    ensures RoleOf(r, id) == Host ==> ind == Indicator(true, HostPreface)
    ensures RoleOf(r, id).Guest? ==> ind == Indicator(true, GuestPreface)
  {
    if IsStacked(r, id) then
      if IsTop(r, id) then Indicator(true, HostPreface) else Indicator(true, GuestPreface)
    else
      Indicator(false, "")
  }
}
