/**
 Properties that relate several handler calls, or a handler to the registry
 invariant: every handler keeps `Valid`, so a registry built from the empty map
 by any sequence of browser events never holds a chain or a one-tab stack.
 */
module StackProperties {
  import opened StackRegistry
  import opened StackController

  // ---------------------------------------------------------------------------
  // The invariant is kept by every handler

  /** A successful `stack` keeps the invariant: the old stacks are untouched
      (none of their tabs was selected) and the new host has a guest, because
      the browser never reports one tab id twice in a selection. */
  lemma {:induction false} StackKeepsValid(s: State, sel: seq<Tab>)
    requires Valid(s.reg)
    requires Distinct(Ids(sel))
    ensures Valid(Stack(s, sel).state.reg)
  {
    var st := Stack(s, sel);
    if st.outcome.Stacked? {
      var h := st.outcome.host;
      var o, r := s.reg, st.state.reg;
      var ids := Ids(sel);
      var i :| 0 <= i < |sel| && sel[i].active && sel[i].id == h;
      assert ids[i] == h;
      assert forall k :: k in ids ==> k !in o.top by {
        forall k | k in ids ensures k !in o.top {
          var j :| 0 <= j < |ids| && ids[j] == k;
          assert !IsStacked(o, sel[j].id);
        }
      }
      forall k | k in r.top
        ensures r.top[k] in r.top && r.top[r.top[k]] == r.top[k]
      {
        if k in o.top {
          var v := o.top[k];
          assert v in o.top && o.top[v] == v;
        } else {
          assert k in ids;
          var j :| 0 <= j < |ids| && ids[j] == k;
          assert r.top[sel[j].id] == h;
        }
      }
      forall x | x in r.top && r.top[x] == x
        ensures exists g :: g in r.top && IsGuestOf(r, g, x)
      {
        if x in o.top {
          var g :| g in o.top && IsGuestOf(o, g, x);
          assert IsGuestOf(r, g, x);
        } else {
          var j :| 0 <= j < |ids| && ids[j] == x;
          assert r.top[sel[j].id] == h;
          var g := if i == 0 then ids[1] else ids[0];
          assert g != h;
          assert r.top[g] == h;
          assert IsGuestOf(r, g, x);
        }
      }
    }
  }

  /** `unstack` keeps the invariant: it leaves the map either unchanged or
      empty. */
  lemma UnstackKeepsValid(s: State, active: TabId)
    requires Valid(s.reg)
    ensures Valid(Unstack(s, active).state.reg)
  {
  }

  /** `toggleStack` keeps the invariant: it never writes the map. */
  lemma ToggleKeepsValid(s: State, id: TabId)
    requires Valid(s.reg)
    ensures Valid(Toggle(s, id).state.reg)
  {
  }

  /** In a valid registry, a guest's `getRest` has exactly one entry iff the
      guest is the only guest of its host. */
  lemma {:induction false} SingleRestIsLastGuest(r: Registry, id: TabId)
    requires Valid(r)
    requires IsStacked(r, id) && !IsTop(r, id)
    ensures |GetRest(r, id)| == 1 <==> forall g :: IsGuestOf(r, g, r.top[id]) ==> g == id
  {
    if |GetRest(r, id)| == 1 {
      SingleRestOnlyGuest(r, id);
    }
    if forall g :: IsGuestOf(r, g, r.top[id]) ==> g == id {
      OnlyGuestSingleRest(r, id);
    }
  }

  lemma SingleRestOnlyGuest(r: Registry, id: TabId)
    requires WellFormed(r)
    requires IsStacked(r, id) && !IsTop(r, id)
    requires |GetRest(r, id)| == 1
    ensures forall g :: IsGuestOf(r, g, r.top[id]) ==> g == id
  {
    var rest := GetRest(r, id);
    assert id in rest;
    assert rest == [id];
  }

  lemma OnlyGuestSingleRest(r: Registry, id: TabId)
    requires WellFormed(r)
    requires IsStacked(r, id) && !IsTop(r, id)
    requires forall g :: IsGuestOf(r, g, r.top[id]) ==> g == id
    ensures |GetRest(r, id)| == 1
  {
    var rest := GetRest(r, id);
    assert id in rest;
    assert Elems(rest) == {id};
    DistinctCount(rest);
  }

  /** `handleRemoved` keeps the invariant in each of its branches. */
  lemma {:induction false} HandleRemovedKeepsValid(s: State, id: TabId)
    requires Valid(s.reg)
    ensures Valid(HandleRemoved(s, id).state.reg)
  {
    var o, r := s.reg, HandleRemoved(s, id).state.reg;
    if IsTop(o, id) {
      TopDropKeepsValid(o, r, id);
    } else if IsStacked(o, id) {
      SingleRestIsLastGuest(o, id);
      if |GetRest(o, id)| == 1 {
        LastGuestDropNoChains(o, r, id);
        LastGuestDropHostsHaveGuests(o, r, id);
      } else {
        var g2 :| IsGuestOf(o, g2, o.top[id]) && g2 != id;
        GuestDropKeepsValid(o, r, id, g2);
      }
    }
  }

  /** Dropping a whole stack leaves the others as they were. */
  lemma TopDropKeepsValid(o: Registry, r: Registry, id: TabId)
    requires Valid(o) && WellFormed(r)
    requires IsTop(o, id)
    requires forall k :: k in r.top <==> k in o.top && o.top[k] != id
    requires forall k :: k in r.top ==> r.top[k] == o.top[k]
    ensures Valid(r)
  {
  }

  /** Dropping the only guest of a stack together with its top leaves no
      chain. */
  lemma {:induction false} LastGuestDropNoChains(o: Registry, r: Registry, id: TabId)
    requires Valid(o)
    requires IsStacked(o, id) && !IsTop(o, id)
    requires forall g :: IsGuestOf(o, g, o.top[id]) ==> g == id
    requires r.top == o.top - {id, o.top[id]}
    ensures ValuesAreHosts(r)
  {
    var h := o.top[id];
    forall k | k in r.top
      ensures r.top[k] in r.top && r.top[r.top[k]] == r.top[k]
    {
      var v := o.top[k];
      assert v in o.top && o.top[v] == v;
      assert k in o.top && k != id && k != h;
      assert IsGuestOf(o, k, h) ==> k == id;
    }
  }

  /** Dropping a guest together with its top leaves every other host its
      guests. */
  lemma {:induction false} LastGuestDropHostsHaveGuests(o: Registry, r: Registry, id: TabId)
    requires Valid(o)
    requires IsStacked(o, id) && !IsTop(o, id)
    requires r.top == o.top - {id, o.top[id]}
    ensures HostsHaveGuests(r)
  {
    var h := o.top[id];
    forall x | x in r.top && r.top[x] == x
      ensures exists g :: g in r.top && IsGuestOf(r, g, x)
    {
      assert x != h && o.top[x] == x;
      var g :| g in o.top && IsGuestOf(o, g, x);
      assert g != id && g != h;
      assert IsGuestOf(r, g, x);
    }
  }

  /** Dropping one of several guests leaves every stack with a guest. */
  lemma {:induction false} GuestDropKeepsValid(o: Registry, r: Registry, id: TabId, g2: TabId)
    requires Valid(o) && WellFormed(r)
    requires IsStacked(o, id) && !IsTop(o, id)
    requires IsGuestOf(o, g2, o.top[id]) && g2 != id
    requires r.top == o.top - {id}
    ensures Valid(r)
  {
    var h := o.top[id];
    assert h in o.top && o.top[h] == h;
    forall k | k in r.top
      ensures r.top[k] in r.top && r.top[r.top[k]] == r.top[k]
    {
      var v := o.top[k];
      assert v in o.top && o.top[v] == v;
    }
    forall x | x in r.top && r.top[x] == x
      ensures exists g :: g in r.top && IsGuestOf(r, g, x)
    {
      if x == h {
        assert IsGuestOf(r, g2, x);
      } else {
        var g :| g in o.top && IsGuestOf(o, g, x);
        assert IsGuestOf(r, g, x);
      }
    }
  }

  // ---------------------------------------------------------------------------
  // Sequences of events

  /** A browser event the extension listens to (or a menu click). */
  datatype Event = StackClicked(sel: seq<Tab>) | UnstackClicked(active: TabId)
                 | ToolbarClicked(active: TabId) | TabClosed(id: TabId)

  /** Dispatching one event to its handler. */
  function Apply(s: State, e: Event): (s': State)
    requires WellFormed(s.reg)
    ensures WellFormed(s'.reg)
  {
    match e
    case StackClicked(sel) => Stack(s, sel).state
    case UnstackClicked(active) => Unstack(s, active).state
    case ToolbarClicked(active) => Toggle(s, active).state
    case TabClosed(id) => HandleRemoved(s, id).state
  }

  /** Handling the events one after another, each as one atomic step. */
  function Run(s: State, es: seq<Event>): (s': State)
    requires WellFormed(s.reg)
    ensures WellFormed(s'.reg)
    decreases |es|
  {
    if es == [] then s else Run(Apply(s, es[0]), es[1..])
  }

  /** The browser reports every selection without repeated tab ids. */
  predicate DistinctSelections(es: seq<Event>) {
    forall i :: 0 <= i < |es| && es[i].StackClicked? ==> Distinct(Ids(es[i].sel))
  }

  lemma DistinctSelectionsTail(es: seq<Event>)
    requires es != [] && DistinctSelections(es)
    ensures DistinctSelections(es[1..])
  {
    forall i | 0 <= i < |es[1..]| && es[1..][i].StackClicked?
      ensures Distinct(Ids(es[1..][i].sel))
    {
      assert es[1..][i] == es[i + 1];
    }
  }

  /** Every event keeps the invariant. */
  lemma {:induction false} ApplyKeepsValid(s: State, e: Event)
    requires Valid(s.reg)
    requires e.StackClicked? ==> Distinct(Ids(e.sel))
    ensures Valid(Apply(s, e).reg)
  {
    match e
    case StackClicked(sel) => StackKeepsValid(s, sel);
    case UnstackClicked(active) => UnstackKeepsValid(s, active);
    case ToolbarClicked(active) => ToggleKeepsValid(s, active);
    case TabClosed(id) => HandleRemovedKeepsValid(s, id);
  }

  /** From the empty registry, any sequence of events keeps the invariant: no
      chains, and no stack of a single tab. */
  lemma {:induction false} RunKeepsValid(s: State, es: seq<Event>)
    requires Valid(s.reg)
    requires DistinctSelections(es)
    ensures Valid(Run(s, es).reg)
    decreases |es|
  {
    if es != [] {
      ApplyKeepsValid(s, es[0]);
      DistinctSelectionsTail(es);
      RunKeepsValid(Apply(s, es[0]), es[1..]);
    }
  }

  /** The registry the extension starts with stays valid whatever happens. */
  lemma FromStartAlwaysValid(hidden: set<TabId>, es: seq<Event>)
    requires DistinctSelections(es)
    ensures Valid(Run(State(Empty, hidden), es).reg)
  {
    EmptyIsValid();
    RunKeepsValid(State(Empty, hidden), es);
  }

  // ---------------------------------------------------------------------------
  // Visibility

  /** Toggling a host twice restores the visibility of every tab, provided its
      guests were all hidden or all shown to begin with. */
  lemma HostToggleTwiceRestores(s: State, id: TabId)
    requires WellFormed(s.reg)
    requires IsTop(s.reg, id)
    requires (forall g :: IsGuestOf(s.reg, g, id) ==> g in s.hidden) ||
             (forall g :: IsGuestOf(s.reg, g, id) ==> g !in s.hidden)
    ensures Toggle(Toggle(s, id).state, id).state == s
  {
  }

  /** A host toggle leaves all guests in one visibility state, the opposite of
      the one the first guest had. */
  lemma HostToggleUniform(s: State, id: TabId, g1: TabId, g2: TabId)
    requires WellFormed(s.reg)
    requires IsTop(s.reg, id)
    requires IsGuestOf(s.reg, g1, id) && IsGuestOf(s.reg, g2, id)
    ensures g1 in Toggle(s, id).state.hidden <==> g2 in Toggle(s, id).state.hidden
    ensures g1 in Toggle(s, id).state.hidden <==> GetRest(s.reg, id)[0] !in s.hidden
  {
  }

  /** A host toggle whose guests are all visible hides every guest and
      nothing else. */
  lemma HostToggleCollapsesVisibleGuests(s: State, id: TabId)
    requires WellFormed(s.reg)
    requires IsTop(s.reg, id)
    requires forall g :: IsGuestOf(s.reg, g, id) ==> g !in s.hidden
    ensures forall g :: IsGuestOf(s.reg, g, id) ==> g in Toggle(s, id).state.hidden
    ensures forall k :: !IsGuestOf(s.reg, k, id) ==> (k in Toggle(s, id).state.hidden <==> k in s.hidden)
  {
  }

  // ---------------------------------------------------------------------------
  // The guests of a stack share one hidden flag

  /** All guests of one host are hidden, or all are shown. */
  ghost predicate GuestsUniform(s: State) {
    forall h, g1, g2 :: IsGuestOf(s.reg, g1, h) && IsGuestOf(s.reg, g2, h) ==> (g1 in s.hidden <==> g2 in s.hidden)
  }

  /** A toggle sets all guests of the toggled stack alike and leaves every
      other stack alone. */
  lemma ToggleKeepsUniform(s: State, id: TabId)
    requires Valid(s.reg) && GuestsUniform(s)
    ensures GuestsUniform(Toggle(s, id).state)
  {
  }

  /** `stack` gives the new stack's guests one flag, and touches neither the
      registry entries nor the flags of the old stacks. */
  lemma {:induction false} StackKeepsUniform(s: State, sel: seq<Tab>)
    requires Valid(s.reg) && GuestsUniform(s)
    ensures GuestsUniform(Stack(s, sel).state)
  {
    var st := Stack(s, sel);
    if st.outcome.Stacked? {
      var o, r, hh := s.reg, st.state.reg, st.outcome.host;
      var i :| 0 <= i < |sel| && sel[i].active && sel[i].id == hh;
      assert hh !in o.top by {
        assert !IsStacked(o, sel[i].id);
      }
      forall h, g1, g2 | IsGuestOf(r, g1, h) && IsGuestOf(r, g2, h)
        ensures g1 in st.state.hidden <==> g2 in st.state.hidden
      {
        if h == hh {
          var j1 := SelectedIndex(s, sel, g1);
          var j2 := SelectedIndex(s, sel, g2);
        } else {
          OldGuest(s, sel, g1, h);
          OldGuest(s, sel, g2, h);
        }
      }
    }
  }

  /** A guest of the new host is one of the selected tabs. */
  lemma SelectedIndex(s: State, sel: seq<Tab>, g: TabId) returns (j: int)
    requires Valid(s.reg)
    requires Stack(s, sel).outcome.Stacked?
    requires IsGuestOf(Stack(s, sel).state.reg, g, Stack(s, sel).outcome.host)
    ensures 0 <= j < |sel| && sel[j].id == g
  {
    var st := Stack(s, sel);
    var hh := st.outcome.host;
    var i :| 0 <= i < |sel| && sel[i].active && sel[i].id == hh;
    assert !IsStacked(s.reg, sel[i].id);
    forall k | k in s.reg.top ensures st.state.reg.top[k] != hh {
      assert s.reg.top[k] in s.reg.top;
    }
    assert g in Ids(sel);
    j :| 0 <= j < |Ids(sel)| && Ids(sel)[j] == g;
  }

  /** A guest of any other host was that host's guest before, and kept its
      hidden flag. */
  lemma OldGuest(s: State, sel: seq<Tab>, g: TabId, h: TabId)
    requires Valid(s.reg)
    requires Stack(s, sel).outcome.Stacked?
    requires h != Stack(s, sel).outcome.host
    requires IsGuestOf(Stack(s, sel).state.reg, g, h)
    ensures IsGuestOf(s.reg, g, h)
    ensures g in Stack(s, sel).state.hidden <==> g in s.hidden
  {
    var st := Stack(s, sel);
    assert forall j :: 0 <= j < |sel| ==> st.state.reg.top[sel[j].id] == st.outcome.host;
    assert g !in Ids(sel);
  }

  /** `unstack` leaves no guest at all, or changes nothing. */
  lemma UnstackKeepsUniform(s: State, active: TabId)
    requires WellFormed(s.reg) && GuestsUniform(s)
    ensures GuestsUniform(Unstack(s, active).state)
  {
  }

  /** `handleRemoved` only deletes entries, and changes the flag only of tabs
      whose stack it deletes. */
  lemma {:induction false} HandleRemovedKeepsUniform(s: State, id: TabId)
    requires WellFormed(s.reg) && GuestsUniform(s)
    ensures GuestsUniform(HandleRemoved(s, id).state)
  {
    var st := HandleRemoved(s, id).state;
    forall h, g1, g2 | IsGuestOf(st.reg, g1, h) && IsGuestOf(st.reg, g2, h)
      ensures g1 in st.hidden <==> g2 in st.hidden
    {
      assert IsGuestOf(s.reg, g1, h) && IsGuestOf(s.reg, g2, h);
      assert g1 in st.hidden <==> g1 in s.hidden;
      assert g2 in st.hidden <==> g2 in s.hidden;
    }
  }

  lemma {:induction false} ApplyKeepsUniform(s: State, e: Event)
    requires Valid(s.reg) && GuestsUniform(s)
    ensures GuestsUniform(Apply(s, e))
  {
    match e
    case StackClicked(sel) => StackKeepsUniform(s, sel);
    case UnstackClicked(active) => UnstackKeepsUniform(s, active);
    case ToolbarClicked(active) => ToggleKeepsUniform(s, active);
    case TabClosed(id) => HandleRemovedKeepsUniform(s, id);
  }

  /** Any sequence of events keeps every stack's guests alike. */
  lemma {:induction false} RunKeepsUniform(s: State, es: seq<Event>)
    requires Valid(s.reg) && GuestsUniform(s)
    requires DistinctSelections(es)
    ensures GuestsUniform(Run(s, es))
    decreases |es|
  {
    if es != [] {
      ApplyKeepsValid(s, es[0]);
      ApplyKeepsUniform(s, es[0]);
      DistinctSelectionsTail(es);
      RunKeepsUniform(Apply(s, es[0]), es[1..]);
    }
  }

  /** In every state the model reaches from the empty registry, toggling a
      host twice restores the visibility of every tab. The model changes the
      hidden flag only through the handlers, and every hide and show takes
      effect. */
  lemma {:induction false} ReachableHostToggleTwice(hidden: set<TabId>, es: seq<Event>, h: TabId)
    requires DistinctSelections(es)
    requires IsTop(Run(State(Empty, hidden), es).reg, h)
    ensures var s := Run(State(Empty, hidden), es);
            Toggle(Toggle(s, h).state, h).state == s
  {
    var s := Run(State(Empty, hidden), es);
    FromStartAlwaysValid(hidden, es);
    RunKeepsUniform(State(Empty, hidden), es);
    if !(forall g :: IsGuestOf(s.reg, g, h) ==> g in s.hidden) {
      var g0 :| IsGuestOf(s.reg, g0, h) && g0 !in s.hidden;
      assert forall g :: IsGuestOf(s.reg, g, h) ==> g !in s.hidden;
    }
    HostToggleTwiceRestores(s, h);
  }

  /** The guests of a freshly stacked host are exactly the other selected
      tabs. */
  lemma StackGuestsAreSelection(s: State, sel: seq<Tab>)
    requires Valid(s.reg)
    requires Stackable(s.reg, sel)
    ensures var st := Stack(s, sel);
            forall g :: IsGuestOf(st.state.reg, g, st.outcome.host) <==> g in Ids(sel) && g != st.outcome.host
  {
  }

  /** A successful `stack` is the `set` loop followed by a toggle of the
      active tab. */
  lemma StackIsSetThenToggle(s: State, sel: seq<Tab>)
    requires WellFormed(s.reg)
    requires Stackable(s.reg, sel)
    ensures FirstActive(sel).Some?
    ensures var h := FirstActive(sel).value;
            Stack(s, sel) == Step(Toggle(State(PutAll(s.reg, Ids(sel), h), s.hidden), h).state, Stacked(h))
  {
  }

  /** A successful `stack` of tabs that were all visible leaves the host
      visible and hides every other selected tab. */
  lemma {:induction false} StackCollapsesVisibleSelection(s: State, sel: seq<Tab>)
    requires Valid(s.reg)
    requires forall i :: 0 <= i < |sel| ==> sel[i].id !in s.hidden
    requires Stackable(s.reg, sel)
    ensures var st := Stack(s, sel);
            && st.outcome.host !in st.state.hidden
            && forall i :: 0 <= i < |sel| && sel[i].id != st.outcome.host ==> sel[i].id in st.state.hidden
  {
    var h := FirstActive(sel).value;
    var reg := PutAll(s.reg, Ids(sel), h);
    var s1 := State(reg, s.hidden);
    StackIsSetThenToggle(s, sel);
    FreshStackFacts(s, sel, h);
    forall g | IsGuestOf(reg, g, h) ensures g !in s.hidden {
      var j :| 0 <= j < |Ids(sel)| && Ids(sel)[j] == g;
      assert sel[j].id !in s.hidden;
    }
    HostToggleCollapsesVisibleGuests(s1, h);
    forall j | 0 <= j < |sel| && sel[j].id != h
      ensures IsGuestOf(reg, sel[j].id, h)
    {
      assert Ids(sel)[j] == sel[j].id;
    }
  }

  /** After a toggle of a stacked tab in a valid registry, the indicator for the
      tab it reports is that of a host. */
  lemma ToggleReportsHost(s: State, id: TabId)
    requires Valid(s.reg)
    requires IsStacked(s.reg, id)
    ensures var st := Toggle(s, id);
            && (st.outcome.HostToggled? || st.outcome.GuestToggled?)
            && Activated(st.state.reg, st.outcome.host) == Indicator(true, HostPreface)
  {
  }

  /** After a successful `unstack` the indicator for the active tab is that of
      a free tab: `handleActivated` runs on an empty registry. */
  lemma UnstackReportsFree(s: State, active: TabId)
    requires WellFormed(s.reg)
    requires IsStacked(s.reg, active)
    ensures Activated(Unstack(s, active).state.reg, active) == Indicator(false, "")
  {
  }

  // ---------------------------------------------------------------------------
  // Round trips and teardown

  /** `stack` followed by `unstack` from any selected tab leaves no entry for
      any selected tab, and shows all of them again. */
  lemma StackThenUnstack(s: State, sel: seq<Tab>, i: int)
    requires WellFormed(s.reg)
    requires Stackable(s.reg, sel)
    requires 0 <= i < |sel|
    ensures var st := Unstack(Stack(s, sel).state, sel[i].id);
            && st.outcome.Unstacked?
            && forall j :: 0 <= j < |sel| ==> !IsStacked(st.state.reg, sel[j].id) && sel[j].id !in st.state.hidden
  {
  }

  /** Closing the last guest of a stack dissolves it: neither the guest nor
      its top is left, and no other entry changes. */
  lemma {:induction false} ClosingLastGuestDissolves(s: State, id: TabId)
    requires Valid(s.reg)
    requires IsStacked(s.reg, id) && !IsTop(s.reg, id)
    requires forall g :: IsGuestOf(s.reg, g, s.reg.top[id]) ==> g == id
    ensures var r := HandleRemoved(s, id).state.reg;
            && !IsStacked(r, id) && !IsStacked(r, s.reg.top[id])
            && forall k :: k in r.top <==> k in s.reg.top && k != id && k != s.reg.top[id]
  {
    SingleRestIsLastGuest(s.reg, id);
  }

  /** Closing one of several guests keeps the stack: its top is still a host
      with a guest. */
  lemma {:induction false} ClosingOneOfSeveralGuestsKeepsStack(s: State, id: TabId, other: TabId)
    requires Valid(s.reg)
    requires IsStacked(s.reg, id) && !IsTop(s.reg, id)
    requires IsGuestOf(s.reg, other, s.reg.top[id]) && other != id
    ensures var r := HandleRemoved(s, id).state.reg;
            && !IsStacked(r, id)
            && IsTop(r, s.reg.top[id])
            && IsGuestOf(r, other, s.reg.top[id])
  {
    SingleRestIsLastGuest(s.reg, id);
  }
}
