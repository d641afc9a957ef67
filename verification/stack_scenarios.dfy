/**
 Concrete runs of the handlers on tabs 1, 2 and 3 (with tab 4 and tab 7 in
 two refused selections, and a second stack of 5 and 6), each stated as the
 exact state and outcome the model produces.
 */
module StackScenarios {
  import opened StackRegistry
  import opened StackController

  /** Tabs 1, 2 and 3 highlighted, tab 1 active. */
  const Three: seq<Tab> := [Tab(1, true), Tab(2, false), Tab(3, false)]

  /** The registry holding the one stack 1 <- 2, 3. */
  const Reg123: Registry := Registry([1, 2, 3], map[1 := 1, 2 := 1, 3 := 1])

  /** That stack collapsed: both guests hidden. */
  const Collapsed123: State := State(Reg123, {2, 3})

  /** The members of the stack of 1 and its `getRest`, in iteration order. */
  lemma Members123()
    ensures MembersWithTop(Reg123, 1) == [1, 2, 3]
    ensures GetRest(Reg123, 1) == [2, 3]
    ensures GetRest(Reg123, 2) == [2, 3]
  {
    OneStackMembers(Reg123, 1);
    assert [1, 2, 3][1..] == [2, 3];
    assert Keep([2, 3], {1}) == [2, 3];
    assert Keep([1, 2, 3], {1}) == [2, 3];
  }

  /** Stacking 1, 2, 3 with 1 active maps all three to 1, and the toggle that
      follows hides both guests. */
  lemma StackOneTwoThree()
    ensures Stack(State(Empty, {}), Three) == Step(Collapsed123, Stacked(1))
  {
    SelectionThree();
    PutAllThree();
    CollapseFresh123();
  }

  lemma SelectionThree()
    ensures FirstActive(Three) == Some(1)
    ensures Ids(Three) == [1, 2, 3]
    ensures !AnyStacked(Empty, Three)
  {
    assert Three[1..] == [Tab(2, false), Tab(3, false)];
  }

  lemma PutAllThree()
    ensures PutAll(Empty, [1, 2, 3], 1) == Reg123
  {
    PutAllThreeOrder();
    PutAllThreeTop();
  }

  lemma PutAllThreeOrder()
    ensures PutAll(Empty, [1, 2, 3], 1).order == [1, 2, 3]
  {
    PutAllAppends(Empty, [1, 2, 3], 1);
  }

  lemma PutAllThreeTop()
    ensures PutAll(Empty, [1, 2, 3], 1).top == map[1 := 1, 2 := 1, 3 := 1]
  {
  }

  lemma CollapseFresh123()
    ensures Toggle(State(Reg123, {}), 1) == Step(Collapsed123, HostToggled(1, false))
  {
    Members123();
  }

  /** After that stack: 2 is stacked under 1 and the rest of 1 is [2, 3]. */
  lemma QueriesOnStack123()
    ensures IsStacked(Reg123, 2) && GetTop(Reg123, 2) == Some(1)
    ensures IsTop(Reg123, 1) && !IsTop(Reg123, 2)
    ensures GetRest(Reg123, 1) == [2, 3] && GetRest(Reg123, 3) == [2, 3]
  {
    Members123();
  }

  /** Closing the top 1 dissolves the stack and shows its guests. */
  lemma CloseTop()
    ensures var s := HandleRemoved(Collapsed123, 1).state;
            !IsStacked(s.reg, 2) && !IsStacked(s.reg, 3) && s.hidden == {}
  {
    Members123();
  }

  /** The stack 1 <- 3, left after guest 2 closed. */
  const Reg13: Registry := Registry([1, 3], map[1 := 1, 3 := 1])

  lemma RemoveTwo()
    ensures Remove(Reg123, 2) == Reg13
  {
    assert [1, 2, 3][1..] == [2, 3] && [2, 3][1..] == [3];
    assert Keep([3], {2}) == [3];
    assert Keep([2, 3], {2}) == [3];
    assert Keep([1, 2, 3], {2}) == [1, 3];
    assert (Reg123.top - {2}).Keys == Reg13.top.Keys;
    assert Reg123.top - {2} == Reg13.top;
  }

  /** Closing guest 2 keeps the stack of 1 and 3. */
  lemma CloseOneGuest()
    ensures HandleRemoved(Collapsed123, 2) == Step(State(Reg13, {2, 3}), Quiet)
    ensures IsStacked(Reg13, 1) && IsStacked(Reg13, 3) && GetTop(Reg13, 3) == Some(1)
  {
    Members123();
    RemoveTwo();
  }

  lemma RestOfThree()
    ensures GetRest(Reg13, 3) == [3]
  {
    var t := Reg13.top;
    assert [1, 3][1..] == [3] && [3][1..] == [];
    assert WithTop([3], t, 1) == [3];
    assert WithTop([1, 3], t, 1) == [1, 3];
    assert Keep([3], {1}) == [3];
  }

  lemma RemoveOneThenThree()
    ensures Remove(Remove(Reg13, 1), 3) == Empty
  {
    assert [1, 3][1..] == [3] && [3][1..] == [];
    assert Keep([1, 3], {1}) == [3];
    assert Keep([3], {3}) == [];
    assert Reg13.top - {1} - {3} == map[];
  }

  /** Closing guest 3 after guest 2 leaves 1 alone, so its entry goes too. */
  lemma CloseBothGuests()
    ensures HandleRemoved(HandleRemoved(Collapsed123, 2).state, 3) == Step(State(Empty, {2, 3}), OnlyTopLeft(1))
  {
    CloseOneGuest();
    RestOfThree();
    RemoveOneThenThree();
  }

  /** Selecting tab 4 together with the guest 2 of an existing stack is
      refused, and nothing changes. */
  lemma DoubleStackingRefused()
    ensures Stack(Collapsed123, [Tab(4, true), Tab(2, false)]) == Step(Collapsed123, DoubleStacking)
  {
    assert IsStacked(Reg123, [Tab(4, true), Tab(2, false)][1].id);
  }

  /** A single highlighted tab is refused. */
  lemma SingleTabRefused()
    ensures Stack(State(Empty, {}), [Tab(7, true)]) == Step(State(Empty, {}), TooFewTabs)
  {
  }

  /** Unstacking from guest 2 removes every entry and shows all three tabs. */
  lemma StackThenUnstackFromGuest()
    ensures var st := Unstack(Collapsed123, 2);
            st.state == State(Empty, {}) && st.outcome == Unstacked([1, 2, 3])
  {
  }

  /** Unstacking from one stack also clears another, unrelated stack. */
  lemma UnstackClearsEveryStack()
    ensures var s := State(Registry([1, 2, 5, 6], map[1 := 1, 2 := 1, 5 := 5, 6 := 5]), {2, 6});
            Unstack(s, 1).state == State(Empty, {})
  {
  }

  /** Toggling guest 2 does not promote it: 1 stays the top, and both guests
      are hidden. */
  lemma ToggleGuestKeepsTop()
    ensures var st := Toggle(State(Reg123, {}), 2);
            st.outcome == GuestToggled(1) && IsTop(st.state.reg, 1) && st.state.hidden == {2, 3}
  {
    Members123();
  }

  /** Toggling the host with hidden guests shows them, and toggling again
      hides them. */
  lemma ToggleHostTwice()
    ensures var t1 := Toggle(Collapsed123, 1);
            && t1.outcome == HostToggled(1, true) && t1.state.hidden == {}
            && Toggle(t1.state, 1).state == Collapsed123
  {
    Members123();
  }
}
