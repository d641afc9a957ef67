# Tab stacks: a Dafny model of the stack registry of `background.js`

The browser extension collapses a group of highlighted tabs into a *stack*: one
tab, the top (host), stays visible and the others, its guests, are hidden and
shown together. All of that rests on one JavaScript `Map`, `tab2top`, from a tab
id to the id of the top of its stack. A tab is a member when it has an entry,
the host when it maps to itself, and otherwise a guest of the tab it maps to.

This project models that map, the four queries that read it (`isStacked`,
`isTop`, `getTop`, `getRest`), the handlers that change it (`stack`, `unstack`,
`handleRemoved`), the hide/show decision of `toggleStack`, and the role
indicator of `handleActivated`. It proves that every handler keeps the
structural invariant of the map:

- every value is a member that maps to itself (no chains);
- every host has at least one guest (no stack of one tab).

## Layout

- `stack_registry.dfy`, module `StackRegistry`: the registry as
  `Registry(order, top)`. `top` is the map's contents. `order` is its key
  iteration order, which a JavaScript `Map` keeps as insertion order.
  `getRest` lists guests in that order and `toggleStack` samples the *first*
  guest, so the order is part of the model. Also here: the queries, the `Map`
  primitives `set`/`delete`, and the invariant `Valid`.
- `stack_controller.dfy`, module `StackController`: each handler is one
  atomic transition on `State(reg, hidden)`. `hidden` is the set of tabs whose
  hidden flag is set. Each handler returns the new state and an outcome: which
  notification it raised, or which branch it took.
- `stack_properties.dfy`, module `StackProperties`: properties that span
  handlers. Every handler keeps `Valid`, so any sequence of events does too.
  Also here: toggling a host twice restores visibility, stack-then-unstack
  round trips, and teardown when a tab closes.
- `stack_scenarios.dfy`, module `StackScenarios`: concrete runs on tabs 1, 2
  and 3, with tabs 4 and 7 in refused selections and a second stack of 5
  and 6.

## Behaviour of the code worth knowing

- `unstack` deletes **every** key of the map, so it dissolves every stack,
  not only the active tab's stack (`background.js:44-47`).
  `StackScenarios.UnstackClearsEveryStack` shows this.
- There is no operation that makes a guest the host. The guest branch of
  `toggleStack` finds the host and hides all of the host's guests, including
  the activated guest itself (`background.js:137-146`).
  `StackScenarios.ToggleGuestKeepsTop` shows that the top stays the same.
- `stack` takes the active tab to be the first selected tab whose `active`
  flag is set. If no selected tab is active, `activTab.id` throws a
  `TypeError` before any write (`background.js:61`, `76`). This is modelled
  as the outcome `NoActiveTab` with the state unchanged.
- A closed tab that is not stacked reaches the non-top branch of
  `handleRemoved`. Its `getRest` is empty and deleting it changes nothing.

## Model

| member | source | states |
|---|---|---|
| StackRegistry.IsStacked | background.js:7-9 | On a well-formed map, an id is stacked exactly when the loop over the map's keys meets it. |
| StackRegistry.IsTopIsSelfMapped | background.js:11-16 | `isTop` holds exactly when the id is stacked and maps to itself, which is the host role. It is false for an unstacked id. |
| StackRegistry.GetTopIsHost | background.js:18-23 | In a valid registry, `getTop` of a member is defined and is a host, so no second hop is ever needed. The member is either that host or its guest. |
| StackRegistry.GetRest | background.js:25-34 | `getRest(id)` contains exactly the members mapped to `id`'s top other than the top itself, with no repeats, listed in the map's iteration order (a subsequence of the keys). For an unstacked id it is empty. |
| StackRegistry.GetRestIsIterationOrder | background.js:25-34 | Any repetition-free list of the stack's guests that follows the map's iteration order is `getRest`'s answer, so that answer is fully determined. |
| StackRegistry.GetRestSameForWholeStack | background.js:25-34 | Every member of one stack gets the same `getRest` answer. |
| StackRegistry.GetRestOfMemberNonEmpty | background.js:25-34 | In a valid registry, a member's `getRest` is never empty. |
| StackRegistry.Put | background.js:76 | `Map.set` stores the value under the key. A new key is appended to the iteration order; an existing key keeps its place. A well-formed map stays well-formed. |
| StackRegistry.PutAll | background.js:75-77 | After setting every selected id to `v`, the keys are the old keys plus the selected ids. Every selected id maps to `v`. Every other old entry is unchanged. The old iteration order is a prefix of the new one. A well-formed map stays well-formed. |
| StackRegistry.PutAllAppends | background.js:75-77 | New distinct keys are appended to the iteration order in selection order. |
| StackRegistry.PutAllFreshStack | background.js:75-77 | When the selected ids are all new and distinct and the value is one of them, the members with that top are exactly the selected ids, in selection order. |
| StackRegistry.RemoveKeys | background.js:44-47 | Deleting a set of keys leaves exactly the other entries, unchanged, with the survivors in their old iteration order. |
| StackRegistry.Remove | background.js:195 | `Map.delete` removes exactly that key. Deleting an absent key changes nothing. The other keys keep their iteration order. |
| StackRegistry.EmptyIsValid | background.js:5 | The initial empty map satisfies the invariant. |
| StackController.FirstActive | background.js:61 | The chosen tab is the first selected tab with the active flag. There is none exactly when no selected tab is active. |
| StackController.Stack | background.js:58-83 | With fewer than two tabs, or with any selected tab already stacked, nothing changes; the stacked-check covers the whole selection before any write. With at least two unstacked tabs and none active, the outcome is `NoActiveTab` and nothing changes. Success happens exactly when there are at least two tabs, none stacked, and one active. On success the host is the first selected tab with the active flag, every selected tab maps to it, and every other entry is unchanged; with distinct selected ids, the new iteration order is the old one followed by the selected ids in selection order. In a valid registry, tabs outside the selection and the host keep their hidden flag, and the other selected tabs end with one shared flag: the opposite of the old flag of the first selected tab other than the host. |
| StackController.StackOnto | background.js:75-81 | The success path of `stack`: the `set` loop followed by the toggle from the host, with the same registry and hidden-flag guarantees as `Stack`'s success case. |
| StackController.FreshStackFacts | background.js:63-77 | After the `set` loop of a successful `stack`, none of the selected ids was a key before, the host is a top, its guests are exactly the other selected tabs, and the first of them in iteration order is the first selected tab other than the host. |
| StackController.FreshToggleHidden | background.js:81 | The toggle that ends a successful `stack` changes the hidden flag of the other selected tabs only, and gives them one flag: the opposite of the first of them's old flag. |
| StackController.Toggle | background.js:88-148 | The map is never changed. An unstacked tab changes nothing. For a host, the outcome records the first guest's hidden flag, and every guest ends hidden exactly when that flag was not set; every tab that is not one of its guests keeps its flag. For a guest, every guest of its host ends hidden. In both branches, only that stack's guests change visibility. |
| StackController.Unstack | background.js:37-56 | If the active tab is stacked, the map ends empty. The reported list of removed ids holds each former key once, in iteration order, and all of them are shown. Otherwise nothing changes. |
| StackController.RemoveTop | background.js:178-186 | Closing a top deletes every entry whose value is that top, including its own entry, and shows those tabs. The outcome lists exactly those tabs, each once, in iteration order. All other entries are unchanged and keep their iteration order. |
| StackController.DeleteWithTop | background.js:192-195 | Deleting a member and its top removes exactly those two entries, keeps the other keys in their iteration order, and changes no hidden flag. |
| StackController.RemoveNonTop | background.js:187-196 | For a guest whose `getRest` has length 1, the guest and its top are both deleted. For a guest among several, only the guest is deleted. For an unstacked id, nothing changes. The surviving keys keep their iteration order. |
| StackController.HandleRemoved | background.js:176-197 | The four cases of `handleRemoved`: top closed, last guest closed, one of several guests closed, unstacked tab closed. When a top closes, the outcome lists the tabs of its stack once each, in iteration order. In each case, the surviving keys keep their iteration order. |
| StackController.Activated | background.js:151-163 | The indicator is enabled exactly for stacked tabs. The title prefix is `Stack Top  :: ` for a host, `Stack Sub :: ` for a guest, and empty for a free tab. |
| StackProperties.StackKeepsValid | background.js:63-77 | `stack` keeps the invariant when the selection has distinct ids. |
| StackProperties.UnstackKeepsValid | background.js:41-47 | `unstack` keeps the invariant. |
| StackProperties.ToggleKeepsValid | background.js:88-148 | `toggleStack` keeps the invariant. |
| StackProperties.SingleRestIsLastGuest | background.js:188-194 | For a guest in a valid registry, a `getRest` of length one means exactly that the guest is its host's only guest. |
| StackProperties.HandleRemovedKeepsValid | background.js:176-197 | `handleRemoved` keeps the invariant in each branch. |
| StackProperties.TopDropKeepsValid | background.js:178-186 | Deleting a top together with all its guests keeps the invariant. |
| StackProperties.LastGuestDropNoChains | background.js:188-195 | Deleting the only guest and its top leaves no entry pointing at a deleted top. |
| StackProperties.LastGuestDropHostsHaveGuests | background.js:188-195 | Deleting the only guest and its top leaves every other host with a guest. |
| StackProperties.GuestDropKeepsValid | background.js:195 | Deleting one of several guests keeps the invariant. |
| StackProperties.Apply | background.js:199-206 | Dispatching one event to its handler keeps the map well-formed. |
| StackProperties.Run | background.js:199-206 | Handling any sequence of events one after another keeps the map well-formed. |
| StackProperties.RunKeepsValid | background.js:199-206 | Any sequence of menu clicks, toolbar clicks and tab closings keeps the invariant. |
| StackProperties.FromStartAlwaysValid | background.js:5 | Starting from the empty map, every reachable registry satisfies the invariant. |
| StackProperties.HostToggleTwiceRestores | background.js:107-136 | If a host's guests are all hidden or all shown, toggling the host twice restores every tab's visibility. |
| StackProperties.HostToggleUniform | background.js:107-136 | After a host toggle, all guests share one visibility: the opposite of the first guest's old flag. |
| StackProperties.HostToggleCollapsesVisibleGuests | background.js:128-136 | A host toggle over all-visible guests hides every guest and changes no other tab. |
| StackProperties.ToggleKeepsUniform | background.js:88-148 | If the guests of every stack share one hidden flag, they still do after a toggle. |
| StackProperties.StackKeepsUniform | background.js:58-83 | `stack` keeps every stack's guests sharing one hidden flag, the new stack included. |
| StackProperties.UnstackKeepsUniform | background.js:37-56 | `unstack` keeps every stack's guests sharing one hidden flag. |
| StackProperties.HandleRemovedKeepsUniform | background.js:176-197 | `handleRemoved` keeps every stack's guests sharing one hidden flag. |
| StackProperties.RunKeepsUniform | background.js:199-206 | Any sequence of events keeps every stack's guests sharing one hidden flag. |
| StackProperties.ReachableHostToggleTwice | background.js:107-136 | In every state the model reaches from the empty map, toggling a host twice restores the visibility of every tab. |
| StackProperties.StackGuestsAreSelection | background.js:75-77 | After a successful `stack`, the host's guests are exactly the other selected tabs. |
| StackProperties.StackCollapsesVisibleSelection | background.js:75-81 | Stacking all-visible tabs leaves the host visible and hides every other selected tab. |
| StackProperties.ToggleReportsHost | background.js:147 | After toggling a stacked tab, the indicator reported for the resolved top is the host indicator. |
| StackProperties.UnstackReportsFree | background.js:52 | After a successful `unstack`, the active tab's indicator is the free one. |
| StackProperties.StackThenUnstack | background.js:37-83 | After `stack` then `unstack` from any selected tab, no selected tab is stacked or hidden. |
| StackProperties.ClosingLastGuestDissolves | background.js:187-196 | Closing the only guest removes both the guest and its top, and nothing else. |
| StackProperties.ClosingOneOfSeveralGuestsKeepsStack | background.js:187-196 | Closing one of several guests leaves the top a host that still has a guest. |
| StackScenarios.StackOneTwoThree | background.js:58-81 | Stacking tabs 1, 2, 3 with 1 active gives 1 ← 2, 3 in that order, with 2 and 3 hidden. |
| StackScenarios.QueriesOnStack123 | background.js:7-34 | On that stack, 2 is stacked with top 1, 1 is a top and 2 is not, and `getRest` of 1 and of 3 is `[2, 3]`. |
| StackScenarios.CloseTop | background.js:178-186 | Closing top 1 unstacks 2 and 3 and shows them. |
| StackScenarios.CloseOneGuest | background.js:187-196 | Closing guest 2 leaves the stack 1 ← 3. |
| StackScenarios.CloseBothGuests | background.js:187-196 | Then closing guest 3 also removes 1's entry. |
| StackScenarios.DoubleStackingRefused | background.js:68-73 | A selection that includes an existing guest is refused with no change. |
| StackScenarios.StackThenUnstackFromGuest | background.js:41-52 | Unstacking from guest 2 empties the map and shows 1, 2 and 3. |
| StackScenarios.UnstackClearsEveryStack | background.js:44-47 | Unstacking from one stack also clears an unrelated stack. |
| StackScenarios.ToggleGuestKeepsTop | background.js:137-146 | Toggling a guest keeps the same top and hides all guests. |
| StackScenarios.ToggleHostTwice | background.js:107-136 | A collapsed stack expands on the first toggle and collapses again on the second. |

## Left out

- Browser effects other than the hidden flag are not modelled: moves and
  strip positions, `highlight`, the `windows.update` title prefixes and the
  `browserAction` enable/disable calls (both modelled only as the
  `Indicator` intent), notifications (modelled only as outcomes), and menu
  and listener registration. These are opaque browser APIs, and their
  ordering is mostly un-awaited.
- The hidden flag changes only through these handlers, and `tabs.hide` and
  `tabs.show` always take effect. In the browser, `tabs.hide` skips some tabs
  (a pinned tab, for one), and the user or another extension can show a
  hidden tab. A stack can then have guests with mixed visibility, and since
  the host toggle samples only the first guest (`background.js:117`), it may
  never expand them. `GuestsUniform`, `RunKeepsUniform` and
  `ReachableHostToggleTwice` hold for the states the model reaches, not for
  those.
- Tab-strip order and whether a stack's tabs sit next to each other. Most of
  the moves are not awaited, so their final order is not determined by this
  code.
- `async`/`await` interleaving between handlers. Each handler is one atomic
  transition. `toggleStack` reads the first guest's hidden flag and then acts
  on it as one step.
- A `tabs.get` call on a tab that has already closed rejects. The model treats
  every tab id as having a hidden flag.
- `console.error`/`console.log` diagnostics are treated as no-ops.
- Manifest loading is left out.
- Stack: the clause that names the shared flag of the new guests (the
  opposite of the first other selected tab's old flag) is proved only for
  selections with distinct ids, which is how the browser reports them. For
  any selection, the guests are still proved to share one flag.
- StackKeepsValid: assumes the selection has distinct tab ids. The browser
  reports highlighted tabs that way. A selection like `[5, 5]` would create a
  host with no guest.
- Toggle: for the guest branch, the claim that every guest of the host ends
  hidden is stated only for a valid registry. On an invalid map, `getRest`
  of the host resolves the host's own top again.
