# Wefriendz shell: tab-selection analytics dispatch

Wefriendz is a SwiftUI shell that hosts independently built micro features as
tabs and forwards two coarse analytics signals to a shared sink: the app's root
content appearing, and the user switching tab. This project models the only
real logic in the shell, the root tab container `ContentView`:

- the stored, ordered feature list, fixed when the view is constructed;
- the selected-tab state, an optional feature id that starts out empty;
- the `onChange(of: selectedTab)` handler, which looks up the first feature in
  list order whose id is the new selection and, if there is one, tracks
  `tabSelected(title:)` with that feature's title; a cleared selection or an id
  no feature has tracks nothing;
- the `onAppear` handler, which tracks `appLaunched` every time it runs.

A feature is reduced to its id and title; the analytics sink is the ordered log
of events handed to it. Everything is pure: each handler is a function from the
shell state to the next shell state.

Files (all modules are imported by name, none is nested):

- `wrappers.dfy` — `Wrappers.Option`, standing for Swift optionals.
- `features.dfy` — `Features`: the `Feature` record, the first-match lookup
  `FirstWithId` (Swift's `first(where:)`) and its lemmas tying it to the
  smallest index carrying the id.
- `shell.dfy` — `Shell`: `Event`, `ShellState`, construction, the two handlers,
  and the binding write that triggers the change handler.
- `runs.dfy` — `Runs`: replaying a sequence of appearances and selection
  changes, a reference definition of the events that should result, and the
  lemmas relating the two (order kept, nothing dropped or duplicated, feature
  list untouched, tracked titles always registered ones).
- `witnesses.dfy` — `Witnesses`: concrete runs over a three-tab registry in the
  app's display order (feed, friends, profile).

Two points where one might expect more than the code does; the model follows
the code:

- Feature ids are meant to be unique, but nothing checks this: the feature list
  is stored as given (`Wefriendz/ContentView.swift:27-29`) and the lookup takes
  the first match (line 47). The model allows duplicate ids and proves the
  first-match rule.
- The comment on the appear handler (`Wefriendz/ContentView.swift:51`) speaks of
  a single launch event, but the handler has no guard, so every appearance
  tracks one; the model says so (`Runs.LaunchPerAppear`,
  `Witnesses.AppearTwiceTracksTwice`).

## Model

| member | source | states |
|---|---|---|
| Features.FirstWithId | Wefriendz/ContentView.swift:47 | the lookup finds nothing exactly when no feature carries the id; otherwise it returns the feature at the smallest index carrying the id |
| Features.FirstWithIdAtFirstIndex | Wefriendz/ContentView.swift:47 | whenever index i is the first one carrying the id, the lookup returns exactly the feature at i, so later duplicates are never chosen |
| Features.FirstWithIdNotLater | Wefriendz/ContentView.swift:47 | if feature j carries the id, the lookup succeeds and returns a feature sitting at or before j that is the first carrier |
| Features.FirstWithIdAppend | Wefriendz/ContentView.swift:47 | searching a concatenation searches the first part first and falls through to the second only when the first part lacks the id |
| Features.Tag | Wefriendz/ContentView.swift:41 | a rendered tab is tagged with its own feature's id: looking the tag up in a list holding only that tab finds it (with duplicate ids, a lookup in the whole registry may find an earlier feature, see `Shell.RenderedTabEmitsOne`) |
| Shell.Init | Wefriendz/ContentView.swift:19-30 | a new shell stores the feature list it was given, has no tab selected and has tracked nothing |
| Shell.SelectionEvent | Wefriendz/ContentView.swift:46-48 | an event is produced exactly when the new selection is an id some feature carries, and it is a tab event with the title of the first feature carrying that id |
| Shell.OnSelectionChange | Wefriendz/ContentView.swift:45-49 | the change handler keeps the feature list, records the new selection, tracks nothing for a cleared or unknown id, and tracks exactly one tab event with the first matching feature's title otherwise |
| Shell.OnAppear | Wefriendz/ContentView.swift:52-54 | the appear handler tracks one launch event whatever is selected and changes nothing else |
| Shell.Select | Wefriendz/ContentView.swift:45 | writing the value already selected runs no handler and tracks nothing; writing a new value behaves as the change handler does |
| Shell.RenderedTabEmitsOne | Wefriendz/ContentView.swift:34-48 | changing the selection to the tag of any rendered tab (running the change handler with it) tracks exactly one event, carrying the title of the earliest feature sharing that tab's id |
| Shell.RenderedTabEmitsOwnTitle | Wefriendz/ContentView.swift:34-48 | when the ids are pairwise distinct, changing the selection to a tab's tag tracks that very tab's title |
| Shell.SelectSameTwice | Wefriendz/ContentView.swift:45 | writing the same selection twice has the effect of writing it once: the second write runs no handler and tracks nothing |
| Runs.Step | Wefriendz/ContentView.swift:45-54 | an appearance tracks a launch and keeps the selection; a change records the new selection, tracks nothing for a cleared or unknown id, and tracks exactly the first matching feature's title otherwise; neither touches the feature list or adds more than one event |
| Runs.Run | Wefriendz/ContentView.swift:45-54 | replaying handlers never changes the feature list, keeps the earlier log as a prefix and adds at most one event per action |
| Runs.RunLog | Wefriendz/ContentView.swift:45-54 | the log after a run is the earlier log followed by exactly the events the reference definition lists, in action order |
| Runs.EmittedAppend | Wefriendz/ContentView.swift:45-54 | the events of two consecutive action sequences are those of the first followed by those of the second |
| Runs.RunAppend | Wefriendz/ContentView.swift:45-54 | running two action sequences in turn equals running their concatenation |
| Runs.KnownChangesInOrder | Wefriendz/ContentView.swift:45-49 | a sequence of changes to known ids yields exactly one event per change, the k-th event belonging to the k-th change: nothing dropped, duplicated or reordered |
| Runs.LaunchPerAppear | Wefriendz/ContentView.swift:52-54 | the number of launch events tracked equals the number of appearances, with no deduplication |
| Runs.EmptyRegistryOnlyLaunches | Wefriendz/ContentView.swift:45-49 | with no features registered, every tracked event is a launch event |
| Runs.StepKeepsTitlesKnown | Wefriendz/ContentView.swift:45-54 | each handler keeps every tracked tab title equal to the title of some registered feature |
| Runs.RunKeepsTitlesKnown | Wefriendz/ContentView.swift:45-54 | any run preserves the property that every tracked tab title is a registered feature's title |
| Runs.FromInitTitlesKnown | Wefriendz/ContentView.swift:19-54 | from construction on, every tracked tab title is a registered feature's title |
| Witnesses.Registry | Wefriendz/WefriendzApp.swift:64-68 | the witness registry has three tabs whose ids are feed, friends and profile in that order, pairwise distinct |
| Witnesses.SwitchToFriends | Wefriendz/ContentView.swift:46-48 | over that registry, switching to the friends tab tracks the friends title |
| Witnesses.LaunchThenThreeSwitches | Wefriendz/ContentView.swift:45-54 | launching and then switching feed, friends, profile tracks one launch and three tab events in that order |
| Witnesses.StaleAndClearedTrackNothing | Wefriendz/ContentView.swift:45-49 | a stale id and a cleared selection track nothing and leave the feature list unchanged |
| Witnesses.DuplicateIdTracksEarlier | Wefriendz/ContentView.swift:47 | with two features sharing an id, the earlier one's title is tracked |
| Witnesses.AppearTwiceTracksTwice | Wefriendz/ContentView.swift:52-54 | two appearances track two launch events |

## Left out

- The composition root in `Wefriendz/WefriendzApp.swift` (shared analytics and networking objects, API clients, dependency containers, factories and their forced downcasts): it builds foreign types from packages that are not part of this model. Only its three-tab list order is mirrored, as a witness.
- The feature ids and titles of the real feed, friends and profile features live in those packages; the witness registry uses stand-in strings.
- SwiftUI rendering: `TabView`, `makeRootView()`, `tabItem`, the tab icon and the preview. The icon and the root view do not influence the dispatch rule.
- `@State` binding mechanics: the model takes the framework's word that a tab tap writes the tapped tab's tag into the selection and that `onChange(of:)` runs its handler only when the value differs (`Shell.Select`); both are framework behaviour, not code of this repository.
- SwiftUI's behaviour when `ForEach` is given duplicate ids is not modelled; the lookup's first-match rule is.
- The analytics sink's internals (delivery, batching, failures): the sink is the ordered event log and nothing else.
- Rejection of duplicate feature ids: the code does not do it, so neither does the model.
- A once-per-lifetime guarantee for the launch event: the code does not enforce it, so the model does not claim it.
- Features.FirstWithId: ids are compared character by character, whereas Swift's `String ==` (used by the lookup at line 47 and by `onChange(of:)` at line 45) compares by Unicode canonical equivalence; the model assumes all ids are in one normal form, so that the two comparisons agree.
- Shell.Select: decides "changed" by the same character-by-character comparison, under the same normal-form assumption.
- Runs.Step: a `Change` action is an observed change, so runs are sequences of handler invocations; repeated writes of the selected value are modelled only by `Shell.Select`, not inside runs.
- Runs.Run: does not state the selection after a run; each handler's own contract states it.
