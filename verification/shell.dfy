/**
  The root tab container: its stored feature list, the selected-tab state and
  the two handlers that turn UI changes into analytics events. The analytics
  sink is modelled only as the log of events handed to it, in order.
 */
module Shell {
  import opened Wrappers
  import opened Features

  /** The high-level analytics events the shell emits. */
  datatype Event = AppLaunched | TabSelected(title: string)

  /** The shell's state: the feature list fixed at construction, the optional
      selected tab id, and every event tracked so far. */
  datatype ShellState = ShellState(features: seq<Feature>, selection: Option<string>, log: seq<Event>)

  /** Construction: the features are stored as given, nothing is selected yet
      and nothing has been tracked. */
  function Init(features: seq<Feature>): (s: ShellState)
    ensures s.features == features
    ensures s.selection == None
    ensures s.log == []
  {
    ShellState(features, None, [])
  }

  /** The zero-or-one event the selection-change handler tracks for the new
      selection value. */
  function SelectionEvent(features: seq<Feature>, newValue: Option<string>): (e: Option<Event>)
    ensures e.Some? <==> newValue.Some? && HasId(features, newValue.value)
    ensures e.Some? ==> e.value.TabSelected?
    ensures e.Some? ==> exists i :: IsFirstIndex(features, newValue.value, i)
                                    && e.value == TabSelected(features[i].title)
  {
    match newValue
    case None => None
    case Some(id) =>
      match FirstWithId(features, id)
      case None => None
      case Some(feature) => Some(TabSelected(feature.title))
  }

  /** The events a zero-or-one choice contributes to the log. */
  function EventsOf(e: Option<Event>): seq<Event> {
    match e
    case None => []
    case Some(event) => [event]
  }

  /** The `onChange(of: selectedTab)` handler, run with the new selection. */
  function OnSelectionChange(s: ShellState, newValue: Option<string>): (s': ShellState)
    ensures s'.features == s.features
    ensures s'.selection == newValue
    ensures newValue.None? ==> s'.log == s.log
    ensures newValue.Some? && !HasId(s.features, newValue.value) ==> s'.log == s.log
    ensures forall i :: newValue.Some? && IsFirstIndex(s.features, newValue.value, i) ==>
              s'.log == s.log + [TabSelected(s.features[i].title)]
  {
    var e := SelectionEvent(s.features, newValue);
    ShellState(s.features, newValue, s.log + EventsOf(e))
  }

  /** The `onAppear` handler: it tracks a launch event every time it runs,
      whatever is selected. */
  function OnAppear(s: ShellState): (s': ShellState)
    ensures s'.features == s.features
    ensures s'.selection == s.selection
    ensures s'.log == s.log + [AppLaunched]
  {
    s.(log := s.log + [AppLaunched])
  }

  /** A write to the selection binding. `onChange(of:)` runs its handler only
      when the value actually differs from the current one. */
  function Select(s: ShellState, v: Option<string>): (s': ShellState)
    ensures s'.features == s.features
    ensures s'.selection == v
    ensures v == s.selection ==> s'.log == s.log
    ensures v.None? || !HasId(s.features, v.value) ==> s'.log == s.log
    ensures forall i :: v != s.selection && v.Some? && IsFirstIndex(s.features, v.value, i) ==>
              s'.log == s.log + [TabSelected(s.features[i].title)]
  {
    if v == s.selection then s else OnSelectionChange(s, v)
  }

  /** Writing the same value twice runs the change handler at most once. */
  lemma SelectSameTwice(s: ShellState, v: Option<string>)
    ensures Select(Select(s, v), v) == Select(s, v)
  {
  }

  /** Changing the selection to the tag of any rendered tab tracks exactly
      one event: the title of the earliest feature sharing that tab's id.
      (Writing the tag of the tab already selected is no change and runs no
      handler; see `Select`.) */
  lemma RenderedTabEmitsOne(s: ShellState, k: int)
    requires 0 <= k < |s.features|
    ensures var s' := OnSelectionChange(s, Some(Tag(s.features[k])));
            && |s'.log| == |s.log| + 1
            && exists j :: 0 <= j <= k && IsFirstIndex(s.features, s.features[k].id, j)
                           && s'.log == s.log + [TabSelected(s.features[j].title)]
  {
    var id := Tag(s.features[k]);
    FirstWithIdNotLater(s.features, id, k);
    var j :| 0 <= j <= k && IsFirstIndex(s.features, id, j) && FirstWithId(s.features, id) == Some(s.features[j]);
    assert OnSelectionChange(s, Some(id)).log == s.log + [TabSelected(s.features[j].title)];
  }

  /** With unique ids, changing the selection to a tab's tag tracks that
      tab's own title. */
  lemma RenderedTabEmitsOwnTitle(s: ShellState, k: int)
    requires 0 <= k < |s.features|
    requires forall a, b :: 0 <= a < b < |s.features| ==> s.features[a].id != s.features[b].id
    ensures OnSelectionChange(s, Some(Tag(s.features[k]))).log == s.log + [TabSelected(s.features[k].title)]
  {
    assert IsFirstIndex(s.features, s.features[k].id, k);
  }
}
