/**
  Sequences of UI happenings replayed through the shell's two handlers, and
  what the resulting analytics log looks like.
 */
module Runs {
  import opened Wrappers
  import opened Features
  import opened Shell

  /** One thing the UI framework reports to the shell: the root content
      appearing, or an observed change of the selected tab to `newValue`.
      A `Change` is a run of the change handler, so it stands for a write that
      differs from the current selection; writes of the value already
      selected run no handler (`Shell.Select`) and have no action here. */
  datatype Action = Appear | Change(newValue: Option<string>)

  /** The handler the action triggers: an appearance tracks a launch and
      keeps the selection; a change records the new selection and tracks the
      first matching feature's title, or nothing for a cleared or unknown id.
      Either way the feature list stays and at most one event is added after
      the old log. */
  function Step(s: ShellState, a: Action): (r: ShellState)
    ensures r.features == s.features
    ensures |s.log| <= |r.log| <= |s.log| + 1
    ensures r.log[..|s.log|] == s.log
    ensures a.Appear? ==> r.selection == s.selection && r.log == s.log + [AppLaunched]
    ensures a.Change? ==> r.selection == a.newValue
    ensures a.Change? && (a.newValue.None? || !HasId(s.features, a.newValue.value)) ==> r.log == s.log
    ensures forall i :: a.Change? && a.newValue.Some? && IsFirstIndex(s.features, a.newValue.value, i) ==>
              r.log == s.log + [TabSelected(s.features[i].title)]
  {
    match a
    case Appear => OnAppear(s)
    case Change(v) => OnSelectionChange(s, v)
  }

  /** Replaying a sequence of actions in order. The feature list never moves,
      the earlier log is kept as a prefix, and each action adds at most one
      event. */
  function Run(s: ShellState, actions: seq<Action>): (r: ShellState)
    ensures r.features == s.features
    ensures |s.log| <= |r.log| <= |s.log| + |actions|
    ensures r.log[..|s.log|] == s.log
    decreases |actions|
  {
    if |actions| == 0 then s
    else
      var next := Step(s, actions[0]);
      var r := Run(next, actions[1..]);
      assert r.log[..|s.log|] == r.log[..|next.log|][..|s.log|];
      r
  }

  /** A run starts with its first action's handler. */
  lemma RunCons(s: ShellState, a: Action, rest: seq<Action>)
    ensures Run(s, [a] + rest) == Run(Step(s, a), rest)
  {
    assert ([a] + rest)[1..] == rest;
  }

  /** The events a single action is expected to contribute. */
  function ActionEvents(features: seq<Feature>, a: Action): seq<Event> {
    match a
    case Appear => [AppLaunched]
    case Change(v) => EventsOf(SelectionEvent(features, v))
  }

  /** Reference definition of the events a sequence of actions produces:
      each action's own contribution, concatenated in action order. */
  function Emitted(features: seq<Feature>, actions: seq<Action>): seq<Event>
    decreases |actions|
  {
    if |actions| == 0 then [] else ActionEvents(features, actions[0]) + Emitted(features, actions[1..])
  }

  /** The log after a run is the earlier log followed by exactly the events
      the reference definition lists. */
  lemma {:induction false} RunLog(s: ShellState, actions: seq<Action>)
    ensures Run(s, actions).log == s.log + Emitted(s.features, actions)
    decreases |actions|
  {
    if |actions| > 0 {
      var next := Step(s, actions[0]);
      assert next.log == s.log + ActionEvents(s.features, actions[0]);
      RunLog(next, actions[1..]);
    }
  }

  /** Events of consecutive action sequences are emitted back to back. */
  lemma {:induction false} EmittedAppend(features: seq<Feature>, a: seq<Action>, b: seq<Action>)
    ensures Emitted(features, a + b) == Emitted(features, a) + Emitted(features, b)
    decreases |a|
  {
    if |a| == 0 {
      assert a + b == b;
    } else {
      assert (a + b)[1..] == a[1..] + b;
      EmittedAppend(features, a[1..], b);
    }
  }

  /** Running two action sequences one after the other is the same as running
      their concatenation. */
  lemma {:induction false} RunAppend(s: ShellState, a: seq<Action>, b: seq<Action>)
    ensures Run(s, a + b) == Run(Run(s, a), b)
    decreases |a|
  {
    if |a| == 0 {
      assert a + b == b;
    } else {
      assert (a + b)[1..] == a[1..] + b;
      RunAppend(Step(s, a[0]), a[1..], b);
    }
  }

  /** One change action per id, in order. */
  function Changes(ids: seq<string>): (r: seq<Action>)
    ensures |r| == |ids|
    ensures forall k :: 0 <= k < |ids| ==> r[k] == Change(Some(ids[k]))
  {
    seq(|ids|, k requires 0 <= k < |ids| => Change(Some(ids[k])))
  }

  /** Successive changes to ids the registry knows produce one event each, in
      the same order: nothing is dropped and nothing is duplicated. */
  lemma {:induction false} KnownChangesInOrder(features: seq<Feature>, ids: seq<string>)
    requires forall k :: 0 <= k < |ids| ==> HasId(features, ids[k])
    ensures |Emitted(features, Changes(ids))| == |ids|
    ensures forall k :: 0 <= k < |ids| ==>
              Some(Emitted(features, Changes(ids))[k]) == SelectionEvent(features, Some(ids[k]))
    decreases |ids|
  {
    if |ids| > 0 {
      var acts := Changes(ids);
      assert acts[1..] == Changes(ids[1..]);
      KnownChangesInOrder(features, ids[1..]);
      var first := SelectionEvent(features, Some(ids[0]));
      assert ActionEvents(features, acts[0]) == [first.value];
      var rest := Emitted(features, Changes(ids[1..]));
      assert Emitted(features, acts) == [first.value] + rest;
      forall k | 0 < k < |ids|
        ensures Some(Emitted(features, acts)[k]) == SelectionEvent(features, Some(ids[k]))
      {
        assert Emitted(features, acts)[k] == rest[k - 1];
        assert ids[1..][k - 1] == ids[k];
      }
    }
  }

  /** Number of launch events in a log. */
  function LaunchCount(events: seq<Event>): nat
    decreases |events|
  {
    if |events| == 0 then 0
    else (if events[0] == AppLaunched then 1 else 0) + LaunchCount(events[1..])
  }

  /** Number of appearances in an action sequence. */
  function AppearCount(actions: seq<Action>): nat
    decreases |actions|
  {
    if |actions| == 0 then 0
    else (if actions[0] == Appear then 1 else 0) + AppearCount(actions[1..])
  }

  /** Every appearance is tracked, however many there are: the launch event
      is not deduplicated. */
  lemma {:induction false} LaunchPerAppear(features: seq<Feature>, actions: seq<Action>)
    ensures LaunchCount(Emitted(features, actions)) == AppearCount(actions)
    decreases |actions|
  {
    if |actions| > 0 {
      LaunchPerAppear(features, actions[1..]);
      LaunchCountAppend(ActionEvents(features, actions[0]), Emitted(features, actions[1..]));
    }
  }

  lemma {:induction false} LaunchCountAppend(a: seq<Event>, b: seq<Event>)
    ensures LaunchCount(a + b) == LaunchCount(a) + LaunchCount(b)
    decreases |a|
  {
    if |a| == 0 {
      assert a + b == b;
    } else {
      assert (a + b)[1..] == a[1..] + b;
      LaunchCountAppend(a[1..], b);
    }
  }

  /** With no features registered, the only events ever tracked are launches. */
  lemma {:induction false} EmptyRegistryOnlyLaunches(actions: seq<Action>)
    ensures forall k :: 0 <= k < |Emitted([], actions)| ==> Emitted([], actions)[k] == AppLaunched
    decreases |actions|
  {
    if |actions| > 0 {
      EmptyRegistryOnlyLaunches(actions[1..]);
      if actions[0].Change? && actions[0].newValue.Some? {
        assert !HasId([], actions[0].newValue.value);
      }
    }
  }

  /** Every tracked tab title is the title of some registered feature. */
  ghost predicate TitlesKnown(s: ShellState) {
    forall k :: 0 <= k < |s.log| && s.log[k].TabSelected? ==>
      exists i :: 0 <= i < |s.features| && s.features[i].title == s.log[k].title
  }

  /** Each handler keeps every tracked title a registered one. */
  lemma StepKeepsTitlesKnown(s: ShellState, a: Action)
    requires TitlesKnown(s)
    ensures TitlesKnown(Step(s, a))
  {
    var s' := Step(s, a);
    if a.Change? && a.newValue.Some? && HasId(s.features, a.newValue.value) {
      var e := SelectionEvent(s.features, a.newValue);
      var i :| IsFirstIndex(s.features, a.newValue.value, i) && e.value == TabSelected(s.features[i].title);
      assert s'.log == s.log + [e.value];
      forall k | 0 <= k < |s'.log| && s'.log[k].TabSelected?
        ensures exists i :: 0 <= i < |s'.features| && s'.features[i].title == s'.log[k].title
      {
        if k == |s.log| {
          assert s'.features[i].title == s'.log[k].title;
        } else {
          assert s'.log[k] == s.log[k];
        }
      }
    }
  }

  /** Any run keeps the invariant. */
  lemma {:induction false} RunKeepsTitlesKnown(s: ShellState, actions: seq<Action>)
    requires TitlesKnown(s)
    ensures TitlesKnown(Run(s, actions))
    decreases |actions|
  {
    if |actions| > 0 {
      StepKeepsTitlesKnown(s, actions[0]);
      RunKeepsTitlesKnown(Step(s, actions[0]), actions[1..]);
    }
  }

  /** Starting from construction, every run only ever tracks titles of
      registered features. */
  lemma FromInitTitlesKnown(features: seq<Feature>, actions: seq<Action>)
    ensures TitlesKnown(Run(Init(features), actions))
  {
    RunKeepsTitlesKnown(Init(features), actions);
  }
}
