/**
  Concrete runs over a three-tab registry in the shell's display order
  (feed, friends, profile). The ids and titles are stand-ins: the real values
  live in the feature packages.
 */
module Witnesses {
  import opened Wrappers
  import opened Features
  import opened Shell
  import opened Runs

  /** Three tabs with pairwise distinct ids, in display order. */
  function Registry(): (fs: seq<Feature>)
    ensures |fs| == 3
    ensures fs[0].id == "feed" && fs[1].id == "friends" && fs[2].id == "profile"
    ensures forall a, b :: 0 <= a < b < |fs| ==> fs[a].id != fs[b].id
  {
    [Feature("feed", "Feed"), Feature("friends", "Friends"), Feature("profile", "Profile")]
  }

  /** Switching to each registered tab tracks that tab's title. */
  lemma SwitchToFeed(s: ShellState)
    requires s.features == Registry()
    ensures OnSelectionChange(s, Some("feed")).log == s.log + [TabSelected("Feed")]
  {
    assert IsFirstIndex(Registry(), "feed", 0);
  }

  lemma SwitchToFriends(s: ShellState)
    requires s.features == Registry()
    ensures OnSelectionChange(s, Some("friends")).log == s.log + [TabSelected("Friends")]
  {
    assert IsFirstIndex(Registry(), "friends", 1);
  }

  lemma SwitchToProfile(s: ShellState)
    requires s.features == Registry()
    ensures OnSelectionChange(s, Some("profile")).log == s.log + [TabSelected("Profile")]
  {
    assert IsFirstIndex(Registry(), "profile", 2);
  }

  /** Short runs apply their handlers in order. */
  lemma RunTwo(s: ShellState, c: Action, d: Action)
    ensures Run(s, [c, d]) == Step(Step(s, c), d)
  {
    RunCons(Step(s, c), d, []);
    RunCons(s, c, [d]);
    assert [c] + [d] == [c, d];
  }

  lemma RunThree(s: ShellState, b: Action, c: Action, d: Action)
    ensures Run(s, [b, c, d]) == Step(Step(Step(s, b), c), d)
  {
    RunTwo(Step(s, b), c, d);
    RunCons(s, b, [c, d]);
    assert [b] + [c, d] == [b, c, d];
  }

  lemma RunFour(s: ShellState, a: Action, b: Action, c: Action, d: Action)
    ensures Run(s, [a, b, c, d]) == Step(Step(Step(Step(s, a), b), c), d)
  {
    RunThree(Step(s, a), b, c, d);
    RunCons(s, a, [b, c, d]);
    assert [a] + [b, c, d] == [a, b, c, d];
  }

  /** Launch, then three quick tab switches A, B, C: one launch and three
      tab events, in the order the switches happened. */
  lemma LaunchThenThreeSwitches(s0: ShellState)
    requires s0.features == Registry()
    ensures Run(s0, [Appear, Change(Some("feed")), Change(Some("friends")), Change(Some("profile"))]).log
            == s0.log + [AppLaunched] + [TabSelected("Feed")] + [TabSelected("Friends")] + [TabSelected("Profile")]
  {
    RunFour(s0, Appear, Change(Some("feed")), Change(Some("friends")), Change(Some("profile")));
    var s1 := OnAppear(s0);
    SwitchToFeed(s1);
    var s2 := OnSelectionChange(s1, Some("feed"));
    SwitchToFriends(s2);
    var s3 := OnSelectionChange(s2, Some("friends"));
    SwitchToProfile(s3);
  }

  /** A stale id and a cleared selection track nothing and leave the
      registry and the log as they were. */
  lemma StaleAndClearedTrackNothing()
    ensures Run(Init(Registry()), [Change(Some("settings")), Change(None)]).log == []
    ensures Run(Init(Registry()), [Change(Some("settings")), Change(None)]).features == Registry()
  {
    var fs := Registry();
    assert !HasId(fs, "settings") by {
      forall i | 0 <= i < |fs| ensures fs[i].id != "settings" {
        assert fs[i] in fs;
      }
    }
  }

  /** Two features sharing an id: the earlier one's title is tracked. */
  lemma DuplicateIdTracksEarlier()
    ensures OnSelectionChange(Init([Feature("feed", "Feed"), Feature("feed", "Feed 2")]), Some("feed")).log
            == [TabSelected("Feed")]
  {
    assert IsFirstIndex([Feature("feed", "Feed"), Feature("feed", "Feed 2")], "feed", 0);
  }

  /** The root content appearing twice tracks two launch events. */
  lemma AppearTwiceTracksTwice()
    ensures Run(Init(Registry()), [Appear, Appear]).log == [AppLaunched, AppLaunched]
  {
  }
}
