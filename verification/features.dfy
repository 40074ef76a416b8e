/**
  The hosted features, reduced to what the shell's dispatch rule reads of them,
  and the first-match lookup the shell performs over its ordered feature list.
 */
module Features {
  import opened Wrappers

  /** A hosted micro feature: its tab tag and its display title. Icon and root
      view are opaque to the dispatch rule and are not modelled. */
  datatype Feature = Feature(id: string, title: string)

  /** The tag a rendered tab carries: its own feature's id, so that looking
      the tag up in a list holding only that tab finds the tab again. */
  function Tag(f: Feature): (t: string)
    ensures FirstWithId([f], t) == Some(f)
  {
    f.id
  }

  /** Some feature in the list carries `id`. */
  ghost predicate HasId(features: seq<Feature>, id: string) {
    exists i :: 0 <= i < |features| && features[i].id == id
  }

  /** `i` is the smallest index whose feature carries `id`. */
  ghost predicate IsFirstIndex(features: seq<Feature>, id: string, i: int) {
    && 0 <= i < |features|
    && features[i].id == id
    && forall j :: 0 <= j < i ==> features[j].id != id
  }

  /** Swift's `features.first(where: { $0.id == id })`: the earliest feature in
      list order whose id is `id`, or None when no feature has it. */
  function FirstWithId(features: seq<Feature>, id: string): (r: Option<Feature>)
    ensures r.None? <==> !HasId(features, id)
    ensures r.Some? ==> exists i :: IsFirstIndex(features, id, i) && features[i] == r.value
    decreases |features|
  {
    if |features| == 0 then None
    else if features[0].id == id then
      assert IsFirstIndex(features, id, 0);
      Some(features[0])
    else
      var rest := FirstWithId(features[1..], id);
      assert HasId(features[1..], id) ==> HasId(features, id) by {
        if HasId(features[1..], id) {
          var k :| 0 <= k < |features[1..]| && features[1..][k].id == id;
          assert features[k + 1].id == id;
        }
      }
      assert HasId(features, id) ==> HasId(features[1..], id) by {
        if HasId(features, id) {
          var k :| 0 <= k < |features| && features[k].id == id;
          assert k != 0;
          assert features[1..][k - 1].id == id;
        }
      }
      assert rest.Some? ==> exists i :: IsFirstIndex(features, id, i) && features[i] == rest.value by {
        if rest.Some? {
          var k :| IsFirstIndex(features[1..], id, k) && features[1..][k] == rest.value;
          assert IsFirstIndex(features, id, k + 1);
        }
      }
      rest
  }

  /** The lookup returns exactly the feature at the smallest index with the
      id; with duplicate ids, the later duplicates are never chosen. */
  lemma {:induction false} FirstWithIdAtFirstIndex(features: seq<Feature>, id: string, i: int)
    requires IsFirstIndex(features, id, i)
    ensures FirstWithId(features, id) == Some(features[i])
  {
    if i > 0 {
      assert features[0].id != id;
      assert IsFirstIndex(features[1..], id, i - 1);
      FirstWithIdAtFirstIndex(features[1..], id, i - 1);
    }
  }

  /** Whenever feature `j` carries `id`, the lookup succeeds, and what it
      returns sits at an index no later than `j`. */
  lemma FirstWithIdNotLater(features: seq<Feature>, id: string, j: int)
    requires 0 <= j < |features| && features[j].id == id
    ensures FirstWithId(features, id).Some?
    ensures exists i :: 0 <= i <= j && IsFirstIndex(features, id, i)
                        && FirstWithId(features, id) == Some(features[i])
  {
    assert HasId(features, id);
    var r := FirstWithId(features, id);
    var i :| IsFirstIndex(features, id, i) && features[i] == r.value;
    assert i <= j;
  }

  /** Lookup over a concatenation: the first part wins when it has the id. */
  lemma {:induction false} FirstWithIdAppend(a: seq<Feature>, b: seq<Feature>, id: string)
    ensures FirstWithId(a + b, id) == if FirstWithId(a, id).Some? then FirstWithId(a, id) else FirstWithId(b, id)
  {
    if |a| == 0 {
      assert a + b == b;
    } else {
      assert (a + b)[0] == a[0];
      assert (a + b)[1..] == a[1..] + b;
      if a[0].id != id {
        FirstWithIdAppend(a[1..], b, id);
      }
    }
  }
}
