/**
 Turning a decoded list of labels into a name-keyed map. Both the loader of
 the local labels file and the fetcher of the remote listing do this with the
 same loop: each label is stored under its name, so a later duplicate
 overwrites an earlier one.
 */
module Loader {
  import opened Labels

  /** The names occurring in a label list. */
  function Names(labels: seq<Label>): set<string>
  {
    if |labels| == 0 then {} else Names(labels[..|labels| - 1]) + {labels[|labels| - 1].name}
  }

  /** No label after position i carries the same name as labels[i]. */
  predicate IsLastOfName(labels: seq<Label>, i: int)
    requires 0 <= i < |labels|
  {
    forall j | i < j < |labels| :: labels[j].name != labels[i].name
  }

  /** The map the loop builds: labels are stored in list order, each under its
      own name, overwriting whatever an earlier label of that name left. */
  function ToMap(labels: seq<Label>): LabelMap
  {
    if |labels| == 0 then map[]
    else
      var l := labels[|labels| - 1];
      ToMap(labels[..|labels| - 1])[l.name := l]
  }

  /** The loaded map holds exactly the names of the list, each under its own
      name, each value taken from the list, and for every name the last label
      of that name is the one that survives. */
  lemma {:induction false} ToMapSpec(labels: seq<Label>)
    ensures ToMap(labels).Keys == Names(labels)
    ensures WellKeyed(ToMap(labels))
    ensures forall k | k in ToMap(labels) :: ToMap(labels)[k] in labels
    ensures forall i | 0 <= i < |labels| :: labels[i].name in ToMap(labels)
    ensures forall i | 0 <= i < |labels| && IsLastOfName(labels, i) :: ToMap(labels)[labels[i].name] == labels[i]
  {
    ToMapLastWins(labels);
    if |labels| > 0 {
      var init := labels[..|labels| - 1];
      var l := labels[|labels| - 1];
      assert labels == init + [l];
      ToMapSpec(init);
      SnocFacts(init, l);
    }
  }

  /** Every name of the list is loaded, and the label it is loaded with is the
      last label of that name in the list. */
  lemma {:induction false} ToMapLastWins(labels: seq<Label>)
    ensures forall i | 0 <= i < |labels| ::
      labels[i].name in ToMap(labels) && (IsLastOfName(labels, i) ==> ToMap(labels)[labels[i].name] == labels[i])
  {
    if |labels| > 0 {
      var init := labels[..|labels| - 1];
      var l := labels[|labels| - 1];
      ToMapLastWins(init);
      forall i | 0 <= i < |labels|
        ensures labels[i].name in ToMap(labels) && (IsLastOfName(labels, i) ==> ToMap(labels)[labels[i].name] == labels[i])
      {
        if i < |init| {
          assert labels[i] == init[i];
          if IsLastOfName(labels, i) {
            assert IsLastOfName(init, i) && init[i].name != l.name;
          }
        }
      }
    }
  }

  /** How appending one label changes the names and the positions of the list. */
  lemma SnocFacts(init: seq<Label>, l: Label)
    ensures Names(init + [l]) == Names(init) + {l.name}
    ensures forall i | 0 <= i < |init| :: (init + [l])[i] == init[i]
    ensures forall v | v in init :: v in init + [l]
  {
  }

  /** Loading a list that is split in two gives the map of the first part
      overridden by the map of the second part. */
  lemma {:induction false} ToMapConcat(a: seq<Label>, b: seq<Label>)
    ensures ToMap(a + b) == ToMap(a) + ToMap(b)
    decreases |b|
  {
    if |b| == 0 {
      assert a + b == a;
    } else {
      var init := b[..|b| - 1];
      var l := b[|b| - 1];
      assert (a + b)[..|a + b| - 1] == a + init;
      assert (a + b)[|a + b| - 1] == l;
      ToMapConcat(a, init);
      assert ToMap(b) == ToMap(init)[l.name := l];
    }
  }

  /** Re-loading a listing of a map's labels yields that map again, whatever
      the listing's order and repetitions: the listing holds only labels the
      map stores under their own names, and names every key of the map. */
  lemma ToMapOfListing(m: LabelMap, listing: seq<Label>)
    requires forall i | 0 <= i < |listing| :: listing[i].name in m && m[listing[i].name] == listing[i]
    requires m.Keys <= Names(listing)
    ensures ToMap(listing) == m
  {
    var r := ToMap(listing);
    ToMapSpec(listing);
    assert r.Keys == m.Keys && forall k | k in r :: r[k] == m[k] by {
      forall k | k in r ensures k in m && r[k] == m[k] {
        var i :| 0 <= i < |listing| && listing[i] == r[k];
        assert listing[i].name == k;
      }
    }
    SameEntries(r, m);
  }

  /** Two maps with the same keys and the same value at every key are equal. */
  lemma SameEntries(a: LabelMap, b: LabelMap)
    requires a.Keys == b.Keys
    requires forall k | k in a :: a[k] == b[k]
    ensures a == b
  {
  }
}
