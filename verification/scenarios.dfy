/**
 Worked examples of the reconciler's plan, for every iteration order.
 */
module Scenarios {
  import opened Labels
  import opened Plans

  /** A desired label missing remotely is created. */
  lemma CreateMissing(order: seq<string>)
    requires Enumerates(order, {"bug"})
    ensures Plan(map["bug" := Label("bug", "d73a4a")], map[], order) == [Op(Create, Label("bug", "d73a4a"))]
  {
    EnumerationLength(order, {"bug"});
    assert order[0] == "bug";
  }

  /** A label on both sides is updated to the desired colour. */
  lemma UpdateToDesiredColor(order: seq<string>)
    requires Enumerates(order, {"bug"})
    ensures Plan(map["bug" := Label("bug", "ff0000")], map["bug" := Label("bug", "d73a4a")], order)
         == [Op(Update, Label("bug", "ff0000"))]
  {
    EnumerationLength(order, {"bug"});
    assert order[0] == "bug";
  }

  /** A remote label that is not desired is deleted. */
  lemma DeleteStale(order: seq<string>)
    requires Enumerates(order, {"stale"})
    ensures Plan(map[], map["stale" := Label("stale", "000000")], order) == [Op(Delete, Label("stale", "000000"))]
  {
    EnumerationLength(order, {"stale"});
    assert order[0] == "stale";
  }

  /** All three at once; the update of "bug" is issued although its colour
      already matches. */
  lemma Mixed(order: seq<string>)
    requires Enumerates(order, {"bug", "feature", "old"})
    ensures multiset(Plan(
              map["bug" := Label("bug", "d73a4a"), "feature" := Label("feature", "00ff00")],
              map["bug" := Label("bug", "d73a4a"), "old" := Label("old", "111111")],
              order))
         == multiset{Op(Update, Label("bug", "d73a4a")), Op(Create, Label("feature", "00ff00")), Op(Delete, Label("old", "111111"))}
  {
    var desired := map["bug" := Label("bug", "d73a4a"), "feature" := Label("feature", "00ff00")];
    var current := map["bug" := Label("bug", "d73a4a"), "old" := Label("old", "111111")];
    var keys := {"bug", "feature", "old"};
    var listed := ["bug", "feature", "old"];
    assert Enumerates(listed, keys);
    EnumerationMultiset(order, keys);
    EnumerationMultiset(listed, keys);
    assert forall k | k in order :: k in desired || k in current;
    PlanOrderIndependent(desired, current, order, listed);
    assert Plan(desired, current, listed)
        == [Op(Update, Label("bug", "d73a4a")), Op(Create, Label("feature", "00ff00")), Op(Delete, Label("old", "111111"))];
  }
}
