/**
 One run of the tool: load the labels file, load the repository's labels,
 reconcile. Reading the file, the HTTP listing and their decoding are not
 modelled; the run starts from the decoded label lists.
 */
module Sync {
  import opened Labels
  import opened Loader
  import opened Plans
  import opened Reconciler

  /** Whatever order the maps are walked in, issuing the requests turns the
      repository's labels into the file's labels, and the requests are the
      reference plan for that order over every name of either list, so each
      name gets the request its presence calls for (`Plans.PlanPresence`). How
      often each name and each kind occurs is `RunNamesAndCounts`. */
  method Run(fileLabels: seq<Label>, remoteListing: seq<Label>) returns (ops: seq<Op>, ghost order: seq<string>)
    ensures Apply(ToMap(remoteListing), ops) == ToMap(fileLabels)
    ensures Enumerates(order, ToMap(fileLabels).Keys + ToMap(remoteListing).Keys)
    ensures ops == Plan(ToMap(fileLabels), ToMap(remoteListing), order)
  {
    ToMapSpec(fileLabels);
    ToMapSpec(remoteListing);
    var desired := ToMap(fileLabels);
    var current := ToMap(remoteListing);
    ops, order := UpdateLabels(desired, current);
    PlanConverges(desired, current, order);
  }

  /** The plan of a run, over any enumeration of the loaded names, addresses
      every name of either list exactly once, with one create per file-only
      name, one update per shared name and one delete per repository-only name. */
  lemma RunNamesAndCounts(fileLabels: seq<Label>, remoteListing: seq<Label>, order: seq<string>)
    requires Enumerates(order, ToMap(fileLabels).Keys + ToMap(remoteListing).Keys)
    ensures multiset(NamesOf(Plan(ToMap(fileLabels), ToMap(remoteListing), order)))
         == multiset(Names(fileLabels) + Names(remoteListing))
    ensures CountKind(Plan(ToMap(fileLabels), ToMap(remoteListing), order), Create)
         == |Names(fileLabels) - Names(remoteListing)|
    ensures CountKind(Plan(ToMap(fileLabels), ToMap(remoteListing), order), Update)
         == |Names(fileLabels) * Names(remoteListing)|
    ensures CountKind(Plan(ToMap(fileLabels), ToMap(remoteListing), order), Delete)
         == |Names(remoteListing) - Names(fileLabels)|
  {
    ToMapSpec(fileLabels);
    ToMapSpec(remoteListing);
    PlanNamesOnce(ToMap(fileLabels), ToMap(remoteListing), order);
    PlanCounts(ToMap(fileLabels), ToMap(remoteListing), order);
  }
}
