/**
 The label reconciler. It walks the desired labels, issuing an update for a
 name the repository already has (and striking that name off a working copy
 of the remote labels) or a create for a name it lacks; then it issues a
 delete for every label left in the working copy. Go leaves the iteration
 order of a map unspecified, so each loop picks its next name with `:|`: the
 contracts below hold for every order the runtime might choose.
 */
module Reconciler {
  import opened Labels
  import opened Plans

  /** The first loop: one create or update per desired name, and the working
      copy of the remote labels with the matched names struck off. */
  method ClassifyDesired(desired: LabelMap, current: LabelMap)
    returns (ops: seq<Op>, remaining: LabelMap, ghost order: seq<string>)
    ensures remaining == current - desired.Keys
    ensures Enumerates(order, desired.Keys)
    ensures ops == Plan(desired, current, order)
  {
    ops, remaining, order := [], current, [];
    var pending := desired.Keys;
    ghost var done: set<string> := {};
    while pending != {}
      invariant done !! pending && done + pending == desired.Keys
      invariant Enumerates(order, done)
      invariant ops == Plan(desired, current, order)
      invariant remaining == current - done
      decreases pending
    {
      var key :| key in pending;
      StrikeOff(current, done, key);
      if key in remaining {
        remaining := remaining - {key};
        ops := ops + [Op(Update, desired[key])];
      } else {
        ops := ops + [Op(Create, desired[key])];
      }
      PlanSnoc(desired, current, order, key);
      EnumeratesSnoc(order, done, key);
      order := order + [key];
      pending := pending - {key};
      done := done + {key};
    }
  }

  /** Striking one more matched name off the working copy. */
  lemma StrikeOff(current: LabelMap, done: set<string>, key: string)
    requires key !in done
    ensures key in current - done <==> key in current
    ensures key in current ==> (current - done) - {key} == current - (done + {key})
    ensures key !in current ==> current - done == current - (done + {key})
  {
  }

  /** The second loop: one delete per label left in the working copy. */
  method DeleteRemaining(remaining: LabelMap) returns (ops: seq<Op>, ghost order: seq<string>)
    ensures Enumerates(order, remaining.Keys)
    ensures |ops| == |order| == |remaining|
    ensures forall i | 0 <= i < |ops| :: ops[i] == Op(Delete, remaining[order[i]])
    ensures forall k | k in remaining :: Op(Delete, remaining[k]) in ops
    ensures forall i | 0 <= i < |ops| :: ops[i].kind == Delete && ops[i].record in remaining.Values
    ensures WellKeyed(remaining) ==> forall i | 0 <= i < |ops| :: ops[i].record.name in remaining
  {
    ops, order := [], [];
    var pending := remaining.Keys;
    while pending != {}
      invariant pending <= remaining.Keys
      invariant Enumerates(order, remaining.Keys - pending)
      invariant |ops| == |order|
      invariant forall i | 0 <= i < |ops| :: order[i] in remaining && ops[i] == Op(Delete, remaining[order[i]])
      decreases pending
    {
      var key :| key in pending;
      ops := ops + [Op(Delete, remaining[key])];
      order := order + [key];
      pending := pending - {key};
    }
    assert remaining.Keys - pending == remaining.Keys;
    EnumerationLength(order, remaining.Keys);
    forall k | k in remaining ensures Op(Delete, remaining[k]) in ops {
      var i :| 0 <= i < |order| && order[i] == k;
      assert ops[i] == Op(Delete, remaining[k]);
    }
  }

  /** The whole reconciliation: the requests issued for the desired labels
      and the repository's current labels. They are exactly the reference plan
      for the order in which the names were visited (so `Plans.PlanPresence` and
      `Plans.PlanConverges` apply to them, and `Plans.PlanCounts` gives how many
      of each kind there are): creates and updates first, then deletes. For maps
      keyed by label name, as the loaders build them, no desired label is
      deleted and each name is addressed once. */
  method UpdateLabels(desired: LabelMap, current: LabelMap) returns (ops: seq<Op>, ghost order: seq<string>)
    ensures Enumerates(order, desired.Keys + current.Keys)
    ensures ops == Plan(desired, current, order)
    ensures forall i, j | 0 <= i < j < |ops| && ops[i].kind == Delete :: ops[j].kind == Delete
    ensures WellKeyed(current) ==>
      forall i | 0 <= i < |ops| && ops[i].kind == Delete :: ops[i].record.name !in desired
    ensures WellKeyed(desired) && WellKeyed(current) ==>
      multiset(NamesOf(ops)) == multiset(desired.Keys + current.Keys)
  {
    var updates, remaining, order1 := ClassifyDesired(desired, current);
    var deletes, order2 := DeleteRemaining(remaining);
    ops := updates + deletes;
    order := order1 + order2;
    RemainingPlan(desired, current, remaining, order2, deletes);
    PlanConcat(desired, current, order1, order2);
    SplitPlan(desired, current, order1, order2);
    if WellKeyed(current) {
      PlanKeepsDesired(desired, current, order);
    }
    if WellKeyed(desired) && WellKeyed(current) {
      PlanNamesOnce(desired, current, order);
    }
  }

  /** The deletes of the second loop are the plan's requests for the names
      that exist remotely only. */
  lemma RemainingPlan(desired: LabelMap, current: LabelMap, remaining: LabelMap, order: seq<string>, deletes: seq<Op>)
    requires remaining == current - desired.Keys
    requires Enumerates(order, remaining.Keys)
    requires |deletes| == |order|
    requires forall i | 0 <= i < |deletes| :: deletes[i] == Op(Delete, remaining[order[i]])
    ensures Enumerates(order, current.Keys - desired.Keys)
    ensures forall k | k in order :: k in current && k !in desired
    ensures deletes == Plan(desired, current, order)
  {
  }
}

