/**
 The requests the label reconciler issues, what they do to the repository,
 and the reference plan it must follow: for every name, an update when the
 name is desired and present remotely, a create when it is desired only, and a
 delete when it is present remotely only. The three HTTP mutators become
 emitted requests; `Step` gives them their effect on the remote label map.
 */
module Plans {
  import opened Labels

  datatype Kind = Create | Update | Delete

  /** One request to the remote repository; it carries the whole label, as the
      mutators do (a delete only uses its name). */
  datatype Op = Op(kind: Kind, record: Label)

  /** The kind of request a name calls for. */
  function KindOf(desired: LabelMap, current: LabelMap, name: string): Kind
  {
    if name in desired then (if name in current then Update else Create) else Delete
  }

  /** The request a name calls for: create and update carry the desired label,
      delete carries the remote one. */
  function OpFor(desired: LabelMap, current: LabelMap, name: string): Op
    requires name in desired || name in current
  {
    if name in desired then Op(KindOf(desired, current, name), desired[name])
    else Op(Delete, current[name])
  }

  /** The reference plan: the requests for the names of `order`, in that order. */
  function Plan(desired: LabelMap, current: LabelMap, order: seq<string>): seq<Op>
    requires forall k | k in order :: k in desired || k in current
  {
    seq(|order|, i requires 0 <= i < |order| => OpFor(desired, current, order[i]))
  }

  /** No name occurs twice. */
  predicate Distinct(s: seq<string>)
  {
    forall i, j | 0 <= i < j < |s| :: s[i] != s[j]
  }

  /** `order` lists every name of `keys` exactly once: one possible iteration
      order of a Go map with those keys. */
  predicate Enumerates(order: seq<string>, keys: set<string>)
  {
    && Distinct(order)
    && (forall k | k in order :: k in keys)
    && (forall k | k in keys :: k in order)
  }

  /** How many requests of the given kind a sequence holds. */
  function CountKind(ops: seq<Op>, kind: Kind): nat
  {
    if |ops| == 0 then 0
    else (if ops[0].kind == kind then 1 else 0) + CountKind(ops[1..], kind)
  }

  /** The label names the requests address, in order. */
  function NamesOf(ops: seq<Op>): seq<string>
  {
    seq(|ops|, i requires 0 <= i < |ops| => ops[i].record.name)
  }

  /** The effect of one request on the repository's labels. */
  function Step(m: LabelMap, op: Op): LabelMap
  {
    match op.kind
    case Delete => m - {op.record.name}
    case _ => m[op.record.name := op.record]
  }

  /** The effect of a sequence of requests, issued one after the other. */
  function Apply(m: LabelMap, ops: seq<Op>): LabelMap
    decreases |ops|
  {
    if |ops| == 0 then m else Apply(Step(m, ops[0]), ops[1..])
  }

  /** The names of a sequence, as a set. */
  function Elems(s: seq<string>): set<string>
  {
    set k | k in s
  }

  /** The repository's labels after the names of `touched` have been brought
      to their desired state: desired labels are present with their desired
      record, undesired ones are gone, untouched names keep what `m` had. */
  function Overlay(m: LabelMap, desired: LabelMap, touched: set<string>): LabelMap
  {
    map k | k in (m.Keys - touched) + (touched * desired.Keys) :: if k in touched then desired[k] else m[k]
  }

  lemma PlanConcat(desired: LabelMap, current: LabelMap, a: seq<string>, b: seq<string>)
    requires forall k | k in a + b :: k in desired || k in current
    ensures Plan(desired, current, a + b) == Plan(desired, current, a) + Plan(desired, current, b)
  {
  }

  /** Extending a plan's order by one name appends that name's request. */
  lemma PlanSnoc(desired: LabelMap, current: LabelMap, order: seq<string>, k: string)
    requires forall j | j in order :: j in desired || j in current
    requires k in desired || k in current
    ensures forall j | j in order + [k] :: j in desired || j in current
    ensures Plan(desired, current, order + [k]) == Plan(desired, current, order) + [OpFor(desired, current, k)]
  {
  }

  /** Every name of a plan's order gets its request in the plan. */
  lemma PlanCovers(desired: LabelMap, current: LabelMap, order: seq<string>)
    requires forall k | k in order :: k in desired || k in current
    ensures forall k | k in order :: OpFor(desired, current, k) in Plan(desired, current, order)
  {
    forall k | k in order ensures OpFor(desired, current, k) in Plan(desired, current, order) {
      var i :| 0 <= i < |order| && order[i] == k;
      assert Plan(desired, current, order)[i] == OpFor(desired, current, k);
    }
  }

  /** In a plan over all names, every name gets its request: updates and
      creates carry the desired record, deletes the remote one. */
  lemma PlanPresence(desired: LabelMap, current: LabelMap, order: seq<string>)
    requires Enumerates(order, desired.Keys + current.Keys)
    ensures forall k | k in order :: k in desired || k in current
    ensures forall k | k in desired && k in current :: Op(Update, desired[k]) in Plan(desired, current, order)
    ensures forall k | k in desired && k !in current :: Op(Create, desired[k]) in Plan(desired, current, order)
    ensures forall k | k in current && k !in desired :: Op(Delete, current[k]) in Plan(desired, current, order)
  {
    PlanCovers(desired, current, order);
    forall k | k in desired + current ensures OpFor(desired, current, k) in Plan(desired, current, order) {
      assert k in order;
    }
  }

  /** When the remote labels are keyed by name, a plan never deletes a desired name. */
  lemma PlanKeepsDesired(desired: LabelMap, current: LabelMap, order: seq<string>)
    requires WellKeyed(current)
    requires forall k | k in order :: k in desired || k in current
    ensures forall i | 0 <= i < |order| && Plan(desired, current, order)[i].kind == Delete ::
      Plan(desired, current, order)[i].record.name !in desired
  {
  }

  /** The desired names first, then the remote-only names: a plan over this
      order issues all creates and updates before any delete. */
  lemma SplitPlan(desired: LabelMap, current: LabelMap, o1: seq<string>, o2: seq<string>)
    requires Enumerates(o1, desired.Keys)
    requires Enumerates(o2, current.Keys - desired.Keys)
    ensures Enumerates(o1 + o2, desired.Keys + current.Keys)
    ensures |o1| == |desired| && |o2| == |current.Keys - desired.Keys|
    ensures forall i | 0 <= i < |o1 + o2| :: Plan(desired, current, o1 + o2)[i].kind == Delete <==> |desired| <= i
  {
    JoinEnumerations(o1, desired.Keys, o2, current.Keys - desired.Keys, desired.Keys + current.Keys);
    EnumerationLength(o1, desired.Keys);
    EnumerationLength(o2, current.Keys - desired.Keys);
    DeletesLast(desired, current, o1, o2);
  }

  lemma DeletesLast(desired: LabelMap, current: LabelMap, o1: seq<string>, o2: seq<string>)
    requires forall k | k in o1 :: k in desired
    requires forall k | k in o2 :: k in current && k !in desired
    ensures forall k | k in o1 + o2 :: k in desired || k in current
    ensures forall i | 0 <= i < |o1 + o2| :: Plan(desired, current, o1 + o2)[i].kind == Delete <==> |o1| <= i
  {
  }

  /** Enumerations of two disjoint sets, one after the other, enumerate their union. */
  lemma JoinEnumerations(o1: seq<string>, k1: set<string>, o2: seq<string>, k2: set<string>, union: set<string>)
    requires Enumerates(o1, k1) && Enumerates(o2, k2)
    requires k1 !! k2 && union == k1 + k2
    ensures Enumerates(o1 + o2, union)
  {
    var o := o1 + o2;
    forall i, j | 0 <= i < j < |o| ensures o[i] != o[j] {
      if j < |o1| {
        assert o[i] == o1[i] && o[j] == o1[j];
      } else if |o1| <= i {
        assert o[i] == o2[i - |o1|] && o[j] == o2[j - |o1|];
      } else {
        assert o[i] == o1[i] && o[j] == o2[j - |o1|];
        assert o1[i] in k1 && o2[j - |o1|] in k2;
      }
    }
  }

  /** Extending an enumeration by a new name. */
  lemma EnumeratesSnoc(order: seq<string>, keys: set<string>, k: string)
    requires Enumerates(order, keys)
    requires k !in keys
    ensures Enumerates(order + [k], keys + {k})
  {
  }

  /** Splitting off the first name of a plan. */
  lemma PlanCons(desired: LabelMap, current: LabelMap, order: seq<string>)
    requires |order| > 0
    requires forall k | k in order :: k in desired || k in current
    ensures forall k | k in order[1..] :: k in desired || k in current
    ensures Plan(desired, current, order)[0] == OpFor(desired, current, order[0])
    ensures Plan(desired, current, order)[1..] == Plan(desired, current, order[1..])
    ensures Plan(desired, current, order) == [OpFor(desired, current, order[0])] + Plan(desired, current, order[1..])
  {
  }

  /** An enumeration of a set lists as many names as the set has. */
  lemma {:induction false} EnumerationLength(order: seq<string>, keys: set<string>)
    requires Enumerates(order, keys)
    ensures |order| == |keys|
  {
    if |order| > 0 {
      var x := order[0];
      var r := order[1..];
      assert Enumerates(r, keys - {x}) by {
        forall k | k in r ensures k in keys - {x} {
          var j :| 0 <= j < |r| && r[j] == k;
          assert order[j + 1] == k;
        }
      }
      EnumerationLength(r, keys - {x});
    }
  }

  /** An enumeration of a set holds each of its names exactly once. */
  lemma {:induction false} EnumerationMultiset(order: seq<string>, keys: set<string>)
    requires Enumerates(order, keys)
    ensures multiset(order) == multiset(keys)
  {
    if |order| == 0 {
      assert keys == {};
    } else {
      var x := order[0];
      var r := order[1..];
      assert order == [x] + r;
      assert Enumerates(r, keys - {x}) by {
        forall k | k in r ensures k in keys - {x} {
          var j :| 0 <= j < |r| && r[j] == k;
          assert order[j + 1] == k;
        }
      }
      EnumerationMultiset(r, keys - {x});
      assert multiset(keys) == multiset{x} + multiset(keys - {x});
    }
  }

  /** The names of `order` that call for a request of the given kind. */
  function NamesOfKind(desired: LabelMap, current: LabelMap, order: seq<string>, kind: Kind): set<string>
  {
    set k | k in order && KindOf(desired, current, k) == kind
  }

  lemma NamesOfKindCons(desired: LabelMap, current: LabelMap, x: string, r: seq<string>, kind: Kind)
    requires x !in r
    ensures |NamesOfKind(desired, current, [x] + r, kind)|
         == |NamesOfKind(desired, current, r, kind)| + (if KindOf(desired, current, x) == kind then 1 else 0)
  {
    var so := NamesOfKind(desired, current, [x] + r, kind);
    var sr := NamesOfKind(desired, current, r, kind);
    assert forall k :: k in [x] + r <==> k == x || k in r;
    if KindOf(desired, current, x) == kind {
      assert so == sr + {x};
    } else {
      assert so == sr;
    }
  }

  /** The number of requests of each kind in a plan over distinct names is the
      number of those names that call for that kind. */
  lemma {:induction false} PlanCountKind(desired: LabelMap, current: LabelMap, order: seq<string>, kind: Kind)
    requires Distinct(order)
    requires forall k | k in order :: k in desired || k in current
    ensures CountKind(Plan(desired, current, order), kind) == |NamesOfKind(desired, current, order, kind)|
  {
    var p := Plan(desired, current, order);
    if |order| == 0 {
      assert NamesOfKind(desired, current, order, kind) == {};
    } else {
      var x := order[0];
      var r := order[1..];
      PlanCons(desired, current, order);
      assert order == [x] + r;
      assert Distinct(r) && x !in r by {
        forall i | 0 <= i < |r| ensures r[i] == order[i + 1] {}
      }
      PlanCountKind(desired, current, r, kind);
      NamesOfKindCons(desired, current, x, r, kind);
    }
  }

  /** A plan over an enumeration of all names has one create per desired-only
      name, one update per shared name and one delete per remote-only name. */
  lemma PlanCounts(desired: LabelMap, current: LabelMap, order: seq<string>)
    requires Enumerates(order, desired.Keys + current.Keys)
    ensures CountKind(Plan(desired, current, order), Create) == |desired.Keys - current.Keys|
    ensures CountKind(Plan(desired, current, order), Update) == |desired.Keys * current.Keys|
    ensures CountKind(Plan(desired, current, order), Delete) == |current.Keys - desired.Keys|
  {
    PlanCountKind(desired, current, order, Create);
    PlanCountKind(desired, current, order, Update);
    PlanCountKind(desired, current, order, Delete);
    KindNames(desired, current, order);
  }

  /** Over an enumeration of all names, the names calling for each kind are
      the desired-only, the shared and the remote-only names. */
  lemma KindNames(desired: LabelMap, current: LabelMap, order: seq<string>)
    requires Enumerates(order, desired.Keys + current.Keys)
    ensures NamesOfKind(desired, current, order, Create) == desired.Keys - current.Keys
    ensures NamesOfKind(desired, current, order, Update) == desired.Keys * current.Keys
    ensures NamesOfKind(desired, current, order, Delete) == current.Keys - desired.Keys
  {
  }

  /** On well-keyed maps every request of a plan addresses the name it was
      issued for, so a plan over an enumeration addresses each name once. */
  lemma PlanNamesOnce(desired: LabelMap, current: LabelMap, order: seq<string>)
    requires WellKeyed(desired) && WellKeyed(current)
    requires Enumerates(order, desired.Keys + current.Keys)
    ensures multiset(NamesOf(Plan(desired, current, order))) == multiset(desired.Keys + current.Keys)
  {
    var p := Plan(desired, current, order);
    forall i | 0 <= i < |order| ensures NamesOf(p)[i] == order[i] {
      assert p[i] == OpFor(desired, current, order[i]);
    }
    assert NamesOf(p) == order;
    EnumerationMultiset(order, desired.Keys + current.Keys);
  }

  /** Issuing the requests a plan lists brings every touched name to its
      desired state and leaves every other name alone. */
  lemma {:induction false} ApplyPlan(m: LabelMap, desired: LabelMap, current: LabelMap, order: seq<string>)
    requires WellKeyed(desired) && WellKeyed(current)
    requires forall k | k in order :: k in desired || k in current
    ensures Apply(m, Plan(desired, current, order)) == Overlay(m, desired, Elems(order))
    decreases |order|
  {
    if |order| == 0 {
      assert Overlay(m, desired, {}) == m;
    } else {
      var x := order[0];
      var r := order[1..];
      PlanCons(desired, current, order);
      var m' := Step(m, OpFor(desired, current, x));
      ApplyPlan(m', desired, current, r);
      assert Elems(order) == {x} + Elems(r) by {
        assert order == [x] + r;
      }
      OverlayStep(m, desired, current, x, Elems(r));
    }
  }

  /** Bringing one name to its desired state, then a set of names, is the same
      as bringing both at once. */
  lemma OverlayStep(m: LabelMap, desired: LabelMap, current: LabelMap, x: string, rest: set<string>)
    requires WellKeyed(desired) && WellKeyed(current)
    requires x in desired || x in current
    ensures Overlay(Step(m, OpFor(desired, current, x)), desired, rest) == Overlay(m, desired, {x} + rest)
  {
  }

  /** Convergence: after the reconciler's requests the repository holds
      exactly the desired labels. */
  lemma PlanConverges(desired: LabelMap, current: LabelMap, order: seq<string>)
    requires WellKeyed(desired) && WellKeyed(current)
    requires Enumerates(order, desired.Keys + current.Keys)
    ensures Apply(current, Plan(desired, current, order)) == desired
  {
    assert forall k | k in order :: k in desired || k in current;
    ApplyPlan(current, desired, current, order);
    assert Elems(order) == desired.Keys + current.Keys;
    OverlayAll(current, desired, Elems(order));
  }

  /** Once every name either side knows has been touched, only the desired
      labels are left. */
  lemma OverlayAll(m: LabelMap, desired: LabelMap, touched: set<string>)
    requires m.Keys + desired.Keys <= touched
    ensures Overlay(m, desired, touched) == desired
  {
  }

  /** The requests a plan issues do not depend on the iteration order: any
      two orders listing the same names give the same requests. */
  lemma {:induction false} PlanOrderIndependent(desired: LabelMap, current: LabelMap, o1: seq<string>, o2: seq<string>)
    requires multiset(o1) == multiset(o2)
    requires forall k | k in o1 :: k in desired || k in current
    requires forall k | k in o2 :: k in desired || k in current
    ensures multiset(Plan(desired, current, o1)) == multiset(Plan(desired, current, o2))
    decreases |o1|
  {
    if |o1| == 0 {
      assert |o2| == |multiset(o2)| == 0;
    } else {
      var x := o1[0];
      assert x in multiset(o2);
      var j :| 0 <= j < |o2| && o2[j] == x;
      var r1, r2 := o1[..0] + o1[1..], o2[..j] + o2[j + 1..];
      RemoveAt(o1, 0);
      RemoveAt(o2, j);
      PlanRemoveAt(desired, current, o1, 0);
      PlanRemoveAt(desired, current, o2, j);
      var op := OpFor(desired, current, x);
      var p1, p2 := Plan(desired, current, r1), Plan(desired, current, r2);
      assert multiset(r1) == multiset(r2);
      PlanOrderIndependent(desired, current, r1, r2);
      assert multiset(p1) == multiset(p2);
      assert multiset(Plan(desired, current, o1)) == multiset(p1) + multiset{op};
    }
  }

  /** Removing one position of a sequence removes one occurrence of its element. */
  lemma RemoveAt<T>(s: seq<T>, j: int)
    requires 0 <= j < |s|
    ensures multiset(s[..j] + s[j + 1..]) == multiset(s) - multiset{s[j]}
    ensures forall k | k in s[..j] + s[j + 1..] :: k in s
  {
    assert s == s[..j] + [s[j]] + s[j + 1..];
    assert multiset(s) == multiset(s[..j]) + multiset{s[j]} + multiset(s[j + 1..]);
  }

  /** Removing one name from a plan's order removes exactly its request. */
  lemma PlanRemoveAt(desired: LabelMap, current: LabelMap, order: seq<string>, j: int)
    requires 0 <= j < |order|
    requires forall k | k in order :: k in desired || k in current
    ensures forall k | k in order[..j] + order[j + 1..] :: k in desired || k in current
    ensures multiset(Plan(desired, current, order))
         == multiset(Plan(desired, current, order[..j] + order[j + 1..])) + multiset{OpFor(desired, current, order[j])}
  {
    var a, x, b := order[..j], order[j], order[j + 1..];
    assert order == a + [x] + b;
    assert forall k | k in a + b :: k in order;
    PlanConcat(desired, current, a + [x], b);
    PlanConcat(desired, current, a, [x]);
    PlanConcat(desired, current, a, b);
  }

  /** When the repository already holds the desired labels, the plan still
      issues one update per label (the reconciler does not compare colours),
      creates and deletes nothing, and leaves the labels as they are. */
  lemma InSyncIssuesOnlyUpdates(desired: LabelMap, order: seq<string>)
    requires WellKeyed(desired)
    requires Enumerates(order, desired.Keys)
    ensures forall k | k in order :: k in desired
    ensures forall i | 0 <= i < |order| :: Plan(desired, desired, order)[i] == Op(Update, desired[order[i]])
    ensures CountKind(Plan(desired, desired, order), Create) == 0
    ensures CountKind(Plan(desired, desired, order), Delete) == 0
    ensures CountKind(Plan(desired, desired, order), Update) == |desired|
    ensures Apply(desired, Plan(desired, desired, order)) == desired
  {
    assert desired.Keys + desired.Keys == desired.Keys;
    PlanCounts(desired, desired, order);
    assert desired.Keys - desired.Keys == {};
    assert desired.Keys * desired.Keys == desired.Keys;
    PlanConverges(desired, desired, order);
  }
}

