/** The effective occurrence range of a particle (`effective_min_occurs`,
    `effective_max_occurs`): for a leaf its declared range, for a group a
    range recomputed from what the group's traversal yields.
 */
module Effective {
  import opened Wrappers
  import Occurrence
  import opened Particles
  import opened Traversal

  // ---------------------------------------------------------------------
  // effective_min_occurs
  // ---------------------------------------------------------------------

  /** `effective_min_occurs`: 0 when the group may be skipped, else its
      minOccurs. A `choice` may be skipped when some yielded item has
      effective minimum 0, a `sequence` or `all` when every one has. */
  function EffectiveMinOccurs(p: Particle): (r: Result<nat, ModelError>)
    ensures r.Success? ==> r.value == 0 || r.value == p.occurs.min
    ensures p.Leaf? ==> r == Success(p.occurs.min)
    ensures p.Group? && (p.occurs.min == 0 || |p.children| == 0) ==> r == Success(0)
    ensures r.Failure? ==> r.error == DepthExceeded
    decreases Size(p), 0, 0
  {
    match p
    case Leaf(_, o) => Success(o.min)
    case Group(_, k, o, cs) =>
      if o.min == 0 || |cs| == 0 then Success(0)
      else
        var items :- IterModel(p, 0);
        var zero :- if k == Choice then AnyMinZero(items, Size(p) - 1) else AllMinZero(items, Size(p) - 1);
        if zero then Success(0) else Success(o.min)
  }

  /** `any(not e.effective_min_occurs for e in items)`, left to right,
      stopping at the first item whose effective minimum is 0. */
  function AnyMinZero(items: seq<Particle>, bound: nat): (r: Result<bool, ModelError>)
    requires forall x :: x in items ==> Size(x) <= bound
    ensures r == Success(true) ==>
              exists i :: 0 <= i < |items| && EffectiveMinOccurs(items[i]) == Success(0)
    ensures r == Success(false) ==>
              forall i :: 0 <= i < |items| ==> EffectiveMinOccurs(items[i]).Success? && EffectiveMinOccurs(items[i]).value != 0
    ensures r.Failure? ==> r.error == DepthExceeded
    decreases bound, 1, |items|
  {
    if items == [] then Success(false)
    else
      var m :- EffectiveMinOccurs(items[0]);
      if m == 0 then Success(true) else AnyMinZero(items[1..], bound)
  }

  /** `all(not e.effective_min_occurs for e in items)`, left to right,
      stopping at the first item whose effective minimum is not 0. */
  function AllMinZero(items: seq<Particle>, bound: nat): (r: Result<bool, ModelError>)
    requires forall x :: x in items ==> Size(x) <= bound
    ensures r == Success(true) ==>
              forall i :: 0 <= i < |items| ==> EffectiveMinOccurs(items[i]) == Success(0)
    ensures r == Success(false) ==>
              exists i :: 0 <= i < |items| && EffectiveMinOccurs(items[i]).Success? && EffectiveMinOccurs(items[i]).value != 0
    ensures r.Failure? ==> r.error == DepthExceeded
    decreases bound, 1, |items|
  {
    if items == [] then Success(true)
    else
      var m :- EffectiveMinOccurs(items[0]);
      if m != 0 then Success(false) else AllMinZero(items[1..], bound)
  }

  // ---------------------------------------------------------------------
  // effective_max_occurs
  // ---------------------------------------------------------------------

  /** `m` repetitions of something that occurs at most `v` times. */
  function Scale(m: nat, v: Option<nat>): (r: Option<nat>)
    ensures r.None? <==> v.None?
    ensures r.Some? && m > 0 && v.value > 0 ==> r.value >= m && r.value >= v.value
  {
    if v.None? then None else Some(m * v.value)
  }

  /** The greatest of several maxima, unbounded if any of them is. */
  function Largest(vs: seq<Option<nat>>): (r: Option<nat>)
    requires |vs| > 0
    ensures r.None? <==> exists i :: 0 <= i < |vs| && vs[i].None?
    ensures r.Some? ==> r in vs && forall i :: 0 <= i < |vs| ==> vs[i].value <= r.value
  {
    if |vs| == 1 then vs[0]
    else
      var rest := Largest(vs[1..]);
      assert forall i :: 1 <= i < |vs| ==> vs[i] == vs[1..][i - 1];
      if vs[0].None? || rest.None? then None
      else if vs[0].value >= rest.value then vs[0] else rest
  }

  /** `effective_max_occurs`: 0 when nothing in the group can occur,
      unbounded when the group itself is; otherwise the group maximum,
      scaled by the greatest effective item maximum (`choice`, or no item
      required), by the maximum of the one required item, or not at all
      when two or more items are required. */
  function EffectiveMaxOccurs(p: Particle): (r: Result<Option<nat>, ModelError>)
    ensures p.Leaf? ==> r == Success(p.occurs.max)
    ensures p.Group? && (p.occurs.max == Some(0) || |p.children| == 0) ==> r == Success(Some(0))
    ensures r.Success? && p.occurs.max.None? ==> r.value == Some(0) || r.value.None?
    ensures r.Success? && p.occurs.max.Some? && r.value.Some? ==>
              r.value.value == 0 || r.value.value >= p.occurs.max.value
    ensures r.Failure? ==> r.error == DepthExceeded
    decreases Size(p), 0, 0
  {
    match p
    case Leaf(_, o) => Success(o.max)
    case Group(_, k, o, cs) =>
      if o.max == Some(0) || |cs| == 0 then Success(Some(0))
      else
        var items :- IterModel(p, 0);
        var maxes :- MaxesOf(items, Size(p) - 1);
        GroupMax(k, o.max, items, maxes)
  }

  /** The effective maximum of a group of kind `k` and maximum `max`
      (neither 0) whose traversal yields `items`, of effective maxima `maxes`.
      Items that cannot occur are dropped first; if none is left the group
      cannot occur either. */
  function GroupMax(k: Kind, max: Option<nat>, items: seq<Particle>, maxes: seq<Option<nat>>): (r: Result<Option<nat>, ModelError>)
    requires |items| == |maxes| && max != Some(0)
    ensures r.Success? ==> (r.value == Some(0) <==> forall i :: 0 <= i < |maxes| ==> maxes[i] == Some(0))
    ensures r.Success? && max.None? ==> r.value == Some(0) || r.value.None?
    ensures r.Success? && max.Some? && r.value.Some? ==> r.value.value == 0 || r.value.value >= max.value
    ensures r.Failure? ==> r.error == DepthExceeded
  {
    var (effItems, effMaxes) := KeepOccurring(items, maxes);
    if effItems == [] then Success(Some(0))
    else if max.None? then Success(None)
    else if k == Choice then Success(Scale(max.value, Largest(effMaxes)))
    else
      var mins :- MinsOf(effItems);
      var required := Required(effMaxes, mins);
      if required == [] then Success(Scale(max.value, Largest(effMaxes)))
      else if |required| > 1 then Success(max)
      else
        assert required[0] in effMaxes;
        Success(Scale(max.value, required[0]))
  }

  /** The effective maxima of `items`, in order. */
  function MaxesOf(items: seq<Particle>, bound: nat): (r: Result<seq<Option<nat>>, ModelError>)
    requires forall x :: x in items ==> Size(x) <= bound
    ensures r.Success? ==> |r.value| == |items|
    ensures r.Success? ==> forall i :: 0 <= i < |items| ==> EffectiveMaxOccurs(items[i]) == Success(r.value[i])
    ensures r.Failure? ==> r.error == DepthExceeded
    decreases bound, 1, |items|
  {
    if items == [] then Success([])
    else
      var m :- EffectiveMaxOccurs(items[0]);
      var rest :- MaxesOf(items[1..], bound);
      Success([m] + rest)
  }

  /** The effective minima of `items`, in order. */
  function MinsOf(items: seq<Particle>): (r: Result<seq<nat>, ModelError>)
    ensures r.Success? ==> |r.value| == |items|
    ensures r.Success? ==> forall i :: 0 <= i < |items| ==> EffectiveMinOccurs(items[i]) == Success(r.value[i])
    ensures r.Failure? ==> r.error == DepthExceeded
  {
    if items == [] then Success([])
    else
      var m :- EffectiveMinOccurs(items[0]);
      var rest :- MinsOf(items[1..]);
      Success([m] + rest)
  }

  /** How many of the first `i` entries of `keep` are true. */
  function Rank(keep: seq<bool>, i: nat): nat
    requires i <= |keep|
  {
    if i == 0 then 0 else Rank(keep, i - 1) + (if keep[i - 1] then 1 else 0)
  }

  /** The positions of the true entries of `keep`, the `j`-th true entry
      listed `j`-th: the indices a filtering list comprehension keeps. */
  function Positions(keep: seq<bool>): (ps: seq<nat>)
    ensures |ps| == Rank(keep, |keep|)
    ensures forall j :: 0 <= j < |ps| ==> ps[j] < |keep| && keep[ps[j]] && Rank(keep, ps[j]) == j
  {
    if keep == [] then []
    else
      var rest := Positions(keep[1..]);
      var ps := if keep[0] then [0] + Shift(rest) else Shift(rest);
      PositionsFrom(keep, rest, ps);
      ps
  }

  /** The positions of the true entries of `keep`, whether listed by rank. */
  predicate ListsByRank(keep: seq<bool>, ps: seq<nat>) {
    |ps| == Rank(keep, |keep|) &&
    forall j :: 0 <= j < |ps| ==> ps[j] < |keep| && keep[ps[j]] && Rank(keep, ps[j]) == j
  }

  /** Listing the true entries of the tail by rank, then moving them on
      (after `0` if the first entry is true), lists those of `keep`. */
  lemma PositionsFrom(keep: seq<bool>, rest: seq<nat>, ps: seq<nat>)
    requires keep != [] && ListsByRank(keep[1..], rest)
    requires ps == (if keep[0] then [0] + Shift(rest) else Shift(rest))
    ensures ListsByRank(keep, ps)
  {
    RankTailAt(keep, |keep|);
    var sh := Shift(rest);
    if keep[0] {
      forall j | 1 <= j < |ps|
        ensures ps[j] < |keep| && keep[ps[j]] && Rank(keep, ps[j]) == j
      {
        assert ps[j] == sh[j - 1] == rest[j - 1] + 1;
        PositionAfter(keep, rest[j - 1], j - 1);
      }
    } else {
      forall j | 0 <= j < |ps|
        ensures ps[j] < |keep| && keep[ps[j]] && Rank(keep, ps[j]) == j
      {
        assert ps[j] == sh[j] == rest[j] + 1;
        PositionAfter(keep, rest[j], j);
      }
    }
  }

  /** A true entry of the tail of `keep`, one place on in `keep`. */
  lemma PositionAfter(keep: seq<bool>, q: nat, rank: nat)
    requires q + 1 < |keep| && keep[1..][q] && Rank(keep[1..], q) == rank
    ensures keep[q + 1] && Rank(keep, q + 1) == rank + (if keep[0] then 1 else 0)
  {
    RankTailAt(keep, q + 1);
  }

  /** Every position moved one place on. */
  function Shift(ps: seq<nat>): (r: seq<nat>)
    ensures |r| == |ps| && forall j :: 0 <= j < |ps| ==> r[j] == ps[j] + 1
  {
    if ps == [] then [] else [ps[0] + 1] + Shift(ps[1..])
  }

  lemma {:induction false} RankTail(keep: seq<bool>)
    requires keep != []
    ensures forall i :: 1 <= i <= |keep| ==> Rank(keep, i) == (if keep[0] then 1 else 0) + Rank(keep[1..], i - 1)
  {
    forall i | 1 <= i <= |keep|
      ensures Rank(keep, i) == (if keep[0] then 1 else 0) + Rank(keep[1..], i - 1)
    {
      RankTailAt(keep, i);
    }
  }

  lemma {:induction false} RankTailAt(keep: seq<bool>, i: nat)
    requires 1 <= i <= |keep|
    ensures Rank(keep, i) == (if keep[0] then 1 else 0) + Rank(keep[1..], i - 1)
  {
    if i > 1 {
      RankTailAt(keep, i - 1);
      assert keep[1..][i - 2] == keep[i - 1];
    }
  }

  lemma {:induction false} RankMono(keep: seq<bool>, i: nat, j: nat)
    requires i <= j <= |keep|
    ensures Rank(keep, i) <= Rank(keep, j)
    decreases j - i
  {
    if i < j {
      RankMono(keep, i, j - 1);
    }
  }

  /** Every true entry is listed, at the place given by its rank. */
  lemma {:induction false} PositionsComplete(keep: seq<bool>, i: nat)
    requires i < |keep| && keep[i]
    ensures Rank(keep, i) < |Positions(keep)| && Positions(keep)[Rank(keep, i)] == i
  {
    RankMono(keep, i + 1, |keep|);
    RankTail(keep);
    if i > 0 {
      assert keep[1..][i - 1] == keep[i];
      PositionsComplete(keep[1..], i - 1);
    }
  }

  /** The positions are listed in increasing order. */
  lemma PositionsIncreasing(keep: seq<bool>, j: nat, l: nat)
    requires j < l < |Positions(keep)|
    ensures Positions(keep)[j] < Positions(keep)[l]
  {
    var ps := Positions(keep);
    if ps[l] <= ps[j] {
      RankMono(keep, ps[l], ps[j]);
    }
  }

  /** Which effective maxima are not 0. */
  function Occurring(maxes: seq<Option<nat>>): (b: seq<bool>)
    ensures |b| == |maxes| && forall i :: 0 <= i < |maxes| ==> (b[i] <==> maxes[i] != Some(0))
  {
    if maxes == [] then [] else [maxes[0] != Some(0)] + Occurring(maxes[1..])
  }

  /** Which effective minima are not 0. */
  function NonZero(mins: seq<nat>): (b: seq<bool>)
    ensures |b| == |mins| && forall i :: 0 <= i < |mins| ==> (b[i] <==> mins[i] != 0)
  {
    if mins == [] then [] else [mins[0] != 0] + NonZero(mins[1..])
  }

  /** The positions of the items that can occur at all. */
  function Kept(maxes: seq<Option<nat>>): seq<nat> {
    Positions(Occurring(maxes))
  }

  /** The positions of the items that must occur. */
  function Needed(mins: seq<nat>): seq<nat> {
    Positions(NonZero(mins))
  }

  /** The items (with their effective maxima) that can occur at all: the
      pairs whose maximum is not 0, in order (`KeepOccurringKeeps` names
      them by position). */
  function KeepOccurring(items: seq<Particle>, maxes: seq<Option<nat>>): (r: (seq<Particle>, seq<Option<nat>>))
    requires |items| == |maxes|
    ensures |r.0| == |r.1|
    ensures forall j :: 0 <= j < |r.1| ==> r.1[j] != Some(0)
    ensures r.0 == [] <==> forall i :: 0 <= i < |maxes| ==> maxes[i] == Some(0)
  {
    if items == [] then ([], [])
    else
      var rest := KeepOccurring(items[1..], maxes[1..]);
      assert forall i :: 1 <= i < |maxes| ==> maxes[i] == maxes[1..][i - 1];
      if maxes[0] == Some(0) then rest
      else ([items[0]] + rest.0, [maxes[0]] + rest.1)
  }

  /** The kept pairs are exactly those at the kept positions. */
  lemma {:induction false} KeepOccurringKeeps(items: seq<Particle>, maxes: seq<Option<nat>>)
    requires |items| == |maxes|
    ensures KeepsKept(items, maxes)
  {
    if items != [] {
      KeepOccurringKeeps(items[1..], maxes[1..]);
      KeptStep(maxes);
      if maxes[0] != Some(0) {
        KeepTaken(items, maxes);
      } else {
        KeepDropped(items, maxes);
      }
    }
  }

  lemma KeepTaken(items: seq<Particle>, maxes: seq<Option<nat>>)
    requires |items| == |maxes| && items != [] && maxes[0] != Some(0)
    requires KeepsKept(items[1..], maxes[1..])
    requires Kept(maxes) == [0] + Shift(Kept(maxes[1..]))
    ensures KeepsKept(items, maxes)
  {
    var rest := KeepOccurring(items[1..], maxes[1..]);
    assert KeepOccurring(items, maxes) == ([items[0]] + rest.0, [maxes[0]] + rest.1);
    SelectStep(items, Kept(maxes[1..]), rest.0, true);
    SelectStep(maxes, Kept(maxes[1..]), rest.1, true);
  }

  lemma KeepDropped(items: seq<Particle>, maxes: seq<Option<nat>>)
    requires |items| == |maxes| && items != [] && maxes[0] == Some(0)
    requires KeepsKept(items[1..], maxes[1..])
    requires Kept(maxes) == Shift(Kept(maxes[1..]))
    ensures KeepsKept(items, maxes)
  {
    var rest := KeepOccurring(items[1..], maxes[1..]);
    assert KeepOccurring(items, maxes) == rest;
    SelectStep(items, Kept(maxes[1..]), rest.0, false);
    SelectStep(maxes, Kept(maxes[1..]), rest.1, false);
  }

  /** `KeepOccurring` keeps the pairs at the kept positions. */
  ghost predicate KeepsKept(items: seq<Particle>, maxes: seq<Option<nat>>)
    requires |items| == |maxes|
  {
    SelectsAt(items, Kept(maxes), KeepOccurring(items, maxes).0) &&
    SelectsAt(maxes, Kept(maxes), KeepOccurring(items, maxes).1)
  }

  /** `r` lists the entries of `xs` at the positions `ps`. */
  ghost predicate SelectsAt<T>(xs: seq<T>, ps: seq<nat>, r: seq<T>) {
    |r| == |ps| && forall j :: 0 <= j < |r| ==> ps[j] < |xs| && r[j] == xs[ps[j]]
  }

  /** Selecting from the tail of `xs` at positions `ps'`, then moving the
      positions on (after taking the first entry at `0`, if `take`),
      selects from `xs`. */
  lemma SelectStep<T>(xs: seq<T>, ps': seq<nat>, rest: seq<T>, take: bool)
    requires xs != [] && SelectsAt(xs[1..], ps', rest)
    ensures take ==> SelectsAt(xs, [0] + Shift(ps'), [xs[0]] + rest)
    ensures !take ==> SelectsAt(xs, Shift(ps'), rest)
  {
    var sh := Shift(ps');
    if take {
      var r, ps := [xs[0]] + rest, [0] + sh;
      forall j | 1 <= j < |r|
        ensures ps[j] < |xs| && r[j] == xs[ps[j]]
      {
        assert ps[j] == sh[j - 1] == ps'[j - 1] + 1;
        assert r[j] == rest[j - 1];
      }
    } else {
      forall j | 0 <= j < |rest|
        ensures sh[j] < |xs| && rest[j] == xs[sh[j]]
      {
        assert sh[j] == ps'[j] + 1;
      }
    }
  }

  /** How the kept positions of `maxes` arise from those of its tail. */
  lemma KeptStep(maxes: seq<Option<nat>>)
    requires maxes != []
    ensures maxes[0] == Some(0) ==> Kept(maxes) == Shift(Kept(maxes[1..]))
    ensures maxes[0] != Some(0) ==> Kept(maxes) == [0] + Shift(Kept(maxes[1..]))
  {
    assert Occurring(maxes)[1..] == Occurring(maxes[1..]);
  }

  /** The maxima of the items whose effective minimum is not 0, in order
      (`RequiredKeeps` names them by position). */
  function Required(maxes: seq<Option<nat>>, mins: seq<nat>): (r: seq<Option<nat>>)
    requires |maxes| == |mins|
    ensures forall x :: x in r ==> x in maxes
  {
    if maxes == [] then []
    else if mins[0] != 0 then [maxes[0]] + Required(maxes[1..], mins[1..])
    else Required(maxes[1..], mins[1..])
  }

  /** The required maxima are exactly those at the needed positions. */
  lemma {:induction false} RequiredKeeps(maxes: seq<Option<nat>>, mins: seq<nat>)
    requires |maxes| == |mins|
    ensures KeepsNeeded(maxes, mins)
  {
    if maxes != [] {
      var rest := Required(maxes[1..], mins[1..]);
      RequiredKeeps(maxes[1..], mins[1..]);
      NeededStep(mins);
      if mins[0] != 0 {
        assert Required(maxes, mins) == [maxes[0]] + rest;
        SelectStep(maxes, Needed(mins[1..]), rest, true);
      } else {
        assert Required(maxes, mins) == rest;
        SelectStep(maxes, Needed(mins[1..]), rest, false);
      }
    }
  }

  /** `Required` keeps the maxima at the needed positions. */
  ghost predicate KeepsNeeded(maxes: seq<Option<nat>>, mins: seq<nat>)
    requires |maxes| == |mins|
  {
    SelectsAt(maxes, Needed(mins), Required(maxes, mins))
  }

  /** How the needed positions of `mins` arise from those of its tail. */
  lemma NeededStep(mins: seq<nat>)
    requires mins != []
    ensures mins[0] == 0 ==> Needed(mins) == Shift(Needed(mins[1..]))
    ensures mins[0] != 0 ==> Needed(mins) == [0] + Shift(Needed(mins[1..]))
  {
    assert NonZero(mins)[1..] == NonZero(mins[1..]);
  }

  // ---------------------------------------------------------------------
  // What the effective range means
  // ---------------------------------------------------------------------

  /** For models without empty groups, and with `all` groups only inside
      `all` groups (`WellFormed`), a particle's effective minimum is 0
      exactly when the particle is emptiable. An empty group is legal
      XML Schema, and with one as a choice alternative the two notions
      differ (EmptyAltDisagrees). */
  lemma {:induction false} EffectiveMinZeroIffEmptiable(p: Particle)
    requires WellFormed(p) && EffectiveMinOccurs(p).Success?
    ensures EffectiveMinOccurs(p).value == 0 <==> IsEmptiable(p)
    decreases Size(p), 1
  {
    match p
    case Leaf(_, _) =>
    case Group(_, k, o, cs) =>
      if o.min != 0 && |cs| != 0 {
        assert IterModel(p, 0).Success?;
        var items := IterModel(p, 0).value;
        WellFormedChildren(p);
        FlattenKeepsEmptiability(cs, k, 0, k);
        assert forall x :: x in items ==> WellFormed(x) && Size(x) <= Size(p) - 1;
        if k == Choice {
          var z := AnyMinZero(items, Size(p) - 1);
          assert z.Success? && EffectiveMinOccurs(p) == (if z.value then Success(0) else Success(o.min));
          AnyMinZeroIffSomeEmptiable(items, Size(p) - 1);
          assert IsEmptiable(p) <==> SomeEmptiable(cs);
        } else {
          var z := AllMinZero(items, Size(p) - 1);
          assert z.Success? && EffectiveMinOccurs(p) == (if z.value then Success(0) else Success(o.min));
          AllMinZeroIffEveryEmptiable(items, Size(p) - 1);
          assert IsEmptiable(p) <==> EveryEmptiable(cs);
        }
      }
  }

  /** Some item of a well-formed list has effective minimum 0 exactly when
      some item is emptiable. */
  lemma {:induction false} AnyMinZeroIffSomeEmptiable(items: seq<Particle>, bound: nat)
    requires forall x :: x in items ==> WellFormed(x) && Size(x) <= bound
    requires AnyMinZero(items, bound).Success?
    ensures AnyMinZero(items, bound).value <==> SomeEmptiable(items)
    decreases bound, 2
  {
    if AnyMinZero(items, bound).value {
      var i :| 0 <= i < |items| && EffectiveMinOccurs(items[i]) == Success(0);
      EffectiveMinZeroIffEmptiable(items[i]);
    } else {
      forall i | 0 <= i < |items|
        ensures !IsEmptiable(items[i])
      {
        EffectiveMinZeroIffEmptiable(items[i]);
      }
    }
  }

  /** Every item of a well-formed list has effective minimum 0 exactly
      when every item is emptiable. */
  lemma {:induction false} AllMinZeroIffEveryEmptiable(items: seq<Particle>, bound: nat)
    requires forall x :: x in items ==> WellFormed(x) && Size(x) <= bound
    requires AllMinZero(items, bound).Success?
    ensures AllMinZero(items, bound).value <==> EveryEmptiable(items)
    decreases bound, 2
  {
    if AllMinZero(items, bound).value {
      forall i | 0 <= i < |items|
        ensures IsEmptiable(items[i])
      {
        EffectiveMinZeroIffEmptiable(items[i]);
      }
    } else {
      var i :| 0 <= i < |items| && EffectiveMinOccurs(items[i]).Success? && EffectiveMinOccurs(items[i]).value != 0;
      EffectiveMinZeroIffEmptiable(items[i]);
    }
  }

  predicate SomeEmptiable(s: seq<Particle>) {
    exists i :: 0 <= i < |s| && IsEmptiable(s[i])
  }

  predicate EveryEmptiable(s: seq<Particle>) {
    forall i :: 0 <= i < |s| ==> IsEmptiable(s[i])
  }

  /** Expanding pointless groups, in a well-formed model, neither adds nor
      loses a way to skip the group: a `choice` has an emptiable item
      exactly when it has an emptiable child, a `sequence` or `all` has
      only emptiable items exactly when it has only emptiable children.
      `owner` is the kind of the group whose children `cs` are. */
  lemma {:induction false} FlattenKeepsEmptiability(cs: seq<Particle>, parent: Kind, depth: nat, owner: Kind)
    requires Flatten(cs, parent, depth).Success?
    requires forall x :: x in cs ==> WellFormed(x)
    requires forall x :: x in cs && x.Group? && x.kind == All ==> owner == All
    requires owner == All ==> parent == All
    ensures forall x :: x in Flatten(cs, parent, depth).value ==> WellFormed(x)
    ensures parent == Choice ==> (SomeEmptiable(Flatten(cs, parent, depth).value) <==> SomeEmptiable(cs))
    ensures parent != Choice ==> (EveryEmptiable(Flatten(cs, parent, depth).value) <==> EveryEmptiable(cs))
    decreases SizeOf(cs)
  {
    if cs != [] {
      var c := cs[0];
      var items := Flatten(cs, parent, depth).value;
      var tail := Flatten(cs[1..], parent, depth).value;
      FlattenKeepsEmptiability(cs[1..], parent, depth, owner);
      FlattenStep(cs, parent, depth);
      var head: seq<Particle>;
      if c.Group? && IsPointless(c, parent) {
        head := Flatten(c.children, parent, depth + 1).value;
        WellFormedChildren(c);
        FlattenKeepsEmptiability(c.children, parent, depth + 1, c.kind);
        PointlessGroupSkippedLikeChildren(c, parent);
      } else {
        head := [c];
        SingletonEmptiable(c);
      }
      assert cs == [c] + cs[1..];
      JoinKeepsEmptiability(c, cs[1..], head, tail, parent);
    }
  }

  /** The children of a well-formed group, in membership form. */
  lemma WellFormedChildren(g: Particle)
    requires g.Group? && WellFormed(g)
    ensures forall x :: x in g.children ==> WellFormed(x)
    ensures forall x :: x in g.children && x.Group? && x.kind == All ==> g.kind == All
  {
  }

  lemma SingletonEmptiable(c: Particle)
    ensures SomeEmptiable([c]) <==> IsEmptiable(c)
    ensures EveryEmptiable([c]) <==> IsEmptiable(c)
  {
    assert [c][0] == c;
  }

  /** Replacing the first particle `c` by `head` and the rest by `tail`
      keeps emptiability when each replacement keeps it. */
  lemma JoinKeepsEmptiability(c: Particle, rest: seq<Particle>, head: seq<Particle>, tail: seq<Particle>, parent: Kind)
    requires parent == Choice ==> (SomeEmptiable(head) <==> IsEmptiable(c)) && (SomeEmptiable(tail) <==> SomeEmptiable(rest))
    requires parent != Choice ==> (EveryEmptiable(head) <==> IsEmptiable(c)) && (EveryEmptiable(tail) <==> EveryEmptiable(rest))
    ensures parent == Choice ==> (SomeEmptiable(head + tail) <==> SomeEmptiable([c] + rest))
    ensures parent != Choice ==> (EveryEmptiable(head + tail) <==> EveryEmptiable([c] + rest))
  {
    SingletonEmptiable(c);
    SomeEmptiableAppend(head, tail);
    EveryEmptiableAppend(head, tail);
    SomeEmptiableAppend([c], rest);
    EveryEmptiableAppend([c], rest);
  }

  /** A pointless, well-formed group can be skipped exactly as its
      children can when they are read as alternatives of a `choice` parent,
      or as parts of any other parent. */
  lemma PointlessGroupSkippedLikeChildren(c: Particle, parent: Kind)
    requires c.Group? && WellFormed(c) && IsPointless(c, parent)
    requires c.kind == All ==> parent == All
    ensures parent == Choice ==> (IsEmptiable(c) <==> SomeEmptiable(c.children))
    ensures parent != Choice ==> (IsEmptiable(c) <==> EveryEmptiable(c.children))
  {
    assert |c.children| > 0 && c.occurs.min == 1;
    assert |c.children| == 1 || c.kind == All || c.kind == parent;
    if |c.children| == 1 {
      assert SomeEmptiable(c.children) <==> IsEmptiable(c.children[0]);
      assert EveryEmptiable(c.children) <==> IsEmptiable(c.children[0]);
    }
  }

  lemma SomeEmptiableAppend(a: seq<Particle>, b: seq<Particle>)
    ensures SomeEmptiable(a + b) <==> SomeEmptiable(a) || SomeEmptiable(b)
  {
    if SomeEmptiable(a + b) {
      var i :| 0 <= i < |a + b| && IsEmptiable((a + b)[i]);
      if i >= |a| {
        assert (a + b)[i] == b[i - |a|];
      } else {
        assert (a + b)[i] == a[i];
      }
    }
    if SomeEmptiable(a) {
      var i :| 0 <= i < |a| && IsEmptiable(a[i]);
      assert (a + b)[i] == a[i];
    }
    if SomeEmptiable(b) {
      var i :| 0 <= i < |b| && IsEmptiable(b[i]);
      assert (a + b)[|a| + i] == b[i];
    }
  }

  lemma EveryEmptiableAppend(a: seq<Particle>, b: seq<Particle>)
    ensures EveryEmptiable(a + b) <==> EveryEmptiable(a) && EveryEmptiable(b)
  {
    if EveryEmptiable(a + b) {
      forall i | 0 <= i < |a|
        ensures IsEmptiable(a[i])
      {
        assert (a + b)[i] == a[i];
      }
      forall i | 0 <= i < |b|
        ensures IsEmptiable(b[i])
      {
        assert (a + b)[|a| + i] == b[i];
      }
    }
    if EveryEmptiable(a) && EveryEmptiable(b) {
      forall i | 0 <= i < |a + b|
        ensures IsEmptiable((a + b)[i])
      {
        if i < |a| {
          assert (a + b)[i] == a[i];
        } else {
          assert (a + b)[i] == b[i - |a|];
        }
      }
    }
  }

  /** A particle's effective maximum is 0 exactly when none of the leaves
      that can occur at all (those not beneath a group whose maxOccurs is
      0) can occur: pointless groups are looked through, and a group
      whose items can occur is never scaled down to 0. */
  lemma {:induction false} EffectiveMaxZeroIffNoLeafOccurs(p: Particle)
    ensures EffectiveMaxOccurs(p).Success? ==>
              (EffectiveMaxOccurs(p).value == Some(0) <==> forall x :: x in LiveLeaves(p) ==> x.occurs.max == Some(0))
    decreases Size(p)
  {
    match p
    case Leaf(_, _) =>
    case Group(_, k, o, cs) =>
      if o.max != Some(0) && |cs| != 0 && EffectiveMaxOccurs(p).Success? {
        var items := IterModel(p, 0).value;
        var maxes := MaxesOf(items, Size(p) - 1).value;
        ExpandKeepsLiveLeaves(p, k, 0);
        assert LiveLeaves(p) == LiveLeavesOf(items);
        forall i | 0 <= i < |items|
          ensures maxes[i] == Some(0) <==> forall x :: x in LiveLeaves(items[i]) ==> x.occurs.max == Some(0)
        {
          EffectiveMaxZeroIffNoLeafOccurs(items[i]);
        }
        LiveLeavesOfMembership(items);
      }
  }

  /** An unbounded group has an unbounded effective maximum exactly when
      some leaf that can occur beneath it may occur at least once. */
  lemma UnboundedGroupEffectiveMax(g: Particle)
    requires g.Group? && g.occurs.max.None?
    ensures EffectiveMaxOccurs(g).Success? ==>
              (EffectiveMaxOccurs(g).value.None? <==> exists x :: x in LiveLeaves(g) && x.occurs.max != Some(0))
  {
    EffectiveMaxZeroIffNoLeafOccurs(g);
  }

  /** A leaf occurs in the live leaves of a list exactly when it occurs in
      those of one of its members. */
  lemma {:induction false} LiveLeavesOfMembership(s: seq<Particle>)
    ensures forall x :: x in LiveLeavesOf(s) <==> exists i :: 0 <= i < |s| && x in LiveLeaves(s[i])
    decreases |s|
  {
    if s != [] {
      LiveLeavesOfMembership(s[1..]);
      assert forall i :: 1 <= i < |s| ==> s[i] == s[1..][i - 1];
    }
  }

  // ---------------------------------------------------------------------
  // The effective maximum of a bounded group, branch by branch
  // ---------------------------------------------------------------------

  /** `v` is `m` times the greatest of `maxes`: unbounded exactly when one
      of them is, otherwise `m` times one of them that no other exceeds. */
  predicate ScaledGreatest(m: nat, maxes: seq<Option<nat>>, v: Option<nat>) {
    (v.None? <==> exists i :: 0 <= i < |maxes| && maxes[i].None?) &&
    (v.Some? ==> exists i :: 0 <= i < |maxes| && maxes[i].Some? && v.value == m * maxes[i].value &&
                   forall j :: 0 <= j < |maxes| ==> maxes[j].Some? && maxes[j].value <= maxes[i].value)
  }

  /** Item `i` can occur and must occur: its effective maximum is not 0
      and its effective minimum is. */
  predicate IsRequiredItem(items: seq<Particle>, maxes: seq<Option<nat>>, i: int) {
    0 <= i < |items| && i < |maxes| && maxes[i] != Some(0) &&
    EffectiveMinOccurs(items[i]).Success? && EffectiveMinOccurs(items[i]).value != 0
  }

  /** Dropping the items that cannot occur changes neither which maximum
      is greatest nor whether one is unbounded. */
  lemma KeptLargest(items: seq<Particle>, maxes: seq<Option<nat>>, m: nat)
    requires |items| == |maxes|
    requires exists i :: 0 <= i < |maxes| && maxes[i] != Some(0)
    ensures KeepOccurring(items, maxes).1 != []
    ensures ScaledGreatest(m, maxes, Scale(m, Largest(KeepOccurring(items, maxes).1)))
  {
    var eff := KeepOccurring(items, maxes).1;
    KeptCovers(items, maxes);
    var big := Largest(eff);
    if big.Some? {
      var i :| 0 <= i < |maxes| && maxes[i] == big;
      assert forall j :: 0 <= j < |maxes| ==> maxes[j].Some? && maxes[j].value <= big.value;
    }
  }

  /** The kept maxima are maxima of `maxes`, and every maximum that is
      not 0 is kept. */
  lemma KeptCovers(items: seq<Particle>, maxes: seq<Option<nat>>)
    requires |items| == |maxes|
    ensures forall x :: x in KeepOccurring(items, maxes).1 ==> x in maxes
    ensures forall i :: 0 <= i < |maxes| && maxes[i] != Some(0) ==> maxes[i] in KeepOccurring(items, maxes).1
  {
    var eff := KeepOccurring(items, maxes).1;
    KeepOccurringKeeps(items, maxes);
    forall i | 0 <= i < |maxes| && maxes[i] != Some(0)
      ensures maxes[i] in eff
    {
      PositionsComplete(Occurring(maxes), i);
      assert eff[Rank(Occurring(maxes), i)] == maxes[i];
    }
  }

  /** The position among the items of the `l`-th required entry, or -1 if
      there is none. */
  function Origin(maxes: seq<Option<nat>>, mins: seq<nat>, l: nat): int {
    if l < |Needed(mins)| && Needed(mins)[l] < |Kept(maxes)| then Kept(maxes)[Needed(mins)[l]] else -1
  }

  /** The effective minima of the kept items are `mins`. */
  predicate KeptMins(items: seq<Particle>, maxes: seq<Option<nat>>, mins: seq<nat>)
    requires |items| == |maxes|
  {
    MinsOf(KeepOccurring(items, maxes).0) == Success(mins)
  }

  /** Every required entry comes from a required item. */
  lemma ItemFromRequired(items: seq<Particle>, maxes: seq<Option<nat>>, mins: seq<nat>, l: nat)
    requires |items| == |maxes| && KeptMins(items, maxes, mins)
    requires l < |Required(KeepOccurring(items, maxes).1, mins)|
    ensures IsRequiredItem(items, maxes, Origin(maxes, mins, l))
    ensures Required(KeepOccurring(items, maxes).1, mins)[l] == maxes[Origin(maxes, mins, l)]
  {
    var eff := KeepOccurring(items, maxes);
    KeepOccurringKeeps(items, maxes);
    RequiredKeeps(eff.1, mins);
    var j := Needed(mins)[l];
    assert eff.0[j] == items[Kept(maxes)[j]];
  }

  /** Distinct required entries come from distinct items. */
  lemma OriginInjective(maxes: seq<Option<nat>>, mins: seq<nat>, l: nat, l': nat)
    requires Origin(maxes, mins, l) >= 0 && Origin(maxes, mins, l') >= 0
    ensures Origin(maxes, mins, l) == Origin(maxes, mins, l') ==> l == l'
  {
  }

  /** Every required item gives a required entry. */
  lemma RequiredFromItem(items: seq<Particle>, maxes: seq<Option<nat>>, mins: seq<nat>, i: nat) returns (l: nat)
    requires |items| == |maxes| && KeptMins(items, maxes, mins)
    requires IsRequiredItem(items, maxes, i)
    ensures l < |Required(KeepOccurring(items, maxes).1, mins)| && Origin(maxes, mins, l) == i
  {
    var eff := KeepOccurring(items, maxes);
    KeepOccurringKeeps(items, maxes);
    RequiredKeeps(eff.1, mins);
    var j := Rank(Occurring(maxes), i);
    PositionsComplete(Occurring(maxes), i);
    assert eff.0[j] == items[i];
    PositionsComplete(NonZero(mins), j);
    l := Rank(NonZero(mins), j);
  }

  /** A bounded choice may occur `m` times its greatest item maximum, and
      is unbounded exactly when one of its items is. */
  lemma ChoiceGroupMax(m: nat, items: seq<Particle>, maxes: seq<Option<nat>>)
    requires |items| == |maxes| && m > 0
    ensures GroupMax(Choice, Some(m), items, maxes).Success?
    ensures GroupMax(Choice, Some(m), items, maxes).value.None? <==> exists i :: 0 <= i < |maxes| && maxes[i].None?
    ensures (exists i :: 0 <= i < |maxes| && maxes[i] != Some(0)) ==>
              ScaledGreatest(m, maxes, GroupMax(Choice, Some(m), items, maxes).value)
  {
    if exists i :: 0 <= i < |maxes| && maxes[i] != Some(0) {
      KeptLargest(items, maxes, m);
    }
  }

  /** A bounded sequence or all in which no item is required behaves like
      a choice. */
  lemma NoneRequiredGroupMax(k: Kind, m: nat, items: seq<Particle>, maxes: seq<Option<nat>>)
    requires |items| == |maxes| && m > 0 && k != Choice
    ensures (exists i :: 0 <= i < |maxes| && maxes[i] != Some(0)) &&
            (forall i :: !IsRequiredItem(items, maxes, i)) &&
            GroupMax(k, Some(m), items, maxes).Success? ==>
              ScaledGreatest(m, maxes, GroupMax(k, Some(m), items, maxes).value)
  {
    if && (exists i :: 0 <= i < |maxes| && maxes[i] != Some(0))
       && (forall i :: !IsRequiredItem(items, maxes, i))
       && GroupMax(k, Some(m), items, maxes).Success?
    {
      var eff := KeepOccurring(items, maxes);
      KeptLargest(items, maxes, m);
      var mins := MinsOf(eff.0).value;
      if |Required(eff.1, mins)| > 0 {
        ItemFromRequired(items, maxes, mins, 0);
        assert false;
      }
    }
  }

  /** With exactly one required item, a bounded sequence or all may occur
      `m` times that item's maximum. */
  lemma OneRequiredGroupMax(k: Kind, m: nat, items: seq<Particle>, maxes: seq<Option<nat>>, i: nat)
    requires |items| == |maxes| && m > 0 && k != Choice
    ensures IsRequiredItem(items, maxes, i) && (forall j :: IsRequiredItem(items, maxes, j) ==> j == i) &&
            GroupMax(k, Some(m), items, maxes).Success? ==>
              GroupMax(k, Some(m), items, maxes).value == Scale(m, maxes[i])
  {
    if && IsRequiredItem(items, maxes, i)
       && (forall j :: IsRequiredItem(items, maxes, j) ==> j == i)
       && GroupMax(k, Some(m), items, maxes).Success?
    {
      var eff := KeepOccurring(items, maxes);
      var mins := MinsOf(eff.0).value;
      var l0 := RequiredFromItem(items, maxes, mins, i);
      if |Required(eff.1, mins)| > 1 {
        ItemFromRequired(items, maxes, mins, 0);
        ItemFromRequired(items, maxes, mins, 1);
        OriginInjective(maxes, mins, 0, 1);
        assert false;
      }
      ItemFromRequired(items, maxes, mins, 0);
    }
  }

  /** With two or more required items, a bounded sequence or all may occur
      just its own maximum number of times. */
  lemma TwoRequiredGroupMax(k: Kind, m: nat, items: seq<Particle>, maxes: seq<Option<nat>>, i: nat, j: nat)
    requires |items| == |maxes| && m > 0 && k != Choice
    ensures i != j && IsRequiredItem(items, maxes, i) && IsRequiredItem(items, maxes, j) &&
            GroupMax(k, Some(m), items, maxes).Success? ==>
              GroupMax(k, Some(m), items, maxes).value == Some(m)
  {
    if && i != j && IsRequiredItem(items, maxes, i) && IsRequiredItem(items, maxes, j)
       && GroupMax(k, Some(m), items, maxes).Success?
    {
      var eff := KeepOccurring(items, maxes);
      var mins := MinsOf(eff.0).value;
      var li := RequiredFromItem(items, maxes, mins, i);
      var lj := RequiredFromItem(items, maxes, mins, j);
      assert li != lj;
    }
  }

  // ---------------------------------------------------------------------
  // Worked examples
  // ---------------------------------------------------------------------

  function LeafOf(id: nat, min: nat, max: nat): Particle {
    Leaf(id, Occurrence.Occurs(min, Some(max)))
  }

  /** The declared maxima of a list of leaves. */
  function LeafMaxes(cs: seq<Particle>): (r: seq<Option<nat>>)
    ensures |r| == |cs| && forall i :: 0 <= i < |cs| ==> r[i] == cs[i].occurs.max
  {
    if cs == [] then [] else [cs[0].occurs.max] + LeafMaxes(cs[1..])
  }

  /** The declared minima of a list of leaves. */
  function LeafMins(cs: seq<Particle>): (r: seq<nat>)
    ensures |r| == |cs| && forall i :: 0 <= i < |cs| ==> r[i] == cs[i].occurs.min
  {
    if cs == [] then [] else [cs[0].occurs.min] + LeafMins(cs[1..])
  }

  /** The effective maxima of leaves are their declared maxima. */
  lemma {:induction false} MaxesOfLeaves(cs: seq<Particle>, bound: nat)
    requires forall x :: x in cs ==> x.Leaf? && Size(x) <= bound
    ensures MaxesOf(cs, bound) == Success(LeafMaxes(cs))
    decreases |cs|
  {
    if cs != [] {
      MaxesOfLeaves(cs[1..], bound);
    }
  }

  /** The effective minima of leaves are their declared minima. */
  lemma {:induction false} MinsOfLeaves(cs: seq<Particle>)
    requires forall x :: x in cs ==> x.Leaf?
    ensures MinsOf(cs) == Success(LeafMins(cs))
    decreases |cs|
  {
    if cs != [] {
      MinsOfLeaves(cs[1..]);
    }
  }

  /** A choice of an optional and a required element, once. */
  function SmallChoice(): Particle {
    Group(0, Choice, Occurrence.Default, [LeafOf(1, 0, 1), LeafOf(2, 1, 1)])
  }

  /** A sequence of two required elements, once. */
  function RequiredPair(): Particle {
    Group(0, Sequence, Occurrence.Default, [LeafOf(1, 1, 3), LeafOf(2, 2, 4)])
  }

  /** A sequence, exactly twice, of one optional element occurring up to
      five times. */
  function TwiceOptional(): Particle {
    Group(0, Sequence, Occurrence.Occurs(2, Some(2)), [LeafOf(1, 0, 5)])
  }

  /** A group of leaves only, none of them pointless, is its own list of
      items ... */
  lemma LeafGroupItems(g: Particle)
    requires g.Group? && forall i :: 0 <= i < |g.children| ==> g.children[i].Leaf?
    ensures IterModel(g, 0) == Success(g.children)
  {
    FlattenWithoutPointless(g.children, g.kind, 0);
  }

  /** ... whose effective maxima are the leaves' declared maxima. */
  lemma LeafGroupMaxes(g: Particle)
    requires g.Group? && forall i :: 0 <= i < |g.children| ==> g.children[i].Leaf?
    ensures MaxesOf(g.children, Size(g) - 1) == Success(LeafMaxes(g.children))
  {
    MaxesOfLeaves(g.children, Size(g) - 1);
  }

  /** The choice of an optional and a required element may be skipped. */
  lemma ChoiceExampleMin()
    ensures EffectiveMinOccurs(SmallChoice()) == Success(0)
  {
    var g := SmallChoice();
    FlattenWithoutPointless(g.children, Choice, 0);
    assert IterModel(g, 0) == Success(g.children);
    assert AnyMinZero(g.children, Size(g) - 1) == Success(true);
  }

  /** A choice, once, of alternatives occurring at most once each. */
  lemma SmallChoiceGroupMax(cs: seq<Particle>)
    requires cs == SmallChoice().children
    ensures GroupMax(Choice, Some(1), cs, [Some(1), Some(1)]) == Success(Some(1))
  {
    var ms: seq<Option<nat>> := [Some(1), Some(1)];
    assert ms[1..][1..] == [] && [ms[1]] + ms[1..][1..] == ms[1..] && [ms[0]] + ms[1..] == ms;
    assert cs[1..][1..] == [] && [cs[1]] + [] == cs[1..] && [cs[0]] + cs[1..] == cs;
    assert KeepOccurring(cs[1..], ms[1..]) == (cs[1..], ms[1..]);
    assert KeepOccurring(cs, ms) == (cs, ms);
    assert Largest(ms) == Some(1);
  }

  /** ... and holds at most one element. */
  lemma ChoiceExampleMax()
    ensures EffectiveMaxOccurs(SmallChoice()) == Success(Some(1))
  {
    var cs := SmallChoice().children;
    LeafGroupItems(SmallChoice());
    LeafGroupMaxes(SmallChoice());
    assert cs[1..][1..] == [];
    assert LeafMaxes(cs) == [Some(1), Some(1)];
    SmallChoiceGroupMax(cs);
  }

  /** With two required items a sequence is bounded by its own maximum. */
  lemma RequiredPairGroupMax(cs: seq<Particle>)
    requires cs == RequiredPair().children
    ensures GroupMax(Sequence, Some(1), cs, [Some(3), Some(4)]) == Success(Some(1))
  {
    MinsOfLeaves(cs);
    assert cs[1..][1..] == [];
    assert LeafMins(cs) == [1, 2];
    var ms: seq<Option<nat>> := [Some(3), Some(4)];
    assert ms[1..][1..] == [] && [ms[1]] + ms[1..][1..] == ms[1..] && [ms[0]] + ms[1..] == ms;
    assert [cs[1]] + [] == cs[1..] && [cs[0]] + cs[1..] == cs;
    assert KeepOccurring(cs[1..], ms[1..]) == (cs[1..], ms[1..]);
    assert KeepOccurring(cs, ms) == (cs, ms);
    assert Required([Some(3), Some(4)], [1, 2]) == [Some(3), Some(4)];
  }

  /** Two required elements: bounded by the group's own maximum, not by
      the sum of the elements' maxima. */
  lemma SequenceOfRequiredExample()
    ensures EffectiveMaxOccurs(RequiredPair()) == Success(Some(1))
  {
    var cs := RequiredPair().children;
    LeafGroupItems(RequiredPair());
    LeafGroupMaxes(RequiredPair());
    assert cs[1..][1..] == [];
    assert LeafMaxes(cs) == [Some(3), Some(4)];
    RequiredPairGroupMax(cs);
  }

  /** With no required item a sequence scales the largest maximum. */
  lemma TwiceOptionalGroupMax(cs: seq<Particle>)
    requires cs == TwiceOptional().children
    ensures GroupMax(Sequence, Some(2), cs, [Some(5)]) == Success(Some(10))
  {
    MinsOfLeaves(cs);
    assert cs[1..] == [];
    assert LeafMins(cs) == [0];
    assert [Some(5)][1..] == [] && [Some(5)] + [] == [Some(5)] && [cs[0]] + [] == cs;
    assert KeepOccurring(cs, [Some(5)]) == (cs, [Some(5)]);
    assert Required([Some(5)], [0]) == [];
  }

  /** Twice an optional element of maximum 5: up to ten elements. */
  lemma ScaledSequenceExample()
    ensures EffectiveMaxOccurs(TwiceOptional()) == Success(Some(10))
  {
    var cs := TwiceOptional().children;
    LeafGroupItems(TwiceOptional());
    LeafGroupMaxes(TwiceOptional());
    assert cs[1..] == [];
    assert LeafMaxes(cs) == [Some(5)];
    TwiceOptionalGroupMax(cs);
  }

  /** A choice between an element and an empty sequence. */
  function ElementOrNothing(): Particle {
    Group(0, Choice, Occurrence.Default, [Leaf(1, Occurrence.Default), Group(2, Sequence, Occurrence.Default, [])])
  }

  /** Outside the restriction to models without empty groups, emptiability
      and an effective minimum of 0 part: the empty sequence lets an
      instance of the choice be empty, yet the traversal drops it as
      pointless, leaving an effective minimum of 1. */
  lemma EmptyAltDisagrees()
    ensures !WellFormed(ElementOrNothing())
    ensures IsEmptiable(ElementOrNothing())
    ensures EffectiveMinOccurs(ElementOrNothing()) == Success(1)
  {
    var g := ElementOrNothing();
    assert IsEmptiable(g.children[1]);
    ElementOrNothingItems();
    assert AnyMinZero([g.children[0]], Size(g) - 1) == Success(false);
  }

  /** The traversal of that choice yields the element alone. */
  lemma ElementOrNothingItems()
    ensures IterModel(ElementOrNothing(), 0) == Success([ElementOrNothing().children[0]])
  {
    var g := ElementOrNothing();
    var e, empty := g.children[0], g.children[1];
    assert g.children[1..] == [empty];
    EmptyGroupVanishes(empty, Choice, 0);
    assert [e] + [] == [e];
    assert Flatten(g.children, Choice, 0) == Success([e]);
  }

  /** An empty group on its own is looked through and leaves nothing. */
  lemma EmptyGroupVanishes(x: Particle, parent: Kind, depth: nat)
    requires x.Group? && x.children == [] && depth < MaxModelDepth
    ensures Flatten([x], parent, depth) == Success([])
  {
    var nothing: seq<Particle> := [];
    assert [x][1..] == nothing && nothing + nothing == nothing;
    assert Expand(x, parent, depth + 1) == Success(nothing);
  }
}
