/** Where a particle sits inside a model group: `get_subgroups`, the path
    of groups from the model down to the particle, and the occurrence
    bounds of the particle over the whole model along that path
    (`overall_min_occurs`, `overall_max_occurs`).
 */
module Subgroups {
  import opened Wrappers
  import opened Particles
  import opened Traversal

  // ---------------------------------------------------------------------
  // get_subgroups
  // ---------------------------------------------------------------------

  /** Outcome of searching a list of children. `Found(path)` holds the
      groups entered below the current one, outermost first. */
  datatype Search = Found(path: seq<Particle>) | Missing | TooDeep

  /** `chain` is a path of groups, each a child of the one before, whose
      last group has `item` as a child. */
  predicate IsChainTo(chain: seq<Particle>, item: Particle) {
    |chain| > 0
    && (forall j :: 0 <= j < |chain| ==> chain[j].Group?)
    && (forall j :: 1 <= j < |chain| ==> chain[j] in chain[j - 1].children)
    && item in chain[|chain| - 1].children
  }

  /** Depth-first search, in document order, of the children `cs` of a
      group that has `stacked` groups above it. A child that is the item is
      reported before it would be entered as a group; entering a group
      while more than MaxModelDepth groups are stacked is refused. */
  function SearchChildren(cs: seq<Particle>, item: Particle, stacked: nat): (r: Search)
    ensures r.Found? && r.path == [] ==> item in cs
    ensures r.Found? && r.path != [] ==> r.path[0] in cs && IsChainTo(r.path, item)
    ensures r.Found? && stacked <= MaxModelDepth + 1 ==> stacked + |r.path| <= MaxModelDepth + 1
    decreases SizeOf(cs)
  {
    if cs == [] then Missing
    else if cs[0] == item then Found([])
    else if cs[0].Group? && stacked > MaxModelDepth then TooDeep
    else
      var inner := if cs[0].Group? then SearchChildren(cs[0].children, item, stacked + 1) else Missing;
      match inner
      case Found(path) =>
        var chain := [cs[0]] + path;
        assert forall j :: 1 <= j < |chain| ==> chain[j] == path[j - 1];
        Found(chain)
      case TooDeep => TooDeep
      case Missing => SearchChildren(cs[1..], item, stacked)
  }

  /** `get_subgroups(item)`: the groups from `root` down to the group that
      has `item` as a child. */
  function GetSubgroups(root: Particle, item: Particle): (r: Result<seq<Particle>, ModelError>)
    requires root.Group?
    ensures r.Success? ==> IsChainTo(r.value, item) && r.value[0] == root
    ensures r.Success? ==> |r.value| <= MaxModelDepth + 2
    ensures r.Failure? ==> r.error == NotAParticle || r.error == DepthExceeded
  {
    match SearchChildren(root.children, item, 0)
    case Found(path) =>
      var chain := [root] + path;
      assert forall j :: 1 <= j < |chain| ==> chain[j] == path[j - 1];
      Success(chain)
    case Missing => Failure(NotAParticle)
    case TooDeep => Failure(DepthExceeded)
  }

  /** Every particle strictly beneath the groups whose children are `cs`. */
  function DescendantsOf(cs: seq<Particle>): seq<Particle>
    decreases SizeOf(cs)
  {
    if cs == [] then []
    else [cs[0]] + (if cs[0].Group? then DescendantsOf(cs[0].children) else []) + DescendantsOf(cs[1..])
  }

  /** How deeply groups are nested among `cs`: 0 when none of them is a group. */
  function NestingOf(cs: seq<Particle>): nat
    decreases SizeOf(cs)
  {
    if cs == [] then 0
    else
      var h := if cs[0].Group? then 1 + NestingOf(cs[0].children) else 0;
      var t := NestingOf(cs[1..]);
      if h >= t then h else t
  }

  /** The descendants of `cs`, taken apart at the first child. */
  lemma DescendantsSplit(cs: seq<Particle>, item: Particle)
    requires cs != []
    ensures item in DescendantsOf(cs) <==>
              item == cs[0] || (cs[0].Group? && item in DescendantsOf(cs[0].children)) || item in DescendantsOf(cs[1..])
  {
    var below := if cs[0].Group? then DescendantsOf(cs[0].children) else [];
    assert DescendantsOf(cs) == [cs[0]] + below + DescendantsOf(cs[1..]);
  }

  /** The nesting of `cs` bounds that of its first child and of the rest. */
  lemma NestingSplit(cs: seq<Particle>)
    requires cs != []
    ensures NestingOf(cs[1..]) <= NestingOf(cs)
    ensures cs[0].Group? ==> 1 + NestingOf(cs[0].children) <= NestingOf(cs)
    ensures NestingOf(cs) > 0 <==> cs[0].Group? || NestingOf(cs[1..]) > 0
  {
  }

  /** One step of the search past a first child that is not the item. */
  lemma SearchStep(cs: seq<Particle>, item: Particle, stacked: nat)
    requires cs != [] && cs[0] != item && !(cs[0].Group? && stacked > MaxModelDepth)
    ensures !cs[0].Group? ==> SearchChildren(cs, item, stacked) == SearchChildren(cs[1..], item, stacked)
    ensures cs[0].Group? ==>
              var inner := SearchChildren(cs[0].children, item, stacked + 1);
              SearchChildren(cs, item, stacked) ==
                (match inner
                 case Found(path) => Found([cs[0]] + path)
                 case TooDeep => TooDeep
                 case Missing => SearchChildren(cs[1..], item, stacked))
  {
  }

  /** Within the depth limit the search finds exactly the descendants. */
  lemma {:induction false} SearchBounded(cs: seq<Particle>, item: Particle, stacked: nat)
    requires stacked + NestingOf(cs) <= MaxModelDepth + 1
    ensures !SearchChildren(cs, item, stacked).TooDeep?
    ensures SearchChildren(cs, item, stacked).Found? <==> item in DescendantsOf(cs)
    decreases SizeOf(cs)
  {
    if cs != [] {
      DescendantsSplit(cs, item);
      if cs[0] != item {
        NestingSplit(cs);
        SearchStep(cs, item, stacked);
        SearchBounded(cs[1..], item, stacked);
        if cs[0].Group? {
          SearchBounded(cs[0].children, item, stacked + 1);
          var inner := SearchChildren(cs[0].children, item, stacked + 1);
          if inner.Missing? {
            assert item !in DescendantsOf(cs[0].children);
            assert SearchChildren(cs, item, stacked) == SearchChildren(cs[1..], item, stacked);
          } else {
            assert inner.Found?;
            assert SearchChildren(cs, item, stacked).Found?;
          }
        }
      }
    }
  }

  /** Searching for a particle that is not there visits every group, so it
      fails on depth exactly when the groups are nested too deeply. */
  lemma {:induction false} SearchAbsent(cs: seq<Particle>, item: Particle, stacked: nat)
    requires item !in DescendantsOf(cs)
    ensures !SearchChildren(cs, item, stacked).Found?
    ensures SearchChildren(cs, item, stacked).TooDeep? <==>
              NestingOf(cs) > 0 && stacked + NestingOf(cs) > MaxModelDepth + 1
    decreases SizeOf(cs)
  {
    if cs != [] {
      DescendantsSplit(cs, item);
      NestingSplit(cs);
      if cs[0].Group? && stacked > MaxModelDepth {
        assert SearchChildren(cs, item, stacked) == TooDeep;
      } else {
        SearchStep(cs, item, stacked);
        SearchAbsent(cs[1..], item, stacked);
        if cs[0].Group? {
          SearchAbsent(cs[0].children, item, stacked + 1);
        }
      }
    }
  }

  /** In a model nested within the limit, `get_subgroups` succeeds exactly
      for the particles of the model, and otherwise reports that the item
      is not one of them. */
  lemma SubgroupsFoundIffContained(root: Particle, item: Particle)
    requires root.Group? && NestingOf(root.children) <= MaxModelDepth + 1
    ensures GetSubgroups(root, item).Success? <==> item in DescendantsOf(root.children)
    ensures GetSubgroups(root, item).Failure? ==> GetSubgroups(root, item).error == NotAParticle
  {
    SearchBounded(root.children, item, 0);
  }

  /** For a particle that is not in the model, the answer is a depth error
      exactly when the model is nested beyond the limit. */
  lemma SubgroupsOfAbsentItem(root: Particle, item: Particle)
    requires root.Group? && item !in DescendantsOf(root.children)
    ensures GetSubgroups(root, item).Failure?
    ensures GetSubgroups(root, item).error == DepthExceeded <==> NestingOf(root.children) > MaxModelDepth + 1
  {
    SearchAbsent(root.children, item, 0);
  }

  // ---------------------------------------------------------------------
  // overall_min_occurs
  // ---------------------------------------------------------------------

  /** A choice with more than one alternative, any of which may be taken
      instead of the item. */
  predicate IsRealChoice(g: Particle) {
    g.Group? && g.kind == Choice && |g.children| > 1
  }

  /** Product of the minima of the groups on a path. */
  function MinProduct(chain: seq<Particle>): nat {
    if chain == [] then 1
    else MinProduct(chain[..|chain| - 1]) * chain[|chain| - 1].occurs.min
  }

  lemma {:induction false} MinProductZero(chain: seq<Particle>)
    ensures MinProduct(chain) == 0 <==> exists j :: 0 <= j < |chain| && chain[j].occurs.min == 0
  {
    if chain != [] {
      var init := chain[..|chain| - 1];
      MinProductZero(init);
      assert forall j :: 0 <= j < |init| ==> init[j] == chain[j];
    }
  }

  /** The fewest times `item` must occur in an instance of the model when
      `chain` is its path of groups: none when a choice with alternatives
      lies on the path, else its minimum once per required repetition of
      every group on the path. */
  function OverallMin(item: Particle, chain: seq<Particle>): nat {
    if exists j :: 0 <= j < |chain| && IsRealChoice(chain[j]) then 0
    else item.occurs.min * MinProduct(chain)
  }

  /** The item need not occur exactly when it is optional, a group on its
      path is optional, or a choice on its path offers alternatives. */
  lemma OverallMinZeroIff(item: Particle, chain: seq<Particle>)
    ensures OverallMin(item, chain) == 0 <==>
              item.occurs.min == 0
              || exists j :: 0 <= j < |chain| && (IsRealChoice(chain[j]) || chain[j].occurs.min == 0)
  {
    MinProductZero(chain);
  }

  /** The loop of `overall_min_occurs` over the path `chain`, from the
      model down, stopping at the first choice with alternatives. */
  method ScaleMinAlong(item: Particle, chain: seq<Particle>) returns (m: nat)
    ensures m == OverallMin(item, chain)
  {
    m := item.occurs.min;
    var i := 0;
    while i < |chain|
      invariant 0 <= i <= |chain|
      invariant forall j :: 0 <= j < i ==> !IsRealChoice(chain[j])
      invariant m == item.occurs.min * MinProduct(chain[..i])
    {
      if IsRealChoice(chain[i]) {
        return 0;
      }
      assert chain[..i + 1][..i] == chain[..i];
      m := m * chain[i].occurs.min;
      i := i + 1;
    }
    assert chain[..i] == chain;
  }

  /** `overall_min_occurs(item)`: the failure of `get_subgroups`, or the
      fewest times the item must occur along the path it returns. */
  method OverallMinOccurs(root: Particle, item: Particle) returns (r: Result<nat, ModelError>)
    requires root.Group?
    ensures GetSubgroups(root, item).Failure? ==> r == Failure(GetSubgroups(root, item).error)
    ensures GetSubgroups(root, item).Success? ==> r == Success(OverallMin(item, GetSubgroups(root, item).value))
  {
    var subgroups := GetSubgroups(root, item);
    if subgroups.Failure? {
      return Failure(subgroups.error);
    }
    var m := ScaleMinAlong(item, subgroups.value);
    return Success(m);
  }

  // ---------------------------------------------------------------------
  // overall_max_occurs
  // ---------------------------------------------------------------------

  /** All groups on the path have a bounded maximum. */
  predicate Bounded(chain: seq<Particle>) {
    forall j :: 0 <= j < |chain| ==> chain[j].occurs.max.Some?
  }

  /** Product of the maxima of the groups on a bounded path. */
  function MaxProduct(chain: seq<Particle>): nat
    requires Bounded(chain)
  {
    if chain == [] then 1 else chain[0].occurs.max.value * MaxProduct(chain[1..])
  }

  /** The loop of `overall_max_occurs` as written: starting from the item's
      maximum `acc`, each group multiplies it in; the walk stops at 0, and
      an unbounded value stays unbounded whatever groups follow.
      `ScaleMaxAsWrittenBounded` and `ScaleMaxAsWrittenStops` say where it
      agrees with the corrected walk and where the two part. */
  function ScaleMaxAsWritten(acc: Option<nat>, chain: seq<Particle>): (r: Option<nat>)
    ensures acc == Some(0) ==> r == Some(0)
    ensures acc.None? ==> r.None?
    decreases |chain|
  {
    if chain == [] then acc
    else if acc == Some(0) then Some(0)
    else if acc.None? then ScaleMaxAsWritten(None, chain[1..])
    else if chain[0].occurs.max.None? then ScaleMaxAsWritten(None, chain[1..])
    else ScaleMaxAsWritten(Some(acc.value * chain[0].occurs.max.value), chain[1..])
  }

  /** On a bounded path the walk as written computes the product of the
      maxima, as the corrected walk does. */
  lemma {:induction false} ScaleMaxAsWrittenBounded(acc: Option<nat>, chain: seq<Particle>)
    ensures acc.Some? && Bounded(chain) ==>
              ScaleMaxAsWritten(acc, chain) == Some(acc.value * MaxProduct(chain)) &&
              ScaleMaxAsWritten(acc, chain) == ScaleMax(acc, chain)
    decreases |chain|
  {
    if chain != [] && acc.Some? && Bounded(chain) {
      ChainSplit(chain);
      var m := chain[0].occurs.max.value;
      if acc.value != 0 {
        ScaleMaxAsWrittenBounded(Some(acc.value * m), chain[1..]);
        MulAssoc(acc.value, m, MaxProduct(chain[1..]));
      }
    }
  }

  /** Some group of the path is unbounded, and no group before it has a
      maximum of 0. */
  predicate UnboundedFirst(chain: seq<Particle>) {
    exists j :: 0 <= j < |chain| && chain[j].occurs.max.None? &&
      forall k :: 0 <= k < j ==> chain[k].occurs.max != Some(0)
  }

  /** Some group of the path has a maximum of 0, and no group before it is
      unbounded. */
  predicate ZeroFirst(chain: seq<Particle>) {
    exists j :: 0 <= j < |chain| && chain[j].occurs.max == Some(0) &&
      forall k :: 0 <= k < j ==> chain[k].occurs.max.Some?
  }

  lemma FirstSplit(chain: seq<Particle>)
    requires chain != []
    ensures UnboundedFirst(chain) <==>
              chain[0].occurs.max.None? || (chain[0].occurs.max != Some(0) && UnboundedFirst(chain[1..]))
    ensures ZeroFirst(chain) <==>
              chain[0].occurs.max == Some(0) || (chain[0].occurs.max.Some? && ZeroFirst(chain[1..]))
  {
    assert forall j :: 1 <= j < |chain| ==> chain[j] == chain[1..][j - 1];
    if UnboundedFirst(chain) && chain[0].occurs.max.Some? {
      var j :| 0 <= j < |chain| && chain[j].occurs.max.None? &&
        forall k :: 0 <= k < j ==> chain[k].occurs.max != Some(0);
      assert chain[1..][j - 1].occurs.max.None?;
    }
    if ZeroFirst(chain) && chain[0].occurs.max != Some(0) {
      var j :| 0 <= j < |chain| && chain[j].occurs.max == Some(0) &&
        forall k :: 0 <= k < j ==> chain[k].occurs.max.Some?;
      assert chain[1..][j - 1].occurs.max == Some(0);
    }
  }

  /** As written, a walk that starts from a nonzero bound ends unbounded
      exactly when an unbounded group comes before every group of maximum
      0, and ends at 0 exactly when a group of maximum 0 comes before every
      unbounded one: whichever of the two comes first decides. */
  lemma {:induction false} ScaleMaxAsWrittenStops(acc: Option<nat>, chain: seq<Particle>)
    ensures acc.Some? && acc.value != 0 ==>
              (ScaleMaxAsWritten(acc, chain).None? <==> UnboundedFirst(chain)) &&
              (ScaleMaxAsWritten(acc, chain) == Some(0) <==> ZeroFirst(chain))
    decreases |chain|
  {
    if chain != [] && acc.Some? && acc.value != 0 {
      var r := ScaleMaxAsWritten(acc, chain);
      FirstSplit(chain);
      match chain[0].occurs.max
      case None =>
        assert r == ScaleMaxAsWritten(None, chain[1..]);
      case Some(m) =>
        var next := acc.value * m;
        assert r == ScaleMaxAsWritten(Some(next), chain[1..]);
        if m != 0 {
          MulNonZero(acc.value, m);
          ScaleMaxAsWrittenStops(Some(next), chain[1..]);
        } else {
          assert next == 0;
        }
    }
  }

  /** Boundedness, the product of the maxima and the presence of a
      maximum of 0, taken apart at the first group of a path. */
  lemma ChainSplit(chain: seq<Particle>)
    requires chain != []
    ensures Bounded(chain) <==> chain[0].occurs.max.Some? && Bounded(chain[1..])
    ensures Bounded(chain) ==> MaxProduct(chain) == chain[0].occurs.max.value * MaxProduct(chain[1..])
    ensures (exists j :: 0 <= j < |chain| && chain[j].occurs.max == Some(0)) <==>
              chain[0].occurs.max == Some(0) || exists j :: 0 <= j < |chain[1..]| && chain[1..][j].occurs.max == Some(0)
  {
    assert forall j :: 1 <= j < |chain| ==> chain[j] == chain[1..][j - 1];
  }

  /** The loop of `overall_max_occurs` with a maximum of 0 taking precedence
      over an unbounded one, wherever on the path either appears. */
  function ScaleMax(acc: Option<nat>, chain: seq<Particle>): (r: Option<nat>)
    ensures r == Some(0) <==> acc == Some(0) || exists j :: 0 <= j < |chain| && chain[j].occurs.max == Some(0)
    ensures r.None? <==> r != Some(0) && (acc.None? || !Bounded(chain))
    ensures r.Some? && r.value != 0 ==> acc.Some? && Bounded(chain) && r.value == acc.value * MaxProduct(chain)
    decreases |chain|
  {
    if chain == [] then acc
    else if acc == Some(0) then Some(0)
    else
      var m := chain[0].occurs.max;
      var next := if m == Some(0) then Some(0)
                  else if acc.None? || m.None? then None
                  else Some(acc.value * m.value);
      var r := ScaleMax(next, chain[1..]);
      ChainSplit(chain);
      assert r.Some? && r.value != 0 ==> r.value == acc.value * MaxProduct(chain) by {
        if r.Some? && r.value != 0 {
          MulAssoc(acc.value, m.value, MaxProduct(chain[1..]));
        }
      }
      r
  }

  lemma MulNonZero(a: nat, b: nat)
    requires a != 0 && b != 0
    ensures a * b != 0
  {
  }

  lemma MulAssoc(a: nat, b: nat, c: nat)
    ensures (a * b) * c == a * (b * c)
  {
  }

  /** `overall_max_occurs(item)` as written: whichever of an unbounded
      group and a group of maximum 0 comes first on the path decides; on a
      bounded path it agrees with the corrected `OverallMaxOccurs`. */
  function OverallMaxAsWritten(root: Particle, item: Particle): (r: Result<Option<nat>, ModelError>)
    requires root.Group?
    ensures r.Failure? <==> GetSubgroups(root, item).Failure?
    ensures r.Success? && item.occurs.max.None? ==> r.value.None?
    ensures r.Success? && item.occurs.max == Some(0) ==> r.value == Some(0)
    ensures r.Success? && item.occurs.max.Some? && item.occurs.max.value != 0 ==>
              (r.value.None? <==> UnboundedFirst(GetSubgroups(root, item).value)) &&
              (r.value == Some(0) <==> ZeroFirst(GetSubgroups(root, item).value))
    ensures r.Success? && item.occurs.max.Some? && Bounded(GetSubgroups(root, item).value) ==>
              r.value == Some(item.occurs.max.value * MaxProduct(GetSubgroups(root, item).value)) &&
              r == OverallMaxOccurs(root, item)
  {
    var chain :- GetSubgroups(root, item);
    ScaleMaxAsWrittenBounded(item.occurs.max, chain);
    ScaleMaxAsWrittenStops(item.occurs.max, chain);
    Success(ScaleMaxAsWritten(item.occurs.max, chain))
  }

  /** `overall_max_occurs(item)`: the most times the item can occur in any
      instance of the model. 0 when the item or a group on its path cannot
      occur; unbounded when otherwise the item or a group on its path is
      unbounded; else the product of the maxima. */
  function OverallMaxOccurs(root: Particle, item: Particle): (r: Result<Option<nat>, ModelError>)
    requires root.Group?
    ensures r.Failure? <==> GetSubgroups(root, item).Failure?
    ensures r.Success? ==>
              var chain := GetSubgroups(root, item).value;
              (r.value == Some(0) <==> item.occurs.max == Some(0)
                                       || exists j :: 0 <= j < |chain| && chain[j].occurs.max == Some(0))
              && (r.value.None? <==> r.value != Some(0) && (item.occurs.max.None? || !Bounded(chain)))
              && (r.value.Some? && r.value.value != 0 ==> r.value.value == item.occurs.max.value * MaxProduct(chain))
  {
    var chain :- GetSubgroups(root, item);
    Success(ScaleMax(item.occurs.max, chain))
  }

  // ---------------------------------------------------------------------
  // Examples
  // ---------------------------------------------------------------------

  /** An unbounded element inside a group that may not occur, inside a
      sequence: it can never occur in an instance of the model. */
  function BarredModel(): Particle {
    Group(0, Sequence, Occurrence.Default,
      [Group(1, Sequence, Occurrence.Occurs(0, Some(0)), [Leaf(2, Occurrence.Occurs(0, None))])])
  }

  /** As written, `overall_max_occurs` calls that element unbounded; the
      element is not among the model's elements, and with a maximum of 0
      taking precedence its overall maximum is 0. */
  lemma OverallMaxBarredGroup()
    ensures GetSubgroups(BarredModel(), Leaf(2, Occurrence.Occurs(0, None))) ==
              Success([BarredModel(), BarredModel().children[0]])
    ensures OverallMaxAsWritten(BarredModel(), Leaf(2, Occurrence.Occurs(0, None))) == Success(None)
    ensures OverallMaxOccurs(BarredModel(), Leaf(2, Occurrence.Occurs(0, None))) == Success(Some(0))
    ensures IterElements(BarredModel(), 0) == Success([])
  {
    var root := BarredModel();
    var g := root.children[0];
    var a := Leaf(2, Occurrence.Occurs(0, None));
    assert g.children[1..] == [] && root.children[1..] == [];
    assert SearchChildren(g.children, a, 1) == Found([]);
    assert SearchChildren(root.children, a, 0) == Found([g]);
    assert [root] + [g] == [root, g];
    assert LiveLeavesOf(root.children) == [];
  }

  /** A required element in a sequence occurring three times, itself in
      a sequence occurring twice, must occur six times. */
  lemma OverallMinExample()
    ensures GetSubgroups(Group(0, Sequence, Occurrence.Occurs(2, Some(2)),
                           [Group(1, Sequence, Occurrence.Occurs(3, Some(3)), [Leaf(2, Occurrence.Default)])]),
                         Leaf(2, Occurrence.Default)).Success?
    ensures OverallMin(Leaf(2, Occurrence.Default),
                       GetSubgroups(Group(0, Sequence, Occurrence.Occurs(2, Some(2)),
                           [Group(1, Sequence, Occurrence.Occurs(3, Some(3)), [Leaf(2, Occurrence.Default)])]),
                         Leaf(2, Occurrence.Default)).value) == 6
  {
    var a := Leaf(2, Occurrence.Default);
    var inner := Group(1, Sequence, Occurrence.Occurs(3, Some(3)), [a]);
    var root := Group(0, Sequence, Occurrence.Occurs(2, Some(2)), [inner]);
    assert SearchChildren(inner.children, a, 1) == Found([]);
    assert SearchChildren(root.children, a, 0) == Found([inner]);
    assert [root] + [inner] == [root, inner];
    assert [root, inner][..1] == [root] && [root][..0] == [];
    assert MinProduct([root]) == 2;
    assert MinProduct([root, inner]) == 6;
    assert !IsRealChoice(root) && !IsRealChoice(inner);
  }
}
