/** Model groups (`ModelGroup`): a particle tree whose inner nodes combine
    their children as a `sequence`, a `choice` or an `all`, together with
    the group overrides of the occurrence predicates, the pointless-group
    rule, the constructor's kind check and the group form of the
    restriction test.
 */
module Particles {
  import opened Wrappers
  import opened Occurrence

  /** The composition kind of a model group. */
  datatype Kind = Sequence | Choice | All

  /** A particle: a leaf (an element declaration or a wildcard, opaque here)
      or a model group owning an ordered list of children. `id` stands for
      object identity: two particles are the same object exactly when they
      are equal values, because distinct objects carry distinct ids. */
  datatype Particle =
    | Leaf(id: nat, occurs: Occurs)
    | Group(id: nat, kind: Kind, occurs: Occurs, children: seq<Particle>)

  /** Errors the core raises: an invalid group kind (`XMLSchemaValueError`),
      a model nested too deeply (`XMLSchemaModelDepthError`) and a particle
      that is not in the model (`XMLSchemaModelError`). */
  datatype ModelError = InvalidModel(model: string) | DepthExceeded | NotAParticle

  // ---------------------------------------------------------------------
  // Measures and reference views of a tree
  // ---------------------------------------------------------------------

  /** Number of nodes; the measure every traversal decreases. */
  function Size(p: Particle): (n: nat)
    ensures n >= 1
  {
    match p
    case Leaf(_, _) => 1
    case Group(_, _, _, cs) => 1 + SizeOf(cs)
  }

  function SizeOf(cs: seq<Particle>): (n: nat)
    ensures forall i :: 0 <= i < |cs| ==> Size(cs[i]) <= n
  {
    if cs == [] then 0 else Size(cs[0]) + SizeOf(cs[1..])
  }

  /** The leaves of a tree in document order. */
  function Leaves(p: Particle): seq<Particle> {
    match p
    case Leaf(_, _) => [p]
    case Group(_, _, _, cs) => LeavesOf(cs)
  }

  function LeavesOf(cs: seq<Particle>): seq<Particle> {
    if cs == [] then [] else Leaves(cs[0]) + LeavesOf(cs[1..])
  }

  lemma {:induction false} LeavesOfAppend(a: seq<Particle>, b: seq<Particle>)
    ensures LeavesOf(a + b) == LeavesOf(a) + LeavesOf(b)
    decreases |a|
  {
    if a == [] {
      assert a + b == b;
    } else {
      assert (a + b)[1..] == a[1..] + b;
      LeavesOfAppend(a[1..], b);
    }
  }

  /** The leaves that can occur at all: those not beneath a group whose
      maxOccurs is 0. */
  function LiveLeaves(p: Particle): seq<Particle> {
    match p
    case Leaf(_, _) => [p]
    case Group(_, _, o, cs) => if o.max == Some(0) then [] else LiveLeavesOf(cs)
  }

  function LiveLeavesOf(cs: seq<Particle>): seq<Particle> {
    if cs == [] then [] else LiveLeaves(cs[0]) + LiveLeavesOf(cs[1..])
  }

  lemma {:induction false} LiveLeavesOfAppend(a: seq<Particle>, b: seq<Particle>)
    ensures LiveLeavesOf(a + b) == LiveLeavesOf(a) + LiveLeavesOf(b)
    decreases |a|
  {
    if a == [] {
      assert a + b == b;
    } else {
      assert (a + b)[1..] == a[1..] + b;
      LiveLeavesOfAppend(a[1..], b);
    }
  }

  /** The models on which emptiability and a zero effective minimum agree:
      no group is empty (an empty group is legal, but the traversal drops
      it even where, as an alternative of a `choice`, it would let the
      choice be skipped), and an `all` group, which the traversal looks
      through whatever holds it, sits only directly inside another `all`. */
  predicate WellFormed(p: Particle) {
    match p
    case Leaf(_, _) => true
    case Group(_, k, _, cs) =>
      |cs| > 0
      && (forall i :: 0 <= i < |cs| ==> cs[i].Group? && cs[i].kind == All ==> k == All)
      && (forall i :: 0 <= i < |cs| ==> WellFormed(cs[i]))
  }

  // ---------------------------------------------------------------------
  // Constructor: the model-kind check
  // ---------------------------------------------------------------------

  function KindName(k: Kind): string {
    match k
    case Sequence => "sequence"
    case Choice => "choice"
    case All => "all"
  }

  /** The kind named by a constructor argument, or the invalid-model error. */
  function ParseKind(model: string): (r: Result<Kind, ModelError>)
    ensures r.Success? ==> KindName(r.value) == model
    ensures r.Failure? ==> r.error == InvalidModel(model) && forall k: Kind :: KindName(k) != model
  {
    if model == "sequence" then Success(Sequence)
    else if model == "choice" then Success(Choice)
    else if model == "all" then Success(All)
    else Failure(InvalidModel(model))
  }

  lemma KindNameRoundTrip(k: Kind)
    ensures ParseKind(KindName(k)) == Success(k)
  {
  }

  /** `ModelGroup(model, min_occurs, max_occurs)`: a new, childless group.
      The occurrence range is taken as given; only the kind is checked. */
  function NewGroup(id: nat, model: string, o: Occurs): (r: Result<Particle, ModelError>)
    ensures r.Success? <==> model in {"sequence", "choice", "all"}
    ensures r.Success? ==> r.value.Group? && r.value.id == id && r.value.occurs == o
                           && r.value.children == [] && KindName(r.value.kind) == model
    ensures r.Failure? ==> r.error == InvalidModel(model)
  {
    match ParseKind(model)
    case Success(k) => Success(Group(id, k, o, []))
    case Failure(e) => Failure(e)
  }

  // ---------------------------------------------------------------------
  // Occurrence predicates, with the group overrides
  // ---------------------------------------------------------------------

  /** Emptiable: an instance may hold no element at all. */
  predicate IsEmptiable(p: Particle)
    ensures IsEmptiable(p) <==> MinCount(p) == 0
  {
    match p
    case Leaf(_, o) => Occurrence.IsEmptiable(o)
    case Group(_, k, o, cs) =>
      if k == Choice then
        o.min == 0 || |cs| == 0 || exists i :: 0 <= i < |cs| && IsEmptiable(cs[i])
      else
        o.min == 0 || |cs| == 0 || forall i :: 0 <= i < |cs| ==> IsEmptiable(cs[i])
  }

  /** The fewest elements an instance of the particle holds: a leaf's
      minOccurs; for a group its minOccurs times the fewest of any one
      alternative (`choice`) or of all children together (`sequence`,
      `all`); none for a group without children. */
  function MinCount(p: Particle): nat
    decreases Size(p), 1
  {
    match p
    case Leaf(_, o) => o.min
    case Group(_, k, o, cs) =>
      if cs == [] then 0
      else o.min * (if k == Choice then FewestOf(cs) else TotalOf(cs))
  }

  /** The fewest elements of the alternatives `cs`. */
  function FewestOf(cs: seq<Particle>): (m: nat)
    requires cs != []
    ensures forall i :: 0 <= i < |cs| ==> m <= MinCount(cs[i])
    ensures exists i :: 0 <= i < |cs| && m == MinCount(cs[i])
    decreases SizeOf(cs), 2
  {
    if |cs| == 1 then MinCount(cs[0])
    else
      var rest := FewestOf(cs[1..]);
      assert forall i :: 1 <= i < |cs| ==> cs[i] == cs[1..][i - 1];
      if MinCount(cs[0]) <= rest then MinCount(cs[0]) else rest
  }

  /** The fewest elements of all of `cs` together. */
  function TotalOf(cs: seq<Particle>): (m: nat)
    ensures m == 0 <==> forall i :: 0 <= i < |cs| ==> MinCount(cs[i]) == 0
    decreases SizeOf(cs), 2
  {
    if cs == [] then 0
    else
      var rest := TotalOf(cs[1..]);
      assert forall i :: 1 <= i < |cs| ==> cs[i] == cs[1..][i - 1];
      MinCount(cs[0]) + rest
  }

  /** Empty: nothing beneath the particle can occur. */
  predicate IsEmpty(p: Particle)
    ensures p.Group? && IsEmpty(p) ==> LiveLeaves(p) == []
  {
    match p
    case Leaf(_, o) => Occurrence.IsEmpty(o)
    case Group(_, _, o, cs) => |cs| == 0 || o.max == Some(0)
  }

  /** Single: at most one occurrence. A group looks through a lone child
      that is itself a group. */
  predicate IsSingle(p: Particle)
    ensures IsSingle(p) ==> p.occurs.max == Some(1) && !IsEmpty(p)
  {
    match p
    case Leaf(_, o) => Occurrence.IsSingle(o)
    case Group(_, _, o, cs) =>
      if o.max != Some(1) || |cs| == 0 then false
      else if |cs| > 1 || !cs[0].Group? then true
      else IsSingle(cs[0])
  }

  /** Multiple: neither empty nor single. A leaf may occur twice; a group
      is multiple when it may occur twice, or when it occurs at most once
      around a lone child group that is not single. */
  predicate IsMultiple(p: Particle)
    ensures p.Leaf? ==> (IsMultiple(p) <==> p.occurs.max.None? || p.occurs.max.value >= 2)
    ensures p.Group? ==>
              (IsMultiple(p) <==> |p.children| > 0 && p.occurs.max != Some(0)
                                  && (p.occurs.max != Some(1)
                                      || (|p.children| == 1 && p.children[0].Group? && !IsSingle(p.children[0]))))
  {
    !IsEmpty(p) && !IsSingle(p)
  }

  /** `is_missing` dispatches through the group override of `is_emptiable`. */
  predicate IsMissing(p: Particle, occurs: nat)
    ensures occurs > 0 ==> (IsMissing(p, occurs) <==> occurs < p.occurs.min)
    ensures p.Leaf? ==> (IsMissing(p, occurs) <==> occurs < p.occurs.min)
  {
    if occurs == 0 then !IsEmptiable(p) else p.occurs.min > occurs
  }

  /** Every particle is exactly one of empty, single and multiple. */
  lemma EmptySingleMultiplePartition(p: Particle)
    ensures IsEmpty(p) || IsSingle(p) || IsMultiple(p)
    ensures !(IsEmpty(p) && IsSingle(p))
    ensures !(IsEmpty(p) && IsMultiple(p)) && !(IsSingle(p) && IsMultiple(p))
  {
  }

  /** A tree whose every leaf is optional is emptiable. */
  lemma {:induction false} OptionalLeavesMakeEmptiable(p: Particle)
    requires forall x :: x in Leaves(p) ==> x.occurs.min == 0
    ensures IsEmptiable(p)
  {
    match p
    case Leaf(_, _) =>
      assert p in Leaves(p);
    case Group(_, k, o, cs) =>
      if |cs| > 0 {
        forall i | 0 <= i < |cs|
          ensures IsEmptiable(cs[i])
        {
          LeavesOfContains(cs, i);
          OptionalLeavesMakeEmptiable(cs[i]);
        }
        assert IsEmptiable(cs[0]);
      }
  }

  /** A tree in which every particle is required and every group has
      children is not emptiable. */
  lemma {:induction false} RequiredEverywhereNotEmptiable(p: Particle)
    requires AllRequired(p)
    ensures !IsEmptiable(p)
  {
    match p
    case Leaf(_, _) =>
    case Group(_, k, o, cs) =>
      forall i | 0 <= i < |cs|
        ensures !IsEmptiable(cs[i])
      {
        RequiredEverywhereNotEmptiable(cs[i]);
      }
      assert !IsEmptiable(cs[0]);
  }

  predicate AllRequired(p: Particle) {
    p.occurs.min > 0 &&
    match p
    case Leaf(_, _) => true
    case Group(_, _, _, cs) => |cs| > 0 && forall i :: 0 <= i < |cs| ==> AllRequired(cs[i])
  }

  /** The leaves of a child are among the leaves of its siblings. */
  lemma {:induction false} LeavesOfContains(cs: seq<Particle>, i: nat)
    requires i < |cs|
    ensures forall x :: x in Leaves(cs[i]) ==> x in LeavesOf(cs)
    decreases i
  {
    if i > 0 {
      LeavesOfContains(cs[1..], i - 1);
    }
  }

  // ---------------------------------------------------------------------
  // Pointless groups
  // ---------------------------------------------------------------------

  /** The group can be dropped from the model when it sits in a group of
      kind `parent`: it is childless; or it occurs exactly once and has a
      single child; or it occurs exactly once and is a `sequence` in a
      `sequence`, a `choice` in a `choice`, or an `all` (an `all` with
      several children is pointless in any parent, a case the library's
      own description does not list). */
  predicate IsPointless(g: Particle, parent: Kind)
    requires g.Group?
    ensures IsPointless(g, parent) <==>
              |g.children| == 0
              || (g.occurs.min == 1 && g.occurs.max == Some(1)
                  && (|g.children| == 1 || g.kind == All || g.kind == parent))
  {
    if |g.children| == 0 then true
    else if g.occurs.min != 1 || g.occurs.max != Some(1) then false
    else if |g.children| == 1 then true
    else if g.kind == Sequence && parent != Sequence then false
    else if g.kind == Choice && parent != Choice then false
    else assert g.kind == All || g.kind == parent; true
  }

  // ---------------------------------------------------------------------
  // Restriction test, with the group override
  // ---------------------------------------------------------------------

  function SumOfMins(cs: seq<Particle>): nat {
    if cs == [] then 0 else cs[0].occurs.min + SumOfMins(cs[1..])
  }

  function LeastMin(cs: seq<Particle>): (m: nat)
    requires |cs| > 0
    ensures forall i :: 0 <= i < |cs| ==> m <= cs[i].occurs.min
    ensures exists i :: 0 <= i < |cs| && m == cs[i].occurs.min
  {
    if |cs| == 1 then cs[0].occurs.min
    else
      var m := LeastMin(cs[1..]);
      assert forall i :: 1 <= i < |cs| ==> cs[i] == cs[1..][i - 1];
      if cs[0].occurs.min <= m then cs[0].occurs.min else m
  }

  predicate AllBounded(cs: seq<Particle>) {
    forall i :: 0 <= i < |cs| ==> cs[i].occurs.max.Some?
  }

  function SumOfMaxes(cs: seq<Particle>): nat
    requires AllBounded(cs)
  {
    if cs == [] then 0 else cs[0].occurs.max.value + SumOfMaxes(cs[1..])
  }

  function GreatestMax(cs: seq<Particle>): (m: nat)
    requires |cs| > 0 && AllBounded(cs)
    ensures forall i :: 0 <= i < |cs| ==> cs[i].occurs.max.value <= m
    ensures exists i :: 0 <= i < |cs| && m == cs[i].occurs.max.value
  {
    if |cs| == 1 then cs[0].occurs.max.value
    else
      var m := GreatestMax(cs[1..]);
      assert forall i :: 1 <= i < |cs| ==> cs[i] == cs[1..][i - 1];
      if cs[0].occurs.max.value >= m then cs[0].occurs.max.value else m
  }

  /** The occurrence range a non-empty group stands for once its children
      are folded in, in the manner of the "Effective Total Range" of
      section 3.8.6 of XML Schema 1.0 Part 1 but from the children's
      declared ranges: the group minimum times the least child minimum
      (`choice`) or the sum of child minima (`sequence`, `all`); the group
      maximum times the greatest child maximum or the sum of child maxima,
      unbounded as soon as the group or a child is. */
  function FoldedRange(g: Particle): Occurs
    requires g.Group? && |g.children| > 0
  {
    var cs := g.children;
    var lo := g.occurs.min * (if g.kind == Choice then LeastMin(cs) else SumOfMins(cs));
    if g.occurs.max.None? || !AllBounded(cs) then Occurs(lo, None)
    else Occurs(lo, Some(g.occurs.max.value * (if g.kind == Choice then GreatestMax(cs) else SumOfMaxes(cs))))
  }

  /** `has_occurs_restriction` of a non-empty group against a leaf. */
  predicate GroupRestrictsLeaf(g: Particle, base: Occurs)
    requires g.Group? && |g.children| > 0
    ensures GroupRestrictsLeaf(g, base) <==> Occurrence.HasOccursRestriction(FoldedRange(g), base)
  {
    var cs := g.children;
    var lo := g.occurs.min * (if g.kind == Choice then LeastMin(cs) else SumOfMins(cs));
    if g.occurs.max.None? || exists i :: 0 <= i < |cs| && cs[i].occurs.max.None? then
      base.max.None? && lo >= base.min
    else if lo < base.min then false
    else if base.max.None? then true
    else g.occurs.max.value * (if g.kind == Choice then GreatestMax(cs) else SumOfMaxes(cs)) <= base.max.value
  }

  /** `has_occurs_restriction`: a leaf uses the occurrence rule; a childless
      group restricts anything; a group against a group compares the two
      declared ranges; a group against a leaf folds its children in first. */
  predicate HasOccursRestriction(p: Particle, other: Particle)
    ensures p.Group? && |p.children| == 0 ==> HasOccursRestriction(p, other)
    ensures p.Leaf? || (other.Group? && |p.children| > 0) ==>
              (HasOccursRestriction(p, other) <==> Occurrence.HasOccursRestriction(p.occurs, other.occurs))
  {
    match p
    case Leaf(_, o) => Occurrence.HasOccursRestriction(o, other.occurs)
    case Group(_, _, o, cs) =>
      if |cs| == 0 then true
      else if other.Group? then Occurrence.HasOccursRestriction(o, other.occurs)
      else GroupRestrictsLeaf(p, other.occurs)
  }

  /** A non-empty group restricts a leaf exactly when its folded range
      passes the occurrence rule against the leaf's range. */
  lemma GroupAgainstLeafUsesFoldedRange(g: Particle, other: Particle)
    requires g.Group? && |g.children| > 0 && other.Leaf?
    ensures HasOccursRestriction(g, other) <==> Occurrence.HasOccursRestriction(FoldedRange(g), other.occurs)
  {
  }

  /** Hence, when the folded range is well formed, a group restricts a leaf
      exactly when every count the folded range admits the leaf admits too. */
  lemma GroupAgainstLeafIsInclusion(g: Particle, other: Particle)
    requires g.Group? && |g.children| > 0 && other.Leaf?
    requires Valid(FoldedRange(g))
    ensures HasOccursRestriction(g, other) <==>
              forall n: nat :: Allows(FoldedRange(g), n) ==> Allows(other.occurs, n)
  {
    GroupAgainstLeafUsesFoldedRange(g, other);
    RestrictionIsInclusion(FoldedRange(g), other.occurs);
  }

  lemma ParticleRestrictionReflexive(p: Particle)
    ensures HasOccursRestriction(p, p)
  {
  }
}
