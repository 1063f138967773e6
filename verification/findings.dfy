/** Two places where the library's code departs from what it evidently
    means, each modelled as written next to a lemma that exhibits the
    departure; the corrected behaviour is the one the rest of the model
    uses (`Traversal.IterModel`, `Effective.GroupMax`).
 */
module Findings {
  import opened Wrappers
  import Occurrence
  import opened Particles
  import opened Traversal
  import opened Effective

  // ---------------------------------------------------------------------
  // iter_model: the effective parent is lost in the recursion
  // ---------------------------------------------------------------------

  /** `iter_model` as written: a pointless child group is looked through by
      calling its own `iter_model`, which then judges the grandchildren
      against the child group instead of against the group the traversal
      started from. */
  function IterModelAsWritten(g: Particle, depth: nat): (r: Result<seq<Particle>, ModelError>)
    requires g.Group?
    ensures r.Success? ==> forall x :: x in r.value ==> Size(x) < Size(g)
    ensures r.Failure? ==> r.error == DepthExceeded
    decreases Size(g), 1
  {
    if depth > MaxModelDepth then Failure(DepthExceeded)
    else FlattenAsWritten(g.children, g.kind, depth)
  }

  function FlattenAsWritten(cs: seq<Particle>, holder: Kind, depth: nat): (r: Result<seq<Particle>, ModelError>)
    ensures r.Success? ==> forall x :: x in r.value ==> Size(x) <= SizeOf(cs)
    ensures r.Failure? ==> r.error == DepthExceeded
    decreases SizeOf(cs), 2
  {
    if cs == [] then Success([])
    else
      var head := if cs[0].Group? && IsPointless(cs[0], holder) then IterModelAsWritten(cs[0], depth + 1)
                  else Success([cs[0]]);
      if head.Failure? then head
      else
        var tail := FlattenAsWritten(cs[1..], holder, depth);
        if tail.Failure? then tail
        else Success(head.value + tail.value)
  }

  /** Looking through groups as written still keeps the leaves and their
      document order: only which groups are looked through differs. */
  lemma {:induction false} IterModelAsWrittenKeepsLeaves(g: Particle, depth: nat)
    requires g.Group?
    ensures IterModelAsWritten(g, depth).Success? ==> LeavesOf(IterModelAsWritten(g, depth).value) == Leaves(g)
    decreases Size(g), 1
  {
    FlattenAsWrittenKeepsLeaves(g.children, g.kind, depth);
  }

  lemma {:induction false} FlattenAsWrittenKeepsLeaves(cs: seq<Particle>, holder: Kind, depth: nat)
    ensures FlattenAsWritten(cs, holder, depth).Success? ==>
              LeavesOf(FlattenAsWritten(cs, holder, depth).value) == LeavesOf(cs)
    decreases SizeOf(cs), 2
  {
    if cs != [] && FlattenAsWritten(cs, holder, depth).Success? {
      var head := if cs[0].Group? && IsPointless(cs[0], holder) then IterModelAsWritten(cs[0], depth + 1)
                  else Success([cs[0]]);
      if cs[0].Group? && IsPointless(cs[0], holder) {
        IterModelAsWrittenKeepsLeaves(cs[0], depth + 1);
      } else {
        assert LeavesOf([cs[0]]) == Leaves(cs[0]) + LeavesOf([]);
      }
      FlattenAsWrittenKeepsLeaves(cs[1..], holder, depth);
      LeavesOfAppend(head.value, FlattenAsWritten(cs[1..], holder, depth).value);
    }
  }

  /** Every group in `p`, `p` included, is of kind `k`. */
  predicate OfKind(p: Particle, k: Kind)
    decreases Size(p), 1
  {
    match p
    case Leaf(_, _) => true
    case Group(_, kind, _, cs) => kind == k && AllOfKind(cs, k)
  }

  predicate AllOfKind(cs: seq<Particle>, k: Kind)
    decreases SizeOf(cs), 2
  {
    cs == [] || (OfKind(cs[0], k) && AllOfKind(cs[1..], k))
  }

  /** When every group of the model has the same kind, the group a child
      is judged against as written is the effective parent, and the two
      traversals agree. */
  lemma {:induction false} IterModelAsWrittenAgrees(g: Particle, depth: nat)
    requires g.Group?
    ensures OfKind(g, g.kind) ==> IterModelAsWritten(g, depth) == IterModel(g, depth)
    decreases Size(g), 1
  {
    FlattenAsWrittenAgrees(g.children, g.kind, depth);
  }

  lemma {:induction false} FlattenAsWrittenAgrees(cs: seq<Particle>, k: Kind, depth: nat)
    ensures AllOfKind(cs, k) ==> FlattenAsWritten(cs, k, depth) == Flatten(cs, k, depth)
    decreases SizeOf(cs), 2
  {
    if cs != [] && AllOfKind(cs, k) {
      if cs[0].Group? && IsPointless(cs[0], k) {
        assert OfKind(cs[0], k);
        IterModelAsWrittenAgrees(cs[0], depth + 1);
        assert IterModel(cs[0], depth + 1) == Expand(cs[0], k, depth + 1);
      }
      FlattenAsWrittenAgrees(cs[1..], k, depth);
    }
  }

  function LeafA(): Particle { Leaf(3, Occurrence.Occurs(0, Some(1))) }
  function LeafB(): Particle { Leaf(4, Occurrence.Default) }

  /** The sequence `(a?, b)`. */
  function InnerSequence(): Particle { Group(2, Sequence, Occurrence.Default, [LeafA(), LeafB()]) }

  /** A choice whose only alternative is a sequence wrapping `(a?, b)`. */
  function WrappedChoice(): Particle {
    Group(0, Choice, Occurrence.Default, [Group(1, Sequence, Occurrence.Default, [InnerSequence()])])
  }

  /** As written, the choice is traversed as if `a` and `b` were its
      alternatives. */
  lemma IterModelLosesEffectiveParent()
    ensures IterModelAsWritten(WrappedChoice(), 0) == Success([LeafA(), LeafB()])
  {
    var a, b, s2 := LeafA(), LeafB(), InnerSequence();
    var s1 := Group(1, Sequence, Occurrence.Default, [s2]);
    assert [a, b][1..][1..] == [] && [s2][1..] == [] && [s1][1..] == [];
    assert [b] + [] == [b] && [a] + [b] == [a, b] && [a, b] + [] == [a, b];
    assert FlattenAsWritten([a, b][1..], Sequence, 2) == Success([b]);
    assert FlattenAsWritten([a, b], Sequence, 2) == Success([a, b]);
    assert IterModelAsWritten(s2, 2) == Success([a, b]);
    assert FlattenAsWritten([s2], Sequence, 1) == Success([a, b]);
    assert FlattenAsWritten([s1], Choice, 0) == Success([a, b]);
  }

  /** So `effective_min_occurs` as written finds an optional alternative
      among those items and answers 0, although the choice is not
      emptiable: `b` must always be present. */
  lemma AsWrittenChoiceLooksSkippable()
    ensures AnyMinZero([LeafA(), LeafB()], Size(WrappedChoice()) - 1) == Success(true)
    ensures !IsEmptiable(WrappedChoice())
  {
    var s2 := InnerSequence();
    assert s2.children[1] == LeafB() && !IsEmptiable(LeafB());
    assert !IsEmptiable(s2);
    var s1 := WrappedChoice().children[0];
    assert s1.children[0] == s2;
    assert !IsEmptiable(s1);
  }

  /** Keeping the choice as the effective parent yields the sequence
      `(a?, b)` instead. */
  lemma IterModelKeepsEffectiveParent()
    ensures IterModel(WrappedChoice(), 0) == Success([InnerSequence()])
  {
    var s2 := InnerSequence();
    var s1 := Group(1, Sequence, Occurrence.Default, [s2]);
    assert [s2][1..] == [] && [s1][1..] == [] && [s2] + [] == [s2];
    assert !IsPointless(s2, Choice);
    assert Flatten([s2], Choice, 1) == Success([s2]);
    assert Flatten([s1], Choice, 0) == Success([s2]);
  }

  /** The sequence `(a?, b)` must occur once, as `b` must. */
  lemma EffectiveMinOfInnerSequence()
    ensures EffectiveMinOccurs(InnerSequence()) == Success(1)
  {
    var a, b, s2 := LeafA(), LeafB(), InnerSequence();
    FlattenWithoutPointless([a, b], Sequence, 0);
    assert IterModel(s2, 0) == Success([a, b]);
    assert [a, b][1..] == [b] && [b][1..] == [];
    assert AllMinZero([a, b][1..], Size(s2) - 1) == Success(false);
  }

  /** With the effective parent kept, the effective minimum of the choice
      is 1, in agreement with the choice not being emptiable. */
  lemma EffectiveMinOfWrappedChoice()
    ensures EffectiveMinOccurs(WrappedChoice()) == Success(1)
  {
    var s2 := InnerSequence();
    var c := WrappedChoice();
    IterModelKeepsEffectiveParent();
    EffectiveMinOfInnerSequence();
    AnyMinZeroOfRequired(s2, Size(c) - 1);
  }

  /** A single alternative that must occur does not make a choice
      skippable. */
  lemma AnyMinZeroOfRequired(x: Particle, bound: nat)
    requires Size(x) <= bound && EffectiveMinOccurs(x) == Success(1)
    ensures AnyMinZero([x], bound) == Success(false)
  {
    assert [x][1..] == [];
  }

  // ---------------------------------------------------------------------
  // effective_max_occurs: max() of a single unbounded value
  // ---------------------------------------------------------------------

  /** The exception Python raises on `None > n` or `n * None`. */
  datatype Raised = TypeErrorRaised

  /** Python's `max` over effective maxima: a single value is returned
      without being compared; comparing `None` with anything raises. */
  function PyMax(vs: seq<Option<nat>>): (r: Result<Option<nat>, Raised>)
    requires |vs| > 0
    ensures r.Failure? <==> |vs| > 1 && exists i :: 0 <= i < |vs| && vs[i].None?
    ensures r.Success? ==> r.value in vs && (r.value.Some? ==> forall i :: 0 <= i < |vs| ==> vs[i].value <= r.value.value)
  {
    if |vs| == 1 then Success(vs[0])
    else if exists i :: 0 <= i < |vs| && vs[i].None? then Failure(TypeErrorRaised)
    else Success(Largest(vs))
  }

  /** `try: value = max(...) except TypeError: return None else: return
      self.max_occurs * value`, as written: a lone unbounded value reaches
      the multiplication, which raises. */
  function ScaledLargestAsWritten(m: nat, vs: seq<Option<nat>>): (r: Result<Option<nat>, Raised>)
    requires |vs| > 0
    ensures r.Failure? <==> |vs| == 1 && vs[0].None?
  {
    match PyMax(vs)
    case Failure(_) => Success(None)
    case Success(v) => if v.None? then Failure(TypeErrorRaised) else Success(Some(m * v.value))
  }

  /** The code as written agrees with the intended "unbounded if any
      alternative is" everywhere except on a single unbounded value. */
  lemma ScaledLargestAsWrittenAgrees(m: nat, vs: seq<Option<nat>>)
    requires |vs| > 0 && !(|vs| == 1 && vs[0].None?)
    ensures ScaledLargestAsWritten(m, vs) == Success(Scale(m, Largest(vs)))
  {
    if |vs| == 1 {
      assert Largest(vs) == vs[0];
    }
  }

  /** A choice, once, of one element that may repeat without bound. */
  function UnboundedChoice(): Particle {
    Group(0, Choice, Occurrence.Default, [Leaf(1, Occurrence.Occurs(1, None))])
  }

  /** As written, `effective_max_occurs` of that choice evaluates
      `1 * None` and raises; its evidently intended value is 'unbounded'. */
  lemma SingleUnboundedAlternative()
    ensures ScaledLargestAsWritten(1, [Option<nat>.None]).Failure?
    ensures EffectiveMaxOccurs(UnboundedChoice()) == Success(None)
  {
    var x := Leaf(1, Occurrence.Occurs(1, None));
    var g := UnboundedChoice();
    assert [x][1..] == [];
    FlattenWithoutPointless([x], Choice, 0);
    assert IterModel(g, 0) == Success([x]);
    assert [Option<nat>.None] + [] == [None];
    assert MaxesOf([x], Size(g) - 1) == Success([None]);
  }
}
