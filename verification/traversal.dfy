/** The depth-guarded traversals of a model group: `iter_model`, which
    yields the children of a group with pointless sub-groups expanded in
    place, and `iter_elements`, which yields the leaves beneath a group.
    Python generators become functions returning the whole sequence.
 */
module Traversal {
  import opened Wrappers
  import Occurrence
  import opened Particles

  /** `limits.MAX_MODEL_DEPTH`, the library's default. */
  const MaxModelDepth: nat := 15

  // ---------------------------------------------------------------------
  // iter_model
  // ---------------------------------------------------------------------

  /** `iter_model(depth)`: the children of `g` in order, each child group
      that is pointless in `g` replaced by what it yields in turn. Groups
      met while expanding are judged against `g`, the effective parent of
      everything the traversal yields. */
  function IterModel(g: Particle, depth: nat): (r: Result<seq<Particle>, ModelError>)
    requires g.Group?
    ensures r.Success? ==> forall x :: x in r.value ==> Size(x) < Size(g)
    ensures r.Success? ==> forall x :: x in r.value && x.Group? ==> !IsPointless(x, g.kind)
    ensures r.Failure? ==> r.error == DepthExceeded
  {
    Expand(g, g.kind, depth)
  }

  /** Entering group `g` at `depth` while traversing a group of kind
      `parent`: the depth guard, then the children of `g`. */
  function Expand(g: Particle, parent: Kind, depth: nat): (r: Result<seq<Particle>, ModelError>)
    requires g.Group?
    ensures r.Success? ==> forall x :: x in r.value ==> Size(x) < Size(g)
    ensures r.Success? ==> forall x :: x in r.value && x.Group? ==> !IsPointless(x, parent)
    ensures r.Failure? ==> r.error == DepthExceeded
    decreases Size(g), 1
  {
    if depth > MaxModelDepth then Failure(DepthExceeded)
    else Flatten(g.children, parent, depth)
  }

  /** The loop over the children of a group entered at `depth`. */
  function Flatten(cs: seq<Particle>, parent: Kind, depth: nat): (r: Result<seq<Particle>, ModelError>)
    ensures r.Success? ==> forall x :: x in r.value ==> Size(x) <= SizeOf(cs)
    ensures r.Success? ==> forall x :: x in r.value && x.Group? ==> !IsPointless(x, parent)
    ensures r.Failure? ==> r.error == DepthExceeded
    decreases SizeOf(cs), 2
  {
    if cs == [] then Success([])
    else
      var head := if cs[0].Group? && IsPointless(cs[0], parent)
                  then Expand(cs[0], parent, depth + 1)
                  else Success([cs[0]]);
      if head.Failure? then head
      else
        var tail := Flatten(cs[1..], parent, depth);
        if tail.Failure? then tail
        else Success(head.value + tail.value)
  }

  /** One step of the loop: a successful traversal of `cs` is the
      traversal of the first child, looked through when pointless, followed
      by that of the rest. */
  lemma FlattenStep(cs: seq<Particle>, parent: Kind, depth: nat)
    requires cs != [] && Flatten(cs, parent, depth).Success?
    ensures Flatten(cs[1..], parent, depth).Success?
    ensures cs[0].Group? && IsPointless(cs[0], parent) ==>
              Flatten(cs[0].children, parent, depth + 1).Success?
              && Flatten(cs, parent, depth).value ==
                   Flatten(cs[0].children, parent, depth + 1).value + Flatten(cs[1..], parent, depth).value
    ensures !(cs[0].Group? && IsPointless(cs[0], parent)) ==>
              Flatten(cs, parent, depth).value == [cs[0]] + Flatten(cs[1..], parent, depth).value
  {
  }

  /** Expanding pointless groups keeps the leaves and their document order. */
  lemma {:induction false} ExpandKeepsLeaves(g: Particle, parent: Kind, depth: nat)
    requires g.Group? && Expand(g, parent, depth).Success?
    ensures LeavesOf(Expand(g, parent, depth).value) == Leaves(g)
    decreases Size(g), 1
  {
    FlattenKeepsLeaves(g.children, parent, depth);
  }

  lemma {:induction false} FlattenKeepsLeaves(cs: seq<Particle>, parent: Kind, depth: nat)
    requires Flatten(cs, parent, depth).Success?
    ensures LeavesOf(Flatten(cs, parent, depth).value) == LeavesOf(cs)
    decreases SizeOf(cs), 2
  {
    if cs != [] {
      var head := if cs[0].Group? && IsPointless(cs[0], parent)
                  then Expand(cs[0], parent, depth + 1)
                  else Success([cs[0]]);
      if cs[0].Group? && IsPointless(cs[0], parent) {
        ExpandKeepsLeaves(cs[0], parent, depth + 1);
      } else {
        assert LeavesOf([cs[0]]) == Leaves(cs[0]) + LeavesOf([]);
      }
      FlattenKeepsLeaves(cs[1..], parent, depth);
      LeavesOfAppend(head.value, Flatten(cs[1..], parent, depth).value);
    }
  }

  /** The same holds for the leaves that can occur at all: a group is only
      expanded when it occurs exactly once or has no children. */
  lemma {:induction false} ExpandKeepsLiveLeaves(g: Particle, parent: Kind, depth: nat)
    requires g.Group? && Expand(g, parent, depth).Success?
    ensures LiveLeavesOf(Expand(g, parent, depth).value) == LiveLeavesOf(g.children)
    decreases Size(g), 1
  {
    FlattenKeepsLiveLeaves(g.children, parent, depth);
  }

  lemma {:induction false} FlattenKeepsLiveLeaves(cs: seq<Particle>, parent: Kind, depth: nat)
    requires Flatten(cs, parent, depth).Success?
    ensures LiveLeavesOf(Flatten(cs, parent, depth).value) == LiveLeavesOf(cs)
    decreases SizeOf(cs), 2
  {
    if cs != [] {
      var head := if cs[0].Group? && IsPointless(cs[0], parent)
                  then Expand(cs[0], parent, depth + 1)
                  else Success([cs[0]]);
      if cs[0].Group? && IsPointless(cs[0], parent) {
        ExpandKeepsLiveLeaves(cs[0], parent, depth + 1);
        if cs[0].children != [] {
          assert cs[0].occurs.max == Some(1);
        }
      } else {
        assert LiveLeavesOf([cs[0]]) == LiveLeaves(cs[0]) + LiveLeavesOf([]);
      }
      FlattenKeepsLiveLeaves(cs[1..], parent, depth);
      LiveLeavesOfAppend(head.value, Flatten(cs[1..], parent, depth).value);
    }
  }

  /** A traversal of a group keeps its leaves in document order. */
  lemma IterModelKeepsLeaves(g: Particle, depth: nat)
    requires g.Group? && IterModel(g, depth).Success?
    ensures LeavesOf(IterModel(g, depth).value) == Leaves(g)
  {
    ExpandKeepsLeaves(g, g.kind, depth);
  }

  /** How many pointless groups (relative to `parent`) are nested inside
      one another below the list `cs`. */
  function PointlessHeightOf(cs: seq<Particle>, parent: Kind): nat
    decreases SizeOf(cs)
  {
    if cs == [] then 0
    else
      var h := if cs[0].Group? && IsPointless(cs[0], parent)
               then 1 + PointlessHeightOf(cs[0].children, parent) else 0;
      var t := PointlessHeightOf(cs[1..], parent);
      if h >= t then h else t
  }

  lemma {:induction false} ExpandFailsIffTooDeep(g: Particle, parent: Kind, depth: nat)
    requires g.Group?
    ensures Expand(g, parent, depth).Failure? <==> depth + PointlessHeightOf(g.children, parent) > MaxModelDepth
    decreases Size(g), 1
  {
    FlattenFailsIffTooDeep(g.children, parent, depth);
  }

  lemma {:induction false} FlattenFailsIffTooDeep(cs: seq<Particle>, parent: Kind, depth: nat)
    ensures Flatten(cs, parent, depth).Failure? <==>
              PointlessHeightOf(cs, parent) > 0 && depth + PointlessHeightOf(cs, parent) > MaxModelDepth
    decreases SizeOf(cs), 2
  {
    if cs != [] {
      if cs[0].Group? && IsPointless(cs[0], parent) {
        ExpandFailsIffTooDeep(cs[0], parent, depth + 1);
      }
      FlattenFailsIffTooDeep(cs[1..], parent, depth);
    }
  }

  /** `iter_model` raises the depth error exactly when the chain of
      pointless groups below the group reaches past the limit. */
  lemma IterModelFailsIffTooDeep(g: Particle, depth: nat)
    requires g.Group?
    ensures IterModel(g, depth).Failure? <==> depth + PointlessHeightOf(g.children, g.kind) > MaxModelDepth
  {
    ExpandFailsIffTooDeep(g, g.kind, depth);
  }

  /** Without pointless children, a traversal yields the children as they are. */
  lemma {:induction false} FlattenWithoutPointless(cs: seq<Particle>, parent: Kind, depth: nat)
    requires forall i :: 0 <= i < |cs| && cs[i].Group? ==> !IsPointless(cs[i], parent)
    ensures Flatten(cs, parent, depth) == Success(cs)
    decreases |cs|
  {
    if cs != [] {
      FlattenWithoutPointless(cs[1..], parent, depth);
      assert [cs[0]] + cs[1..] == cs;
    }
  }

  // ---------------------------------------------------------------------
  // iter_elements
  // ---------------------------------------------------------------------

  /** `iter_elements(depth)`: the leaves beneath `g` in document order,
      nothing from beneath a group whose maxOccurs is 0. */
  function IterElements(g: Particle, depth: nat): (r: Result<seq<Particle>, ModelError>)
    requires g.Group?
    ensures r.Success? ==> r.value == LiveLeaves(g)
    ensures r.Success? ==> forall x :: x in r.value ==> x.Leaf?
    ensures r.Failure? ==> r.error == DepthExceeded
    decreases Size(g), 1
  {
    if depth > MaxModelDepth then Failure(DepthExceeded)
    else if g.occurs.max == Some(0) then Success([])
    else ElementsOf(g.children, depth)
  }

  function ElementsOf(cs: seq<Particle>, depth: nat): (r: Result<seq<Particle>, ModelError>)
    ensures r.Success? ==> r.value == LiveLeavesOf(cs)
    ensures r.Success? ==> forall x :: x in r.value ==> x.Leaf?
    ensures r.Failure? ==> r.error == DepthExceeded
    decreases SizeOf(cs), 2
  {
    if cs == [] then Success([])
    else
      var head := if cs[0].Group? then IterElements(cs[0], depth + 1) else Success([cs[0]]);
      if head.Failure? then head
      else
        var tail := ElementsOf(cs[1..], depth);
        if tail.Failure? then tail
        else Success(head.value + tail.value)
  }

  /** How deeply groups are nested below `p`, not looking beneath a group
      whose maxOccurs is 0. */
  function ElementHeight(p: Particle): nat
    decreases Size(p), 1
  {
    match p
    case Leaf(_, _) => 0
    case Group(_, _, o, cs) => if o.max == Some(0) then 0 else ElementHeightOf(cs)
  }

  function ElementHeightOf(cs: seq<Particle>): nat
    decreases SizeOf(cs), 2
  {
    if cs == [] then 0
    else
      var h := if cs[0].Group? then 1 + ElementHeight(cs[0]) else 0;
      var t := ElementHeightOf(cs[1..]);
      if h >= t then h else t
  }

  lemma {:induction false} IterElementsFailsIffTooDeep(g: Particle, depth: nat)
    requires g.Group?
    ensures IterElements(g, depth).Failure? <==> depth + ElementHeight(g) > MaxModelDepth
    decreases Size(g), 1
  {
    if g.occurs.max != Some(0) {
      ElementsOfFailsIffTooDeep(g.children, depth);
    }
  }

  lemma {:induction false} ElementsOfFailsIffTooDeep(cs: seq<Particle>, depth: nat)
    ensures ElementsOf(cs, depth).Failure? <==>
              ElementHeightOf(cs) > 0 && depth + ElementHeightOf(cs) > MaxModelDepth
    decreases SizeOf(cs), 2
  {
    if cs != [] {
      if cs[0].Group? {
        IterElementsFailsIffTooDeep(cs[0], depth + 1);
      }
      ElementsOfFailsIffTooDeep(cs[1..], depth);
    }
  }

  /** An empty group yields no elements. */
  lemma EmptyGroupHasNoElements(g: Particle, depth: nat)
    requires g.Group? && IsEmpty(g) && depth <= MaxModelDepth
    ensures IterElements(g, depth) == Success([])
  {
  }

  // ---------------------------------------------------------------------
  // Nesting bombs
  // ---------------------------------------------------------------------

  /** `n` sequences, each the lone child of the next, around one element.
      The element has id 0 and the sequence at height `n` has id `n + 1`. */
  function Nest(n: nat): (g: Particle)
    ensures g.Group? && g.kind == Sequence
  {
    if n == 0 then Group(1, Sequence, Occurrence.Default, [Leaf(0, Occurrence.Default)])
    else Group(n + 1, Sequence, Occurrence.Default, [Nest(n - 1)])
  }

  lemma {:induction false} NestHeights(n: nat)
    ensures PointlessHeightOf(Nest(n).children, Sequence) == n
    ensures ElementHeight(Nest(n)) == n
  {
    if n > 0 {
      NestHeights(n - 1);
      assert Nest(n).children == [Nest(n - 1)];
      assert Nest(n).children[1..] == [];
    } else {
      assert Nest(n).children[1..] == [];
      assert ElementHeightOf(Nest(n).children) == 0;
    }
  }

  /** A model nested one level deeper than the limit is refused by both
      traversals; one level less is traversed. */
  lemma NestingBombDetected()
    ensures IterModel(Nest(MaxModelDepth + 1), 0) == Failure(DepthExceeded)
    ensures IterElements(Nest(MaxModelDepth + 1), 0) == Failure(DepthExceeded)
    ensures IterModel(Nest(MaxModelDepth), 0).Success?
    ensures IterElements(Nest(MaxModelDepth), 0).Success?
  {
    NestHeights(MaxModelDepth + 1);
    NestHeights(MaxModelDepth);
    IterModelFailsIffTooDeep(Nest(MaxModelDepth + 1), 0);
    IterModelFailsIffTooDeep(Nest(MaxModelDepth), 0);
    IterElementsFailsIffTooDeep(Nest(MaxModelDepth + 1), 0);
    IterElementsFailsIffTooDeep(Nest(MaxModelDepth), 0);
  }

  /** A pointless sequence inside a sequence is looked through: its only
      child is yielded directly. */
  lemma PointlessSequenceIsLookedThrough(x: Particle)
    requires x.Leaf?
    ensures IterModel(Group(0, Sequence, Occurrence.Default, [Group(1, Sequence, Occurrence.Default, [x])]), 0) == Success([x])
  {
    var inner := Group(1, Sequence, Occurrence.Default, [x]);
    assert IsPointless(inner, Sequence);
    assert [x][1..] == [] && [inner][1..] == [];
    assert [x] + [] == [x];
    assert Flatten([x], Sequence, 1) == Success([x] + []);
    assert Expand(inner, Sequence, 1) == Success([x]);
    assert Flatten([inner], Sequence, 0) == Success([x] + []);
  }
}
