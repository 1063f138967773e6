/** The occurrence contract shared by every XSD particle (`ParticleMixin`):
    an occurrence range (minOccurs, maxOccurs), the predicates the library
    answers about it, the "Occurrence Range OK" restriction test of section
    3.9.6 of XML Schema 1.0 Part 1, and the bound checks done while parsing
    the minOccurs / maxOccurs attributes of a schema element.
 */
module Occurrence {
  import opened Wrappers

  /** minOccurs and maxOccurs of a particle; a `None` maximum means 'unbounded'. */
  datatype Occurs = Occurs(min: nat, max: Option<nat>)

  /** The class defaults: exactly once. */
  const Default: Occurs := Occurs(1, Some(1))

  /** A well-formed range: the minimum does not exceed a bounded maximum. */
  predicate Valid(o: Occurs) {
    o.max.None? || o.min <= o.max.value
  }

  /** `n` consecutive occurrences satisfy the range. This is the meaning
      the predicates below are measured against. */
  predicate Allows(o: Occurs, n: nat) {
    o.min <= n && (o.max.None? || n <= o.max.value)
  }

  // ---------------------------------------------------------------------
  // ParticleMixin predicates (leaf behaviour; groups override some of them)
  // ---------------------------------------------------------------------

  /** Zero occurrences satisfy the range. */
  predicate IsEmptiable(o: Occurs)
    ensures IsEmptiable(o) <==> Allows(o, 0)
  {
    o.min == 0
  }

  /** No occurrence is possible: for a well-formed range, zero is the only
      count it admits. */
  predicate IsEmpty(o: Occurs)
    ensures Valid(o) ==> (IsEmpty(o) <==> forall n: nat :: Allows(o, n) ==> n == 0)
  {
    NonZeroAdmitted(o);
    o.max == Some(0)
  }

  /** A well-formed range whose maximum is not 0 admits some positive count. */
  lemma NonZeroAdmitted(o: Occurs)
    ensures Valid(o) && o.max != Some(0) ==> exists n: nat :: n != 0 && Allows(o, n)
  {
    var other := if o.max.None? then o.min + 1 else o.max.value;
    assert Valid(o) && o.max != Some(0) ==> Allows(o, other) && other != 0;
  }

  /** At most one occurrence: for a well-formed range, one is admitted and
      two are not. */
  predicate IsSingle(o: Occurs)
    ensures Valid(o) ==> (IsSingle(o) <==> Allows(o, 1) && !Allows(o, 2))
  {
    o.max == Some(1)
  }

  /** Neither empty nor single: the particle can occur more than once. */
  predicate IsMultiple(o: Occurs)
    ensures IsMultiple(o) <==> o.max.None? || o.max.value >= 2
  {
    !IsEmpty(o) && !IsSingle(o)
  }

  predicate IsAmbiguous(o: Occurs)
    ensures IsAmbiguous(o) <==> !IsUnivocal(o)
  {
    o.max != Some(o.min)
  }

  /** Exactly one count is admitted: one more than the minimum is already
      too many. */
  predicate IsUnivocal(o: Occurs)
    ensures Valid(o) ==> (IsUnivocal(o) <==> !Allows(o, o.min + 1))
  {
    o.max == Some(o.min)
  }

  /** Fewer than the minimum were observed. The special case for zero
      observations agrees with the general rule for a leaf. */
  predicate IsMissing(o: Occurs, occurs: nat)
    ensures IsMissing(o, occurs) <==> occurs < o.min
  {
    if occurs == 0 then !IsEmptiable(o) else o.min > occurs
  }

  /** The maximum has been reached: one more occurrence would be too many. */
  predicate IsOver(o: Occurs, occurs: nat)
    ensures Valid(o) && o.min <= occurs + 1 ==> (IsOver(o, occurs) <==> !Allows(o, occurs + 1))
  {
    o.max.Some? && o.max.value <= occurs
  }

  /** The range `o` is a legal restriction of the range `base`.
      The tests are made in the library's order; the first one that
      decides wins. */
  predicate HasOccursRestriction(o: Occurs, base: Occurs)
    ensures o.min < base.min ==> !HasOccursRestriction(o, base)
    ensures o.min >= base.min && o.max == Some(0) ==> HasOccursRestriction(o, base)
  {
    if o.min < base.min then false
    else if o.max == Some(0) then true
    else if base.max.None? then true
    else if o.max.None? then false
    else o.max.value <= base.max.value
  }

  /** For a well-formed range, being a restriction means admitting no
      occurrence count the base does not admit. */
  lemma RestrictionIsInclusion(o: Occurs, base: Occurs)
    requires Valid(o)
    ensures HasOccursRestriction(o, base) <==> forall n: nat :: Allows(o, n) ==> Allows(base, n)
  {
    if !HasOccursRestriction(o, base) {
      if o.min < base.min {
        assert Allows(o, o.min) && !Allows(base, o.min);
      } else if o.max.None? {
        var n := if o.min > base.max.value then o.min else base.max.value + 1;
        assert Allows(o, n) && !Allows(base, n);
      } else {
        assert Allows(o, o.max.value) && !Allows(base, o.max.value);
      }
    }
  }

  lemma RestrictionReflexive(o: Occurs)
    ensures HasOccursRestriction(o, o)
  {
  }

  lemma RestrictionTransitive(a: Occurs, b: Occurs, c: Occurs)
    requires Valid(a) && Valid(b)
    requires HasOccursRestriction(a, b) && HasOccursRestriction(b, c)
    ensures HasOccursRestriction(a, c)
  {
    RestrictionIsInclusion(a, b);
    RestrictionIsInclusion(b, c);
    RestrictionIsInclusion(a, c);
  }

  /** A well-formed range is univocal exactly when it admits a single count. */
  lemma UnivocalIffSingleCount(o: Occurs)
    requires Valid(o)
    ensures IsUnivocal(o) <==> forall n: nat :: Allows(o, n) <==> n == o.min
  {
    if !IsUnivocal(o) {
      var n := if o.max.None? then o.min + 1 else o.max.value;
      assert Allows(o, n) && n != o.min;
    }
  }

  /** Within the range, `IsMissing` is exactly "not enough yet". */
  lemma MissingIffBelowRange(o: Occurs, occurs: nat)
    requires o.max.None? || occurs <= o.max.value
    ensures IsMissing(o, occurs) <==> !Allows(o, occurs)
  {
  }

  // ---------------------------------------------------------------------
  // Bound checks of `_parse_particle`, on already-decoded attribute values
  // ---------------------------------------------------------------------

  /** The maxOccurs attribute after decoding: absent, 'unbounded' or an integer. */
  datatype MaxAttr = MaxAbsent | MaxUnbounded | MaxValue(n: int)

  /** The three messages `_parse_particle` reports about the bounds. */
  datatype ParseError =
    | NegativeMin        // "minOccurs value must be a non negative integer"
    | MinAboveDefaultMax // "minOccurs must be lesser or equal than maxOccurs"
    | MaxBelowMin        // "maxOccurs must be 'unbounded' or greater than minOccurs"

  /** The minimum in force after the minOccurs attribute is applied. */
  function MinAfter(cur: Occurs, minAttr: Option<int>): int {
    if minAttr.Some? then minAttr.value else cur.min
  }

  /** `_parse_particle` with the default `parse_error`, which raises: the
      first reported error ends the parse. `cur` is the range before the
      attributes are read. */
  function ParseParticle(cur: Occurs, minAttr: Option<int>, maxAttr: MaxAttr): (r: Result<Occurs, ParseError>)
    ensures r.Success? ==> r.value.min == MinAfter(cur, minAttr)
    ensures r.Success? ==> r.value.max == match maxAttr
                                         case MaxAbsent => cur.max
                                         case MaxUnbounded => None
                                         case MaxValue(n) => Some(n)
    ensures r.Failure? <==> (minAttr.Some? && minAttr.value < 0)
                            || (maxAttr.MaxAbsent? && MinAfter(cur, minAttr) > 1)
                            || (maxAttr.MaxValue? && MinAfter(cur, minAttr) > maxAttr.n)
    ensures r.Success? && !maxAttr.MaxAbsent? ==> Valid(r.value)
  {
    if minAttr.Some? && minAttr.value < 0 then Failure(NegativeMin)
    else
      var min: nat := if minAttr.Some? then minAttr.value else cur.min;
      match maxAttr
      case MaxAbsent =>
        if min > 1 then Failure(MinAboveDefaultMax) else Success(Occurs(min, cur.max))
      case MaxUnbounded =>
        Success(Occurs(min, None))
      case MaxValue(n) =>
        if min > n then Failure(MaxBelowMin) else Success(Occurs(min, Some(n)))
  }

  /** `_parse_particle` under a `parse_error` that reports and returns
      instead of raising: every check runs, a negative minOccurs is
      ignored, and a maxOccurs below the minimum is replaced by 'unbounded'. */
  function ParseParticleLenient(cur: Occurs, minAttr: Option<int>, maxAttr: MaxAttr): (r: (Occurs, seq<ParseError>))
    ensures !maxAttr.MaxAbsent? ==> Valid(r.0)
    // a negative minOccurs is reported first and leaves the minimum as it was
    ensures minAttr.Some? && minAttr.value < 0 ==> r.0.min == cur.min && |r.1| > 0 && r.1[0] == NegativeMin
    ensures minAttr.Some? && minAttr.value >= 0 ==> r.0.min == minAttr.value && NegativeMin !in r.1
    ensures minAttr.None? ==> r.0.min == cur.min && NegativeMin !in r.1
    // an absent maxOccurs keeps the maximum and only checks the minimum against 1
    ensures maxAttr.MaxAbsent? ==> r.0.max == cur.max && MaxBelowMin !in r.1
                                   && (MinAboveDefaultMax in r.1 <==> r.0.min > 1)
    ensures maxAttr.MaxUnbounded? ==> r.0.max.None? && r.1 == (if minAttr.Some? && minAttr.value < 0 then [NegativeMin] else [])
    // a maxOccurs below the minimum is reported and replaced by 'unbounded'
    ensures maxAttr.MaxValue? && r.0.min > maxAttr.n ==> r.0.max.None? && MaxBelowMin in r.1
    ensures maxAttr.MaxValue? && r.0.min <= maxAttr.n ==> r.0.max == Some(maxAttr.n) && MaxBelowMin !in r.1
    ensures !maxAttr.MaxAbsent? ==> MinAboveDefaultMax !in r.1
  {
    var min: nat := if minAttr.Some? && minAttr.value >= 0 then minAttr.value else cur.min;
    var errs := if minAttr.Some? && minAttr.value < 0 then [NegativeMin] else [];
    match maxAttr
    case MaxAbsent =>
      (Occurs(min, cur.max), errs + (if min > 1 then [MinAboveDefaultMax] else []))
    case MaxUnbounded =>
      (Occurs(min, None), errs)
    case MaxValue(n) =>
      if min > n then (Occurs(min, None), errs + [MaxBelowMin])
      else (Occurs(min, Some(n)), errs)
  }

  /** The raising and the reporting parse agree: one succeeds exactly when
      the other reports nothing, with the same range, and the error that
      is raised is the first one reported. */
  lemma StrictAgreesWithLenient(cur: Occurs, minAttr: Option<int>, maxAttr: MaxAttr)
    ensures ParseParticle(cur, minAttr, maxAttr).Success?
            <==> ParseParticleLenient(cur, minAttr, maxAttr).1 == []
    ensures ParseParticle(cur, minAttr, maxAttr).Success?
            ==> ParseParticleLenient(cur, minAttr, maxAttr).0 == ParseParticle(cur, minAttr, maxAttr).value
    ensures ParseParticle(cur, minAttr, maxAttr).Failure?
            ==> ParseParticleLenient(cur, minAttr, maxAttr).1[0] == ParseParticle(cur, minAttr, maxAttr).error
  {
  }

  /** The attributes that describe a range. */
  function Attributes(o: Occurs): (Option<int>, MaxAttr) {
    (Some(o.min), if o.max.None? then MaxUnbounded else MaxValue(o.max.value))
  }

  /** Writing a well-formed range out as attributes and parsing it back
      gives the range again, whatever the particle held before. */
  lemma ParseAttributesRoundTrip(o: Occurs, cur: Occurs)
    requires Valid(o)
    ensures ParseParticle(cur, Attributes(o).0, Attributes(o).1) == Success(o)
  {
  }

  /** From the class defaults and with both attributes given, parsing
      succeeds exactly when 0 <= minOccurs <= maxOccurs (or maxOccurs is
      'unbounded'); with maxOccurs absent it needs minOccurs <= 1, since the
      default maximum of 1 stays in force. */
  lemma ParseFromDefault(min: int, maxAttr: MaxAttr)
    ensures maxAttr.MaxValue? ==>
              (ParseParticle(Default, Some(min), maxAttr).Success? <==> 0 <= min <= maxAttr.n)
    ensures maxAttr.MaxUnbounded? ==>
              (ParseParticle(Default, Some(min), maxAttr).Success? <==> 0 <= min)
    ensures maxAttr.MaxAbsent? ==>
              (ParseParticle(Default, Some(min), maxAttr).Success? <==> 0 <= min <= 1)
  {
  }
}
