# Occurrence algebra of XSD particles, in Dafny

This project models the particle core of the `xmlschema` library, `xmlschema/validators/particles.py`. A *particle* is an XSD content-model component with an occurrence range `(minOccurs, maxOccurs)`, where maxOccurs may be `unbounded`. It is either:
- an element or wildcard, a *leaf* here, whose internals are opaque; or
- a *model group* (`sequence`, `choice` or `all`) owning an ordered list of particles.

The model covers:

- **`Occurrence`** (`occurrence.dfy`):
  - the occurrence range shared by every particle (`ParticleMixin`);
  - its predicates (emptiable, empty, single, multiple, ambiguous, univocal, missing, over);
  - the "Occurrence Range OK" restriction test of section 3.9.6 of XML Schema 1.0 Part 1;
  - the bound checks `_parse_particle` makes on the minOccurs / maxOccurs attributes.
- **`Particles`** (`particles.dfy`):
  - the particle tree and the group constructor's kind check;
  - the group forms of emptiable / empty / single;
  - the pointless-group rule;
  - the group forms of the restriction test.
- **`Traversal`** (`traversal.dfy`):
  - the depth-guarded traversals `iter_model` and `iter_elements`;
  - the limit against nesting bombs.
- **`Effective`** (`effective.dfy`): `effective_min_occurs` and `effective_max_occurs`.
- **`Subgroups`** (`subgroups.dfy`): `get_subgroups`, `overall_min_occurs` and `overall_max_occurs`.
- **`Findings`** (`findings.dfy`): the code as written at two places where it departs from its evident intent. The third such place, in `overall_max_occurs`, is modelled both ways in `Subgroups`.

Modelling conventions:
- An unbounded maximum is `None` in an `Option<nat>`.
- The library's exceptions are `Failure` values of a `Result`:
  - `XMLSchemaValueError` for an invalid group kind;
  - `XMLSchemaModelDepthError` for a model nested too deeply;
  - `XMLSchemaModelError` for a particle that is not in the model.
- Python generators become functions returning the whole sequence.
- Object identity (`child is item`) is value equality on particles that carry a unique `id`.
- `limits.MAX_MODEL_DEPTH` is the constant `MaxModelDepth = 15`, the library's default. `limits.py` is not part of this model.

The reference views the contracts are measured against:
- `Allows(o, n)`: `n` occurrences satisfy the range `o`.
- `Leaves` / `LiveLeaves`: the leaves of a tree, and those not beneath a group whose maxOccurs is 0.
- `WellFormed`: the models on which emptiability and a zero effective minimum agree. No group is empty, and an `all` group appears only directly inside an `all` group. This is a restriction of the model, not of XML Schema: an empty `<xs:sequence/>` is legal, and `Effective.EmptyAltDisagrees` shows what happens with one.
- `MinCount`: the fewest elements an instance of a particle holds. `IsEmptiable` is measured against it.
- `ScaledGreatest`: a group maximum times the greatest item maximum, unbounded when any item is.
- `DescendantsOf` and `NestingOf`: the particles below a group, and how deeply groups nest.

Two behaviours of the code worth stating plainly:
- A group compared with a leaf bounds its maximum by the group's maxOccurs times the greatest child maximum (`choice`, `particles.py:317`) or the sum of the child maxima (`sequence`, `all`, `:330`).
- With the maxOccurs attribute absent, a minOccurs above 1 is an error (`particles.py:140-142`): the default maximum of 1 stays in force.

## Model

| member | source | states |
|---|---|---|
| Occurrence.IsEmptiable | xmlschema/validators/particles.py:64-69 | a particle is emptiable exactly when zero occurrences satisfy its range |
| Occurrence.IsEmpty | xmlschema/validators/particles.py:71-75 | for a well-formed range, empty exactly when 0 is the only count it admits |
| Occurrence.IsSingle | xmlschema/validators/particles.py:77-83 | for a well-formed range, single exactly when one occurrence is admitted and two are not |
| Occurrence.IsMultiple | xmlschema/validators/particles.py:85-87 | multiple means unbounded or a maximum of at least 2 |
| Occurrence.IsAmbiguous | xmlschema/validators/particles.py:89-95 | ambiguous is exactly not univocal, with an unbounded maximum never equal to the minimum |
| Occurrence.IsUnivocal | xmlschema/validators/particles.py:93-95 | for a well-formed range, univocal exactly when one more occurrence than the minimum is refused |
| Occurrence.UnivocalIffSingleCount | xmlschema/validators/particles.py:93-95 | a well-formed range is univocal exactly when it admits a single occurrence count |
| Occurrence.IsMissing | xmlschema/validators/particles.py:97-99 | the zero-occurrences special case agrees with "fewer than minOccurs" for a leaf |
| Occurrence.MissingIffBelowRange | xmlschema/validators/particles.py:97-99 | within the maximum, missing means the count is not admitted |
| Occurrence.IsOver | xmlschema/validators/particles.py:101-103 | over means one more occurrence would exceed the range |
| Occurrence.HasOccursRestriction | xmlschema/validators/particles.py:112-122 | the ordered rule: a smaller minimum refuses; a maximum of 0 (with the minimum in order) accepts |
| Occurrence.RestrictionIsInclusion | xmlschema/validators/particles.py:112-122 | for a well-formed range, restriction holds exactly when every count it admits the base admits |
| Occurrence.RestrictionReflexive | xmlschema/validators/particles.py:112-122 | every range restricts itself |
| Occurrence.RestrictionTransitive | xmlschema/validators/particles.py:112-122 | restriction composes across well-formed ranges |
| Occurrence.ParseParticle | xmlschema/validators/particles.py:127-153 | with a raising `parse_error`, the resulting range and exactly when one of the three bound errors occurs; a given maxOccurs yields a well-formed range |
| Occurrence.ParseParticleLenient | xmlschema/validators/particles.py:124-153 | with a reporting `parse_error` every check runs: a negative minOccurs is reported first and the previous minimum kept; a maxOccurs below the minimum is reported and becomes unbounded, so an explicit maxOccurs always leaves a well-formed range; an absent maxOccurs keeps the maximum and reports a minimum above 1 |
| Occurrence.StrictAgreesWithLenient | xmlschema/validators/particles.py:124-153 | raising and reporting parses agree; the raised error is the first one reported |
| Occurrence.ParseAttributesRoundTrip | xmlschema/validators/particles.py:139-153 | writing a well-formed range as attributes and parsing it back returns the range |
| Occurrence.ParseFromDefault | xmlschema/validators/particles.py:134-153 | from the defaults, parsing succeeds exactly when 0 <= min <= max, or min <= 1 when maxOccurs is absent |
| Particles.ParseKind | xmlschema/validators/particles.py:161-166 | only the three model names are accepted, each mapping back to its name |
| Particles.KindNameRoundTrip | xmlschema/validators/particles.py:163-166 | every kind survives being named and parsed back |
| Particles.NewGroup | xmlschema/validators/particles.py:161-166 | construction succeeds exactly for 'sequence', 'choice', 'all', giving a childless group with the given range |
| Particles.IsEmptiable | xmlschema/validators/particles.py:198-202 | a particle is emptiable exactly when the fewest elements an instance of it holds is 0 |
| Particles.IsEmpty | xmlschema/validators/particles.py:204-205 | an empty group has no leaf that can occur |
| Particles.IsSingle | xmlschema/validators/particles.py:207-213 | a single particle has maximum 1 and is not empty |
| Particles.IsMultiple | xmlschema/validators/particles.py:85-87 | a leaf is multiple when unbounded or of maximum at least 2; a group when it has children, may occur, and either may occur twice or occurs once around a lone child group that is not single |
| Particles.IsMissing | xmlschema/validators/particles.py:97-99 | through the group override of emptiable, a positive count is missing exactly when below minOccurs |
| Particles.EmptySingleMultiplePartition | xmlschema/validators/particles.py:85-87 | every particle is exactly one of empty, single, multiple |
| Particles.OptionalLeavesMakeEmptiable | xmlschema/validators/particles.py:198-202 | a tree whose leaves are all optional is emptiable |
| Particles.RequiredEverywhereNotEmptiable | xmlschema/validators/particles.py:198-202 | a tree of required particles and non-empty groups is not emptiable |
| Particles.IsPointless | xmlschema/validators/particles.py:215-240 | pointless exactly when childless, or (1,1) with one child, or (1,1) and `all` or of the parent's kind |
| Particles.HasOccursRestriction | xmlschema/validators/particles.py:290-294 | a childless group restricts anything; leaf, and group against group, use the occurrence rule |
| Particles.GroupRestrictsLeaf | xmlschema/validators/particles.py:296-330 | a non-empty group restricts a leaf range exactly when its range folded over the children passes the occurrence rule |
| Particles.GroupAgainstLeafUsesFoldedRange | xmlschema/validators/particles.py:296-330 | a group restricts a leaf exactly when its folded range passes the occurrence rule against the leaf |
| Particles.GroupAgainstLeafIsInclusion | xmlschema/validators/particles.py:296-330 | hence, for a well-formed folded range, exactly when every count it admits the leaf admits |
| Particles.ParticleRestrictionReflexive | xmlschema/validators/particles.py:290-294 | every particle restricts itself |
| Traversal.IterModel | xmlschema/validators/particles.py:332-347 | over the corrected traversal that keeps the effective parent (`:227`): yields smaller particles, no group pointless in the traversed group, and fails only on depth |
| Traversal.Expand | xmlschema/validators/particles.py:341-347 | the depth guard, then children with no yielded group pointless in the effective parent |
| Traversal.Flatten | xmlschema/validators/particles.py:343-347 | the child loop yields no group pointless in the effective parent |
| Traversal.FlattenStep | xmlschema/validators/particles.py:343-347 | a successful traversal is that of the first child, looked through when pointless, followed by that of the rest |
| Traversal.ExpandKeepsLeaves | xmlschema/validators/particles.py:343-347 | expanding a group keeps its leaves in document order |
| Traversal.FlattenKeepsLeaves | xmlschema/validators/particles.py:343-347 | the child loop keeps the leaves in document order |
| Traversal.IterModelKeepsLeaves | xmlschema/validators/particles.py:332-347 | the traversal keeps the group's leaves in document order |
| Traversal.ExpandKeepsLiveLeaves | xmlschema/validators/particles.py:343-347 | expansion keeps the leaves that can occur |
| Traversal.FlattenKeepsLiveLeaves | xmlschema/validators/particles.py:343-347 | the child loop keeps the leaves that can occur |
| Traversal.ExpandFailsIffTooDeep | xmlschema/validators/particles.py:341-345 | fails exactly when the chain of pointless groups reaches past the limit |
| Traversal.FlattenFailsIffTooDeep | xmlschema/validators/particles.py:341-345 | the same, for the child loop |
| Traversal.IterModelFailsIffTooDeep | xmlschema/validators/particles.py:341-345 | `iter_model` raises the depth error exactly when depth plus pointless nesting exceeds the limit |
| Traversal.FlattenWithoutPointless | xmlschema/validators/particles.py:343-347 | without pointless children the traversal yields the children unchanged |
| Traversal.PointlessSequenceIsLookedThrough | xmlschema/validators/particles.py:344-345 | a one-child sequence in a sequence is replaced by its child |
| Traversal.IterElements | xmlschema/validators/particles.py:349-363 | yields exactly the leaves that can occur, in document order, failing only on depth |
| Traversal.ElementsOf | xmlschema/validators/particles.py:359-363 | the child loop yields exactly the live leaves of the children |
| Traversal.IterElementsFailsIffTooDeep | xmlschema/validators/particles.py:356-361 | fails exactly when depth plus group nesting (not below a max-0 group) exceeds the limit |
| Traversal.ElementsOfFailsIffTooDeep | xmlschema/validators/particles.py:356-361 | the same, for the child loop |
| Traversal.EmptyGroupHasNoElements | xmlschema/validators/particles.py:358-363 | a group of maximum 0 or without children yields nothing |
| Traversal.NestingBombDetected | xmlschema/validators/particles.py:341-342 | a chain one deeper than the limit is refused by both traversals; one at the limit is traversed |
| Effective.EffectiveMinOccurs | xmlschema/validators/particles.py:242-252 | over the corrected traversal (`:227`): 0 or the group's own minOccurs; a leaf's minOccurs; failure only on depth |
| Effective.AnyMinZero | xmlschema/validators/particles.py:246-248 | true exactly when some yielded item has effective minimum 0 |
| Effective.AllMinZero | xmlschema/validators/particles.py:249-251 | true exactly when every yielded item has effective minimum 0 |
| Effective.EffectiveMinZeroIffEmptiable | xmlschema/validators/particles.py:242-252 | in a well-formed model, effective minimum 0 exactly when the particle is emptiable |
| Effective.AnyMinZeroIffSomeEmptiable | xmlschema/validators/particles.py:246-248 | in a well-formed list, some item has effective minimum 0 exactly when some item is emptiable |
| Effective.AllMinZeroIffEveryEmptiable | xmlschema/validators/particles.py:249-251 | in a well-formed list, every item has effective minimum 0 exactly when every item is emptiable |
| Effective.PointlessGroupSkippedLikeChildren | xmlschema/validators/particles.py:343-345 | a pointless well-formed group is emptiable exactly when its children are, read as alternatives under a choice and as parts otherwise |
| Effective.FlattenKeepsEmptiability | xmlschema/validators/particles.py:343-347 | in a well-formed model, expansion neither adds nor removes a way to skip the group |
| Effective.EffectiveMaxOccurs | xmlschema/validators/particles.py:254-288 | over the corrected traversal (`:227`): a leaf's maxOccurs; 0 for a max-0 or childless group; an unbounded group stays unbounded unless nothing can occur; otherwise 0 or at least the own maximum |
| Effective.GroupMax | xmlschema/validators/particles.py:262-288 | 0 exactly when every yielded item has effective maximum 0, otherwise bounded below by the group maximum |
| Effective.KeptLargest | xmlschema/validators/particles.py:262-273 | dropping the items of maximum 0 changes neither the greatest maximum nor whether one is unbounded |
| Effective.KeptCovers | xmlschema/validators/particles.py:262-263 | the kept maxima come from the input, and every maximum that is not 0 is kept |
| Effective.ItemFromRequired | xmlschema/validators/particles.py:275 | every required entry is the maximum of an item that can occur and must occur |
| Effective.RequiredFromItem | xmlschema/validators/particles.py:275 | every item that can and must occur gives a required entry, at a place of its own |
| Effective.ChoiceGroupMax | xmlschema/validators/particles.py:266-273 | a bounded choice of maximum `m` is unbounded exactly when some item is, and otherwise may occur `m` times its greatest item maximum |
| Effective.NoneRequiredGroupMax | xmlschema/validators/particles.py:275-282 | a bounded sequence or all with no item that must occur behaves like a choice |
| Effective.OneRequiredGroupMax | xmlschema/validators/particles.py:275-288 | with exactly one item that must occur, `m` times that item's maximum |
| Effective.TwoRequiredGroupMax | xmlschema/validators/particles.py:275-285 | with two or more items that must occur, the group's own maximum |
| Effective.EmptyAltDisagrees | xmlschema/validators/particles.py:198-202 | a choice between an element and an empty sequence is emptiable, yet its effective minimum is 1: the empty sequence is dropped as pointless (`:229-230`) |
| Effective.MaxesOf | xmlschema/validators/particles.py:262 | the effective maxima of all yielded items, in order |
| Effective.MinsOf | xmlschema/validators/particles.py:275 | the effective minima of all contributing items, in order |
| Effective.KeepOccurring | xmlschema/validators/particles.py:262-263 | keeps pairs, none of maximum 0, and nothing exactly when every maximum is 0 |
| Effective.KeepOccurringKeeps | xmlschema/validators/particles.py:262-263 | the kept items and maxima are exactly those at the positions whose maximum is not 0, in order |
| Effective.Required | xmlschema/validators/particles.py:275 | keeps only maxima that occur in the input |
| Effective.RequiredKeeps | xmlschema/validators/particles.py:275 | the kept maxima are exactly those at the positions whose effective minimum is not 0, in order |
| Effective.Positions | xmlschema/validators/particles.py:262-263 | the positions a filtering comprehension keeps: as many as the true entries, each true, the `j`-th true entry listed `j`-th |
| Effective.PositionsComplete | xmlschema/validators/particles.py:262-263 | every true entry is listed, at the place given by its rank |
| Effective.PositionsIncreasing | xmlschema/validators/particles.py:262-263 | the listed positions increase, so document order is kept |
| Effective.Largest | xmlschema/validators/particles.py:268-271 | unbounded exactly when some value is; otherwise the greatest value |
| Effective.Scale | xmlschema/validators/particles.py:273 | unbounded exactly when the value is; otherwise at least each positive factor |
| Effective.EffectiveMaxZeroIffNoLeafOccurs | xmlschema/validators/particles.py:254-264 | effective maximum 0 exactly when no leaf that can occur has a nonzero maximum |
| Effective.UnboundedGroupEffectiveMax | xmlschema/validators/particles.py:262-266 | an unbounded group is unbounded in effect exactly when some leaf that can occur may occur at least once |
| Effective.MaxesOfLeaves | xmlschema/validators/particles.py:262 | the effective maxima of leaves are their declared maxima |
| Effective.MinsOfLeaves | xmlschema/validators/particles.py:275 | the effective minima of leaves are their declared minima |
| Effective.LeafGroupItems | xmlschema/validators/particles.py:332-347 | a group of leaves yields its own children |
| Effective.LeafGroupMaxes | xmlschema/validators/particles.py:262 | whose effective maxima are the leaves' declared maxima |
| Effective.ChoiceExampleMin | xmlschema/validators/particles.py:242-252 | choice of an optional and a required element: effective minimum 0 |
| Effective.SmallChoiceGroupMax | xmlschema/validators/particles.py:266-273 | that choice once, with alternatives of maximum 1: maximum 1 |
| Effective.ChoiceExampleMax | xmlschema/validators/particles.py:254-273 | the same choice: effective maximum 1 |
| Effective.RequiredPairGroupMax | xmlschema/validators/particles.py:275-285 | a sequence once, with two required items: maximum 1 |
| Effective.SequenceOfRequiredExample | xmlschema/validators/particles.py:284-285 | two required elements: effective maximum is the group's own |
| Effective.TwiceOptionalGroupMax | xmlschema/validators/particles.py:275-282 | a sequence twice, with no required item of maximum 5: maximum 10 |
| Effective.ScaledSequenceExample | xmlschema/validators/particles.py:276-282 | twice an optional element of maximum 5: effective maximum 10 |
| Subgroups.SearchChildren | xmlschema/validators/particles.py:372-393 | a found path is a chain of groups down to the item, within the depth limit |
| Subgroups.GetSubgroups | xmlschema/validators/particles.py:365-393 | the chain starts at the model, each group a child of the previous, the last holding the item; at most MaxModelDepth + 2 long |
| Subgroups.SearchBounded | xmlschema/validators/particles.py:372-393 | within the limit the search finds exactly the descendants |
| Subgroups.SearchAbsent | xmlschema/validators/particles.py:372-393 | for an absent item, the depth error occurs exactly when nesting exceeds the limit |
| Subgroups.SubgroupsFoundIffContained | xmlschema/validators/particles.py:365-393 | within the limit, success exactly for particles of the model, else the membership error |
| Subgroups.SubgroupsOfAbsentItem | xmlschema/validators/particles.py:365-393 | an absent item fails, with the depth error exactly when the model is nested too deeply |
| Subgroups.MinProductZero | xmlschema/validators/particles.py:399-402 | the product of the chain minima is 0 exactly when some group on the chain is optional |
| Subgroups.OverallMinZeroIff | xmlschema/validators/particles.py:395-404 | overall minimum 0 exactly when the item, or a group on its path, is optional or a choice with alternatives |
| Subgroups.ScaleMinAlong | xmlschema/validators/particles.py:397-404 | the loop over the path gives the overall minimum: 0 at a choice with alternatives, else the product of the minima |
| Subgroups.OverallMinOccurs | xmlschema/validators/particles.py:395-404 | the loop computes 0 on a choice with alternatives, else the item minimum times every chain minimum |
| Subgroups.ScaleMaxAsWritten | xmlschema/validators/particles.py:406-420 | the loop as written: 0 stays 0, unbounded stays unbounded whatever follows |
| Subgroups.ScaleMaxAsWrittenBounded | xmlschema/validators/particles.py:406-420 | on a bounded path the loop as written gives the start value times every group maximum, as the corrected loop does |
| Subgroups.ScaleMaxAsWrittenStops | xmlschema/validators/particles.py:406-420 | from a nonzero bound, the loop as written ends unbounded exactly when an unbounded group comes before every group of maximum 0, and at 0 exactly when the reverse holds |
| Subgroups.FirstSplit | xmlschema/validators/particles.py:410-420 | which of an unbounded group and a group of maximum 0 comes first, taken apart at the first group of the path |
| Subgroups.OverallMaxAsWritten | xmlschema/validators/particles.py:406-420 | as written: an unbounded item is unbounded overall, an item of maximum 0 is 0; otherwise whichever of an unbounded group and a group of maximum 0 comes first on the path decides; on a bounded path, the product, equal to the corrected result |
| Subgroups.ScaleMax | xmlschema/validators/particles.py:406-420 | corrected: 0 exactly when a factor is 0; else unbounded exactly when a factor is; else the product |
| Subgroups.OverallMaxOccurs | xmlschema/validators/particles.py:406-420 | corrected overall maximum: 0, unbounded or the product, by the rule above |
| Subgroups.OverallMaxBarredGroup | xmlschema/validators/particles.py:406-420 | an unbounded element inside a max-0 group: unbounded as written, 0 corrected, and never yielded as an element |
| Subgroups.OverallMinExample | xmlschema/validators/particles.py:395-404 | a required element in sequences of minimum 3 and 2 must occur 6 times |
| Findings.IterModelAsWritten | xmlschema/validators/particles.py:332-347 | `iter_model` as written yields smaller particles and fails only on depth |
| Findings.FlattenAsWritten | xmlschema/validators/particles.py:343-347 | the child loop as written, judging against the holding group |
| Findings.IterModelAsWrittenKeepsLeaves | xmlschema/validators/particles.py:332-347 | as written, the traversal still keeps the group's leaves in document order |
| Findings.FlattenAsWrittenKeepsLeaves | xmlschema/validators/particles.py:343-347 | the same, for the child loop as written |
| Findings.IterModelAsWrittenAgrees | xmlschema/validators/particles.py:332-347 | when every group of the model has the same kind, the traversal as written equals the corrected one |
| Findings.FlattenAsWrittenAgrees | xmlschema/validators/particles.py:343-347 | the same, for the child loop |
| Findings.IterModelLosesEffectiveParent | xmlschema/validators/particles.py:343-345 | as written, a choice whose only alternative wraps the sequence `(a?, b)` yields `a` and `b` |
| Findings.EffectiveMinOfInnerSequence | xmlschema/validators/particles.py:249-252 | the sequence `(a?, b)` has effective minimum 1 |
| Findings.AnyMinZeroOfRequired | xmlschema/validators/particles.py:246-248 | a single required alternative does not make a choice skippable |
| Findings.AsWrittenChoiceLooksSkippable | xmlschema/validators/particles.py:246-248 | over those items `any(not e.effective_min_occurs ...)` holds, so the answer would be 0, yet the choice is not emptiable |
| Findings.IterModelKeepsEffectiveParent | xmlschema/validators/particles.py:227 | with the effective parent kept, the same choice yields the sequence `(a?, b)` |
| Findings.EffectiveMinOfWrappedChoice | xmlschema/validators/particles.py:242-252 | and its effective minimum is 1 |
| Findings.PyMax | xmlschema/validators/particles.py:269 | Python `max`: raises exactly for two or more values including an unbounded one |
| Findings.ScaledLargestAsWritten | xmlschema/validators/particles.py:268-273 | as written, raises exactly for a single unbounded value |
| Findings.ScaledLargestAsWrittenAgrees | xmlschema/validators/particles.py:268-282 | otherwise the code as written agrees with the corrected scaling |
| Findings.SingleUnboundedAlternative | xmlschema/validators/particles.py:254-273 | a choice of one unbounded element: the code raises; the corrected effective maximum is unbounded |

## Left out

- String-to-integer decoding of the attributes, and `Element` access, in `_parse_particle` (`particles.py:128-149`). The model starts from decoded values. The "not an integer" messages are therefore not modelled.
- `is_overlap` and `is_matching`: they are abstract here, implemented by element and wildcard classes that are not part of this model.
- The `MutableSequence` methods (`__getitem__`, `__setitem__`, `__delitem__`, `insert`, `clear`, `__repr__`). They delegate to a list; children are an immutable sequence.
- The exception classes and the message payloads. Only the kind of failure is kept, not which group raised it.
- Generator laziness. One consequence: a depth error that Python would never reach, because `any()` / `all()` had already decided, is not modelled. The short-circuit over the items' own effective minima is modelled.
- The `except TypeError` branches at `particles.py:312-315` and `:325-328`. They are unreachable after the check at `:297`.
- Python's recursion limit and the `limits` module. The depth limit is the constant `MaxModelDepth`.
- The explicit stack of `get_subgroups` is modelled by recursion with the stacked-group count as a parameter. The depth test (entering a group while more than `MaxModelDepth` groups are stacked) and the document-order search are the same.
- Subgroups.GetSubgroups: does not state which occurrence is found when the same particle appears twice in a model; ids make that impossible in a model built from distinct objects.
- Effective.GroupMax: its own contract states the zero case and the lower bound only. The per-branch values are stated by ChoiceGroupMax, NoneRequiredGroupMax, OneRequiredGroupMax and TwoRequiredGroupMax; the unbounded-group branch by UnboundedGroupEffectiveMax.
- Effective.EffectiveMaxOccurs: its own contract states the leaf case, the zero cases and the bounds. The per-branch values are stated on GroupMax, which it applies to the traversal's items and their effective maxima.
- Effective.EffectiveMinZeroIffEmptiable: holds only for models without empty groups (`WellFormed`). With an empty group as an alternative the two disagree (EmptyAltDisagrees).
- Effective.KeepOccurring: its own contract gives lengths and the all-zero case; which pairs are kept is stated by KeepOccurringKeeps.
- Effective.Required: its own contract gives membership only; which maxima are kept is stated by RequiredKeeps.
- Subgroups.ScaleMaxAsWritten: its own contract gives the 0 and unbounded starts. The bounded product and the first-stop rule are stated by ScaleMaxAsWrittenBounded and ScaleMaxAsWrittenStops.
- Findings.IterModelAsWritten: its own contract gives sizes and the depth failure. The leaves it keeps, and when it agrees with the corrected traversal, are stated by IterModelAsWrittenKeepsLeaves and IterModelAsWrittenAgrees.
- Findings.FlattenAsWritten: likewise, through FlattenAsWrittenKeepsLeaves and FlattenAsWrittenAgrees.

## Findings

| source | as written | input that shows it | evidently intended | confidence | as-written member | corrected member |
|---|---|---|---|---|---|---|
| xmlschema/validators/particles.py:343-345 | a pointless child group is expanded through its own `iter_model`, so deeper groups are judged against the child group rather than the effective parent (the `parent` parameter is documented as the effective parent, `:227`) | a `choice` (1,1) whose only child is a `sequence` (1,1) wrapping the `sequence` (a minOccurs 0, b) | the choice yields the inner sequence, giving `effective_min_occurs` 1; as written it yields `a`, `b` and answers 0, though the choice is not emptiable | medium, not executed | Findings.IterModelAsWritten | Traversal.IterModel |
| xmlschema/validators/particles.py:268-282 | with a single effective item whose effective maximum is unbounded, `max` returns `None` without comparing, and `self.max_occurs * None` raises `TypeError` outside the `try` | a `choice` (1,1) of one element with maxOccurs unbounded | unbounded, as for two or more items of which one is unbounded | high, not executed | Findings.ScaledLargestAsWritten | Effective.GroupMax |
| xmlschema/validators/particles.py:406-420 | an unbounded running value skips every later group, so a group of maxOccurs 0 nearer the item does not bring the result to 0 | a `sequence` holding a `sequence` of maxOccurs 0 that holds an element of maxOccurs unbounded | 0, as when the 0 comes first: the element cannot occur | medium, not executed | Subgroups.ScaleMaxAsWritten | Subgroups.ScaleMax |
