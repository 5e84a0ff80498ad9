# Interval Tree Clock stamps

A Dafny model of the stamp algebra of Itc4net, a C# implementation of
Interval Tree Clocks (Almeida, Baquero and Fonte, 2008).

A stamp pairs two trees:
- an identity tree (`Ids.Id`): which parts of the unit interval the actor owns;
- an event tree (`Events.Event`): the causal history as counts per position.

The model covers the seed stamp and the operations of `Stamp`: `IsAnonymous`,
`Leq`, `Fork`, `Peek`, `Event` (here `Inflate`), `Join` and `Equals`, plus the
two recursive helpers that do the work of `Event`, namely `Fill` and `Grow`.
Every stamp operation builds a new value, so the whole model is made of
datatypes, functions and lemmas.

The `Id` and `Event` classes are not part of this model's source. They are
defined here from the Interval Tree Clock algorithm, as far as `Stamp.cs` uses
them:
- `Split` and `Sum` on identities;
- `Min`, `Max`, `Normalize`, `Join`, `Leq` and node construction on events.

The properties are stated against two meanings:
- `Ids.Owns(i, p)` says whether the identity owns the position reached by path `p`;
- `EventSemantics.Val(e, p)` is the event count at `p`.

A path is a finite `seq<bool>`, `false` meaning "left", and it is read as
continuing leftwards. The main results:
- Event `Leq` is sound for every tree and complete for tight trees, so on
  normalized histories it is exactly pointwise `<=`.
- Normalized histories are canonical.
- Event `Join` is the pointwise maximum and always yields the normal form. It
  is commutative and associative on every tree, idempotent on normalized
  trees, and the least upper bound of normalized trees.
- `Fill` never lowers a count, stays below the history's maximum, adds no
  nodes and leaves positions the stamp does not own alone.
- `Grow` increments exactly one leaf, possibly after splitting leaves on its
  way, and leaves the other child of every node it passes as it was. Each
  count rises by at most one, none where the identity owns nothing, and some
  owned count rises by exactly one. A cost of 0 means a leaf owned outright,
  and a cost below 1000 means no leaf was split.
- `Inflate` moves strictly forward and keeps the normal form. It fails exactly
  for anonymous stamps among well-formed ones.
- `Fork` followed by `Join` gives the stamp back.

Modules, one file each:

| file | module | contents |
|---|---|---|
| results.dfy | `Results` | `Result<T>` and the two failure kinds |
| ids.dfy | `Ids` | identity trees, `Split`, `Sum`, ownership |
| events.dfy | `Events` | event trees, `Normalize`, `Leq`, `Join` |
| event_semantics.dfy | `EventSemantics` | counts per position and the lemmas about `Leq`, `Join` and `Normalize` |
| stamps.dfy | `Stamps` | the stamp operations of `Stamp.cs` |
| fill_grow.dfy | `FillGrow` | lemmas about `Fill` and `Grow` |
| stamp_properties.dfy | `StampProperties` | lemmas about the stamp operations |

## Model

| member | source | states |
|---|---|---|
| Stamps.Seed | src/Itc4net/Stamp.cs:21-25 | the seed is well-formed and not anonymous, owns every position, and gives every position the count 0 |
| Stamps.IsAnonymous | src/Itc4net/Stamp.cs:36 | an anonymous stamp owns no position |
| Stamps.Leq | src/Itc4net/Stamp.cs:41-44 | if `s <= t` then every count of `s` is at most `t`'s; on tight histories the converse holds too |
| Stamps.Fork | src/Itc4net/Stamp.cs:61-68 | both forks keep the history; no position is owned by both, and together they own exactly what the original owned |
| Stamps.Peek | src/Itc4net/Stamp.cs:74-77 | the peek is anonymous, keeps the history, and is ordered both ways with the original |
| Stamps.Inflate | src/Itc4net/Stamp.cs:86-95 | a successful inflate never changes the identity |
| Stamps.Join | src/Itc4net/Stamp.cs:101-107 | join fails exactly when the identities cannot be summed; on success they were disjoint, the result owns their union, and every count is the larger of the two |
| Stamps.Equals | src/Itc4net/Stamp.cs:115-120 | `Equals` holds exactly when the two stamps are the same value |
| Stamps.Grow | src/Itc4net/Stamp.cs:152-217 | identity 0 grows nothing; a grown node keeps its base; the result is a leaf exactly when a leaf owned outright is incremented |
| Stamps.Fill | src/Itc4net/Stamp.cs:219-267 | filling never lowers the minimum of the history, never changes its maximum, and adds no nodes |
| StampProperties.SeedInflatesToOne | src/Itc4net/Stamp.cs:21-25 | the seed is (1, 0), is in normal form, and inflates to (1, 1) |
| StampProperties.NotAnonymousOwnsSomething | src/Itc4net/Stamp.cs:36 | a normalized identity that is not anonymous owns some position |
| StampProperties.ForkCopiesHistory | src/Itc4net/Stamp.cs:61-68 | each fork is ordered both ways with the original, so forking records no event |
| StampProperties.ForkWellFormed | src/Itc4net/Stamp.cs:61-68 | forking keeps normal forms, and a non-anonymous stamp forks into two non-anonymous ones |
| StampProperties.ForkJoinRoundTrip | src/Itc4net/Stamp.cs:61-68 | joining the two forks of a well-formed stamp gives the stamp back |
| StampProperties.PeekObserves | src/Itc4net/Stamp.cs:74-77 | a peek compares with any stamp, on either side, exactly as the original does, and keeps the normal form |
| StampProperties.InflateAnonymousFails | src/Itc4net/Stamp.cs:211-214 | an anonymous stamp cannot be inflated |
| StampProperties.InflateSucceeds | src/Itc4net/Stamp.cs:86-95 | a well-formed stamp that owns something can always be inflated |
| StampProperties.InflateWellFormed | src/Itc4net/Stamp.cs:86-95 | inflating a well-formed stamp gives a well-formed stamp |
| StampProperties.InflateAdvances | src/Itc4net/Stamp.cs:86-95 | the inflated stamp is strictly later: `s <= s'` and not `s' <= s` |
| StampProperties.InflateMayStallUnnormalized | src/Itc4net/Stamp.cs:86-95 | on the non-normalized history (1, 0, 0) under identity (0, (1, 0)), inflate only rewrites the tree as 1, which is ordered both ways with it |
| StampProperties.InflateTouchesOnlyOwned | src/Itc4net/Stamp.cs:86-95 | inflate changes no count at a position the stamp does not own |
| StampProperties.JoinDefinedIffDisjoint | src/Itc4net/Stamp.cs:103 | on normalized identities, join succeeds exactly when no position is owned by both stamps |
| StampProperties.JoinMayFallBelowUnnormalized | src/Itc4net/Stamp.cs:101-107 | an anonymous stamp with the non-normalized history (5, -5, 0) joins with itself into (0, 0, 5), which is not after it |
| StampProperties.JoinIsLeastUpperBound | src/Itc4net/Stamp.cs:101-107 | the join is above both stamps and below every common upper bound |
| StampProperties.JoinWellFormed | src/Itc4net/Stamp.cs:101-107 | joining well-formed stamps gives a well-formed stamp |
| StampProperties.JoinCommutes | src/Itc4net/Stamp.cs:101-107 | join does not depend on the order of its arguments, failures included, for all stamps |
| StampProperties.JoinSelf | src/Itc4net/Stamp.cs:101-107 | a well-formed stamp joins with itself exactly when it is anonymous, and then gives itself back |
| StampProperties.LeqIgnoresIdentity | src/Itc4net/Stamp.cs:41-44 | the order does not depend on either identity |
| StampProperties.LeqPreorder | src/Itc4net/Stamp.cs:41-44 | the order is reflexive and transitive |
| StampProperties.ForkInflateScenario | src/Itc4net/Stamp.cs:158-166 | forking the seed and inflating the left half splits the leaf into (0, 1, 0), which is strictly after the right half |
| StampProperties.HalvesSumToOne | src/Itc4net/Stamp.cs:103 | the identities (1, 0) and (0, 1) sum to 1 |
| StampProperties.HistoryAbsorbsInitial | src/Itc4net/Stamp.cs:104 | joining (0, 1, 0) with 0 gives (0, 1, 0) |
| StampProperties.HistoryAboveInitial | src/Itc4net/Stamp.cs:43 | 0 is before (0, 1, 0) |
| StampProperties.InflateJoinScenario | src/Itc4net/Stamp.cs:101-107 | joining the inflated left half with the right half gives identity 1 and a history above both |
| StampProperties.PeekScenario | src/Itc4net/Stamp.cs:74-77 | a peek at the inflated seed is anonymous, cannot be inflated, and is ordered both ways with it |
| Ids.SplitNormalized | src/Itc4net/Stamp.cs:63 | splitting a normalized identity gives normalized halves, neither 0 unless the identity was 0 |
| Ids.SplitOwns | src/Itc4net/Stamp.cs:63 | the halves own disjoint positions whose union is what the identity owns |
| Ids.SplitSumRoundTrip | src/Itc4net/Stamp.cs:63 | the sum of the two halves of a normalized identity is the identity |
| Ids.SumCommutes | src/Itc4net/Stamp.cs:103 | `Sum(a, b) == Sum(b, a)`, failures included |
| Ids.SumSelfFails | src/Itc4net/Stamp.cs:103 | a normalized identity other than 0 cannot be summed with itself |
| Ids.OwnedWitness | src/Itc4net/Stamp.cs:36 | a normalized identity other than 0 owns some position |
| Ids.SumOwns | src/Itc4net/Stamp.cs:103 | a successful sum comes from identities owning disjoint positions and owns exactly their union |
| Ids.SumDefinedIffDisjoint | src/Itc4net/Stamp.cs:103 | on normalized identities, `Sum` succeeds exactly when they are disjoint |
| Ids.SumNormalized | src/Itc4net/Stamp.cs:103 | the sum of normalized identities is normalized |
| EventSemantics.MinBelow | src/Itc4net/Stamp.cs:243 | `Min` is at most every count |
| EventSemantics.MinWitness | src/Itc4net/Stamp.cs:243 | some position has count `Min` |
| EventSemantics.MaxAbove | src/Itc4net/Stamp.cs:231 | every count is at most `Max` |
| EventSemantics.MaxWitness | src/Itc4net/Stamp.cs:231 | some position has count `Max` |
| EventSemantics.NormalizeVal | src/Itc4net/Stamp.cs:244 | `Normalize` changes no count |
| EventSemantics.NormalizeNormalized | src/Itc4net/Stamp.cs:244 | a node with normalized children normalizes into normal form |
| EventSemantics.Canonical | src/Itc4net/Stamp.cs:244 | two normalized trees with the same counts are equal |
| EventSemantics.LeqReflexive | src/Itc4net/Stamp.cs:43 | every history is before-or-equal to itself |
| EventSemantics.LeqSound | src/Itc4net/Stamp.cs:43 | if `Leq(a, b)` then every count of `a` is at most the count of `b` |
| EventSemantics.LeqComplete | src/Itc4net/Stamp.cs:43 | on tight trees, pointwise `<=` implies `Leq` |
| EventSemantics.LeqIffDominates | src/Itc4net/Stamp.cs:43 | `Leq` implies that every count is at most the other's; on tight trees the two are equivalent |
| EventSemantics.LeqTransitive | src/Itc4net/Stamp.cs:43 | `Leq` is transitive on every tree |
| EventSemantics.LeqAntisymmetric | src/Itc4net/Stamp.cs:43 | on normalized trees, `Leq` both ways means equal |
| EventSemantics.JoinVal | src/Itc4net/Stamp.cs:104 | the count of a join is the larger of the two counts at every position |
| EventSemantics.JoinNormalized | src/Itc4net/Stamp.cs:104 | every join is normalized, whatever its arguments |
| EventSemantics.JoinIsLeastUpperBound | src/Itc4net/Stamp.cs:104 | the join of normalized trees is above both and below every common upper bound |
| EventSemantics.JoinCommutes | src/Itc4net/Stamp.cs:104 | event join commutes on every tree |
| EventSemantics.JoinIdempotent | src/Itc4net/Stamp.cs:104 | a normalized tree joined with itself is itself |
| EventSemantics.JoinAssociative | src/Itc4net/Stamp.cs:104 | event join is associative on every tree |
| FillGrow.FillDominates | src/Itc4net/Stamp.cs:219-267 | `Fill` never lowers a count |
| FillGrow.FillBelowMax | src/Itc4net/Stamp.cs:219-267 | `Fill` never raises a count above the history's maximum |
| FillGrow.FillKeepsUnowned | src/Itc4net/Stamp.cs:219-267 | `Fill` leaves every position the identity does not own as it was |
| FillGrow.FillNormalized | src/Itc4net/Stamp.cs:219-267 | `Fill` keeps the normal form |
| FillGrow.FillRaisesOwnedHalf | src/Itc4net/Stamp.cs:238-256 | a fully owned half becomes one flat count, the larger of its own maximum and the minimum of the other half once filled |
| FillGrow.GrowLeq | src/Itc4net/Stamp.cs:152-216 | the grown history is after the original, at any base offset |
| FillGrow.GrowCounts | src/Itc4net/Stamp.cs:152-216 | each count rises by at most one, and not at all where the identity owns nothing |
| FillGrow.GrowWitness | src/Itc4net/Stamp.cs:152-216 | some owned position gains exactly one event |
| FillGrow.GrowIncrementsOneLeaf | src/Itc4net/Stamp.cs:152-217 | the grown tree is the original with exactly one leaf incremented: at each node one child grows and the other is kept, and a leaf on the way may first be split into (n, 0, 0) |
| FillGrow.GrowOneBranch | src/Itc4net/Stamp.cs:173-206 | growing a node leaves one of its children exactly as it was |
| FillGrow.GrowCost | src/Itc4net/Stamp.cs:156-209 | cost 0 exactly for a leaf owned outright; the tree never shrinks; any cost below 1000 means no leaf was split |
| FillGrow.GrowLeafSucceeds | src/Itc4net/Stamp.cs:158-166 | a normalized identity other than 0 can grow any leaf |
| FillGrow.GrowSucceedsWhenFillIdle | src/Itc4net/Stamp.cs:211-214 | when `Fill` changes nothing on a normalized stamp that owns something, `Grow` finds a branch |
| FillGrow.GrowLeafNormalized | src/Itc4net/Stamp.cs:163-166 | splitting and growing a leaf under an identity other than 0 and 1 gives a normalized node with the same minimum |
| FillGrow.GrowNormalized | src/Itc4net/Stamp.cs:152-216 | when `Fill` is idle, `Grow` keeps the normal form and the minimum, except when it increments a leaf owned outright |

## Left out

- `Parse` (Stamp.cs:269-273) is left out: it delegates to a parser class that is not part of this model.
- `ToBinary` (Stamp.cs:275-287) is left out: it writes to streams through a bit writer that is not part of this model.
- `ToString` (Stamp.cs:110-113) is left out: it depends on the text form of identities and events, which is not part of this model.
- `GetHashCode` (Stamp.cs:132-138) is left out: it is unchecked overflowing arithmetic with no behaviour to state.
- The null checks and reference-equality shortcuts (Stamp.cs:29-30, 117-118, 123-129) are left out. Dafny values are never null, and `==` on datatypes is the structural equality that `Equals` computes.
- The `(null, -1)` sentinel and the exception of `Grow` (Stamp.cs:154, 211-214) become `Fail(GrowExhausted)` in a `Result`. In the source the exception is raised by the innermost failing call. Here `Fail` is passed up unchanged, so the caller sees the same outcome.
- Sum's failure on overlapping identities is `Fail(NonDisjointIds)`. The `Id` class that raises it in the source is not part of this model.
- The `default: throw` of `Fill` (Stamp.cs:232-233) cannot arise, because an identity leaf is a `bool`.
- Event counts and costs are unbounded integers, so 32-bit overflow of C# `int` is not modelled.
- `Id` and `Event` are defined here rather than modelled from their source files, which are not part of this model.
  - `Split` of a node with two non-zero halves gives `(Node(l, 0), Node(0, r))`, as in the published algorithm. A variant of the algorithm splits the left half again, giving `(Node(l1, 0), Node(l2, r))`; it is not modelled. Both sum back to the original.
  - Event `Leq` and `Join` lift a leaf met by a node to `Node(n, 0, 0)`.
- InflateAdvances: requires a normalized history. On a non-normalized tree `Fill` can rebuild the tree without raising any count (InflateMayStallUnnormalized).
- LeqComplete: stated for tight trees only. `Leq` compares the bases first, and in a tree that is not tight a node's base can lie below all of its counts.
- StampProperties.JoinIsLeastUpperBound: requires normalized histories. On other trees the bound can fail, because `Leq` compares the bases first (JoinMayFallBelowUnnormalized). EventSemantics.JoinIsLeastUpperBound has the same requires.
- ForkJoinRoundTrip: requires a well-formed stamp. The round trip rebuilds the normal form, not the input tree.

## Notes

- `Sum` refuses overlapping identities, so `Join(s, s)` succeeds only when `s` is anonymous. JoinSelf proves that, for a well-formed `s`, `Join(s, s)` succeeds exactly when `s` is anonymous, and then gives `s`.
- Take an identity whose right half is 1 and whose left half is not 0. Growing the right history then either costs 0, when it is a leaf, or fails, when it is a node. So the left half is never chosen. As in the source, both halves are grown before the choice, and a failure of either one fails the whole `Grow`. GrowNormalized relies on this.
