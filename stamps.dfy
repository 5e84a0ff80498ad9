/**
 * The stamp of an Interval Tree Clock: one actor's identity paired with its
 * event history, and the actor-facing operations on it.  Every operation
 * builds a new stamp; nothing is updated in place.
 */
module Stamps {
  import opened Results
  import Ids
  import Events
  import EventSemantics

  datatype Stamp = Stamp(i: Ids.Id, e: Events.Event)

  /** The seed: sole owner of the whole identity space, no events yet. */
  function Seed(): (s: Stamp)
    ensures WellFormed(s) && !IsAnonymous(s)
    ensures forall p :: Ids.Owns(s.i, p)
    ensures forall p :: EventSemantics.Val(s.e, p) == 0
  {
    Stamp(Ids.One, Events.Leaf(0))
  }

  /** Both trees in normal form: what the seed and every operation of the algebra produce. */
  predicate WellFormed(s: Stamp) {
    Ids.Normalized(s.i) && Events.Normalized(s.e)
  }

  /** A stamp that owns nothing: it may observe and merge but not inflate. */
  function IsAnonymous(s: Stamp): (b: bool)
    ensures b ==> forall p :: !Ids.Owns(s.i, p)
  {
    s.i == Ids.Zero
  }

  /**
   * Happened-before-or-equal, decided by the event trees alone: it never
   * holds unless every count of s is at most t's, and on tight histories
   * (normalized ones among them) that is also enough.
   */
  function Leq(s: Stamp, t: Stamp): (b: bool)
    ensures b ==> EventSemantics.Dominates(s.e, t.e)
    ensures Events.Tight(s.e) && Events.Tight(t.e) && EventSemantics.Dominates(s.e, t.e) ==> b
  {
    EventSemantics.LeqIffDominates(s.e, t.e);
    Events.Leq(s.e, t.e)
  }

  /** Equality of both components, which is equality of stamps. */
  function Equals(s: Stamp, t: Stamp): (b: bool)
    ensures b <==> s == t
  {
    s.i == t.i && s.e == t.e
  }

  /**
   * Two stamps with the same history whose identities divide the original's:
   * no position is owned by both, and together they own what it owned.
   */
  function Fork(s: Stamp): (r: (Stamp, Stamp))
    ensures r.0.e == s.e && r.1.e == s.e
    ensures Ids.Disjoint(r.0.i, r.1.i)
    ensures forall p :: Ids.Owns(s.i, p) == (Ids.Owns(r.0.i, p) || Ids.Owns(r.1.i, p))
  {
    Ids.SplitDivides(s.i);
    var (l, r) := Ids.Split(s.i);
    (Stamp(l, s.e), Stamp(r, s.e))
  }

  /** An anonymous copy of the history, ordered both ways with the original. */
  function Peek(s: Stamp): (r: Stamp)
    ensures IsAnonymous(r) && r.e == s.e
    ensures Leq(r, s) && Leq(s, r)
  {
    EventSemantics.LeqReflexive(s.e);
    Stamp(Ids.Zero, s.e)
  }

  /**
   * Raises the counts the identity owns up to what is already justified by
   * the history, without adding nodes.  The Id leaf is a bool, so the
   * source's failure for a leaf value other than 0 and 1 cannot arise.
   */
  function Fill(i: Ids.Id, e: Events.Event): (r: Events.Event)
    ensures Events.Min(e) <= Events.Min(r) && Events.Max(r) == Events.Max(e)
    ensures Events.Size(r) <= Events.Size(e)
  {
    match i
    case Leaf(bit) =>
      if bit then Events.MinBelowMax(e); Events.Leaf(Events.Max(e)) else e
    case Node(il, ir) =>
      if il == Ids.One then
        match e
        case Leaf(_) => e
        case Node(n, el, er) =>
          var er' := Fill(ir, er);
          Events.MinBelowMax(er');
          var f := Events.Node(n, Events.Leaf(Events.MaxInt(Events.Max(el), Events.Min(er'))), er');
          Events.NormalizeBounds(f);
          Events.NormalizeSize(f);
          Events.Normalize(f)
      else if ir == Ids.One then
        match e
        case Leaf(_) => e
        case Node(n, el, er) =>
          var el' := Fill(il, el);
          Events.MinBelowMax(el');
          var f := Events.Node(n, el', Events.Leaf(Events.MaxInt(Events.Max(er), Events.Min(el'))));
          Events.NormalizeBounds(f);
          Events.NormalizeSize(f);
          Events.Normalize(f)
      else
        match e
        case Leaf(_) => e
        case Node(n, el, er) =>
          var f := Events.Node(n, Fill(il, el), Fill(ir, er));
          Events.NormalizeBounds(f);
          Events.NormalizeSize(f);
          Events.Normalize(f)
  }

  /** The penalty for turning an event leaf into a node. */
  const SplitPenalty: nat := 1000

  /**
   * Adds one event at a single owned position, returning the new tree and a
   * cost: 1 per node descended, SplitPenalty per leaf that had to be split.
   * Of two candidate growths the strictly cheaper left one wins, otherwise
   * the right one.  The identity 0 grows nothing; a grown node keeps its
   * base, and the result is a leaf only when a leaf owned outright is
   * incremented.
   */
  function Grow(i: Ids.Id, e: Events.Event): (r: Result<(Events.Event, nat)>)
    ensures i == Ids.Zero ==> r.Fail?
    ensures r.Ok? ==> (r.value.0.Leaf? <==> e.Leaf? && i == Ids.One)
    ensures r.Ok? && e.Node? ==> r.value.0.n == e.n
    decreases i, if e.Leaf? then 1 else 0
  {
    match e
    case Leaf(n) =>
      if i == Ids.One then Ok((Events.Leaf(n + 1), 0))
      else
        (match Grow(i, Events.Node(n, Events.Leaf(0), Events.Leaf(0)))
         case Ok((e', c)) => Ok((e', c + SplitPenalty))
         case Fail(f) => Fail(f))
    case Node(n, el, er) =>
      match i
      case Leaf(_) => Fail(GrowExhausted)
      case Node(il, ir) =>
        if il == Ids.Zero then
          (match Grow(ir, er)
           case Ok((er', cr)) => Ok((Events.Node(n, el, er'), cr + 1))
           case Fail(f) => Fail(f))
        else if ir == Ids.Zero then
          (match Grow(il, el)
           case Ok((el', cl)) => Ok((Events.Node(n, el', er), cl + 1))
           case Fail(f) => Fail(f))
        else
          (match (Grow(il, el), Grow(ir, er))
           case (Ok((el', cl)), Ok((er', cr))) =>
             if cl < cr then Ok((Events.Node(n, el', er), cl + 1))
             else Ok((Events.Node(n, el, er'), cr + 1))
           case (Fail(f), _) => Fail(f)
           case (_, Fail(f)) => Fail(f))
  }

  /**
   * Inflate (the "event" operation): the filled tree when filling changes
   * it, otherwise the grown tree.  The identity never changes.
   */
  function Inflate(s: Stamp): (r: Result<Stamp>)
    ensures r.Ok? ==> r.value.i == s.i
  {
    var filled := Fill(s.i, s.e);
    if s.e != filled then Ok(Stamp(s.i, filled))
    else
      match Grow(s.i, s.e)
      case Ok((g, _)) => Ok(Stamp(s.i, g))
      case Fail(f) => Fail(f)
  }

  /**
   * Merge: the sum of the identities with the join of the histories.  It
   * fails exactly when the identities cannot be summed; on success the
   * identities were disjoint, the result owns their union, and every count
   * is the larger of the two.
   */
  function Join(s: Stamp, t: Stamp): (r: Result<Stamp>)
    ensures r.Ok? <==> Ids.Sum(s.i, t.i).Ok?
    ensures r.Ok? ==> Ids.Disjoint(s.i, t.i)
    ensures r.Ok? ==> forall p :: Ids.Owns(r.value.i, p) == (Ids.Owns(s.i, p) || Ids.Owns(t.i, p))
    ensures r.Ok? ==> forall p ::
      EventSemantics.Val(r.value.e, p) == Events.MaxInt(EventSemantics.Val(s.e, p), EventSemantics.Val(t.e, p))
  {
    match Ids.Sum(s.i, t.i)
    case Ok(i) =>
      Ids.SumOwnsAll(s.i, t.i);
      EventSemantics.JoinValAll(s.e, t.e);
      Ok(Stamp(i, Events.Join(s.e, t.e)))
    case Fail(f) => Fail(f)
  }
}
