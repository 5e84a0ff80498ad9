/**
 * What the stamp operations promise: fork copies the history and divides the
 * identity, peek only observes, inflate moves strictly forward by touching
 * only owned positions, and join is the least upper bound of the histories.
 */
module StampProperties {
  import opened Results
  import Ids
  import Events
  import opened EventSemantics
  import opened Stamps
  import opened FillGrow

  /** The seed is (1, 0); inflating it gives (1, 1). */
  lemma SeedInflatesToOne()
    ensures Seed() == Stamp(Ids.One, Events.Leaf(0)) && WellFormed(Seed())
    ensures Inflate(Seed()) == Ok(Stamp(Ids.One, Events.Leaf(1)))
  {
  }

  /** On a normalized identity, 0 is the only one that owns no position. */
  lemma NotAnonymousOwnsSomething(s: Stamp)
    requires Ids.Normalized(s.i) && !IsAnonymous(s)
    ensures exists p :: Ids.Owns(s.i, p)
  {
    Ids.OwnsSomething(s.i);
  }

  /** Each fork is ordered both ways with the original: forking records no event. */
  lemma ForkCopiesHistory(s: Stamp)
    ensures Leq(s, Fork(s).0) && Leq(s, Fork(s).1)
    ensures Leq(Fork(s).0, s) && Leq(Fork(s).1, s)
  {
    LeqReflexive(s.e);
  }

  /** Forking a well-formed stamp gives well-formed stamps, neither anonymous unless the original was. */
  lemma ForkWellFormed(s: Stamp)
    requires WellFormed(s)
    ensures WellFormed(Fork(s).0) && WellFormed(Fork(s).1)
    ensures !IsAnonymous(s) ==> !IsAnonymous(Fork(s).0) && !IsAnonymous(Fork(s).1)
  {
    Ids.SplitNormalized(s.i);
  }

  /** Joining the two forks of a well-formed stamp gives the stamp back. */
  lemma ForkJoinRoundTrip(s: Stamp)
    requires WellFormed(s)
    ensures Join(Fork(s).0, Fork(s).1) == Ok(s)
  {
    Ids.SplitSumRoundTrip(s.i);
    JoinIdempotent(s.e);
  }

  /** A peek is ordered against any stamp exactly as the original is. */
  lemma PeekObserves(s: Stamp, x: Stamp)
    ensures Leq(Peek(s), x) <==> Leq(s, x)
    ensures Leq(x, Peek(s)) <==> Leq(x, s)
    ensures WellFormed(s) ==> WellFormed(Peek(s))
  {
  }

  /** An anonymous stamp cannot be inflated: Fill is idle and Grow finds no branch. */
  lemma InflateAnonymousFails(s: Stamp)
    requires IsAnonymous(s)
    ensures Inflate(s).Fail?
  {
  }

  /** A well-formed stamp that owns something can always be inflated. */
  lemma InflateSucceeds(s: Stamp)
    requires WellFormed(s) && !IsAnonymous(s)
    ensures Inflate(s).Ok?
  {
    if Fill(s.i, s.e) == s.e {
      GrowSucceedsWhenFillIdle(s.i, s.e);
    }
  }

  /** Inflating a well-formed stamp gives a well-formed stamp. */
  lemma InflateWellFormed(s: Stamp)
    requires WellFormed(s) && Inflate(s).Ok?
    ensures WellFormed(Inflate(s).value)
  {
    if Fill(s.i, s.e) != s.e {
      FillNormalized(s.i, s.e);
    } else {
      GrowNormalized(s.i, s.e);
    }
  }

  /** Inflate moves strictly forward in the happened-before order. */
  lemma InflateAdvances(s: Stamp)
    requires Events.Normalized(s.e) && Inflate(s).Ok?
    ensures Leq(s, Inflate(s).value) && !Leq(Inflate(s).value, s)
    ensures Inflate(s).value != s
  {
    var e := s.e;
    var f := Fill(s.i, e);
    NormalizedIsTight(e);
    if e != f {
      FillNormalized(s.i, e);
      NormalizedIsTight(f);
      forall p ensures Val(e, p) <= Val(f, p) { FillDominates(s.i, e, p); }
      LeqComplete(e, f);
      LeqAntisymmetric(e, f);
    } else {
      var g := Grow(s.i, e).value.0;
      GrowLeq(s.i, e, 0);
      LiftZero(e);
      LiftZero(g);
      var p := GrowWitness(s.i, e);
      LeqSound(g, e, p);
    }
  }

  /** Without the normal form Inflate may not advance: Fill only rewrites (1, 0, 0) as 1. */
  lemma InflateMayStallUnnormalized()
    ensures var s := Stamp(Ids.Node(Ids.Zero, Ids.Node(Ids.One, Ids.Zero)), Events.Node(1, Events.Leaf(0), Events.Leaf(0)));
      && Inflate(s) == Ok(Stamp(s.i, Events.Leaf(1)))
      && Leq(Inflate(s).value, s) && Inflate(s).value != s
  {
    var z := Events.Leaf(0);
    var s := Stamp(Ids.Node(Ids.Zero, Ids.Node(Ids.One, Ids.Zero)), Events.Node(1, z, z));
    assert Fill(Ids.Zero, z) == z;
    assert Fill(Ids.Node(Ids.One, Ids.Zero), z) == z;
    assert Fill(s.i, s.e) == Events.Normalize(Events.Node(1, z, z)) == Events.Leaf(1);
    LeqReflexive(s.e);
  }

  /** Inflate changes no count at a position the stamp does not own. */
  lemma InflateTouchesOnlyOwned(s: Stamp, p: seq<bool>)
    requires Inflate(s).Ok? && !Ids.Owns(s.i, p)
    ensures Val(Inflate(s).value.e, p) == Val(s.e, p)
  {
    if Fill(s.i, s.e) != s.e {
      FillKeepsUnowned(s.i, s.e, p);
    } else {
      GrowCounts(s.i, s.e, p);
    }
  }

  /** On normalized identities, Join succeeds exactly when the identities are disjoint. */
  lemma JoinDefinedIffDisjoint(s: Stamp, t: Stamp)
    requires Ids.Normalized(s.i) && Ids.Normalized(t.i)
    ensures Join(s, t).Ok? <==> Ids.Disjoint(s.i, t.i)
  {
    Ids.SumDefinedIffDisjoint(s.i, t.i);
  }

  /** Without the normal form the join need not be above its arguments. */
  lemma JoinMayFallBelowUnnormalized()
    ensures var s := Stamp(Ids.Zero, Events.Node(5, Events.Leaf(-5), Events.Leaf(0)));
      && Join(s, s) == Ok(Stamp(Ids.Zero, Events.Node(0, Events.Leaf(0), Events.Leaf(5))))
      && !Leq(s, Join(s, s).value)
  {
    var a := Events.Node(5, Events.Leaf(-5), Events.Leaf(0));
    assert Events.Join(a, a) == Events.Normalize(Events.Node(5, Events.Join(Events.Leaf(-5), Events.Leaf(-5)), Events.Join(Events.Leaf(0), Events.Leaf(0))));
  }

  /** The joined stamp is above both arguments and below every common upper bound. */
  lemma JoinIsLeastUpperBound(s: Stamp, t: Stamp, u: Stamp)
    requires Events.Normalized(s.e) && Events.Normalized(t.e) && Events.Normalized(u.e)
    requires Join(s, t).Ok?
    ensures Leq(s, Join(s, t).value) && Leq(t, Join(s, t).value)
    ensures Leq(s, u) && Leq(t, u) ==> Leq(Join(s, t).value, u)
  {
    EventSemantics.JoinIsLeastUpperBound(s.e, t.e, u.e);
  }

  /** Joining well-formed stamps gives a well-formed stamp. */
  lemma JoinWellFormed(s: Stamp, t: Stamp)
    requires WellFormed(s) && WellFormed(t) && Join(s, t).Ok?
    ensures WellFormed(Join(s, t).value)
  {
    Ids.SumNormalized(s.i, t.i);
    JoinNormalized(s.e, t.e);
  }

  /** Join does not depend on the order of its arguments. */
  lemma JoinCommutes(s: Stamp, t: Stamp)
    ensures Join(s, t) == Join(t, s)
  {
    Ids.SumCommutes(s.i, t.i);
    EventSemantics.JoinCommutes(s.e, t.e);
  }

  /** A well-formed stamp joins with itself only when anonymous, and then gives itself back. */
  lemma JoinSelf(s: Stamp)
    requires WellFormed(s)
    ensures Join(s, s).Ok? <==> IsAnonymous(s)
    ensures IsAnonymous(s) ==> Join(s, s) == Ok(s)
  {
    if IsAnonymous(s) {
      JoinIdempotent(s.e);
    } else {
      Ids.SumSelfFails(s.i);
    }
  }

  /** The order ignores identities. */
  lemma LeqIgnoresIdentity(s: Stamp, t: Stamp, i: Ids.Id, j: Ids.Id)
    ensures Leq(s, t) == Leq(Stamp(i, s.e), Stamp(j, t.e))
  {
  }

  /** The order on stamps is reflexive and transitive. */
  lemma LeqPreorder(s: Stamp, t: Stamp, u: Stamp)
    ensures Leq(s, s)
    ensures Leq(s, t) && Leq(t, u) ==> Leq(s, u)
  {
    LeqReflexive(s.e);
    if Leq(s, t) && Leq(t, u) {
      LeqTransitive(s.e, t.e, u.e);
    }
  }

  /** Fork the seed and inflate the left half: the right half is behind it. */
  lemma ForkInflateScenario()
    ensures Fork(Seed()) == (Stamp(Ids.Node(Ids.One, Ids.Zero), Events.Leaf(0)),
                             Stamp(Ids.Node(Ids.Zero, Ids.One), Events.Leaf(0)))
    ensures Inflate(Fork(Seed()).0)
      == Ok(Stamp(Ids.Node(Ids.One, Ids.Zero), Events.Node(0, Events.Leaf(1), Events.Leaf(0))))
    ensures Leq(Fork(Seed()).1, Inflate(Fork(Seed()).0).value)
    ensures !Leq(Inflate(Fork(Seed()).0).value, Fork(Seed()).1)
  {
    LeftHalfGrowsBySplit();
    HistoryAboveInitial();
    HistoryNotBelowInitial();
  }

  /** Growing the initial history under (1, 0) splits the leaf and pays the split penalty. */
  lemma LeftHalfGrowsBySplit()
    ensures Grow(Ids.Node(Ids.One, Ids.Zero), Events.Leaf(0))
      == Ok((Events.Node(0, Events.Leaf(1), Events.Leaf(0)), 1 + SplitPenalty))
  {
    var z := Events.Leaf(0);
    assert Grow(Ids.One, z) == Ok((Events.Leaf(1), 0));
    assert Grow(Ids.Node(Ids.One, Ids.Zero), Events.Node(0, z, z)) == Ok((Events.Node(0, Events.Leaf(1), z), 1));
  }

  /** The history (0, 1, 0) is not below the initial history. */
  lemma HistoryNotBelowInitial()
    ensures !Events.Leq(Events.Node(0, Events.Leaf(1), Events.Leaf(0)), Events.Leaf(0))
  {}

  /** The two halves of the seed's identity sum back to the whole. */
  lemma HalvesSumToOne()
    ensures Ids.Sum(Ids.Node(Ids.One, Ids.Zero), Ids.Node(Ids.Zero, Ids.One)) == Ok(Ids.One)
  {}

  /** The history (0, 1, 0) absorbs the initial history under join. */
  lemma HistoryAbsorbsInitial()
    ensures Events.Join(Events.Node(0, Events.Leaf(1), Events.Leaf(0)), Events.Leaf(0))
         == Events.Node(0, Events.Leaf(1), Events.Leaf(0))
  {}

  /** The history (0, 1, 0) lies above the initial history. */
  lemma HistoryAboveInitial()
    ensures Events.Leq(Events.Leaf(0), Events.Node(0, Events.Leaf(1), Events.Leaf(0)))
  {}

  /**
   * Joining the inflated left half with the right half gives the seed's
   * identity and a history above both.  a and b are the two stamps of
   * ForkInflateScenario: Inflate(Fork(Seed()).0).value and Fork(Seed()).1.
   */
  lemma InflateJoinScenario(a: Stamp, b: Stamp)
    requires a == Stamp(Ids.Node(Ids.One, Ids.Zero), Events.Node(0, Events.Leaf(1), Events.Leaf(0)))
    requires b == Stamp(Ids.Node(Ids.Zero, Ids.One), Events.Leaf(0))
    ensures Join(a, b) == Ok(Stamp(Ids.One, a.e))
    ensures Leq(a, Join(a, b).value) && Leq(b, Join(a, b).value)
  {
    HalvesSumToOne();
    HistoryAbsorbsInitial();
    HistoryAboveInitial();
    LeqReflexive(a.e);
  }

  /** A peek at an inflated seed is anonymous, cannot be inflated, and is ordered both ways with it. */
  lemma PeekScenario()
    ensures var x := Inflate(Seed()).value;
      && IsAnonymous(Peek(x)) && Inflate(Peek(x)).Fail?
      && Leq(Peek(x), x) && Leq(x, Peek(x))
  {
    SeedInflatesToOne();
    InflateAnonymousFails(Peek(Stamp(Ids.One, Events.Leaf(1))));
  }
}
