/**
 * Properties of the two helpers that do the work of Inflate: Fill raises
 * only owned counts and never past the largest one already seen; Grow adds
 * exactly one event at one owned position, and never fails on a normalized
 * stamp whose Fill is idle.
 */
module FillGrow {
  import opened Results
  import Ids
  import opened Events
  import opened EventSemantics
  import opened Stamps

  /** Fill never lowers a count. */
  lemma {:induction false} FillDominates(i: Ids.Id, e: Event, p: seq<bool>)
    ensures Val(e, p) <= Val(Fill(i, e), p)
  {
    match i
    case Leaf(bit) =>
      if bit { MaxAbove(e, p); }
    case Node(il, ir) =>
      match e
      case Leaf(_) =>
      case Node(n, el, er) =>
        var left := |p| == 0 || !p[0];
        var q := if |p| == 0 then p else p[1..];
        if il == Ids.One {
          var er' := Fill(ir, er);
          NormalizeVal(Node(n, Leaf(MaxInt(Max(el), Min(er'))), er'), p);
          if left { MaxAbove(el, q); } else { FillDominates(ir, er, q); }
        } else if ir == Ids.One {
          var el' := Fill(il, el);
          NormalizeVal(Node(n, el', Leaf(MaxInt(Max(er), Min(el')))), p);
          if left { FillDominates(il, el, q); } else { MaxAbove(er, q); }
        } else {
          NormalizeVal(Node(n, Fill(il, el), Fill(ir, er)), p);
          if left { FillDominates(il, el, q); } else { FillDominates(ir, er, q); }
        }
  }

  /** Fill never raises a count above the largest count of the tree it fills. */
  lemma {:induction false} FillBelowMax(i: Ids.Id, e: Event, p: seq<bool>)
    ensures Val(Fill(i, e), p) <= Max(e)
  {
    match i
    case Leaf(bit) =>
      if !bit { MaxAbove(e, p); }
    case Node(il, ir) =>
      match e
      case Leaf(_) =>
      case Node(n, el, er) =>
        var left := |p| == 0 || !p[0];
        var q := if |p| == 0 then p else p[1..];
        if il == Ids.One {
          var er' := Fill(ir, er);
          NormalizeVal(Node(n, Leaf(MaxInt(Max(el), Min(er'))), er'), p);
          MinBelow(er', []);
          FillBelowMax(ir, er, []);
          if !left { FillBelowMax(ir, er, q); }
        } else if ir == Ids.One {
          var el' := Fill(il, el);
          NormalizeVal(Node(n, el', Leaf(MaxInt(Max(er), Min(el')))), p);
          MinBelow(el', []);
          FillBelowMax(il, el, []);
          if left { FillBelowMax(il, el, q); }
        } else {
          NormalizeVal(Node(n, Fill(il, el), Fill(ir, er)), p);
          if left { FillBelowMax(il, el, q); } else { FillBelowMax(ir, er, q); }
        }
  }

  /** Fill leaves every position the identity does not own as it was. */
  lemma {:induction false} FillKeepsUnowned(i: Ids.Id, e: Event, p: seq<bool>)
    ensures !Ids.Owns(i, p) ==> Val(Fill(i, e), p) == Val(e, p)
  {
    match i
    case Leaf(bit) =>
    case Node(il, ir) =>
      match e
      case Leaf(_) =>
      case Node(n, el, er) =>
        var left := |p| == 0 || !p[0];
        var q := if |p| == 0 then p else p[1..];
        if il == Ids.One {
          var er' := Fill(ir, er);
          NormalizeVal(Node(n, Leaf(MaxInt(Max(el), Min(er'))), er'), p);
          if left { assert Ids.Owns(i, p) == Ids.Owns(il, q); } else { FillKeepsUnowned(ir, er, q); }
        } else if ir == Ids.One {
          var el' := Fill(il, el);
          NormalizeVal(Node(n, el', Leaf(MaxInt(Max(er), Min(el')))), p);
          if left { FillKeepsUnowned(il, el, q); } else { assert Ids.Owns(i, p) == Ids.Owns(ir, q); }
        } else {
          NormalizeVal(Node(n, Fill(il, el), Fill(ir, er)), p);
          if left { FillKeepsUnowned(il, el, q); } else { FillKeepsUnowned(ir, er, q); }
        }
  }

  /** Fill keeps the normal form. */
  lemma {:induction false} FillNormalized(i: Ids.Id, e: Event)
    requires Normalized(e)
    ensures Normalized(Fill(i, e))
  {
    match i
    case Leaf(_) =>
    case Node(il, ir) =>
      match e
      case Leaf(_) =>
      case Node(n, el, er) =>
        if il == Ids.One {
          FillNormalized(ir, er);
          NormalizeNormalized(Node(n, Leaf(MaxInt(Max(el), Min(Fill(ir, er)))), Fill(ir, er)));
        } else if ir == Ids.One {
          FillNormalized(il, el);
          NormalizeNormalized(Node(n, Fill(il, el), Leaf(MaxInt(Max(er), Min(Fill(il, el))))));
        } else {
          FillNormalized(il, el);
          FillNormalized(ir, er);
          NormalizeNormalized(Node(n, Fill(il, el), Fill(ir, er)));
        }
  }

  /**
   * A fully owned half is raised to one flat count: the larger of its own
   * maximum and the minimum of the other half once that is filled.
   */
  lemma FillRaisesOwnedHalf(il: Ids.Id, ir: Ids.Id, n: int, el: Event, er: Event, q: seq<bool>)
    ensures var f := Fill(Ids.Node(il, ir), Node(n, el, er));
      il == Ids.One ==> Val(f, [false] + q) == n + MaxInt(Max(el), Min(Fill(ir, er)))
    ensures var f := Fill(Ids.Node(il, ir), Node(n, el, er));
      il != Ids.One && ir == Ids.One ==> Val(f, [true] + q) == n + MaxInt(Max(er), Min(Fill(il, el)))
  {
    if il == Ids.One {
      var u := Node(n, Leaf(MaxInt(Max(el), Min(Fill(ir, er)))), Fill(ir, er));
      NormalizeVal(u, [false] + q);
      ValChild(n, u.l, u.r, q);
    } else if ir == Ids.One {
      var u := Node(n, Fill(il, el), Leaf(MaxInt(Max(er), Min(Fill(il, el)))));
      NormalizeVal(u, [true] + q);
      ValChild(n, u.l, u.r, q);
    }
  }

  /** If normalizing Node(n, x, y) gives back a node with base n, nothing was changed. */
  lemma NormalizeFixed(n: int, x: Event, y: Event, a: Event, b: Event)
    requires Normalize(Node(n, x, y)) == Node(n, a, b)
    ensures x == a && y == b
  {
    LiftZero(x);
    LiftZero(y);
  }

  /** Grow moves forward in the happened-before order, at any base offset k. */
  lemma {:induction false} GrowLeq(i: Ids.Id, e: Event, k: int)
    requires Grow(i, e).Ok?
    ensures Events.Leq(Lift(k, e), Lift(k, Grow(i, e).value.0))
    decreases i, if e.Leaf? then 1 else 0
  {
    match e
    case Leaf(n) =>
      if i != Ids.One {
        var e2 := Node(n, Leaf(0), Leaf(0));
        GrowLeq(i, e2, k);
      }
    case Node(n, el, er) =>
      var il, ir := i.l, i.r;
      if il != Ids.Zero && (ir == Ids.Zero || Grow(il, el).value.1 < Grow(ir, er).value.1) {
        LeqReflexive(Lift(n + k, er));
        GrowLeq(il, el, n + k);
      } else {
        LeqReflexive(Lift(n + k, el));
        GrowLeq(ir, er, n + k);
      }
  }

  /** Grow adds at most one event anywhere, and none where the identity owns nothing. */
  lemma {:induction false} GrowCounts(i: Ids.Id, e: Event, p: seq<bool>)
    requires Grow(i, e).Ok?
    ensures Val(e, p) <= Val(Grow(i, e).value.0, p) <= Val(e, p) + 1
    ensures !Ids.Owns(i, p) ==> Val(Grow(i, e).value.0, p) == Val(e, p)
    decreases i, if e.Leaf? then 1 else 0
  {
    match e
    case Leaf(n) =>
      if i != Ids.One {
        GrowCounts(i, Node(n, Leaf(0), Leaf(0)), p);
      }
    case Node(n, el, er) =>
      var il, ir := i.l, i.r;
      var left := |p| == 0 || !p[0];
      var q := if |p| == 0 then p else p[1..];
      if il == Ids.Zero {
        if !left { GrowCounts(ir, er, q); }
      } else if ir == Ids.Zero {
        if left { GrowCounts(il, el, q); }
      } else {
        var cl, cr := Grow(il, el).value.1, Grow(ir, er).value.1;
        if cl < cr {
          if left { GrowCounts(il, el, q); }
        } else {
          if !left { GrowCounts(ir, er, q); }
        }
      }
  }

  /** Grow adds an event at some position the identity owns. */
  lemma {:induction false} GrowWitness(i: Ids.Id, e: Event) returns (p: seq<bool>)
    requires Grow(i, e).Ok?
    ensures Val(Grow(i, e).value.0, p) == Val(e, p) + 1 && Ids.Owns(i, p)
    decreases i, if e.Leaf? then 1 else 0
  {
    match e
    case Leaf(n) =>
      if i == Ids.One {
        p := [];
      } else {
        p := GrowWitness(i, Node(n, Leaf(0), Leaf(0)));
      }
    case Node(n, el, er) =>
      var il, ir := i.l, i.r;
      var g := Grow(i, e).value.0;
      var goLeft := il != Ids.Zero && (ir == Ids.Zero || Grow(il, el).value.1 < Grow(ir, er).value.1);
      if goLeft {
        var q := GrowWitness(il, el);
        ValChild(n, el, er, q);
        ValChild(n, g.l, g.r, q);
        Ids.OwnsLeft(il, ir, q);
        p := [false] + q;
      } else {
        var q := GrowWitness(ir, er);
        ValChild(n, el, er, q);
        ValChild(n, g.l, g.r, q);
        Ids.OwnsRight(il, ir, q);
        p := [true] + q;
      }
  }

  /**
   * g is e with exactly one leaf incremented by one: at each node one child
   * changes and the other is kept, and a leaf is either incremented or first
   * read as Node(n, 0, 0) and grown below.
   */
  ghost predicate IncrementsOneLeaf(e: Event, g: Event)
    decreases g, if e.Leaf? then 1 else 0
  {
    match e
    case Leaf(n) =>
      g == Leaf(n + 1) || (g.Node? && IncrementsOneLeaf(Node(n, Leaf(0), Leaf(0)), g))
    case Node(n, l, r) =>
      g.Node? && g.n == n
      && ((IncrementsOneLeaf(l, g.l) && g.r == r) || (g.l == l && IncrementsOneLeaf(r, g.r)))
  }

  /** Grow increments exactly one leaf; the branch it does not choose is left as it was. */
  lemma {:induction false} GrowIncrementsOneLeaf(i: Ids.Id, e: Event)
    requires Grow(i, e).Ok?
    ensures IncrementsOneLeaf(e, Grow(i, e).value.0)
    decreases i, if e.Leaf? then 1 else 0
  {
    match e
    case Leaf(n) =>
      if i != Ids.One {
        GrowIncrementsOneLeaf(i, Node(n, Leaf(0), Leaf(0)));
      }
    case Node(n, el, er) =>
      var il, ir := i.l, i.r;
      if il == Ids.Zero {
        GrowIncrementsOneLeaf(ir, er);
      } else if ir == Ids.Zero {
        GrowIncrementsOneLeaf(il, el);
      } else if Grow(il, el).value.1 < Grow(ir, er).value.1 {
        GrowIncrementsOneLeaf(il, el);
      } else {
        GrowIncrementsOneLeaf(ir, er);
      }
  }

  /** Growing a node keeps one of its children as it was. */
  lemma GrowOneBranch(i: Ids.Id, e: Event)
    requires e.Node? && Grow(i, e).Ok?
    ensures Grow(i, e).value.0.l == e.l || Grow(i, e).value.0.r == e.r
  {
    GrowIncrementsOneLeaf(i, e);
  }

  /**
   * The cost is 0 exactly for a leaf owned outright; a growth that adds nodes
   * costs at least the split penalty.
   */
  lemma {:induction false} GrowCost(i: Ids.Id, e: Event)
    requires Grow(i, e).Ok?
    ensures Grow(i, e).value.1 == 0 <==> (e.Leaf? && i == Ids.One)
    ensures Size(Grow(i, e).value.0) >= Size(e)
    ensures Grow(i, e).value.1 < SplitPenalty ==> Size(Grow(i, e).value.0) == Size(e)
    decreases i, if e.Leaf? then 1 else 0
  {
    match e
    case Leaf(n) =>
      if i != Ids.One {
        GrowCost(i, Node(n, Leaf(0), Leaf(0)));
      }
    case Node(n, el, er) =>
      var il, ir := i.l, i.r;
      if il == Ids.Zero {
        GrowCost(ir, er);
      } else if ir == Ids.Zero {
        GrowCost(il, el);
      } else {
        GrowCost(il, el);
        GrowCost(ir, er);
      }
  }

  /** A normalized identity other than 0 can grow any leaf. */
  lemma {:induction false} GrowLeafSucceeds(i: Ids.Id, n: int)
    requires Ids.Normalized(i) && i != Ids.Zero
    ensures Grow(i, Leaf(n)).Ok?
  {
    match i
    case Leaf(_) =>
    case Node(il, ir) =>
      if il == Ids.Zero {
        GrowLeafSucceeds(ir, 0);
      } else if ir == Ids.Zero {
        GrowLeafSucceeds(il, 0);
      } else {
        GrowLeafSucceeds(il, 0);
        GrowLeafSucceeds(ir, 0);
      }
  }

  /**
   * When Fill has nothing to do on a normalized pair whose identity owns
   * something, Grow finds a branch: the source's failure is unreachable there.
   */
  lemma {:induction false} GrowSucceedsWhenFillIdle(i: Ids.Id, e: Event)
    requires Ids.Normalized(i) && i != Ids.Zero && Normalized(e)
    requires Fill(i, e) == e
    ensures Grow(i, e).Ok?
  {
    match e
    case Leaf(n) =>
      GrowLeafSucceeds(i, n);
    case Node(n, el, er) =>
      match i
      case Leaf(_) =>
        assert false;
      case Node(il, ir) =>
        if il == Ids.One {
          var er' := Fill(ir, er);
          NormalizeFixed(n, Leaf(MaxInt(Max(el), Min(er'))), er', el, er);
          if ir != Ids.Zero { GrowSucceedsWhenFillIdle(ir, er); }
        } else if ir == Ids.One {
          var el' := Fill(il, el);
          NormalizeFixed(n, el', Leaf(MaxInt(Max(er), Min(el'))), el, er);
          if il != Ids.Zero { GrowSucceedsWhenFillIdle(il, el); }
        } else {
          NormalizeFixed(n, Fill(il, el), Fill(ir, er), el, er);
          if il != Ids.Zero { GrowSucceedsWhenFillIdle(il, el); }
          if ir != Ids.Zero { GrowSucceedsWhenFillIdle(ir, er); }
        }
  }

  /** Growing a leaf under a normalized identity that is neither 0 nor 1 gives a normalized node of the same minimum. */
  lemma {:induction false} GrowLeafNormalized(i: Ids.Id, n: int)
    requires Ids.Normalized(i) && i != Ids.Zero && i != Ids.One
    ensures Grow(i, Leaf(n)).Ok?
    ensures Normalized(Grow(i, Leaf(n)).value.0) && Min(Grow(i, Leaf(n)).value.0) == n
  {
    GrowLeafSucceeds(i, n);
    var il, ir := i.l, i.r;
    if il != Ids.Zero {
      GrowLeafSucceeds(il, 0);
      if il != Ids.One { GrowLeafNormalized(il, 0); }
    }
    if ir != Ids.Zero {
      GrowLeafSucceeds(ir, 0);
      if ir != Ids.One { GrowLeafNormalized(ir, 0); }
    }
  }

  /**
   * When Fill is idle on a normalized pair, Grow keeps the normal form and
   * the minimum, except that a leaf owned outright goes up by one.
   */
  lemma {:induction false} GrowNormalized(i: Ids.Id, e: Event)
    requires Ids.Normalized(i) && Normalized(e) && Fill(i, e) == e && Grow(i, e).Ok?
    ensures Normalized(Grow(i, e).value.0)
    ensures Min(Grow(i, e).value.0) == Min(e) || (e.Leaf? && i == Ids.One)
    decreases i, 1
  {
    match e
    case Leaf(n) =>
      if i != Ids.One {
        GrowLeafNormalized(i, n);
      }
    case Node(n, el, er) =>
      if i.l == Ids.One {
        GrowNormalizedLeftOwned(i, e);
      } else if i.r == Ids.One {
        var el' := Fill(i.l, el);
        NormalizeFixed(n, el', Leaf(MaxInt(Max(er), Min(el'))), el, er);
        assert er.Leaf? && er.n >= Min(el) && Min(el) == 0;
        // The right half costs 0 to grow, so it is always the one chosen.
      } else {
        GrowNormalizedInner(i, e);
      }
  }

  /** GrowNormalized under an identity (1, ir): the left child is a filled leaf, so only the right one can grow. */
  lemma {:induction false} GrowNormalizedLeftOwned(i: Ids.Id, e: Event)
    requires i.Node? && e.Node? && i.l == Ids.One
    requires Ids.Normalized(i) && Normalized(e) && Fill(i, e) == e && Grow(i, e).Ok?
    ensures Normalized(Grow(i, e).value.0) && Min(Grow(i, e).value.0) == Min(e)
    decreases i, 0
  {
    var n, el, er, ir := e.n, e.l, e.r, i.r;
    var g := Grow(i, e).value.0;
    var er' := Fill(ir, er);
    NormalizeFixed(n, Leaf(MaxInt(Max(el), Min(er'))), er', el, er);
    assert el.Leaf? && el.n >= Min(er) && Min(er) == 0;
    if ir != Ids.Zero && g.r != er {
      GrowNormalized(ir, er);
    }
  }

  /** GrowNormalized under an identity whose halves are neither 1: each grown child stays normalized with its minimum. */
  lemma {:induction false} GrowNormalizedInner(i: Ids.Id, e: Event)
    requires i.Node? && e.Node? && i.l != Ids.One && i.r != Ids.One
    requires Ids.Normalized(i) && Normalized(e) && Fill(i, e) == e && Grow(i, e).Ok?
    ensures Normalized(Grow(i, e).value.0) && Min(Grow(i, e).value.0) == Min(e)
    decreases i, 0
  {
    var n, el, er, il, ir := e.n, e.l, e.r, i.l, i.r;
    var g := Grow(i, e).value.0;
    NormalizeFixed(n, Fill(il, el), Fill(ir, er), el, er);
    if g.l != el {
      GrowNormalized(il, el);
    }
    if g.r != er {
      GrowNormalized(ir, er);
    }
  }
}
