/**
 * What an event tree means: the count it gives to each position of the
 * identity space.  Leq and Join are proved against this meaning, and the
 * normal form is shown to be canonical.
 */
module EventSemantics {
  import opened Events

  /**
   * The count at the position reached by path p (false = left half); a path
   * that ends above a node stands for its leftmost extension.
   */
  ghost function Val(e: Event, p: seq<bool>): int {
    match e
    case Leaf(n) => n
    case Node(n, l, r) =>
      if |p| == 0 then n + Val(l, p) else n + Val(if p[0] then r else l, p[1..])
  }

  /** a gives no position a larger count than b does. */
  ghost predicate Dominates(a: Event, b: Event) {
    forall p :: Val(a, p) <= Val(b, p)
  }

  ghost predicate SameCounts(a: Event, b: Event) {
    forall p :: Val(a, p) == Val(b, p)
  }

  lemma ValLift(k: int, e: Event, p: seq<bool>)
    ensures Val(Lift(k, e), p) == k + Val(e, p)
  {
  }

  /** One step of Val at a node: the base plus the count in the child the path selects. */
  lemma ValStep(e: Event, p: seq<bool>)
    requires e.Node?
    ensures Val(e, p) == e.n + Val(if |p| > 0 && p[0] then e.r else e.l, if |p| == 0 then p else p[1..])
  {
  }

  lemma ValChild(n: int, l: Event, r: Event, q: seq<bool>)
    ensures Val(Node(n, l, r), [false] + q) == n + Val(l, q)
    ensures Val(Node(n, l, r), [true] + q) == n + Val(r, q)
  {
    assert ([false] + q)[1..] == q;
    assert ([true] + q)[1..] == q;
  }

  /** Min is a lower bound of every count ... */
  lemma {:induction false} MinBelow(e: Event, p: seq<bool>)
    ensures Min(e) <= Val(e, p)
  {
    match e
    case Leaf(_) =>
    case Node(n, l, r) =>
      if |p| == 0 { MinBelow(l, p); }
      else if p[0] { MinBelow(r, p[1..]); }
      else { MinBelow(l, p[1..]); }
  }

  /** ... and it is attained. */
  lemma {:induction false} MinWitness(e: Event) returns (p: seq<bool>)
    ensures Val(e, p) == Min(e)
  {
    match e
    case Leaf(_) =>
      p := [];
    case Node(n, l, r) =>
      if Min(l) <= Min(r) {
        var q := MinWitness(l);
        ValChild(n, l, r, q);
        p := [false] + q;
      } else {
        var q := MinWitness(r);
        ValChild(n, l, r, q);
        p := [true] + q;
      }
  }

  /** Max is an upper bound of every count ... */
  lemma {:induction false} MaxAbove(e: Event, p: seq<bool>)
    ensures Val(e, p) <= Max(e)
  {
    match e
    case Leaf(_) =>
    case Node(n, l, r) =>
      if |p| == 0 { MaxAbove(l, p); }
      else if p[0] { MaxAbove(r, p[1..]); }
      else { MaxAbove(l, p[1..]); }
  }

  /** ... and it is attained. */
  lemma {:induction false} MaxWitness(e: Event) returns (p: seq<bool>)
    ensures Val(e, p) == Max(e)
  {
    match e
    case Leaf(_) =>
      p := [];
    case Node(n, l, r) =>
      if Max(l) >= Max(r) {
        var q := MaxWitness(l);
        ValChild(n, l, r, q);
        p := [false] + q;
      } else {
        var q := MaxWitness(r);
        ValChild(n, l, r, q);
        p := [true] + q;
      }
  }

  lemma LiftZero(e: Event)
    ensures Lift(0, e) == e
  {
  }

  lemma LiftMin(k: int, e: Event)
    ensures Min(Lift(k, e)) == k + Min(e)
  {
  }

  lemma {:induction false} NormalizedIsTight(e: Event)
    requires Normalized(e)
    ensures Tight(e)
  {
    match e
    case Leaf(_) =>
    case Node(_, l, r) =>
      NormalizedIsTight(l);
      NormalizedIsTight(r);
  }

  lemma LiftNormalized(k: int, e: Event)
    ensures Normalized(e) ==> Normalized(Lift(k, e))
    ensures Tight(e) ==> Tight(Lift(k, e))
  {
  }

  /** Normalizing a node changes no count. */
  lemma NormalizeVal(e: Event, p: seq<bool>)
    ensures Val(Normalize(e), p) == Val(e, p)
  {
    match e
    case Leaf(_) =>
    case Node(n, l, r) =>
      if !(l.Leaf? && r.Leaf? && l.n == r.n) {
        var m := MinInt(Min(l), Min(r));
        if |p| == 0 {
          ValLift(-m, l, p);
        } else {
          ValLift(-m, if p[0] then r else l, p[1..]);
        }
      }
  }

  /** Normalizing a node whose children are in normal form yields the normal form. */
  lemma NormalizeNormalized(e: Event)
    requires e.Leaf? || (Normalized(e.l) && Normalized(e.r))
    ensures Normalized(Normalize(e))
  {
    match e
    case Leaf(_) =>
    case Node(n, l, r) =>
      if !(l.Leaf? && r.Leaf? && l.n == r.n) {
        var m := MinInt(Min(l), Min(r));
        LiftNormalized(-m, l);
        LiftNormalized(-m, r);
        LiftMin(-m, l);
        LiftMin(-m, r);
      }
  }

  /** Leq is reflexive on every tree. */
  lemma {:induction false} LeqReflexive(e: Event)
    ensures Leq(e, e)
    decreases Height(e)
  {
    match e
    case Leaf(_) =>
    case Node(n, l, r) =>
      LiftHeight(n, l);
      LiftHeight(n, r);
      LeqReflexive(Lift(n, l));
      LeqReflexive(Lift(n, r));
  }

  /** Leq is sound: it never holds unless every count of a is at most b's. */
  lemma {:induction false} LeqSound(a: Event, b: Event, p: seq<bool>)
    ensures Leq(a, b) ==> Val(a, p) <= Val(b, p)
    decreases MaxNat(Height(a), Height(b)), LeafTag(a, b)
  {
    match (a, b)
    case (Leaf(_), Leaf(_)) =>
    case (Leaf(n1), Node(_, _, _)) =>
      LeqSound(Node(n1, Leaf(0), Leaf(0)), b, p);
    case (Node(_, _, _), Leaf(n2)) =>
      LeqSound(a, Node(n2, Leaf(0), Leaf(0)), p);
    case (Node(n1, l1, r1), Node(n2, l2, r2)) =>
      LiftHeight(n1, l1);
      LiftHeight(n2, l2);
      LiftHeight(n1, r1);
      LiftHeight(n2, r2);
      if |p| == 0 || !p[0] {
        var q := if |p| == 0 then p else p[1..];
        LeqSound(Lift(n1, l1), Lift(n2, l2), q);
        ValLift(n1, l1, q);
        ValLift(n2, l2, q);
      } else {
        LeqSound(Lift(n1, r1), Lift(n2, r2), p[1..]);
        ValLift(n1, r1, p[1..]);
        ValLift(n2, r2, p[1..]);
      }
  }

  /** Leq is complete on tight trees: dominance of counts implies Leq. */
  lemma {:induction false} LeqComplete(a: Event, b: Event)
    requires Tight(a) && Tight(b) && Dominates(a, b)
    ensures Leq(a, b)
    decreases MaxNat(Height(a), Height(b)), LeafTag(a, b), 1
  {
    match (a, b)
    case (Leaf(_), Leaf(_)) =>
      assert Val(a, []) <= Val(b, []);
    case (Leaf(n1), Node(_, _, _)) =>
      var a' := Node(n1, Leaf(0), Leaf(0));
      forall p ensures Val(a', p) <= Val(b, p) {
        assert Val(a, p) <= Val(b, p);
      }
      LeqComplete(a', b);
    case (Node(_, _, _), Leaf(n2)) =>
      var b' := Node(n2, Leaf(0), Leaf(0));
      forall p ensures Val(a, p) <= Val(b', p) {
        assert Val(a, p) <= Val(b, p);
      }
      LeqComplete(a, b');
    case (Node(_, _, _), Node(_, _, _)) =>
      LeqCompleteNodes(a, b);
  }

  /** The node-against-node case of LeqComplete: the bases compare at b's minimum, then the lifted children. */
  lemma {:induction false} LeqCompleteNodes(a: Event, b: Event)
    requires a.Node? && b.Node?
    requires Tight(a) && Tight(b) && Dominates(a, b)
    ensures Leq(a, b)
    decreases MaxNat(Height(a), Height(b)), 0, 0
  {
    var n1, l1, r1, n2, l2, r2 := a.n, a.l, a.r, b.n, b.l, b.r;
    var w := MinWitness(b);
    MinBelow(a, w);
    assert Val(a, w) <= Val(b, w);
    forall q ensures Val(Lift(n1, l1), q) <= Val(Lift(n2, l2), q)
                  && Val(Lift(n1, r1), q) <= Val(Lift(n2, r2), q) {
      ValChild(n1, l1, r1, q);
      ValChild(n2, l2, r2, q);
      assert Val(a, [false] + q) <= Val(b, [false] + q);
      assert Val(a, [true] + q) <= Val(b, [true] + q);
    }
    LiftNormalized(n1, l1);
    LiftNormalized(n2, l2);
    LiftNormalized(n1, r1);
    LiftNormalized(n2, r2);
    LiftHeight(n1, l1);
    LiftHeight(n2, l2);
    LiftHeight(n1, r1);
    LiftHeight(n2, r2);
    LeqComplete(Lift(n1, l1), Lift(n2, l2));
    LeqComplete(Lift(n1, r1), Lift(n2, r2));
  }

  /** Leq implies dominance of counts, and on tight trees it is exactly dominance. */
  lemma LeqIffDominates(a: Event, b: Event)
    ensures Leq(a, b) ==> Dominates(a, b)
    ensures Tight(a) && Tight(b) ==> (Leq(a, b) <==> Dominates(a, b))
  {
    if Leq(a, b) {
      forall p ensures Val(a, p) <= Val(b, p) { LeqSound(a, b, p); }
    }
    if Tight(a) && Tight(b) && Dominates(a, b) {
      LeqComplete(a, b);
    }
  }

  /** Join gives every position the larger of the two counts, stated for all positions at once. */
  lemma JoinValAll(a: Event, b: Event)
    ensures forall p :: Val(Join(a, b), p) == MaxInt(Val(a, p), Val(b, p))
  {
    forall p ensures Val(Join(a, b), p) == MaxInt(Val(a, p), Val(b, p)) { JoinVal(a, b, p); }
  }

  /** The normal form is canonical: two normalized trees with the same counts are equal. */
  lemma {:induction false} Canonical(a: Event, b: Event)
    requires Normalized(a) && Normalized(b) && SameCounts(a, b)
    ensures a == b
    decreases Height(a) + Height(b), 1
  {
    match (a, b)
    case (Leaf(_), Leaf(_)) =>
      assert Val(a, []) == Val(b, []);
    case (Leaf(m), Node(_, _, _)) =>
      forall p ensures Val(b, p) == m { assert Val(a, p) == Val(b, p); }
      ConstantNode(b, m);
      assert false;
    case (Node(_, _, _), Leaf(m)) =>
      forall p ensures Val(a, p) == m { assert Val(a, p) == Val(b, p); }
      ConstantNode(a, m);
      assert false;
    case (Node(n1, l1, r1), Node(n2, l2, r2)) =>
      var wa := MinWitness(a);
      var wb := MinWitness(b);
      MinBelow(a, wb);
      MinBelow(b, wa);
      assert Val(a, wa) == Val(b, wa) && Val(a, wb) == Val(b, wb);
      assert n1 == n2;
      forall q ensures Val(l1, q) == Val(l2, q) && Val(r1, q) == Val(r2, q) {
        ValChild(n1, l1, r1, q);
        ValChild(n2, l2, r2, q);
        assert Val(a, [false] + q) == Val(b, [false] + q);
        assert Val(a, [true] + q) == Val(b, [true] + q);
      }
      Canonical(l1, l2);
      Canonical(r1, r2);
  }

  /** A node with normalized children that gives every position the count m has two equal leaves. */
  lemma {:induction false} ConstantNode(b: Event, m: int)
    requires b.Node? && Normalized(b.l) && Normalized(b.r)
    requires forall p :: Val(b, p) == m
    ensures b.l == Leaf(m - b.n) && b.r == Leaf(m - b.n)
    decreases Height(b), 0
  {
    var c := Leaf(m - b.n);
    forall q ensures Val(b.l, q) == Val(c, q) && Val(b.r, q) == Val(c, q) {
      ValChild(b.n, b.l, b.r, q);
      assert Val(b, [false] + q) == m && Val(b, [true] + q) == m;
    }
    Canonical(b.l, c);
    Canonical(b.r, c);
  }

  /** Join gives every position the larger of the two counts. */
  lemma {:induction false} JoinVal(a: Event, b: Event, p: seq<bool>)
    ensures Val(Join(a, b), p) == MaxInt(Val(a, p), Val(b, p))
    decreases MaxNat(Height(a), Height(b)), LeafTag(a, b), 1
  {
    match (a, b)
    case (Leaf(_), Leaf(_)) =>
    case (Leaf(n1), Node(_, _, _)) =>
      JoinVal(Node(n1, Leaf(0), Leaf(0)), b, p);
    case (Node(_, _, _), Leaf(n2)) =>
      JoinVal(a, Node(n2, Leaf(0), Leaf(0)), p);
    case (Node(_, _, _), Node(_, _, _)) =>
      JoinValNodes(a, b, p);
  }

  /** The children of two nodes are lower than the taller of the nodes. */
  lemma ChildrenLower(a: Event, b: Event)
    requires a.Node? && b.Node?
    ensures MaxNat(Height(a.l), Height(b.l)) < MaxNat(Height(a), Height(b))
    ensures MaxNat(Height(a.r), Height(b.r)) < MaxNat(Height(a), Height(b))
  {
  }

  /** The children of two nodes, lifted by any amounts, are lower than the taller of the nodes. */
  lemma LiftedChildrenLower(a: Event, b: Event, ka: int, kb: int)
    requires a.Node? && b.Node?
    ensures MaxNat(Height(Lift(ka, a.l)), Height(Lift(kb, b.l))) < MaxNat(Height(a), Height(b))
    ensures MaxNat(Height(Lift(ka, a.r)), Height(Lift(kb, b.r))) < MaxNat(Height(a), Height(b))
  {
    ChildrenLower(a, b);
    LiftHeight(ka, a.l);
    LiftHeight(ka, a.r);
    LiftHeight(kb, b.l);
    LiftHeight(kb, b.r);
  }

  /**
   * Join of two nodes, read uniformly: both are moved to the lower base lo,
   * which lifts the children of the node with the higher base.
   */
  lemma JoinNodes(a: Event, b: Event) returns (lo: int, x: Event, y: Event, x': Event, y': Event)
    requires a.Node? && b.Node?
    ensures lo == MinInt(a.n, b.n)
    ensures x == Lift(a.n - lo, a.l) && y == Lift(a.n - lo, a.r)
    ensures x' == Lift(b.n - lo, b.l) && y' == Lift(b.n - lo, b.r)
    ensures MaxNat(Height(x), Height(x')) < MaxNat(Height(a), Height(b))
    ensures MaxNat(Height(y), Height(y')) < MaxNat(Height(a), Height(b))
    ensures Join(a, b) == Normalize(Node(lo, Join(x, x'), Join(y, y')))
  {
    lo := MinInt(a.n, b.n);
    x, y, x' ,y' := Lift(a.n - lo, a.l), Lift(a.n - lo, a.r), Lift(b.n - lo, b.l), Lift(b.n - lo, b.r);
    LiftedChildrenLower(a, b, a.n - lo, b.n - lo);
    if a.n <= b.n {
      assert Join(a, b) == Normalize(Node(a.n, Join(a.l, x'), Join(a.r, y')));
      LiftZero(a.l);
      LiftZero(a.r);
    } else {
      assert Join(a, b) == Normalize(Node(b.n, Join(x, b.l), Join(y, b.r)));
      LiftZero(b.l);
      LiftZero(b.r);
    }
  }

  /** The node-against-node case of JoinVal: the child on the path is joined after moving both to the lower base. */
  lemma {:induction false} JoinValNodes(a: Event, b: Event, p: seq<bool>)
    requires a.Node? && b.Node?
    ensures Val(Join(a, b), p) == MaxInt(Val(a, p), Val(b, p))
    decreases MaxNat(Height(a), Height(b)), 0, 0
  {
    var lo, x, y, x', y' := JoinNodes(a, b);
    var q := if |p| == 0 then p else p[1..];
    NormalizeVal(Node(lo, Join(x, x'), Join(y, y')), p);
    if |p| == 0 || !p[0] {
      JoinVal(x, x', q);
    } else {
      JoinVal(y, y', q);
    }
    MaxAtNode(a, b, lo, Join(x, x'), Join(y, y'), p);
  }

  /**
   * The arithmetic behind JoinValNodes: if the child of Node(lo, u, v) on the
   * path holds the larger of the two lifted counts, the node holds the larger
   * of the counts of a and b.
   */
  lemma MaxAtNode(a: Event, b: Event, lo: int, u: Event, v: Event, p: seq<bool>)
    requires a.Node? && b.Node?
    requires var q := if |p| == 0 then p else p[1..];
      if |p| == 0 || !p[0]
      then Val(u, q) == MaxInt(Val(Lift(a.n - lo, a.l), q), Val(Lift(b.n - lo, b.l), q))
      else Val(v, q) == MaxInt(Val(Lift(a.n - lo, a.r), q), Val(Lift(b.n - lo, b.r), q))
    ensures Val(Node(lo, u, v), p) == MaxInt(Val(a, p), Val(b, p))
  {
    var q := if |p| == 0 then p else p[1..];
    ValStep(Node(lo, u, v), p);
    ValStep(a, p);
    ValStep(b, p);
    if |p| == 0 || !p[0] {
      ValLift(a.n - lo, a.l, q);
      ValLift(b.n - lo, b.l, q);
    } else {
      ValLift(a.n - lo, a.r, q);
      ValLift(b.n - lo, b.r, q);
    }
  }

  /** Every join is in normal form, whatever its arguments. */
  lemma {:induction false} JoinNormalized(a: Event, b: Event)
    ensures Normalized(Join(a, b))
    decreases MaxNat(Height(a), Height(b)), LeafTag(a, b)
  {
    if a.Leaf? && b.Leaf? {
    } else if a.Leaf? {
      JoinNormalized(Node(a.n, Leaf(0), Leaf(0)), b);
    } else if b.Leaf? {
      JoinNormalized(a, Node(b.n, Leaf(0), Leaf(0)));
    } else {
      var lo, x, y, x', y' := JoinNodes(a, b);
      JoinNormalized(x, x');
      JoinNormalized(y, y');
      NormalizeNormalized(Node(lo, Join(x, x'), Join(y, y')));
    }
  }

  /** Join is an upper bound of both trees and below every common upper bound. */
  lemma JoinIsLeastUpperBound(a: Event, b: Event, c: Event)
    requires Normalized(a) && Normalized(b) && Normalized(c)
    ensures Leq(a, Join(a, b)) && Leq(b, Join(a, b))
    ensures Leq(a, c) && Leq(b, c) ==> Leq(Join(a, b), c)
  {
    var j := Join(a, b);
    JoinNormalized(a, b);
    NormalizedIsTight(a);
    NormalizedIsTight(b);
    NormalizedIsTight(c);
    NormalizedIsTight(j);
    forall p ensures Val(a, p) <= Val(j, p) && Val(b, p) <= Val(j, p) { JoinVal(a, b, p); }
    LeqIffDominates(a, j);
    LeqIffDominates(b, j);
    if Leq(a, c) && Leq(b, c) {
      LeqIffDominates(a, c);
      LeqIffDominates(b, c);
      forall p ensures Val(j, p) <= Val(c, p) {
        JoinVal(a, b, p);
        assert Val(a, p) <= Val(c, p) && Val(b, p) <= Val(c, p);
      }
      LeqIffDominates(j, c);
    }
  }

  /** Join does not depend on the order of its arguments. */
  lemma JoinCommutes(a: Event, b: Event)
    ensures Join(a, b) == Join(b, a)
  {
    JoinNormalized(a, b);
    JoinNormalized(b, a);
    forall p ensures Val(Join(a, b), p) == Val(Join(b, a), p) {
      JoinVal(a, b, p);
      JoinVal(b, a, p);
    }
    Canonical(Join(a, b), Join(b, a));
  }

  /** Joining a normalized tree with itself gives it back. */
  lemma JoinIdempotent(a: Event)
    requires Normalized(a)
    ensures Join(a, a) == a
  {
    JoinNormalized(a, a);
    forall p ensures Val(Join(a, a), p) == Val(a, p) { JoinVal(a, a, p); }
    Canonical(Join(a, a), a);
  }

  /** Join does not depend on how three trees are grouped. */
  lemma JoinAssociative(a: Event, b: Event, c: Event)
    ensures Join(Join(a, b), c) == Join(a, Join(b, c))
  {
    JoinNormalized(a, b);
    JoinNormalized(b, c);
    JoinNormalized(Join(a, b), c);
    JoinNormalized(a, Join(b, c));
    forall p ensures Val(Join(Join(a, b), c), p) == Val(Join(a, Join(b, c)), p) {
      JoinVal(a, b, p);
      JoinVal(b, c, p);
      JoinVal(Join(a, b), c, p);
      JoinVal(a, Join(b, c), p);
    }
    Canonical(Join(Join(a, b), c), Join(a, Join(b, c)));
  }

  /** A leaf read as the node Node(n, 0, 0) that Leq and Join compare it as. */
  function Expand(e: Event): Event {
    if e.Leaf? then Node(e.n, Leaf(0), Leaf(0)) else e
  }

  /** Expanding leaves never changes Leq. */
  lemma LeqExpand(a: Event, b: Event)
    ensures Leq(Expand(a), Expand(b)) == Leq(a, b)
  {
    if a.Leaf? && b.Leaf? {
      assert Leq(Expand(a), Expand(b)) == Leq(Leaf(a.n), Leaf(b.n));
    }
  }

  /** Leq is transitive on every tree. */
  lemma {:induction false} LeqTransitive(a: Event, b: Event, c: Event)
    requires Leq(a, b) && Leq(b, c)
    ensures Leq(a, c)
    decreases MaxNat(MaxNat(Height(a), Height(b)), Height(c)),
      (if a.Leaf? then 1 else 0) + (if b.Leaf? then 1 else 0) + (if c.Leaf? then 1 else 0), 1
  {
    if a.Leaf? && b.Leaf? && c.Leaf? {
    } else if a.Leaf? || b.Leaf? || c.Leaf? {
      LeqExpand(a, b);
      LeqExpand(b, c);
      LeqExpand(a, c);
      LeqTransitive(Expand(a), Expand(b), Expand(c));
    } else {
      LeqTransitiveNodes(a, b, c);
    }
  }

  /** The node case of LeqTransitive: the bases are ordered, and so are the lifted children. */
  lemma {:induction false} LeqTransitiveNodes(a: Event, b: Event, c: Event)
    requires a.Node? && b.Node? && c.Node?
    requires Leq(a, b) && Leq(b, c)
    ensures Leq(a, c)
    decreases MaxNat(MaxNat(Height(a), Height(b)), Height(c)), 0, 0
  {
    ChildrenLower3(a, b, c);
    LeqTransitive(Lift(a.n, a.l), Lift(b.n, b.l), Lift(c.n, c.l));
    LeqTransitive(Lift(a.n, a.r), Lift(b.n, b.r), Lift(c.n, c.r));
  }

  /** The lifted children of three nodes are lower than the tallest of them. */
  lemma ChildrenLower3(a: Event, b: Event, c: Event)
    requires a.Node? && b.Node? && c.Node?
    ensures MaxNat(MaxNat(Height(Lift(a.n, a.l)), Height(Lift(b.n, b.l))), Height(Lift(c.n, c.l)))
      < MaxNat(MaxNat(Height(a), Height(b)), Height(c))
    ensures MaxNat(MaxNat(Height(Lift(a.n, a.r)), Height(Lift(b.n, b.r))), Height(Lift(c.n, c.r)))
      < MaxNat(MaxNat(Height(a), Height(b)), Height(c))
  {
    LiftHeight(a.n, a.l);
    LiftHeight(b.n, b.l);
    LiftHeight(c.n, c.l);
    LiftHeight(a.n, a.r);
    LiftHeight(b.n, b.r);
    LiftHeight(c.n, c.r);
    ChildLower(a);
    ChildLower(b);
    ChildLower(c);
    Max3Lower(Height(a.l), Height(b.l), Height(c.l), Height(a), Height(b), Height(c));
    Max3Lower(Height(a.r), Height(b.r), Height(c.r), Height(a), Height(b), Height(c));
  }

  lemma ChildLower(e: Event)
    requires e.Node?
    ensures Height(e.l) < Height(e) && Height(e.r) < Height(e)
  {
  }

  lemma Max3Lower(x1: nat, x2: nat, x3: nat, y1: nat, y2: nat, y3: nat)
    requires x1 < y1 && x2 < y2 && x3 < y3
    ensures MaxNat(MaxNat(x1, x2), x3) < MaxNat(MaxNat(y1, y2), y3)
  {
  }

  lemma LeqAntisymmetric(a: Event, b: Event)
    requires Normalized(a) && Normalized(b)
    ensures Leq(a, b) && Leq(b, a) ==> a == b
  {
    if Leq(a, b) && Leq(b, a) {
      forall p ensures Val(a, p) == Val(b, p) {
        LeqSound(a, b, p);
        LeqSound(b, a, p);
      }
      Canonical(a, b);
    }
  }
}
