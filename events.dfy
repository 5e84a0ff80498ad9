/**
 * The event tree of an Interval Tree Clock: a compressed map from positions
 * of the identity space to event counts.  Leaf(n) gives n to every position
 * below it; Node(n, l, r) adds the base n to the counts given by l and r.
 */
module Events {

  datatype Event = Leaf(n: int) | Node(n: int, l: Event, r: Event)

  function MinInt(a: int, b: int): int { if a <= b then a else b }
  function MaxInt(a: int, b: int): int { if a <= b then b else a }
  function MaxNat(a: nat, b: nat): nat { if a <= b then b else a }

  function Height(e: Event): (h: nat)
    ensures h == 0 <==> e.Leaf?
  {
    match e
    case Leaf(_) => 0
    case Node(_, l, r) => 1 + MaxNat(Height(l), Height(r))
  }

  /** The number of leaves and nodes. */
  function Size(e: Event): nat {
    match e
    case Leaf(_) => 1
    case Node(_, l, r) => 1 + Size(l) + Size(r)
  }

  /** The smallest count in the tree, bases included. */
  function Min(e: Event): int {
    match e
    case Leaf(n) => n
    case Node(n, l, r) => n + MinInt(Min(l), Min(r))
  }

  /** The largest count in the tree, bases included. */
  function Max(e: Event): int {
    match e
    case Leaf(n) => n
    case Node(n, l, r) => n + MaxInt(Max(l), Max(r))
  }

  /** No count is below the minimum and above the maximum at once. */
  lemma {:induction false} MinBelowMax(e: Event)
    ensures Min(e) <= Max(e)
  {
    match e
    case Leaf(_) =>
    case Node(_, l, r) =>
      MinBelowMax(l);
      MinBelowMax(r);
  }

  /** Adds k to the base of the tree. */
  function Lift(k: int, e: Event): (r: Event)
    ensures r.Leaf? == e.Leaf?
  {
    match e
    case Leaf(n) => Leaf(n + k)
    case Node(n, l, r) => Node(n + k, l, r)
  }

  /** Lifting keeps the shape, so it keeps the height. */
  lemma LiftHeight(k: int, e: Event)
    ensures Height(Lift(k, e)) == Height(e)
  {
  }

  /** Subtracts m from the base of the tree. */
  function Sink(m: int, e: Event): Event {
    Lift(-m, e)
  }

  /**
   * Canonical form of one node whose children are already canonical: two
   * equal leaves collapse into one, otherwise the common minimum of the
   * children is hoisted into the base.
   */
  function Normalize(e: Event): Event {
    match e
    case Leaf(_) => e
    case Node(n, l, r) =>
      if l.Leaf? && r.Leaf? && l.n == r.n then Leaf(n + l.n)
      else
        var m := MinInt(Min(l), Min(r));
        Node(n + m, Sink(m, l), Sink(m, r))
  }

  /** Normalizing a node keeps its minimum and its maximum. */
  lemma NormalizeBounds(e: Event)
    ensures Min(Normalize(e)) == Min(e) && Max(Normalize(e)) == Max(e)
  {
  }

  /** Normalizing never adds nodes. */
  lemma NormalizeSize(e: Event)
    ensures Size(Normalize(e)) <= Size(e)
  {
  }

  /** Every node's children have a common minimum of 0, so its base is its minimum. */
  predicate Tight(e: Event) {
    match e
    case Leaf(_) => true
    case Node(_, l, r) => Tight(l) && Tight(r) && MinInt(Min(l), Min(r)) == 0
  }

  /** The normal form: tight, and no node with two equal leaves. */
  predicate Normalized(e: Event) {
    match e
    case Leaf(_) => true
    case Node(_, l, r) =>
      Normalized(l) && Normalized(r) && MinInt(Min(l), Min(r)) == 0
      && !(l.Leaf? && r.Leaf? && l.n == r.n)
  }

  function LeafTag(a: Event, b: Event): nat {
    if a.Leaf? != b.Leaf? then 1 else 0
  }

  /** Happened-before-or-equal; a leaf met by a node is first lifted to Node(n, 0, 0). */
  predicate Leq(a: Event, b: Event)
    decreases MaxNat(Height(a), Height(b)), LeafTag(a, b)
  {
    match (a, b)
    case (Leaf(n1), Leaf(n2)) => n1 <= n2
    case (Leaf(n1), Node(_, _, _)) => Leq(Node(n1, Leaf(0), Leaf(0)), b)
    case (Node(_, _, _), Leaf(n2)) => Leq(a, Node(n2, Leaf(0), Leaf(0)))
    case (Node(n1, l1, r1), Node(n2, l2, r2)) =>
      LiftHeight(n1, l1); LiftHeight(n2, l2); LiftHeight(n1, r1); LiftHeight(n2, r2);
      n1 <= n2 && Leq(Lift(n1, l1), Lift(n2, l2)) && Leq(Lift(n1, r1), Lift(n2, r2))
  }

  /** Least upper bound: the position-wise maximum, normalized; a leaf met by a node is lifted to Node(n, 0, 0). */
  function Join(a: Event, b: Event): Event
    decreases MaxNat(Height(a), Height(b)), LeafTag(a, b)
  {
    match (a, b)
    case (Leaf(n1), Leaf(n2)) => Leaf(MaxInt(n1, n2))
    case (Leaf(n1), Node(_, _, _)) => Join(Node(n1, Leaf(0), Leaf(0)), b)
    case (Node(_, _, _), Leaf(n2)) => Join(a, Node(n2, Leaf(0), Leaf(0)))
    case (Node(n1, l1, r1), Node(n2, l2, r2)) =>
      LiftHeight(n2 - n1, l2); LiftHeight(n2 - n1, r2); LiftHeight(n1 - n2, l1); LiftHeight(n1 - n2, r1);
      if n1 <= n2 then
        Normalize(Node(n1, Join(l1, Lift(n2 - n1, l2)), Join(r1, Lift(n2 - n1, r2))))
      else
        Normalize(Node(n2, Join(Lift(n1 - n2, l1), l2), Join(Lift(n1 - n2, r1), r2)))
  }
}
