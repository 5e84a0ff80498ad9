/**
 * The identity tree of an Interval Tree Clock: which part of the identity
 * space an actor owns.  A leaf owns all (true) or nothing (false) of its
 * subspace; a node splits the subspace into a left and a right half.
 */
module Ids {
  import opened Results

  datatype Id = Leaf(bit: bool) | Node(l: Id, r: Id)

  /** The identities written `0` and `1` in the source. */
  const Zero: Id := Leaf(false)
  const One: Id := Leaf(true)

  /** Normal form: no node whose halves are the same leaf. */
  predicate Normalized(i: Id) {
    match i
    case Leaf(_) => true
    case Node(l, r) => Normalized(l) && Normalized(r) && !(l.Leaf? && l == r)
  }

  /** Builds a node, collapsing (0,0) to 0 and (1,1) to 1. */
  function NormalizeNode(l: Id, r: Id): (i: Id)
    ensures Normalized(l) && Normalized(r) ==> Normalized(i)
  {
    if l == Zero && r == Zero then Zero
    else if l == One && r == One then One
    else Node(l, r)
  }

  /**
   * A finite path into the identity space: false is the left half, true the
   * right half.  A path that ends above a leaf stands for its leftmost
   * extension.
   */
  ghost function Owns(i: Id, p: seq<bool>): bool {
    match i
    case Leaf(b) => b
    case Node(l, r) =>
      if |p| == 0 then Owns(l, p) else Owns(if p[0] then r else l, p[1..])
  }

  ghost predicate Disjoint(a: Id, b: Id) {
    forall p :: !(Owns(a, p) && Owns(b, p))
  }

  /** Divides ownership into two halves (each fork gets one of them). */
  function Split(i: Id): (Id, Id) {
    match i
    case Leaf(b) =>
      if b then (Node(One, Zero), Node(Zero, One)) else (Zero, Zero)
    case Node(l, r) =>
      if l == Zero then
        var (r1, r2) := Split(r); (Node(Zero, r1), Node(Zero, r2))
      else if r == Zero then
        var (l1, l2) := Split(l); (Node(l1, Zero), Node(l2, Zero))
      else
        (Node(l, Zero), Node(Zero, r))
  }

  /** Union of two identities; fails when both own some position. */
  function Sum(a: Id, b: Id): Result<Id> {
    if a == Zero then Ok(b)
    else if b == Zero then Ok(a)
    else match (a, b)
      case (Node(l1, r1), Node(l2, r2)) =>
        (match (Sum(l1, l2), Sum(r1, r2))
         case (Ok(l), Ok(r)) => Ok(NormalizeNode(l, r))
         case _ => Fail(NonDisjointIds))
      case _ => Fail(NonDisjointIds)
  }

  lemma OwnsNormalizeNode(l: Id, r: Id, p: seq<bool>)
    ensures Owns(NormalizeNode(l, r), p) == Owns(Node(l, r), p)
  {
  }

  /** Splitting a normalized identity yields two normalized halves, neither empty unless the input was. */
  lemma {:induction false} SplitNormalized(i: Id)
    requires Normalized(i)
    ensures Normalized(Split(i).0) && Normalized(Split(i).1)
    ensures i != Zero ==> Split(i).0 != Zero && Split(i).1 != Zero
  {
    match i
    case Leaf(_) =>
    case Node(l, r) =>
      if l == Zero {
        SplitNormalized(r);
      } else if r == Zero {
        SplitNormalized(l);
      }
  }

  /** The two halves of a split are disjoint and together own exactly what the input owned. */
  lemma {:induction false} SplitOwns(i: Id, p: seq<bool>)
    ensures !(Owns(Split(i).0, p) && Owns(Split(i).1, p))
    ensures Owns(i, p) == (Owns(Split(i).0, p) || Owns(Split(i).1, p))
  {
    match i
    case Leaf(_) =>
    case Node(l, r) =>
      if l == Zero {
        if |p| > 0 && p[0] { SplitOwns(r, p[1..]); }
      } else if r == Zero {
        if |p| == 0 { SplitOwns(l, p); }
        else if !p[0] { SplitOwns(l, p[1..]); }
      }
  }

  /** Summing the halves of a split gives back the normalized identity that was split. */
  lemma {:induction false} SplitSumRoundTrip(i: Id)
    requires Normalized(i)
    ensures Sum(Split(i).0, Split(i).1) == Ok(i)
  {
    match i
    case Leaf(_) =>
    case Node(l, r) =>
      if l == Zero {
        SplitSumRoundTrip(r);
      } else if r == Zero {
        SplitSumRoundTrip(l);
      } else {
        assert Sum(l, Zero) == Ok(l);
        assert Sum(Zero, r) == Ok(r);
      }
  }

  lemma {:induction false} SumCommutes(a: Id, b: Id)
    ensures Sum(a, b) == Sum(b, a)
  {
    if a != Zero && b != Zero && a.Node? && b.Node? {
      SumCommutes(a.l, b.l);
      SumCommutes(a.r, b.r);
      assert NormalizeNode(a.l, a.r) == NormalizeNode(a.l, a.r);
    }
  }

  /** A normalized identity that owns something cannot be summed with itself. */
  lemma {:induction false} SumSelfFails(i: Id)
    requires Normalized(i) && i != Zero
    ensures Sum(i, i).Fail?
  {
    match i
    case Leaf(_) =>
    case Node(l, r) =>
      if l != Zero { SumSelfFails(l); } else { SumSelfFails(r); }
  }

  /** Every normalized identity other than 0 owns some position. */
  lemma {:induction false} OwnedWitness(i: Id) returns (p: seq<bool>)
    requires Normalized(i) && i != Zero
    ensures Owns(i, p)
  {
    match i
    case Leaf(_) =>
      p := [];
    case Node(l, r) =>
      if l != Zero {
        var q := OwnedWitness(l);
        p := [false] + q;
        assert p[1..] == q;
      } else {
        var q := OwnedWitness(r);
        p := [true] + q;
        assert p[1..] == q;
      }
  }

  /** What a successful sum owns is exactly the union of what its arguments own, and they were disjoint. */
  lemma {:induction false} SumOwns(a: Id, b: Id, p: seq<bool>)
    requires Sum(a, b).Ok?
    ensures !(Owns(a, p) && Owns(b, p))
    ensures Owns(Sum(a, b).value, p) == (Owns(a, p) || Owns(b, p))
  {
    if a != Zero && b != Zero {
      var l := Sum(a.l, b.l).value;
      var r := Sum(a.r, b.r).value;
      OwnsNormalizeNode(l, r, p);
      if |p| == 0 {
        SumOwns(a.l, b.l, p);
      } else if p[0] {
        SumOwns(a.r, b.r, p[1..]);
      } else {
        SumOwns(a.l, b.l, p[1..]);
      }
    }
  }

  /** SplitOwns for all positions at once. */
  lemma SplitDivides(i: Id)
    ensures Disjoint(Split(i).0, Split(i).1)
    ensures forall p :: Owns(i, p) == (Owns(Split(i).0, p) || Owns(Split(i).1, p))
  {
    forall p ensures !(Owns(Split(i).0, p) && Owns(Split(i).1, p))
      && Owns(i, p) == (Owns(Split(i).0, p) || Owns(Split(i).1, p)) {
      SplitOwns(i, p);
    }
  }

  /** SumOwns for all positions at once. */
  lemma SumOwnsAll(a: Id, b: Id)
    requires Sum(a, b).Ok?
    ensures Disjoint(a, b)
    ensures forall p :: Owns(Sum(a, b).value, p) == (Owns(a, p) || Owns(b, p))
  {
    forall p ensures !(Owns(a, p) && Owns(b, p))
      && Owns(Sum(a, b).value, p) == (Owns(a, p) || Owns(b, p)) {
      SumOwns(a, b, p);
    }
  }

  /** OwnedWitness without naming the position. */
  lemma OwnsSomething(i: Id)
    requires Normalized(i) && i != Zero
    ensures exists p :: Owns(i, p)
  {
    var p := OwnedWitness(i);
  }

  lemma OwnsLeft(l: Id, r: Id, q: seq<bool>)
    ensures Owns(Node(l, r), [false] + q) == Owns(l, q)
  {
    assert ([false] + q)[1..] == q;
  }

  lemma OwnsRight(l: Id, r: Id, q: seq<bool>)
    ensures Owns(Node(l, r), [true] + q) == Owns(r, q)
  {
    assert ([true] + q)[1..] == q;
  }

  /** On normalized identities, Sum succeeds exactly when the two are disjoint. */
  lemma {:induction false} SumDefinedIffDisjoint(a: Id, b: Id)
    requires Normalized(a) && Normalized(b)
    ensures Sum(a, b).Ok? <==> Disjoint(a, b)
  {
    if Sum(a, b).Ok? {
      forall p ensures !(Owns(a, p) && Owns(b, p)) { SumOwns(a, b, p); }
    } else if a == One {
      var p := OwnedWitness(b);
      assert Owns(a, p) && Owns(b, p);
    } else if b == One {
      var p := OwnedWitness(a);
      assert Owns(a, p) && Owns(b, p);
    } else {
      assert a.Node? && b.Node?;
      if Sum(a.l, b.l).Fail? {
        SumDefinedIffDisjoint(a.l, b.l);
        var q :| Owns(a.l, q) && Owns(b.l, q);
        OwnsLeft(a.l, a.r, q);
        OwnsLeft(b.l, b.r, q);
      } else {
        SumDefinedIffDisjoint(a.r, b.r);
        var q :| Owns(a.r, q) && Owns(b.r, q);
        OwnsRight(a.l, a.r, q);
        OwnsRight(b.l, b.r, q);
      }
    }
  }

  /** The sum of normalized identities is normalized. */
  lemma {:induction false} SumNormalized(a: Id, b: Id)
    requires Normalized(a) && Normalized(b) && Sum(a, b).Ok?
    ensures Normalized(Sum(a, b).value)
  {
    if a != Zero && b != Zero {
      SumNormalized(a.l, b.l);
      SumNormalized(a.r, b.r);
    }
  }
}
