/**
 A finite topological space given by an explicit point set and an explicit
 collection of open sets, as in `topology::Space`. No topology axiom is
 enforced: the open sets are whatever the caller lists, and every query
 works on the listed sets exactly.
 */
module Spaces {

  /** A point of a space. Points are only compared for equality and kept in
      sets, never computed with, so an exact real stands for the source's
      double. */
  type Point = real

  /** The points of `points` that are not in `s`; elements of `s` outside
      `points` play no part. */
  function Complement(points: set<Point>, s: set<Point>): set<Point>
  {
    set p | p in points && p !in s
  }

  /** A non-empty set has an element to pick. */
  lemma NonEmptyHasElement(s: set<Point>)
    requires s != {}
    ensures exists p :: p in s
  {
    if forall p :: p !in s {
      assert false;
    }
  }

  /** `s` is a neighborhood of `x`: some listed open set contains `x` and is
      included in `s`. */
  ghost predicate IsNeighborhoodIn(openSets: set<set<Point>>, x: Point, s: set<Point>)
  {
    exists o :: o in openSets && x in o && o <= s
  }

  /** Taking the complement twice keeps exactly the part of `s` that lies in
      the point set. */
  lemma ComplementInvolution(points: set<Point>, s: set<Point>)
    ensures Complement(points, Complement(points, s)) == s * points
  {
  }

  /** Elements of `s` outside the point set do not change the complement. */
  lemma ComplementIgnoresOutside(points: set<Point>, s: set<Point>)
    ensures Complement(points, s) == Complement(points, s * points)
  {
  }

  /** A set is a neighborhood of a point whenever it includes a neighborhood
      of that point. */
  lemma NeighborhoodMonotone(openSets: set<set<Point>>, x: Point, s: set<Point>, t: set<Point>)
    requires IsNeighborhoodIn(openSets, x, s) && s <= t
    ensures IsNeighborhoodIn(openSets, x, t)
  {
  }

  class Space {
    const points: set<Point>
    const openSets: set<set<Point>>

    /** Stores the two collections as given; nothing is validated. */
    constructor (points: set<Point>, openSets: set<set<Point>>)
      ensures this.points == points && this.openSets == openSets
    {
      this.points := points;
      this.openSets := openSets;
    }

    /** A copy of the point set. */
    method GetPoints() returns (r: set<Point>)
      ensures r == points
    {
      r := points;
    }

    /** A copy of the collection of open sets. */
    method GetOpenSets() returns (r: set<set<Point>>)
      ensures r == openSets
    {
      r := openSets;
    }

    /** A set is open exactly when it is one of the listed open sets: no
        union or intersection of listed sets is open unless it is listed. */
    predicate IsOpen(s: set<Point>)
      ensures IsOpen(s) ==> forall x :: x in s ==> IsNeighborhoodIn(openSets, x, s)
    {
      s in openSets
    }

    /** Searches the listed open sets for one that contains `x` and is
        included in `s`, and answers as soon as it finds one. */
    method IsNeighborhood(x: Point, s: set<Point>) returns (b: bool)
      ensures b <==> IsNeighborhoodIn(openSets, x, s)
      ensures openSets == {} ==> !b
      ensures IsOpen(s) && x in s ==> b
    {
      var todo := openSets;
      while todo != {}
        invariant todo <= openSets
        invariant forall o :: o in openSets && o !in todo ==> !(x in o && o <= s)
        decreases todo
      {
        var o :| o in todo;
        if x in o && o <= s {
          return true;
        }
        todo := todo - {o};
      }
      return false;
    }

    /** Collects, one point at a time, the points of the space not in `s`. */
    method GetComplement(s: set<Point>) returns (c: set<Point>)
      ensures c == Complement(points, s)
      ensures c <= points && c !! s && points - s <= c
    {
      c := {};
      var todo := points;
      while todo != {}
        invariant todo <= points
        invariant c == Complement(points - todo, s)
        decreases todo
      {
        NonEmptyHasElement(todo);
        var x :| x in todo;
        if x !in s {
          c := c + {x};
        }
        todo := todo - {x};
      }
    }

    /** A set is closed when its complement in the space is a listed open
        set. */
    predicate IsClosed(s: set<Point>)
      ensures IsClosed(s) <==>
        exists o :: o in openSets && forall p :: p in o <==> p in points && p !in s
    {
      var c := Complement(points, s);
      assert forall o :: o in openSets && (forall p :: p in o <==> p in points && p !in s) ==> o == c by {
        forall o | o in openSets && (forall p :: p in o <==> p in points && p !in s)
          ensures o == c
        {
          assert forall p :: p in o <==> p in c;
        }
      }
      IsOpen(c)
    }

    /** For sets within the space, openness and closedness swap under
        complement. */
    lemma ClosedOpenDuality(s: set<Point>)
      requires s <= points
      ensures IsOpen(s) <==> IsClosed(Complement(points, s))
    {
      ComplementInvolution(points, s);
      assert s * points == s;
    }

    /** The whole space is closed exactly when the empty set is listed as
        open. */
    lemma WholeSpaceClosedIffEmptyOpen()
      ensures IsClosed(points) <==> IsOpen({})
    {
      assert Complement(points, points) == {};
    }

    /** The empty set is closed exactly when the whole space is listed as
        open. */
    lemma EmptyClosedIffWholeSpaceOpen()
      ensures IsClosed({}) <==> IsOpen(points)
    {
      assert Complement(points, {}) == points;
    }
  }
}
