/**
 The bijectivity check of `topology::Homeomorphism`: the stored forward
 mapping must send the domain's points one-to-one onto the range's points.
 */
module Homeomorphisms {
  import opened Spaces

  /** The set of images of the points of `s`. */
  function Image(f: Point -> Point, s: set<Point>): set<Point>
  {
    set x | x in s :: f(x)
  }

  /** No two distinct points of `s` share an image. */
  ghost predicate InjectiveOn(f: Point -> Point, s: set<Point>)
  {
    forall x, y :: x in s && y in s && f(x) == f(y) ==> x == y
  }

  /** Every point of `s` is sent into `t`. */
  ghost predicate MapsInto(f: Point -> Point, s: set<Point>, t: set<Point>)
  {
    forall x :: x in s ==> f(x) in t
  }

  /** `f` is a bijection from `dom` onto `ran`: one-to-one, into `ran`, and
      every point of `ran` is reached. */
  ghost predicate BijectiveOnto(f: Point -> Point, dom: set<Point>, ran: set<Point>)
  {
    InjectiveOn(f, dom) && MapsInto(f, dom, ran) && Image(f, dom) == ran
  }

  /** Adding one point to a set adds its image to the image set. */
  lemma ImageInsert(f: Point -> Point, s: set<Point>, x: Point)
    ensures Image(f, s + {x}) == Image(f, s) + {f(x)}
  {
  }

  /** A one-to-one mapping has as many images as arguments. */
  lemma {:induction false} InjectiveImageSize(f: Point -> Point, s: set<Point>)
    requires InjectiveOn(f, s)
    ensures |Image(f, s)| == |s|
  {
    if s != {} {
      NonEmptyHasElement(s);
      var x :| x in s;
      var rest := s - {x};
      assert InjectiveOn(f, rest);
      InjectiveImageSize(f, rest);
      ImageInsert(f, rest, x);
      assert rest + {x} == s;
      assert f(x) !in Image(f, rest);
    }
  }

  /** No mapping has more images than arguments. */
  lemma {:induction false} ImageSizeBound(f: Point -> Point, s: set<Point>)
    ensures |Image(f, s)| <= |s|
  {
    if s != {} {
      NonEmptyHasElement(s);
      var x :| x in s;
      var rest := s - {x};
      ImageSizeBound(f, rest);
      ImageInsert(f, rest, x);
      assert rest + {x} == s;
    }
  }

  /** Two points of `s` with one image leave strictly fewer images than
      points. */
  lemma CollisionShrinksImage(f: Point -> Point, s: set<Point>)
    requires !InjectiveOn(f, s)
    ensures |Image(f, s)| < |s|
  {
    var x, y :| x in s && y in s && f(x) == f(y) && x != y;
    var rest := s - {x};
    ImageSizeBound(f, rest);
    ImageInsert(f, rest, x);
    assert rest + {x} == s;
    assert f(x) in Image(f, rest) by {
      assert y in rest;
    }
  }

  /** A mapping is one-to-one on `s` exactly when it loses no point of `s`
      in its image. */
  lemma InjectiveIffImageSize(f: Point -> Point, s: set<Point>)
    ensures InjectiveOn(f, s) <==> |Image(f, s)| == |s|
  {
    if InjectiveOn(f, s) {
      InjectiveImageSize(f, s);
    } else {
      CollisionShrinksImage(f, s);
    }
  }

  /** The bijectivity test in terms of images and counts alone: the image
      set is the range and no two points collide. */
  lemma BijectiveIffImageAndCount(f: Point -> Point, dom: set<Point>, ran: set<Point>)
    ensures BijectiveOnto(f, dom, ran) <==> Image(f, dom) == ran && |Image(f, dom)| == |dom|
  {
    InjectiveIffImageSize(f, dom);
  }

  /** Spaces related by a bijection have equally many points. */
  lemma BijectiveSameSize(f: Point -> Point, dom: set<Point>, ran: set<Point>)
    requires BijectiveOnto(f, dom, ran)
    ensures |dom| == |ran|
  {
    InjectiveImageSize(f, dom);
  }

  /** A mapping undone by `g` on `dom` and whose images are exactly `ran`
      is a bijection from `dom` onto `ran`. */
  lemma LeftInverseBijective(f: Point -> Point, g: Point -> Point, dom: set<Point>, ran: set<Point>)
    requires forall x :: x in dom ==> g(f(x)) == x
    requires Image(f, dom) == ran
    ensures BijectiveOnto(f, dom, ran)
  {
  }

  class Homeomorphism {
    const forward: Point -> Point
    const inverse: Point -> Point

    /** Keeps the mapping and its inverse; the two spaces are only consulted
        for diagnostics, which this model leaves out. */
    constructor (forward: Point -> Point, inverse: Point -> Point, domain: Space, range: Space)
      ensures this.forward == forward && this.inverse == inverse
    {
      this.forward := forward;
      this.inverse := inverse;
    }

    /** Walks the domain's points, rejecting a repeated image or an image
        outside the range, then requires the images to be the whole
        range. */
    method IsBijective(domain: Space, range: Space) returns (b: bool)
      ensures b <==> BijectiveOnto(forward, domain.points, range.points)
      ensures b ==> |domain.points| == |range.points|
    {
      var mappedValues: set<Point> := {};
      var todo := domain.GetPoints();
      ghost var done: set<Point> := {};
      while todo != {}
        invariant todo !! done && todo + done == domain.points
        invariant mappedValues == Image(forward, done)
        invariant InjectiveOn(forward, done)
        invariant mappedValues <= range.points
        decreases todo
      {
        NonEmptyHasElement(todo);
        var x :| x in todo;
        var y := forward(x);
        var rangePoints := range.GetPoints();
        if y in mappedValues || y !in rangePoints {
          if y in mappedValues {
            ghost var z :| z in done && forward(z) == y;
            assert x in domain.points && z in domain.points && x != z;
          } else {
            assert x in domain.points;
          }
          return false;
        }
        ImageInsert(forward, done, x);
        mappedValues := mappedValues + {y};
        done := done + {x};
        todo := todo - {x};
      }
      var rangePoints := range.GetPoints();
      b := mappedValues == rangePoints;
      assert done == domain.points;
      if b {
        BijectiveSameSize(forward, domain.points, range.points);
      }
    }
  }
}
