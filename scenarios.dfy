/**
 Concrete spaces and mappings from the repository's test programs, with
 what the model says about them.
 */
module Scenarios {
  import opened Spaces
  import opened Homeomorphisms

  /** The shift used throughout the tests, and its inverse. */
  function ShiftUp(x: Point): Point { x + 3.0 }
  function ShiftDown(y: Point): Point { y - 3.0 }

  /** {1, 2, 3} is sent one-to-one onto {4, 5, 6} by the shift, and back by
      its inverse: the homeomorphic pair of the tests. */
  lemma ShiftOntoFourFiveSix()
    ensures BijectiveOnto(ShiftUp, {1.0, 2.0, 3.0}, {4.0, 5.0, 6.0})
    ensures BijectiveOnto(ShiftDown, {4.0, 5.0, 6.0}, {1.0, 2.0, 3.0})
  {
  }

  /** Against the range {4, 5, 7} the shift fails, because 3 is sent to 6,
      which is not in the range. */
  lemma ShiftMissesSeven()
    ensures ShiftUp(3.0) !in {4.0, 5.0, 7.0}
    ensures !BijectiveOnto(ShiftUp, {1.0, 2.0, 3.0}, {4.0, 5.0, 7.0})
  {
  }

  /** No mapping sends {1, 2, 3} bijectively onto {4, 5, 6, 7}: the counts
      differ. */
  lemma NothingOntoFourPoints(f: Point -> Point)
    ensures !BijectiveOnto(f, {1.0, 2.0, 3.0}, {4.0, 5.0, 6.0, 7.0})
  {
  }

  /** In the space {1, 2, 3} with open sets {1, 2} and {2, 3}: a listed set
      is open, their union is not, {3} is closed because {1, 2} is open, and
      the whole space is not closed because the empty set is not listed. */
  lemma OverlappingPairsSpace(sp: Space)
    requires sp.points == {1.0, 2.0, 3.0}
    requires sp.openSets == {{1.0, 2.0}, {2.0, 3.0}}
    ensures sp.IsOpen({1.0, 2.0}) && !sp.IsOpen({1.0, 2.0, 3.0})
    ensures sp.IsClosed({3.0}) && !sp.IsClosed({1.0, 2.0, 3.0})
  {
  }

  /** In the same space the whole point set, which is not open, is still a
      neighborhood of 1, while {2} is not a neighborhood of 2, since no
      listed open set fits inside it. */
  lemma OverlappingPairsNeighborhoods()
    ensures IsNeighborhoodIn({{1.0, 2.0}, {2.0, 3.0}}, 1.0, {1.0, 2.0, 3.0})
    ensures !IsNeighborhoodIn({{1.0, 2.0}, {2.0, 3.0}}, 2.0, {2.0})
  {
  }
}
