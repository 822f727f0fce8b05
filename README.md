# Finite topological spaces and the bijectivity check

This project models the predicate engine of the `topology` namespace in
`include/homeomorphism.hpp`:

- a `Space` holds a finite set of points and an explicit collection of open
  sets, set once by its constructor. It answers whether a set is open (it is
  literally one of the listed sets), closed (its complement in the space is
  listed), a neighborhood of a point (it includes a listed open set holding
  the point), and computes complements;
- a `Homeomorphism` stores a forward mapping and its inverse, and checks
  whether the forward mapping sends a domain space's points one-to-one onto a
  range space's points.

As in the header, a `Homeomorphism` does not keep the two spaces: they are
arguments of each check.

Points are modelled as exact reals (`Spaces.Point`): the header only compares
and orders its `double` points, never computes with them. The mappings are
total Dafny function values. Both classes keep their state in `const` fields
assigned only by the constructor, so no query can change a space's `points`
or `openSets`; the getters return those (value) sets.

Modules:

- `Spaces` (space.dfy): `Complement` and `IsNeighborhoodIn`, the functional
  specifications, their lemmas, and the `Space` class. `IsNeighborhood` and
  `GetComplement` are loops over the stored sets, proved against those
  specifications; `IsOpen` and `IsClosed` are the header's one-line
  expressions.
- `Homeomorphisms` (homeomorphism.dfy): `Image`, `InjectiveOn`, `MapsInto`
  and `BijectiveOnto`, the counting lemmas that relate them, and the
  `Homeomorphism` class whose `IsBijective` loop is proved against
  `BijectiveOnto`.
- `Scenarios` (scenarios.dfy): the concrete spaces and mappings of the test
  programs, with what the model decides about them.

In `isBijective` (include/homeomorphism.hpp:93) the range test compares
`find` on one temporary copy of the range's points with `end()` of another
copy; such iterators are not comparable, so that early rejection of an image
outside the range cannot be relied upon in the source. The model performs
the intended membership test. The boolean result is the same either way:
when the early rejection does not happen, the final comparison at line 100
rejects every image set that is not exactly the range.

The header's loops visit a `std::set` in ascending order; the model visits
the remaining elements in an unspecified order. Each loop's result is proved
to be the same whatever the order.

## Model

| member | source | states |
|---|---|---|
| `Spaces.Space.constructor` | include/homeomorphism.hpp:22-23 | the space stores exactly the given points and open sets, with no validation |
| `Spaces.Space.GetPoints` | include/homeomorphism.hpp:25 | returns the stored point set |
| `Spaces.Space.GetOpenSets` | include/homeomorphism.hpp:26 | returns the stored collection of open sets |
| `Spaces.Space.IsOpen` | include/homeomorphism.hpp:28 | true exactly when the set is one of the listed open sets (an unlisted union is not open, see `Scenarios.OverlappingPairsSpace`); an open set is a neighborhood of each of its points |
| `Spaces.Space.IsClosed` | include/homeomorphism.hpp:51 | true iff some listed open set holds exactly the points of the space that are not in the set, i.e. the set's complement in the space is listed as open |
| `Spaces.Space.IsNeighborhood` | include/homeomorphism.hpp:30-39 | true iff some listed open set contains `x` and is included in `s`; always false when nothing is listed; true for a listed open set and any of its points |
| `Spaces.NeighborhoodMonotone` | include/homeomorphism.hpp:30-39 | any superset of a neighborhood of `x` is a neighborhood of `x` |
| `Spaces.Space.GetComplement` | include/homeomorphism.hpp:41-49 | the result is exactly the points of the space not in `s`: within the points, disjoint from `s`, and holding every such point |
| `Spaces.ComplementInvolution` | include/homeomorphism.hpp:41-49 | complementing twice gives `s ∩ points` |
| `Spaces.ComplementIgnoresOutside` | include/homeomorphism.hpp:41-49 | elements of `s` outside the space do not change its complement |
| `Spaces.Space.ClosedOpenDuality` | include/homeomorphism.hpp:28-51 | for a set within the space, it is open iff its complement is closed |
| `Spaces.Space.WholeSpaceClosedIffEmptyOpen` | include/homeomorphism.hpp:51 | the whole point set is closed iff the empty set is listed as open |
| `Spaces.Space.EmptyClosedIffWholeSpaceOpen` | include/homeomorphism.hpp:51 | the empty set is closed iff the whole point set is listed as open |
| `Homeomorphisms.Homeomorphism.constructor` | include/homeomorphism.hpp:61-63 | stores the forward mapping and its inverse |
| `Homeomorphisms.Homeomorphism.IsBijective` | include/homeomorphism.hpp:88-101 | true iff the mapping is one-to-one on the domain points, sends each into the range points, and its images are exactly the range points; a true result implies both spaces have equally many points |
| `Homeomorphisms.InjectiveImageSize` | include/homeomorphism.hpp:89-97 | a mapping with no repeated image has as many images as domain points |
| `Homeomorphisms.InjectiveIffImageSize` | include/homeomorphism.hpp:89-97 | a mapping is one-to-one on a set iff its image set is as large as the set |
| `Homeomorphisms.BijectiveIffImageAndCount` | include/homeomorphism.hpp:88-101 | the check passes iff the image set equals the range points and has as many elements as the domain points |
| `Homeomorphisms.BijectiveSameSize` | include/homeomorphism.hpp:88-101 | spaces related by a passing check have equally many points |
| `Homeomorphisms.LeftInverseBijective` | include/homeomorphism.hpp:56-57 | a mapping undone by its inverse on the domain, whose images are the range, passes the check |
| `Scenarios.ShiftOntoFourFiveSix` | tests/test-homeomorphism.cpp:5-20 | `x + 3` sends {1, 2, 3} one-to-one onto {4, 5, 6} |
| `Scenarios.ShiftMissesSeven` | tests/test-homeomorphism.cpp:7-37 | against the range {4, 5, 7} the check fails because 3 is sent to 6, outside the range |
| `Scenarios.NothingOntoFourPoints` | tests/test3.cpp:35-46 | no mapping at all sends {1, 2, 3} bijectively onto {4, 5, 6, 7}, because the counts differ |
| `Scenarios.OverlappingPairsSpace` | tests/test-sets.cpp:5 | with open sets {1, 2} and {2, 3}: {1, 2} is open, their union {1, 2, 3} is not, {3} is closed, and the whole space is not closed |
| `Scenarios.OverlappingPairsNeighborhoods` | tests/test-sets.cpp:5 | in the same space {1, 2, 3} is a neighborhood of 1 though not open, and {2} is not a neighborhood of 2 |

## Left out

- `Homeomorphism::isContinuous` (include/homeomorphism.hpp:76-85): a finite-difference test on `double` values with a tolerance of 0.0001, whose outcome depends on floating-point rounding.
- The constructor's diagnostics (include/homeomorphism.hpp:64-72): it runs the bijectivity and continuity checks only to print messages to standard output; the model's constructor only stores the two mappings.
- `SpaceProperty`, `isValid`, `preservesOpenSets` and `preservesClosedSets`, and a one-argument `Space` constructor, are used by the test programs but not defined in the header, and are not part of this model.
- Floating-point behaviour of points (NaN, infinities, rounding of the test mappings such as `x + 3`): points are exact reals.
- Iteration order: the header walks each `std::set` in ascending order; the model walks it in an unspecified order, which does not change any result.
