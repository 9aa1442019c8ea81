/**
 * The client's local cube list: positions in placement order, with a
 * deduplicating append.
 */
module CubeState {
  import opened Protocol

  /** The componentwise test `addCube` applies to each stored cube. */
  predicate SameCell(a: Position, b: Position) {
    a.x == b.x && a.y == b.y && a.z == b.z
  }

  /** `cubes.some(cube => SameCell(cube, p))`. */
  function Occupied(cubes: seq<Position>, p: Position): (found: bool)
    ensures found <==> exists i :: 0 <= i < |cubes| && cubes[i] == p
    decreases |cubes|
  {
    if cubes == [] then false
    else SameCell(cubes[0], p) || Occupied(cubes[1..], p)
  }

  /** The `addCube` reducer. */
  function AddCube(cubes: seq<Position>, p: Position): (r: seq<Position>)
    ensures p in cubes ==> r == cubes
    ensures p !in cubes ==> r == cubes + [p]
  {
    if Occupied(cubes, p) then cubes else cubes + [p]
  }

  predicate Distinct(cubes: seq<Position>) {
    forall i, j :: 0 <= i < j < |cubes| ==> cubes[i] != cubes[j]
  }

  /** Adding keeps the cubes pairwise distinct, keeps the old ones in order, and grows by at most one. */
  lemma AddCubeKeepsDistinct(cubes: seq<Position>, p: Position)
    requires Distinct(cubes)
    ensures Distinct(AddCube(cubes, p))
    ensures AddCube(cubes, p)[..|cubes|] == cubes
    ensures |cubes| <= |AddCube(cubes, p)| <= |cubes| + 1
    ensures p in AddCube(cubes, p)
  {
  }

  lemma AddCubeIdempotent(cubes: seq<Position>, p: Position)
    ensures AddCube(AddCube(cubes, p), p) == AddCube(cubes, p)
  {
  }

  /** Adding a list one cube at a time, from an empty list, never gives a repeat. */
  function AddAll(cubes: seq<Position>, ps: seq<Position>): seq<Position>
    decreases |ps|
  {
    if ps == [] then cubes else AddAll(AddCube(cubes, ps[0]), ps[1..])
  }

  lemma {:induction false} AddAllDistinct(cubes: seq<Position>, ps: seq<Position>)
    requires Distinct(cubes)
    ensures Distinct(AddAll(cubes, ps))
    ensures forall q :: q in cubes || q in ps <==> q in AddAll(cubes, ps)
    decreases |ps|
  {
    if ps != [] {
      AddCubeKeepsDistinct(cubes, ps[0]);
      AddAllDistinct(AddCube(cubes, ps[0]), ps[1..]);
      forall q ensures q in ps <==> q == ps[0] || q in ps[1..] {
        assert ps == [ps[0]] + ps[1..];
      }
    }
  }
}
