/**
 * Space-shape resolution for the spaces a remote environment declares
 * (pkg/v1/env/env.go, SpaceShape and PotentialsShape).
 *
 * A space is a tagged union. `logger.Fatalf` in the source ends the process;
 * here each fatal path is an `Err` carrying which of the three messages the
 * source would have logged.
 */
module Spaces {
  import opened Wrappers

  /** The protobuf `int32` in which the service sends dimensions and sizes. */
  newtype int32 = x: int | -0x8000_0000 <= x < 0x8000_0000

  /**
   * The `info` one-of of a remote space. `Unknown` stands for every other
   * value of the one-of, including a nil space and an unset field.
   */
  datatype Space =
    | Box(shape: seq<int32>)
    | Discrete(n: int32)
    | MultiDiscrete(discreteSpaces: seq<int32>)
    | StructSpace
    | Unknown

  /** The three fatal messages of SpaceShape and PotentialsShape. */
  datatype ShapeError =
    | StructNotSupported   // "struct space not supported"
    | UnknownSpaceType     // "unknown action space type"
    | NoShape              // "space had no shape"

  type ShapeResult = Result<seq<int>, ShapeError>

  /**
   * `common.Int32SliceToInt`: widens every element to Go's `int`, which holds
   * every `int32` exactly, keeping length and order.
   */
  function Int32SliceToInt(xs: seq<int32>): (r: seq<int>)
    ensures |r| == |xs|
    ensures forall i :: 0 <= i < |xs| ==> r[i] == xs[i] as int
  {
    if xs == [] then [] else [xs[0] as int] + Int32SliceToInt(xs[1..])
  }

  /** The final `len(shape) == 0` check that both functions share. */
  function NonEmpty(shape: seq<int>): ShapeResult
  {
    if |shape| == 0 then Err(NoShape) else Ok(shape)
  }

  /** 
   * The shape of a space by arity: a discrete space is one value, a
   * multi-discrete space one value per sub-space.
   */
  function SpaceShape(space: Space): (r: ShapeResult)
    ensures r.Ok? ==> |r.value| > 0
  {
    match space
    case Box(dims) => NonEmpty(Int32SliceToInt(dims))
    case Discrete(_) => NonEmpty([1])
    case MultiDiscrete(subspaces) => NonEmpty([|subspaces|])
    case StructSpace => Err(StructNotSupported)
    case Unknown => Err(UnknownSpaceType)
  }

  /**
   * The shape of the potentials of a space by cardinality: a discrete space
   * has one potential per value, a multi-discrete space one axis per
   * sub-space, as long as that sub-space's size.
   */
  function PotentialsShape(space: Space): (r: ShapeResult)
    ensures r.Ok? ==> |r.value| > 0
  {
    match space
    case Box(dims) => NonEmpty(Int32SliceToInt(dims))
    case Discrete(n) => NonEmpty([n as int])
    case MultiDiscrete(subspaces) => NonEmpty(Int32SliceToInt(subspaces))
    case StructSpace => Err(StructNotSupported)
    case Unknown => Err(UnknownSpaceType)
  }

  /** A discrete space has shape `[1]` whatever its number of values. */
  lemma SpaceShapeOfDiscrete(n: int32)
    ensures SpaceShape(Discrete(n)) == Ok([1])
  {
  }

  /** The potentials of a discrete space with `n` values form one axis of length `n`. */
  lemma PotentialsShapeOfDiscrete(n: int32)
    ensures PotentialsShape(Discrete(n)) == Ok([n as int])
  {
  }

  /**
   * A multi-discrete space has shape `[k]` for its `k` sub-spaces, even when
   * `k` is zero; its potentials have the sub-space sizes as axes, and there
   * are none when it has no sub-spaces.
   */
  lemma ShapesOfMultiDiscrete(subspaces: seq<int32>)
    ensures SpaceShape(MultiDiscrete(subspaces)) == Ok([|subspaces|])
    ensures |subspaces| == 0 ==> PotentialsShape(MultiDiscrete(subspaces)) == Err(NoShape)
    ensures |subspaces| > 0 ==> PotentialsShape(MultiDiscrete(subspaces)).Ok?
    ensures PotentialsShape(MultiDiscrete(subspaces)).Ok? ==>
      var p := PotentialsShape(MultiDiscrete(subspaces)).value;
      |p| == |subspaces| && forall i :: 0 <= i < |p| ==> p[i] == subspaces[i] as int
  {
  }

  /**
   * For the two discrete kinds, the arity shape is the number of axes of the
   * potentials shape, whenever the latter exists.
   */
  lemma SpaceShapeIsArityOfPotentials(space: Space)
    requires space.Discrete? || space.MultiDiscrete?
    ensures PotentialsShape(space).Ok? ==>
      SpaceShape(space) == Ok([|PotentialsShape(space).value|])
  {
  }

  /**
   * On a box both functions agree: the box's declared dimensions, widened
   * element by element, or the no-shape fault when there are none.
   */
  lemma ShapesOfBox(dims: seq<int32>)
    ensures SpaceShape(Box(dims)) == PotentialsShape(Box(dims))
    ensures SpaceShape(Box(dims)).Ok? <==> |dims| > 0
    ensures |dims| == 0 ==> SpaceShape(Box(dims)) == Err(NoShape)
    ensures SpaceShape(Box(dims)).Ok? ==>
      var s := SpaceShape(Box(dims)).value;
      |s| == |dims| && forall i :: 0 <= i < |s| ==> s[i] == dims[i] as int
  {
  }

  /** The arity shape of a discrete or multi-discrete space always exists and has one axis. */
  lemma ArityShapeOfDiscreteKinds(space: Space)
    requires space.Discrete? || space.MultiDiscrete?
    ensures SpaceShape(space).Ok? && |SpaceShape(space).value| == 1
  {
  }

  /** Exactly when, and with which message, SpaceShape takes the fatal path. */
  lemma SpaceShapeFaults(space: Space)
    ensures SpaceShape(space).Err? <==>
      space.StructSpace? || space.Unknown? || (space.Box? && |space.shape| == 0)
    ensures space.StructSpace? ==> SpaceShape(space) == Err(StructNotSupported)
    ensures space.Unknown? ==> SpaceShape(space) == Err(UnknownSpaceType)
    ensures space.Box? && |space.shape| == 0 ==> SpaceShape(space) == Err(NoShape)
  {
  }

  /** Exactly when, and with which message, PotentialsShape takes the fatal path. */
  lemma PotentialsShapeFaults(space: Space)
    ensures PotentialsShape(space).Err? <==>
      space.StructSpace? || space.Unknown? || (space.Box? && |space.shape| == 0)
      || (space.MultiDiscrete? && |space.discreteSpaces| == 0)
    ensures space.StructSpace? ==> PotentialsShape(space) == Err(StructNotSupported)
    ensures space.Unknown? ==> PotentialsShape(space) == Err(UnknownSpaceType)
  {
  }

  /**
   * Every space SpaceShape rejects, PotentialsShape rejects with the same
   * message; the only space the second rejects beyond these is a
   * multi-discrete space without sub-spaces.
   */
  lemma PotentialsFailWhereShapeFails(space: Space)
    ensures SpaceShape(space).Err? ==> PotentialsShape(space) == SpaceShape(space)
    ensures PotentialsShape(space).Err? && SpaceShape(space).Ok? <==>
      space.MultiDiscrete? && |space.discreteSpaces| == 0
  {
  }
}
