# Environment client helpers: space shapes, box shape and video file names

This project models the local logic of the environment client in
`pkg/v1/env/env.go`. The client talks to a remote reinforcement-learning
environment server. Almost everything it does is a remote call. What it
computes itself is modelled here:

- **Space-shape resolution** (`Spaces`). A remote space is a `Box`, a
  `Discrete`, a `MultiDiscrete` or a struct space; any other value of the
  one-of is `Unknown`. `SpaceShape` sizes a space by arity: a discrete space
  gives `[1]` and a multi-discrete space gives `[number of sub-spaces]`.
  `PotentialsShape` sizes it by cardinality: `[N]` for a discrete space, and
  the list of sub-space sizes for a multi-discrete one. A box gives its
  declared dimensions in both. Struct spaces, unknown spaces and an empty
  computed shape are fatal in the source (`logger.Fatalf`). Here they return
  `Err` with the message the source would log: `StructNotSupported`,
  `UnknownSpaceType` or `NoShape`.
- **`Env.BoxSpace`** (`Environment.Env.BoxSpace`). It widens the box's `int32`
  dimensions to `int` in a loop. It fails exactly when the observation
  space is not a box.
- **Video file naming in `Env.Videos`** (`Environment`, `Decimal`, `FilePath`).
  An empty directory becomes `./results/<id>`. Each episode's file is
  `filepath.Join(dir, "<id>-episode<n>.mp4")`, where `<n>` is written with
  `%d`. `Decimal` models `%d` with a parser that reads the number back, and
  the round trip between them is proved. `FilePath` models Go's
  `filepath.Join` and `filepath.Clean` for the Unix separator. Go's standard
  library is not part of this model; its documented lexical rules are
  followed. Because `Join` cleans its result:
  - with no directory given and an id that is a plain name (not empty, not
    `.` or `..`, no `/`), the file is `results/<id>/<id>-episode<n>.mp4`,
    without the leading `./`;
  - in a clean directory `d` other than `.` and `/`, with an id that has no
    `/`, the file is `d/<id>-episode<n>.mp4`;
  - for every directory and every id, the file ends in
    `<last element of id>-episode<n>.mp4`, after a part that does not depend
    on the episode. So two distinct episodes never share a file.

The remote calls in `Videos` are parameters of the model. The outcome of
the `Results` call is an `Option`. Whether each episode's stream download
and file write succeed is a function of the episode id. The order of the
episodes is the order in which the Go map of videos is walked, which Go
leaves unspecified, so it is an input too.

`common.Int32SliceToInt` is not part of this model's sources. It is taken
to be the element-wise widening it is named for (`Spaces.Int32SliceToInt`).

## Model

| member | source | states |
|---|---|---|
| `Spaces.Int32SliceToInt` | pkg/v1/env/env.go:352 | the converted shape has the same length and, position by position, the same values as the `int32` slice |
| `Spaces.SpaceShape` | pkg/v1/env/env.go:348-366 | a shape that succeeds is never empty |
| `Spaces.PotentialsShape` | pkg/v1/env/env.go:369-387 | a potentials shape that succeeds is never empty |
| `Spaces.SpaceShapeOfDiscrete` | pkg/v1/env/env.go:353-354 | a discrete space has shape `[1]` whatever its number of values |
| `Spaces.PotentialsShapeOfDiscrete` | pkg/v1/env/env.go:374-375 | the potentials of a discrete space with `N` values have shape `[N]` |
| `Spaces.ShapesOfMultiDiscrete` | pkg/v1/env/env.go:355-377 | a multi-discrete space has shape `[k]` for `k` sub-spaces, even for `k = 0`; its potentials shape is the list of sub-space sizes in order, and is the no-shape fault when there are no sub-spaces |
| `Spaces.SpaceShapeIsArityOfPotentials` | pkg/v1/env/env.go:353-377 | for discrete and multi-discrete spaces, whenever the potentials shape exists, the shape is the one-element list of its length |
| `Spaces.ShapesOfBox` | pkg/v1/env/env.go:351-373 | on a box both functions agree; they succeed exactly when the box has dimensions, and then return them widened with length and order kept; otherwise they give the no-shape fault |
| `Spaces.ArityShapeOfDiscreteKinds` | pkg/v1/env/env.go:353-364 | the shape of a discrete or multi-discrete space always exists and has exactly one element |
| `Spaces.SpaceShapeFaults` | pkg/v1/env/env.go:350-364 | SpaceShape fails exactly for struct spaces, unknown spaces and boxes without dimensions, each with its own message |
| `Spaces.PotentialsShapeFaults` | pkg/v1/env/env.go:371-385 | PotentialsShape fails exactly for struct spaces, unknown spaces, boxes without dimensions and multi-discrete spaces without sub-spaces |
| `Spaces.PotentialsFailWhereShapeFails` | pkg/v1/env/env.go:348-387 | where SpaceShape fails, PotentialsShape fails with the same message; the only extra failure of PotentialsShape is a multi-discrete space without sub-spaces |
| `Decimal.FormatNat` | pkg/v1/env/env.go:257 | `%d` of a natural number is a non-empty run of digits with no leading zero |
| `Decimal.FormatInt` | pkg/v1/env/env.go:257 | `%d` of an integer is non-empty, made of digits after an optional `-`, and starts with `-` exactly for negative numbers |
| `Decimal.DigitsValueOfFormatNat` | pkg/v1/env/env.go:257 | the digits written for `n` have the value `n` |
| `Decimal.FormatIntRoundTrip` | pkg/v1/env/env.go:257 | parsing what `%d` wrote gives back the number |
| `Decimal.FormatIntInjective` | pkg/v1/env/env.go:257 | distinct numbers are written differently |
| `FilePath.Clean` | pkg/v1/env/env.go:257 | `filepath.Clean` never returns an empty path, and keeps a rooted path rooted |
| `FilePath.Join` | pkg/v1/env/env.go:257 | `filepath.Join` of two elements is empty exactly when both are empty |
| `FilePath.CleanEndsInName` | pkg/v1/env/env.go:257 | when a path's last element is a name, cleaning keeps it last, after a part that depends only on the elements before it |
| `FilePath.CleanIdempotent` | pkg/v1/env/env.go:257 | cleaning a path a second time changes nothing |
| `FilePath.JoinIsClean` | pkg/v1/env/env.go:257 | every non-empty result of `Join` is already clean |
| `FilePath.JoinCleanDir` | pkg/v1/env/env.go:257 | joining a clean directory other than `.` and `/` with a file name gives `dir/name` |
| `FilePath.CleanDropsLeadingDot` | pkg/v1/env/env.go:244-257 | a leading `./` before a relative path of plain names is dropped by cleaning |
| `Environment.VideoDir` | pkg/v1/env/env.go:243-245 | the directory is never empty; a non-empty path is kept unchanged and an empty one becomes `./results/<id>` |
| `Environment.DefaultVideoDirCleans` | pkg/v1/env/env.go:243-245 | for a plain-name id the default directory cleans to `results/<id>` |
| `Environment.EpisodeSuffix` | pkg/v1/env/env.go:257 | `-episode<n>.mp4` is always one path element, neither `.` nor `..` |
| `Environment.EpisodeSuffixReadBack` | pkg/v1/env/env.go:257 | the episode id is read back from the digits between `-episode` and `.mp4` |
| `Environment.EpisodeSuffixInjective` | pkg/v1/env/env.go:257 | distinct episodes give distinct suffixes |
| `Environment.VideoFileName` | pkg/v1/env/env.go:257 | `<id>-episode<n>.mp4` is one path element when the id has no `/` |
| `Environment.VideoFileNameSegments` | pkg/v1/env/env.go:257 | the suffix extends only the last path element of the id; the elements before it are unchanged |
| `Environment.VideoFileNameInjective` | pkg/v1/env/env.go:257 | the episode id can be read back from the file name, so distinct episodes get distinct names |
| `Environment.VideoFilePath` | pkg/v1/env/env.go:257 | the path of one episode's file, `filepath.Join(dir, name)`, is never empty |
| `Environment.VideoFilePathIsClean` | pkg/v1/env/env.go:257 | every video file path is already clean |
| `Environment.VideoFilePathEndsInFileName` | pkg/v1/env/env.go:257 | for every directory and id, the path is a part that depends only on directory and id, then the id's last element, then `-episode<n>.mp4` |
| `Environment.VideoFiles` | pkg/v1/env/env.go:251-282 | the list of saved files has one entry per episode |
| `Environment.VideoFilesDistinct` | pkg/v1/env/env.go:251-282 | distinct episodes get pairwise distinct files, so no saved video overwrites another |
| `Environment.VideoFileInCleanDir` | pkg/v1/env/env.go:257 | in a clean directory other than `.` and `/`, with an id without `/`, the video of episode `n` is `<dir>/<id>-episode<n>.mp4` |
| `Environment.VideoFileInDefaultDir` | pkg/v1/env/env.go:243-257 | with no directory given and a plain-name id, the video of episode `n` is `results/<id>/<id>-episode<n>.mp4` |
| `Environment.DistinctEpisodesDistinctFiles` | pkg/v1/env/env.go:242-282 | for every directory and every id, two distinct episodes are saved to two distinct files |
| `Environment.Env.constructor` | pkg/v1/env/env.go:116-119 | a new handle has the created environment's id and spaces and no video paths |
| `Environment.Env.ActionSpaceShape` | pkg/v1/env/env.go:338-340 | the action space's shape is never empty; it has one axis for a discrete or multi-discrete space; it fails exactly for a struct space, an unknown space or a box without dimensions |
| `Environment.Env.ObservationSpaceShape` | pkg/v1/env/env.go:343-345 | the observation space's shape is never empty; it has one axis for a discrete or multi-discrete space; it fails exactly for a struct space, an unknown space or a box without dimensions |
| `Environment.Env.BoxSpace` | pkg/v1/env/env.go:404-419 | errs exactly when the observation space is not a box, naming that space; otherwise the shape has the box's length and each element widened in order; when that shape is non-empty it is the observation space's SpaceShape |
| `Environment.Env.Videos` | pkg/v1/env/env.go:242-285 | a failed Results call is an error; otherwise the call succeeds exactly when every episode's download succeeds, and the error names the first episode that failed; on success it returns and records the file of every episode in order under the directory VideoDir chooses; on failure the recorded paths are unchanged |

## Left out

- `NewLocalServer` and its retry loop (pkg/v1/env/env.go:48-83): launching a docker container and dialling gRPC. The backoff lives in the `dockertest` library, which is not part of this model.
- `Make`, `Step`, `SampleAction`, `Reset`, `Close` and `WithNormalizer` (pkg/v1/env/env.go:103-196): single remote calls whose behaviour belongs to the server, and an opaque normalizer. Only the handle `Make` builds is modelled, as the `Env` constructor. `Reset` also computes a normalized observation but returns the raw one.
- `Results` (pkg/v1/env/env.go:211-228): a remote call followed by a `float32` average. The average divides by zero when there are no episodes. Floating point is not modelled. `Videos` takes the call's outcome as a parameter instead.
- The stream download and file writes of `Videos`: file system I/O. Their success is the `downloaded` parameter. A failed call may leave files partly written on disk, and that is not modelled.
- `End`, `PlayAll`, `Clean`, `Print`, `PrintResults` (pkg/v1/env/env.go:230-334, 421-424): logging, stdin, an external video player, file removal and `log.Fatal`.
- The `High` and `Low` tensors of `BoxSpace` (pkg/v1/env/env.go:413-414): tensor construction belongs to a foreign library. Only the shape and the error branch are modelled.
- Environment.Env.BoxSpace: a `Box` one-of holding a nil box message is not distinguished from a box with no dimensions. The source's `GetBox()` treats that case as "not a box", while the shape functions treat it as an empty shape.
- Spaces.SpaceShape and Spaces.PotentialsShape: a `Discrete` or `MultiDiscrete` one-of that holds a nil message cannot be expressed. The source reads `s.Discrete.N` and `s.MultiDiscrete.DiscreteSpaces` directly (pkg/v1/env/env.go:356, 375, 377), so such a value panics there: `&Space_MultiDiscrete{}` in both functions and `&Space_Discrete{}` in PotentialsShape. The model returns a result for every space it can represent. Decoding a message from the wire never produces such a value.
- Environment.Env.Videos: the order of the returned paths is the order of the input sequence. In the source it is Go's unspecified map iteration order.
- `FilePath` models Go's `filepath.Join` and `filepath.Clean` for the Unix separator only. Windows volume names and separators are not modelled.
