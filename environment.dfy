/**
 * The environment handle of pkg/v1/env/env.go, reduced to what it computes
 * locally: the shapes of its spaces, the shape of its box observation space,
 * and the names of the video files it saves. The remote calls are inputs.
 */
module Environment {
  import opened Wrappers
  import opened Spaces
  import Decimal
  import FilePath

  /** The shape part of the source's `BoxSpace` struct; the two tensors are not modelled. */
  datatype BoxSpaceInfo = BoxSpaceInfo(shape: seq<int>)

  /** "env is not a box space". */
  datatype BoxError = NotABoxSpace(space: Space)

  datatype VideoError =
    | ResultsFailed                   // the Results call returned an error
    | DownloadFailed(episodeId: int32) // fetching or writing this episode's video failed

  /** The directory the videos go to: the given one, or `./results/<id>` when none is given. */
  function VideoDir(path: string, id: string): (dir: string)
    ensures dir != ""
    ensures path != "" ==> dir == path
    ensures path == "" ==> dir == "./results/" + id
  {
    if path == "" then "./results/" + id else path
  }

  /** With a plain-name id, the default directory is `results/<id>` once cleaned. */
  lemma DefaultVideoDirCleans(id: string)
    requires FilePath.IsName(id)
    ensures FilePath.Clean(VideoDir("", id)) == "results/" + id
  {
    var names := ["results", id];
    assert names[1..] == [id];
    assert FilePath.JoinSegs(names) == "results/" + id;
    assert VideoDir("", id) == "." + "/" + FilePath.JoinSegs(names);
    FilePath.CleanDropsLeadingDot(names);
  }

  /** `-episode<episodeId>.mp4`: always one path element. */
  function EpisodeSuffix(episodeId: int32): (r: string)
    ensures FilePath.IsName(r)
  {
    "-episode" + Decimal.FormatInt(episodeId as int) + ".mp4"
  }

  /** The episode id can be read back from its suffix. */
  lemma EpisodeSuffixReadBack(episodeId: int32)
    ensures var r := EpisodeSuffix(episodeId);
      |r| >= 13 && Decimal.ParseInt(r[8..|r| - 4]) == Some(episodeId as int)
  {
    var digits := Decimal.FormatInt(episodeId as int);
    var r := EpisodeSuffix(episodeId);
    assert r[8..|r| - 4] == digits;
    Decimal.FormatIntRoundTrip(episodeId as int);
  }

  /** `<id>-episode<episodeId>.mp4`: one path element when the id has no separator. */
  function VideoFileName(id: string, episodeId: int32): (r: string)
    ensures FilePath.Separator !in id ==> FilePath.IsName(r)
  {
    id + EpisodeSuffix(episodeId)
  }

  /** The suffix only extends the last element of the id. */
  lemma VideoFileNameSegments(id: string, episodeId: int32)
    ensures FilePath.InitSegments(VideoFileName(id, episodeId)) == FilePath.InitSegments(id)
    ensures FilePath.LastSegment(VideoFileName(id, episodeId)) == FilePath.LastSegment(id) + EpisodeSuffix(episodeId)
  {
    FilePath.SplitAppendPlain(id, EpisodeSuffix(episodeId));
  }

  /** The file one episode's video is written to; never empty. */
  function VideoFilePath(dir: string, id: string, episodeId: int32): (r: string)
    ensures r != ""
  {
    FilePath.Join(dir, VideoFileName(id, episodeId))
  }

  /** Every video file path is already clean. */
  lemma VideoFilePathIsClean(dir: string, id: string, episodeId: int32)
    ensures FilePath.Clean(VideoFilePath(dir, id, episodeId)) == VideoFilePath(dir, id, episodeId)
  {
    FilePath.JoinIsClean(dir, VideoFileName(id, episodeId));
  }

  /** The files of the given episodes, in the given order. */
  function VideoFiles(dir: string, id: string, episodes: seq<int32>): (r: seq<string>)
    ensures |r| == |episodes|
  {
    seq(|episodes|, k requires 0 <= k < |episodes| => VideoFilePath(dir, id, episodes[k]))
  }

  /** Distinct episodes have distinct suffixes. */
  lemma EpisodeSuffixInjective(a: int32, b: int32)
    requires EpisodeSuffix(a) == EpisodeSuffix(b)
    ensures a == b
  {
    EpisodeSuffixReadBack(a);
    EpisodeSuffixReadBack(b);
  }

  /** The episode id can be read back from a video file name: distinct episodes, distinct names. */
  lemma VideoFileNameInjective(id: string, a: int32, b: int32)
    requires VideoFileName(id, a) == VideoFileName(id, b)
    ensures a == b
  {
    var sa, sb := EpisodeSuffix(a), EpisodeSuffix(b);
    assert (id + sa)[|id|..] == sa && (id + sb)[|id|..] == sb;
    EpisodeSuffixInjective(a, b);
  }

  /** What the cleaned video path puts before the last element of the id. */
  function VideoDirPrefix(dir: string, id: string): string
  {
    if dir == "" then FilePath.CleanPrefix(FilePath.InitSegments(id), FilePath.IsRooted(id))
    else FilePath.CleanPrefix(FilePath.Split(dir) + FilePath.InitSegments(id), FilePath.IsRooted(dir))
  }

  /** A video file name is rooted exactly when the id is. */
  lemma VideoFileNameRooted(id: string, episodeId: int32)
    ensures FilePath.IsRooted(VideoFileName(id, episodeId)) == FilePath.IsRooted(id)
  {
    var name := VideoFileName(id, episodeId);
    if id == "" {
      assert name == EpisodeSuffix(episodeId) && name[0] == '-';
    } else {
      assert name[0] == id[0];
    }
  }

  /** The last element of the id, with the episode suffix, is a path element of its own. */
  lemma LastFileElementIsName(id: string, episodeId: int32)
    ensures FilePath.IsName(FilePath.LastSegment(id) + EpisodeSuffix(episodeId))
  {
    FilePath.SplitSegmentsHaveNoSeparator(id);
    var l := FilePath.LastSegment(id);
    assert FilePath.Separator !in l;
  }

  /**
   * Whatever the directory and the id, the video file of an episode ends in
   * `<last element of id>-episode<n>.mp4`, after a prefix that does not depend
   * on the episode.
   */
  lemma VideoFilePathEndsInFileName(dir: string, id: string, episodeId: int32)
    ensures VideoFilePath(dir, id, episodeId) ==
      VideoDirPrefix(dir, id) + FilePath.LastSegment(id) + EpisodeSuffix(episodeId)
  {
    var name := VideoFileName(id, episodeId);
    var segs := FilePath.InitSegments(id);
    var last := FilePath.LastSegment(id) + EpisodeSuffix(episodeId);
    LastFileElementIsName(id, episodeId);
    FilePath.SplitAppendPlain(id, EpisodeSuffix(episodeId));
    assert FilePath.Split(name) == segs + [last];
    if dir == "" {
      VideoFileNameRooted(id, episodeId);
      FilePath.JoinNoDirEndsInName(name, segs, last);
    } else {
      FilePath.JoinEndsInName(dir, name, segs, last);
    }
  }

  /** In a clean directory other than `.` and `/`, a video is saved as `<dir>/<id>-episode<n>.mp4`. */
  lemma VideoFileInCleanDir(dir: string, id: string, episodeId: int32)
    requires FilePath.Clean(dir) == dir && dir != "." && dir != "/"
    requires FilePath.Separator !in id
    ensures VideoFilePath(dir, id, episodeId) == dir + "/" + VideoFileName(id, episodeId)
  {
    FilePath.JoinCleanDir(dir, VideoFileName(id, episodeId));
  }

  /**
   * With no directory given and a plain-name id, a video is saved as
   * `results/<id>/<id>-episode<n>.mp4`: the join drops the leading `./`.
   */
  lemma VideoFileInDefaultDir(id: string, episodeId: int32)
    requires FilePath.IsName(id)
    ensures VideoFilePath(VideoDir("", id), id, episodeId) == "results/" + id + "/" + VideoFileName(id, episodeId)
  {
    var name, dir := VideoFileName(id, episodeId), VideoDir("", id);
    assert dir == "./" + "results" + "/" + id;
    assert FilePath.IsName(name);
    FilePath.JoinAfterDot("results", id, name);
    assert VideoFilePath(dir, id, episodeId) == FilePath.Join(dir, name);
  }

  /** Whatever the directory and the id, two episodes never share a video file. */
  lemma DistinctEpisodesDistinctFiles(dir: string, id: string, a: int32, b: int32)
    requires a != b
    ensures VideoFilePath(dir, id, a) != VideoFilePath(dir, id, b)
  {
    VideoFilePathEndsInFileName(dir, id, a);
    VideoFilePathEndsInFileName(dir, id, b);
    var prefix := VideoDirPrefix(dir, id) + FilePath.LastSegment(id);
    var sa, sb := EpisodeSuffix(a), EpisodeSuffix(b);
    assert VideoFilePath(dir, id, a) == prefix + sa;
    assert VideoFilePath(dir, id, b) == prefix + sb;
    if prefix + sa == prefix + sb {
      assert (prefix + sa)[|prefix|..] == sa && (prefix + sb)[|prefix|..] == sb;
      EpisodeSuffixInjective(a, b);
    }
  }

  /** The files of distinct episodes are distinct, so no saved video overwrites another. */
  lemma VideoFilesDistinct(dir: string, id: string, episodes: seq<int32>)
    requires forall i, j :: 0 <= i < j < |episodes| ==> episodes[i] != episodes[j]
    ensures forall i, j :: 0 <= i < j < |episodes| ==> VideoFiles(dir, id, episodes)[i] != VideoFiles(dir, id, episodes)[j]
  {
    forall i, j | 0 <= i < j < |episodes|
      ensures VideoFiles(dir, id, episodes)[i] != VideoFiles(dir, id, episodes)[j]
    {
      DistinctEpisodesDistinctFiles(dir, id, episodes[i], episodes[j]);
    }
  }

  /** A convenience handle on one remote environment. */
  class Env {
    /** The remote environment's identifier. */
    const id: string
    const actionSpace: Space
    const observationSpace: Space
    /** The video files saved by the last successful `Videos` call. */
    var videoPaths: seq<string>

    /** The handle `Make` builds from the created environment; no videos yet. */
    constructor (id: string, actionSpace: Space, observationSpace: Space)
      ensures this.id == id && this.actionSpace == actionSpace && this.observationSpace == observationSpace
      ensures videoPaths == []
    {
      this.id := id;
      this.actionSpace := actionSpace;
      this.observationSpace := observationSpace;
      videoPaths := [];
    }

    /**
     * The shape of the action space, by SpaceShape's rule: never empty, one
     * axis for the discrete kinds, and an error exactly for the spaces
     * SpaceShape rejects.
     */
    function ActionSpaceShape(): (r: ShapeResult)
      ensures r == SpaceShape(actionSpace)
      ensures r.Ok? ==> |r.value| > 0
      ensures actionSpace.Discrete? || actionSpace.MultiDiscrete? ==> r.Ok? && |r.value| == 1
      ensures r.Err? <==> actionSpace.StructSpace? || actionSpace.Unknown? || (actionSpace.Box? && |actionSpace.shape| == 0)
    {
      SpaceShape(actionSpace)
    }

    /**
     * The shape of the observation space, by SpaceShape's rule: never empty,
     * one axis for the discrete kinds, and an error exactly for the spaces
     * SpaceShape rejects.
     */
    function ObservationSpaceShape(): (r: ShapeResult)
      ensures r == SpaceShape(observationSpace)
      ensures r.Ok? ==> |r.value| > 0
      ensures observationSpace.Discrete? || observationSpace.MultiDiscrete? ==> r.Ok? && |r.value| == 1
      ensures r.Err? <==> observationSpace.StructSpace? || observationSpace.Unknown? || (observationSpace.Box? && |observationSpace.shape| == 0)
    {
      SpaceShape(observationSpace)
    }

    /**
     * The observation space as a box: its dimensions widened one by one, or an
     * error when the observation space is not a box. Unlike SpaceShape, an
     * empty box shape is not an error here.
     */
    method BoxSpace() returns (r: Result<BoxSpaceInfo, BoxError>)
      ensures r.Err? <==> !observationSpace.Box?
      ensures r.Err? ==> r.error == NotABoxSpace(observationSpace)
      ensures r.Ok? ==>
        |r.value.shape| == |observationSpace.shape| &&
        forall i :: 0 <= i < |r.value.shape| ==> r.value.shape[i] == observationSpace.shape[i] as int
      ensures r.Ok? && |r.value.shape| > 0 ==> ObservationSpaceShape() == Ok(r.value.shape)
    {
      var space := observationSpace;
      if space.Box? {
        var shape: seq<int> := [];
        for k := 0 to |space.shape|
          invariant |shape| == k
          invariant forall i :: 0 <= i < k ==> shape[i] == space.shape[i] as int
        {
          shape := shape + [space.shape[k] as int];
        }
        assert shape == Int32SliceToInt(space.shape);
        return Ok(BoxSpaceInfo(shape));
      }
      return Err(NotABoxSpace(space));
    }

    /**
     * Names and records the video file of every episode the results list.
     * `results` is the outcome of the Results call (None when it failed) and
     * gives the episodes in the order the results map is walked;
     * `downloaded(e)` says whether fetching episode e's video and writing its
     * file succeed. The first episode that fails ends the call with an error
     * and leaves `videoPaths` as it was.
     */
    method Videos(path: string, results: Option<seq<int32>>, downloaded: int32 -> bool)
      returns (r: Result<seq<string>, VideoError>)
      modifies this
      ensures results.None? ==> r == Err(ResultsFailed)
      ensures results.Some? ==>
        (r.Ok? <==> forall k :: 0 <= k < |results.value| ==> downloaded(results.value[k]))
      ensures results.Some? && r.Err? ==>
        exists k :: 0 <= k < |results.value| && r.error == DownloadFailed(results.value[k]) &&
          !downloaded(results.value[k]) &&
          forall j :: 0 <= j < k ==> downloaded(results.value[j])
      ensures r.Ok? ==> r.value == VideoFiles(VideoDir(path, id), id, results.value)
      ensures r.Ok? ==> videoPaths == r.value
      ensures r.Err? ==> videoPaths == old(videoPaths)
    {
      var dir := VideoDir(path, id);
      if results.None? {
        return Err(ResultsFailed);
      }
      var episodes := results.value;
      var paths: seq<string> := [];
      for k := 0 to |episodes|
        invariant |paths| == k
        invariant forall j :: 0 <= j < k ==> downloaded(episodes[j])
        invariant forall j :: 0 <= j < k ==> paths[j] == VideoFilePath(dir, id, episodes[j])
      {
        if !downloaded(episodes[k]) {
          r := Err(DownloadFailed(episodes[k]));
          assert r.error == DownloadFailed(results.value[k]) && !downloaded(results.value[k]);
          return;
        }
        var fp := VideoFilePath(dir, id, episodes[k]);
        paths := paths + [fp];
      }
      assert paths == VideoFiles(dir, id, episodes);
      videoPaths := paths;
      return Ok(paths);
    }
  }
}
