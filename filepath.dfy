/**
 * The part of Go's `path/filepath` that the video paths go through, with the
 * Unix separator `/`: `Join` of two elements and the `Clean` it applies.
 * `Clean` is lexical: it drops empty and `.` elements, lets `..` cancel the
 * element before it, drops `..` at the start of a rooted path, and writes
 * `.` for a relative path that comes out empty.
 */
module FilePath {

  const Separator: char := '/'

  /** The elements of `s` between separators; `""` has the one element `""`. */
  function Split(s: string): (r: seq<string>)
    ensures |r| > 0
  {
    if s == [] then [""]
    else
      var rest := Split(s[1..]);
      if s[0] == Separator then [""] + rest
      else [[s[0]] + rest[0]] + rest[1..]
  }

  /** The elements written out with a separator between each two. */
  function JoinSegs(segs: seq<string>): string
  {
    if |segs| == 0 then ""
    else if |segs| == 1 then segs[0]
    else segs[0] + [Separator] + JoinSegs(segs[1..])
  }

  /** An element `Clean` keeps as it is. */
  predicate IsSegment(e: string)
  {
    e != "" && e != "." && Separator !in e
  }

  /** An element that names a file or directory: neither `.` nor `..`. */
  predicate IsName(e: string)
  {
    IsSegment(e) && e != ".."
  }

  /**
   * The elements `Clean` has kept so far: each is a segment, and a `..` can
   * only stand behind other `..` elements, and never in a rooted path.
   */
  predicate IsNormal(stack: seq<string>, rooted: bool)
  {
    forall i :: 0 <= i < |stack| ==>
      IsSegment(stack[i]) &&
      (stack[i] == ".." ==> !rooted && forall j :: 0 <= j < i ==> stack[j] == "..")
  }

  /** What `Clean` does with one element `e` on the stack of elements kept so far. */
  function Push(stack: seq<string>, e: string, rooted: bool): seq<string>
  {
    if e == "" || e == "." then stack
    else if e == ".." then
      if |stack| > 0 && stack[|stack| - 1] != ".." then stack[..|stack| - 1]
      else if rooted then stack
      else stack + [".."]
    else stack + [e]
  }

  /** One pass of `Clean` over the elements, `stack` holding those kept so far. */
  function Normalize(segs: seq<string>, rooted: bool, stack: seq<string>): seq<string>
    decreases |segs|
  {
    if segs == [] then stack
    else Normalize(segs[1..], rooted, Push(stack, segs[0], rooted))
  }

  predicate IsRooted(p: string) { |p| > 0 && p[0] == Separator }

  /** The last element of a path. */
  function LastSegment(s: string): string
  {
    Split(s)[|Split(s)| - 1]
  }

  /** The elements of a path before its last one. */
  function InitSegments(s: string): seq<string>
  {
    Split(s)[..|Split(s)| - 1]
  }

  /** `filepath.Clean`. */
  function Clean(p: string): (r: string)
    ensures r != ""
    ensures IsRooted(p) ==> IsRooted(r)
  {
    var rooted := IsRooted(p);
    var body := JoinSegs(Normalize(Split(p), rooted, []));
    if rooted then [Separator] + body
    else if body == "" then "."
    else body
  }

  /** `filepath.Join(dir, name)`: from the first non-empty element on, joined and cleaned. */
  function Join(dir: string, name: string): (r: string)
    ensures r == "" <==> dir == "" && name == ""
  {
    if dir != "" then Clean(dir + [Separator] + name)
    else if name != "" then Clean(name)
    else ""
  }

  // ---------------------------------------------------------------------
  // Split and JoinSegs are inverse to each other.

  lemma {:induction false} SplitNoSeparator(s: string)
    requires Separator !in s
    ensures Split(s) == [s]
  {
    if s != [] {
      SplitNoSeparator(s[1..]);
      assert [s[0]] + s[1..] == s;
    }
  }

  lemma {:induction false} SplitSegmentsHaveNoSeparator(s: string)
    ensures forall k :: 0 <= k < |Split(s)| ==> Separator !in Split(s)[k]
  {
    if s != [] {
      SplitSegmentsHaveNoSeparator(s[1..]);
    }
  }

  /** One step of Split: how the first character of a non-empty string is split off. */
  lemma SplitCons(c: char, t: string)
    ensures Split([c] + t) ==
      if c == Separator then [""] + Split(t) else [[c] + Split(t)[0]] + Split(t)[1..]
  {
    assert ([c] + t)[0] == c && ([c] + t)[1..] == t;
  }

  lemma {:induction false} SplitAtSeparator(a: string, b: string)
    ensures Split(a + [Separator] + b) == Split(a) + Split(b)
    decreases |a|
  {
    if a == [] {
      assert a + [Separator] + b == [Separator] + b;
      SplitCons(Separator, b);
    } else {
      var c, t := a[0], a[1..];
      var tail := t + [Separator] + b;
      assert a == [c] + t;
      assert a + [Separator] + b == [c] + tail;
      SplitAtSeparator(t, b);
      SplitCons(c, tail);
      SplitCons(c, t);
      SplitStepAppend(c, Split(t), Split(b));
    }
  }

  /** Sequence algebra for SplitAtSeparator: one step of Split commutes with appending. */
  lemma SplitStepAppend(c: char, x: seq<string>, y: seq<string>)
    requires |x| > 0
    ensures (if c == Separator then [""] + (x + y) else [[c] + (x + y)[0]] + (x + y)[1..])
      == (if c == Separator then [""] + x else [[c] + x[0]] + x[1..]) + y
  {
    assert (x + y)[0] == x[0];
    assert (x + y)[1..] == x[1..] + y;
  }

  lemma {:induction false} JoinSegsOfSplit(s: string)
    ensures JoinSegs(Split(s)) == s
  {
    if s != [] {
      JoinSegsOfSplit(s[1..]);
      var rest := Split(s[1..]);
      if s[0] == Separator {
        assert ([""] + rest)[1..] == rest;
        assert s == [s[0]] + s[1..];
      } else if |rest| == 1 {
        assert s == [s[0]] + s[1..];
      } else {
        var r := [[s[0]] + rest[0]] + rest[1..];
        assert r[1..] == rest[1..];
        assert JoinSegs(rest) == rest[0] + [Separator] + JoinSegs(rest[1..]);
        assert s == [s[0]] + s[1..];
      }
    }
  }

  lemma {:induction false} SplitOfJoinSegs(segs: seq<string>)
    requires |segs| > 0
    requires forall k :: 0 <= k < |segs| ==> Separator !in segs[k]
    ensures Split(JoinSegs(segs)) == segs
  {
    if |segs| == 1 {
      SplitNoSeparator(segs[0]);
    } else {
      SplitOfJoinSegs(segs[1..]);
      SplitAtSeparator(segs[0], JoinSegs(segs[1..]));
      SplitNoSeparator(segs[0]);
      assert [segs[0]] + segs[1..] == segs;
    }
  }

  lemma {:induction false} JoinSegsAppend(segs: seq<string>, e: string)
    requires |segs| > 0
    ensures JoinSegs(segs + [e]) == JoinSegs(segs) + [Separator] + e
  {
    if |segs| > 1 {
      assert (segs + [e])[1..] == segs[1..] + [e];
      JoinSegsAppend(segs[1..], e);
    }
  }

  lemma {:induction false} JoinSegsNonEmpty(segs: seq<string>)
    requires |segs| > 0 && segs[0] != ""
    ensures |JoinSegs(segs)| > 0 && JoinSegs(segs)[0] == segs[0][0]
  {
  }

  // ---------------------------------------------------------------------
  // What Normalize keeps.

  /** Normalize keeps the stack normal. */
  lemma {:induction false} NormalizeIsNormal(segs: seq<string>, rooted: bool, stack: seq<string>)
    requires IsNormal(stack, rooted)
    requires forall k :: 0 <= k < |segs| ==> Separator !in segs[k]
    ensures IsNormal(Normalize(segs, rooted, stack), rooted)
    decreases |segs|
  {
    if segs != [] {
      var e := segs[0];
      var next := Push(stack, e, rooted);
      assert IsNormal(next, rooted) by {
        if e == ".." && !(|stack| > 0 && stack[|stack| - 1] != "..") && !rooted {
          forall j | 0 <= j < |stack| ensures stack[j] == ".." {
            assert stack[|stack| - 1] == "..";
          }
        }
      }
      NormalizeIsNormal(segs[1..], rooted, next);
    }
  }

  /** Normalize passes over elements that are already normal and keeps them. */
  lemma {:induction false} NormalizeKeepsNormal(segs: seq<string>, rooted: bool, stack: seq<string>)
    requires IsNormal(stack + segs, rooted)
    ensures Normalize(segs, rooted, stack) == stack + segs
    decreases |segs|
  {
    if segs != [] {
      var e := segs[0];
      assert (stack + segs)[|stack|] == e;
      assert IsSegment(e);
      if e == ".." {
        assert forall j :: 0 <= j < |stack| ==> (stack + segs)[j] == stack[j];
        assert !rooted;
        assert |stack| > 0 ==> stack[|stack| - 1] == "..";
      }
      assert stack + segs == (stack + [e]) + segs[1..];
      NormalizeKeepsNormal(segs[1..], rooted, stack + [e]);
    }
  }

  /** Names are normal wherever they stand. */
  lemma NamesAreNormal(stack: seq<string>, names: seq<string>, rooted: bool)
    requires IsNormal(stack, rooted)
    requires forall k :: 0 <= k < |names| ==> IsName(names[k])
    ensures IsNormal(stack + names, rooted)
  {
    forall i | 0 <= i < |stack + names|
      ensures IsSegment((stack + names)[i])
      ensures (stack + names)[i] == ".." ==> !rooted && forall j :: 0 <= j < i ==> (stack + names)[j] == ".."
    {
      if i >= |stack| {
        assert (stack + names)[i] == names[i - |stack|];
      }
    }
  }

  // ---------------------------------------------------------------------
  // Properties of Clean and Join.

  /** The normal stack of a path, and how Clean writes it. */
  lemma CleanShape(p: string)
    ensures var st := Normalize(Split(p), IsRooted(p), []);
      IsNormal(st, IsRooted(p)) &&
      Clean(p) == (if IsRooted(p) then [Separator] + JoinSegs(st)
                   else if st == [] then "." else JoinSegs(st))
  {
    var st := Normalize(Split(p), IsRooted(p), []);
    SplitSegmentsHaveNoSeparator(p);
    NormalizeIsNormal(Split(p), IsRooted(p), []);
    if st != [] {
      JoinSegsNonEmpty(st);
    }
  }

  /** Cleaning a relative path of normal elements leaves it as it is. */
  lemma CleanRelativeNormal(st: seq<string>)
    requires |st| > 0 && IsNormal(st, false)
    ensures Clean(JoinSegs(st)) == JoinSegs(st)
  {
    var p := JoinSegs(st);
    SplitOfJoinSegs(st);
    JoinSegsNonEmpty(st);
    assert !IsRooted(p);
    assert [] + st == st;
    NormalizeKeepsNormal(st, false, []);
  }

  /** Cleaning a rooted path of normal elements leaves it as it is. */
  lemma CleanRootedNormal(st: seq<string>)
    requires |st| > 0 && IsNormal(st, true)
    ensures Clean([Separator] + JoinSegs(st)) == [Separator] + JoinSegs(st)
  {
    var body := JoinSegs(st);
    SplitOfJoinSegs(st);
    SplitCons(Separator, body);
    NormalizeSkips("", st, true, []);
    assert [] + st == st;
    NormalizeKeepsNormal(st, true, []);
  }

  /** Cleaning a clean path changes nothing. */
  lemma CleanIdempotent(p: string)
    ensures Clean(Clean(p)) == Clean(p)
  {
    var st := Normalize(Split(p), IsRooted(p), []);
    CleanShape(p);
    if st == [] {
      if IsRooted(p) {
        assert Clean(p) == "/" && Split("/") == ["", ""];
      } else {
        SplitNoSeparator(".");
        assert Clean(p) == ".";
      }
    } else if IsRooted(p) {
      CleanRootedNormal(st);
    } else {
      CleanRelativeNormal(st);
    }
  }

  /**
   * Joining a clean directory other than `.` and `/` with a file name gives
   * the directory, a separator and the name.
   */
  lemma JoinCleanDir(dir: string, name: string)
    requires Clean(dir) == dir && dir != "." && dir != "/"
    requires IsName(name)
    ensures Join(dir, name) == dir + [Separator] + name
  {
    var rooted := IsRooted(dir);
    var st := Normalize(Split(dir), rooted, []);
    CleanShape(dir);
    assert st != [];
    NamesAreNormal(st, [name], rooted);
    JoinSegsAppend(st, name);
    if rooted {
      assert dir + [Separator] + name == [Separator] + JoinSegs(st + [name]);
      CleanRootedNormal(st + [name]);
    } else {
      assert dir + [Separator] + name == JoinSegs(st + [name]);
      CleanRelativeNormal(st + [name]);
    }
  }

  /** An empty or `.` element is skipped. */
  lemma NormalizeSkips(e: string, segs: seq<string>, rooted: bool, stack: seq<string>)
    requires e == "" || e == "."
    ensures Normalize([e] + segs, rooted, stack) == Normalize(segs, rooted, stack)
  {
    assert ([e] + segs)[0] == e && ([e] + segs)[1..] == segs;
  }

  /** A leading `./` before a relative path made of names is dropped. */
  lemma CleanDropsLeadingDot(names: seq<string>)
    requires |names| > 0
    requires forall k :: 0 <= k < |names| ==> IsName(names[k])
    ensures Clean("." + [Separator] + JoinSegs(names)) == JoinSegs(names)
  {
    var body := JoinSegs(names);
    var p := "." + [Separator] + body;
    SplitAtSeparator(".", body);
    SplitNoSeparator(".");
    SplitOfJoinSegs(names);
    assert Split(p) == ["."] + names;
    assert !IsRooted(p);
    NormalizeSkips(".", names, false, []);
    NamesAreNormal([], names, false);
    assert [] + names == names;
    NormalizeKeepsNormal(names, false, []);
    JoinSegsNonEmpty(names);
  }

  /** Joining `./a/b` with a file name, for names `a` and `b`, gives `a/b/name`. */
  lemma JoinAfterDot(a: string, b: string, name: string)
    requires IsName(a) && IsName(b) && IsName(name)
    ensures Join("./" + a + "/" + b, name) == a + "/" + b + "/" + name
  {
    var names := [a, b, name];
    assert names[1..] == [b, name] && names[1..][1..] == [name];
    assert JoinSegs([name]) == name;
    assert JoinSegs([b, name]) == b + "/" + name;
    assert JoinSegs(names) == a + "/" + b + "/" + name;
    assert "./" + a + "/" + b + "/" + name == "." + [Separator] + JoinSegs(names);
    CleanDropsLeadingDot(names);
  }

  // ---------------------------------------------------------------------
  // The last element of a path that ends in a name.

  /** Sequence algebra for SplitAppendPlain: one step of Split commutes with extending the last element. */
  lemma InitLastStep(c: char, a: seq<string>, l: string, t: string)
    ensures
      var x := a + [l];
      var y := a + [l + t];
      var sx := if c == Separator then [""] + x else [[c] + x[0]] + x[1..];
      var sy := if c == Separator then [""] + y else [[c] + y[0]] + y[1..];
      sy == sx[..|sx| - 1] + [sx[|sx| - 1] + t]
  {
    var x := a + [l];
    var y := a + [l + t];
    if c != Separator {
      if |a| == 0 {
        assert x == [l] && y == [l + t];
        assert [c] + (l + t) == ([c] + l) + t;
      } else {
        assert x[0] == a[0] && y[0] == a[0];
        assert x[1..] == a[1..] + [l] && y[1..] == a[1..] + [l + t];
      }
    }
  }

  /** Appending text without a separator extends only the last element. */
  lemma {:induction false} SplitAppendPlain(s: string, t: string)
    requires Separator !in t
    ensures Split(s + t) == InitSegments(s) + [LastSegment(s) + t]
    decreases |s|
  {
    if s == [] {
      assert s + t == t;
      SplitNoSeparator(t);
    } else {
      var c, u := s[0], s[1..];
      assert s == [c] + u;
      assert s + t == [c] + (u + t);
      SplitAppendPlain(u, t);
      var su := Split(u);
      var a, l := su[..|su| - 1], su[|su| - 1];
      assert su == a + [l];
      assert Split(u + t) == a + [l + t];
      SplitCons(c, u + t);
      SplitCons(c, u);
      InitLastStep(c, a, l, t);
    }
  }

  /** Normalize pushes a name that comes last onto whatever it kept before it. */
  lemma {:induction false} NormalizeAppendName(segs: seq<string>, rooted: bool, stack: seq<string>, name: string)
    requires IsName(name)
    ensures Normalize(segs + [name], rooted, stack) == Normalize(segs, rooted, stack) + [name]
    decreases |segs|
  {
    if segs == [] {
      assert segs + [name] == [name] && [name][1..] == [];
    } else {
      assert (segs + [name])[0] == segs[0] && (segs + [name])[1..] == segs[1..] + [name];
      NormalizeAppendName(segs[1..], rooted, Push(stack, segs[0], rooted), name);
    }
  }

  /** What Clean writes before a last element that is a name: it depends only on the elements before. */
  function CleanPrefix(segs: seq<string>, rooted: bool): string
  {
    var st := Normalize(segs, rooted, []);
    (if rooted then [Separator] else "") + (if st == [] then "" else JoinSegs(st) + [Separator])
  }

  /** When a path ends in a name, Clean keeps that name last. */
  lemma CleanEndsInName(p: string, segs: seq<string>, last: string)
    requires Split(p) == segs + [last]
    requires IsName(last)
    ensures Clean(p) == CleanPrefix(segs, IsRooted(p)) + last
  {
    NormalizeAppendName(segs, IsRooted(p), [], last);
    var st := Normalize(segs, IsRooted(p), []);
    if st == [] {
      assert st + [last] == [last];
    } else {
      JoinSegsAppend(st, last);
    }
  }

  /** Joining onto a non-empty directory a name whose last element is a name keeps that element last. */
  lemma JoinEndsInName(dir: string, name: string, segs: seq<string>, last: string)
    requires dir != ""
    requires Split(name) == segs + [last]
    requires IsName(last)
    ensures Join(dir, name) == CleanPrefix(Split(dir) + segs, IsRooted(dir)) + last
  {
    var p := dir + [Separator] + name;
    SplitAtSeparator(dir, name);
    assert Split(p) == (Split(dir) + segs) + [last];
    assert IsRooted(p) == IsRooted(dir);
    CleanEndsInName(p, Split(dir) + segs, last);
  }

  /** With no directory, Join only cleans the name, and keeps its last element last. */
  lemma JoinNoDirEndsInName(name: string, segs: seq<string>, last: string)
    requires name != ""
    requires Split(name) == segs + [last]
    requires IsName(last)
    ensures Join("", name) == CleanPrefix(segs, IsRooted(name)) + last
  {
    CleanEndsInName(name, segs, last);
  }

  /** Join of anything is clean. */
  lemma JoinIsClean(dir: string, name: string)
    ensures Join(dir, name) != "" ==> Clean(Join(dir, name)) == Join(dir, name)
  {
    if dir != "" {
      CleanIdempotent(dir + [Separator] + name);
    } else if name != "" {
      CleanIdempotent(name);
    }
  }
}
