/**
  A model of the Unix flavour of `java.nio.file.Path` as the engine uses it: an
  absolute path is the sequence of its name segments, `toString` joins them with
  '/', and `Path.of` splits a string on '/', dropping the empty parts that
  redundant and trailing slashes leave, and rejects a string holding NUL.
*/
module Paths {
  import opened Wrappers
  import opened Strings

  /** An absolute path: its name segments, outermost first. `[]` is the root "/". */
  type Path = seq<string>

  /** A name the file system can hold: non-empty, without '/' and without NUL. */
  predicate IsSegment(s: string)
  {
    s != [] && '/' !in s && '\0' !in s
  }

  predicate WellFormed(p: Path)
  {
    forall i :: 0 <= i < |p| ==> IsSegment(p[i])
  }

  /** "/s1/s2/.../sn" */
  function Join(p: Path): (r: string)
    ensures p != [] ==> |r| > 0 && r[0] == '/'
  {
    if p == [] then "" else Join(p[..|p| - 1]) + "/" + p[|p| - 1]
  }

  /** `Path.toString` of an absolute path: it starts with '/', and for a
      well-formed path it holds no NUL (`ParseToString` shows it splits back
      into the path). */
  function ToString(p: Path): (r: string)
    ensures |r| > 0 && r[0] == '/'
    ensures WellFormed(p) ==> '\0' !in r
  {
    if p == [] then "/"
    else
      assert WellFormed(p) ==> '\0' !in Join(p) by {
        if WellFormed(p) {
          JoinShape(p);
        }
      }
      Join(p)
  }

  /** The non-empty parts of `s` between slashes, in order. */
  function Segments(s: string): seq<string>
    decreases |s|
  {
    var i := LastIndexOf(s, '/');
    if i < 0 then (if s == [] then [] else [s])
    else Segments(s[..i]) + (if i + 1 == |s| then [] else [s[i + 1..]])
  }

  datatype ParsedPath = ParsedPath(absolute: bool, segments: seq<string>)

  /** `Path.of(s)`: fails (InvalidPathException) exactly when `s` holds NUL;
      otherwise every part it keeps is a file-system name, and the path is
      absolute exactly when `s` starts with '/'. */
  function Parse(s: string): (r: Option<ParsedPath>)
    ensures r.None? <==> '\0' in s
    ensures r.Some? ==> WellFormed(r.value.segments)
    ensures r.Some? ==> (r.value.absolute <==> |s| > 0 && s[0] == '/')
  {
    if '\0' in s then None
    else
      SegmentsAreNames(s);
      Some(ParsedPath(|s| > 0 && s[0] == '/', Segments(s)))
  }

  /** `base.resolve(q)`; a relative path handed to the file system resolves
      against the working directory in the same way. */
  function Resolve(base: Path, q: ParsedPath): (r: Path)
    ensures q.absolute ==> r == q.segments
    ensures !q.absolute ==> StartsWith(r, base) && r[|base|..] == q.segments
    ensures WellFormed(base) && WellFormed(q.segments) ==> WellFormed(r)
  {
    if q.absolute then q.segments else base + q.segments
  }

  /** `p.startsWith(prefix)`: segment-wise, so "/a/.gitignore" does not start with "/a/.git". */
  predicate StartsWith(p: Path, prefix: Path)
    ensures p == prefix ==> StartsWith(p, prefix)
    ensures StartsWith(p, prefix) && |p| == |prefix| ==> p == prefix
  {
    |prefix| <= |p| && p[..|prefix|] == prefix
  }

  function Parent(p: Path): Path
    requires p != []
  {
    p[..|p| - 1]
  }

  /** `p.getFileName().toString()` */
  function FileName(p: Path): string
    requires p != []
  {
    p[|p| - 1]
  }

  /** Every part `Path.of` keeps is a non-empty name without '/'; without NUL in
      the input the parts are file-system names. */
  lemma {:induction false} SegmentsAreNames(s: string)
    ensures forall i :: 0 <= i < |Segments(s)| ==> Segments(s)[i] != [] && '/' !in Segments(s)[i]
    ensures '\0' !in s ==> WellFormed(Segments(s))
    decreases |s|
  {
    var i := LastIndexOf(s, '/');
    if i >= 0 {
      SegmentsAreNames(s[..i]);
      if i + 1 < |s| {
        var last := s[i + 1..];
        assert forall j :: 0 <= j < |last| ==> last[j] == s[i + 1 + j];
      }
    }
  }

  /** Splitting is a homomorphism: a '/' between two strings separates their parts. */
  lemma {:induction false} SegmentsConcat(a: string, b: string)
    ensures Segments(a + "/" + b) == Segments(a) + Segments(b)
    decreases |b|
  {
    var j := LastIndexOf(b, '/');
    if j < 0 {
      SlashBeforeLastPart(a, b);
    } else {
      SegmentsConcat(a, b[..j]);
      ConcatAtLastSlash(a, b, j);
    }
  }

  lemma ConcatAtLastSlash(a: string, b: string, j: int)
    requires j == LastIndexOf(b, '/') && j >= 0
    requires Segments(a + "/" + b[..j]) == Segments(a) + Segments(b[..j])
    ensures Segments(a + "/" + b) == Segments(a) + Segments(b)
  {
    var rest := b[j + 1..];
    var tail := if rest == [] then [] else [rest];
    assert Segments(a + "/" + b) == Segments(a + "/" + b[..j]) + tail by {
      SlashInLastPart(a, b, j);
    }
    assert Segments(b) == Segments(b[..j]) + tail by {
      SegmentsSplit(b, j, b[..j], rest);
    }
    assert (Segments(a) + Segments(b[..j])) + tail == Segments(a) + (Segments(b[..j]) + tail);
  }

  lemma SlashBeforeLastPart(a: string, b: string)
    requires LastIndexOf(b, '/') < 0
    ensures Segments(a + "/" + b) == Segments(a) + Segments(b)
  {
    var s := a + "/" + b;
    assert s[|a|] == '/';
    assert forall k :: |a| < k < |s| ==> s[k] == b[k - |a| - 1];
    LastIndexOfIs(s, '/', |a|);
    assert s[..|a|] == a;
    assert s[|a| + 1..] == b;
  }

  lemma SlashInLastPart(a: string, b: string, j: int)
    requires j == LastIndexOf(b, '/') && j >= 0
    ensures Segments(a + "/" + b) == Segments(a + "/" + b[..j]) + (if b[j + 1..] == [] then [] else [b[j + 1..]])
  {
    SliceAfterSlash(a, b, j);
    LastInConcat(a, b, j);
    SegmentsSplit(a + "/" + b, |a| + 1 + j, a + "/" + b[..j], b[j + 1..]);
  }

  /** `Segments` unfolded at the last '/'. */
  lemma SegmentsSplit(s: string, i: int, init: string, rest: string)
    requires i == LastIndexOf(s, '/') && i >= 0 && s[..i] == init && s[i + 1..] == rest
    ensures Segments(s) == Segments(init) + (if rest == [] then [] else [rest])
  {
  }

  /** Cutting `a + "/" + b` at a '/' inside `b`. */
  lemma SliceAfterSlash(a: string, b: string, j: int)
    requires 0 <= j < |b|
    ensures (a + "/" + b)[..|a| + 1 + j] == a + "/" + b[..j]
    ensures (a + "/" + b)[|a| + 1 + j + 1..] == b[j + 1..]
  {
  }

  lemma LastInConcat(a: string, b: string, j: int)
    requires j == LastIndexOf(b, '/') && j >= 0
    ensures LastIndexOf(a + "/" + b, '/') == |a| + 1 + j
  {
    var s := a + "/" + b;
    var i := |a| + 1 + j;
    assert s[i] == b[j];
    assert forall k :: i < k < |s| ==> s[k] == b[k - |a| - 1];
    LastIndexOfIs(s, '/', i);
  }

  lemma {:induction false} JoinShape(p: Path)
    requires WellFormed(p)
    ensures '\0' !in Join(p)
  {
    if p != [] {
      JoinShape(p[..|p| - 1]);
      var init := Join(p[..|p| - 1]);
      assert Join(p) == init + ("/" + p[|p| - 1]);
      assert IsSegment(p[|p| - 1]);
    }
  }

  lemma {:induction false} SegmentsOfJoin(p: Path)
    requires WellFormed(p)
    ensures Segments(Join(p)) == p
  {
    if p != [] {
      var init, last := p[..|p| - 1], p[|p| - 1];
      SegmentsOfJoin(init);
      SegmentsConcat(Join(init), last);
      assert IsSegment(last);
      assert LastIndexOf(last, '/') == -1;
      assert Segments(last) == [last];
      assert init + [last] == p;
    }
  }

  /** `Path.of(p.toString())` is `p` again, and it is absolute. */
  lemma ParseToString(p: Path)
    requires WellFormed(p)
    ensures Parse(ToString(p)) == Some(ParsedPath(true, p))
  {
    if p != [] {
      SegmentsOfJoin(p);
    } else {
      assert LastIndexOf("/", '/') == 0;
      assert Segments("/") == Segments("") + [];
    }
  }

  /** Two well-formed paths with the same string are the same path. */
  lemma ToStringInjective(p: Path, q: Path)
    requires WellFormed(p) && WellFormed(q)
    ensures ToString(p) == ToString(q) <==> p == q
  {
    ParseToString(p);
    ParseToString(q);
  }

  /** A string without '/' is one part, or none when it is empty. */
  lemma SegmentsOfName(name: string)
    requires '/' !in name
    ensures Segments(name) == if name == "" then [] else [name]
  {
    assert LastIndexOf(name, '/') < 0;
  }

  /** `Path.of(name)` of a single name is that name as a relative path. */
  lemma ParseName(name: string)
    requires IsSegment(name)
    ensures Parse(name) == Some(ParsedPath(false, [name]))
  {
    SegmentsOfName(name);
  }

}
