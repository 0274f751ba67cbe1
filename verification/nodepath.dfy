/**
  The part of Node's POSIX `path` module the upload filter relies on:
  `path.extname`, which takes the last path segment (ignoring trailing
  slashes) and returns its suffix from the last '.', or "" when that segment
  has no dot, starts with its only relevant dot (".png", ".bashrc"), or is "..".
 */
module NodePath {
  import opened Text

  /** The path without its trailing '/' characters. */
  function TrimTrailingSlashes(p: string): (r: string)
    ensures StartsWith(p, r)
    ensures |r| > 0 ==> r[|r| - 1] != '/'
    ensures forall k :: |r| <= k < |p| ==> p[k] == '/'
    decreases |p|
  {
    if |p| > 0 && p[|p| - 1] == '/' then TrimTrailingSlashes(p[..|p| - 1]) else p
  }

  /** The last segment of the path, as `path.basename` returns it. */
  function BaseName(p: string): (b: string)
    ensures '/' !in b
    ensures EndsWith(TrimTrailingSlashes(p), b)
    ensures |b| < |TrimTrailingSlashes(p)| ==>
              TrimTrailingSlashes(p)[|TrimTrailingSlashes(p)| - |b| - 1] == '/'
  {
    var q := TrimTrailingSlashes(p);
    q[LastIndexOf(q, '/') + 1..]
  }

  /** `path.extname`: the suffix of the last segment from its last '.', with
      the leading-dot and ".." exceptions. */
  function Extname(p: string): (e: string)
    ensures e == "" || (e[0] == '.' && '.' !in e[1..])
    ensures '/' !in e
    ensures EndsWith(BaseName(p), e)
    ensures e != "" ==> |e| < |BaseName(p)|
  {
    var b := BaseName(p);
    var e := SegmentExt(b);
    NotInSuffix(b, '/', |b| - |e|);
    e
  }

  /** The extension of one path segment. */
  function SegmentExt(b: string): (e: string)
    ensures e == "" || (e[0] == '.' && '.' !in e[1..])
    ensures EndsWith(b, e)
    ensures e != "" ==> |e| < |b|
  {
    var d := LastIndexOf(b, '.');
    if d <= 0 || b == ".." then "" else b[d..]
  }

  /** A path without '/' is its own last segment. */
  lemma BaseNameOfSegment(p: string)
    requires '/' !in p
    ensures BaseName(p) == p
  {
    assert |p| > 0 ==> p[|p| - 1] != '/';
    assert TrimTrailingSlashes(p) == p;
  }

  /** A name made of a stem and an extension: extname returns the extension.
      The stem must be a non-empty segment; ".." is the one name this excludes. */
  lemma ExtnameOfStemAndExt(stem: string, ext: string)
    requires |stem| > 0 && '/' !in stem
    requires |ext| > 0 && ext[0] == '.' && '.' !in ext[1..] && '/' !in ext
    requires stem + ext != ".."
    ensures Extname(stem + ext) == ext
  {
    NoSlashInConcat(stem, ext);
    BaseNameOfSegment(stem + ext);
    SegmentExtOfStemAndExt(stem, ext);
  }

  lemma NoSlashInConcat(a: string, b: string)
    requires '/' !in a && '/' !in b
    ensures '/' !in a + b
  {
    assert forall k :: 0 <= k < |a + b| ==> (a + b)[k] == if k < |a| then a[k] else b[k - |a|];
  }

  /** The extension of a segment made of a non-empty stem and a dot-extension. */
  lemma SegmentExtOfStemAndExt(stem: string, ext: string)
    requires |stem| > 0
    requires |ext| > 0 && ext[0] == '.' && '.' !in ext[1..]
    requires stem + ext != ".."
    ensures SegmentExt(stem + ext) == ext
  {
    var p := stem + ext;
    var d := LastIndexOf(p, '.');
    assert p[|stem|] == '.';
    assert forall k :: |stem| < k < |p| ==> p[k] == ext[1..][k - |stem| - 1];
    assert d == |stem|;
    assert p[d..] == ext;
  }

  /** A name without any '.' has no extension. */
  lemma ExtnameWithoutDot(p: string)
    requires '.' !in p
    ensures Extname(p) == ""
  {
    var q := TrimTrailingSlashes(p);
    NotInSlice(p, '.', 0, |q|);
    assert q == p[..|q|];
    NotInSlice(q, '.', LastIndexOf(q, '/') + 1, |q|);
  }

  /** A dot-file segment such as ".png" or ".bashrc" has no extension. */
  lemma ExtnameOfDotFile(name: string)
    requires |name| > 0 && name[0] == '.' && '.' !in name[1..] && '/' !in name
    ensures Extname(name) == ""
  {
    BaseNameOfSegment(name);
    SegmentExtOfDotFile(name);
  }

  lemma SegmentExtOfDotFile(name: string)
    requires |name| > 0 && name[0] == '.' && '.' !in name[1..]
    ensures SegmentExt(name) == ""
  {
    assert forall k :: 0 < k < |name| ==> name[k] == name[1..][k - 1];
    assert LastIndexOf(name, '.') == 0;
  }

  /** Dropping trailing slashes commutes with ASCII lowering. */
  lemma {:induction false} TrimTrailingSlashesLower(p: string)
    ensures TrimTrailingSlashes(Lower(p)) == Lower(TrimTrailingSlashes(p))
    decreases |p|
  {
    if |p| > 0 {
      LowerCharKeepsPunctuation(p[|p| - 1], '/');
      if p[|p| - 1] == '/' {
        LowerPrefix(p, |p| - 1);
        TrimTrailingSlashesLower(p[..|p| - 1]);
      }
    }
  }

  /** Lowering keeps the positions of a punctuation character. */
  lemma LastIndexOfLower(s: string, c: char)
    requires c == '.' || c == '/'
    ensures LastIndexOf(Lower(s), c) == LastIndexOf(s, c)
  {
    forall k | 0 <= k < |s|
      ensures Lower(s)[k] == c <==> s[k] == c
    {
      LowerCharKeepsPunctuation(s[k], c);
    }
    LastIndexOfSamePositions(Lower(s), s, c);
  }

  /** The last segment of the lowered path is the lowered last segment. */
  lemma BaseNameLower(p: string)
    ensures BaseName(Lower(p)) == Lower(BaseName(p))
  {
    var q := TrimTrailingSlashes(p);
    TrimTrailingSlashesLower(p);
    LastIndexOfLower(q, '/');
    LowerSuffix(q, LastIndexOf(q, '/') + 1);
  }

  /** Lowering turns ".." into ".." and nothing else into it. */
  lemma LowerDotDot(b: string)
    ensures Lower(b) == ".." <==> b == ".."
  {
    if |b| == 2 {
      LowerCharKeepsPunctuation(b[0], '.');
      LowerCharKeepsPunctuation(b[1], '.');
    }
  }

  /** The extension of the lowered last segment: the dot sits at the same
      place and ".." stays "..", so it is the lowered extension. */
  lemma ExtOfLowerSegment(b: string)
    ensures SegmentExt(Lower(b)) == Lower(SegmentExt(b))
  {
    LastIndexOfLower(b, '.');
    LowerDotDot(b);
    var d := LastIndexOf(b, '.');
    if d > 0 && b != ".." {
      LowerSuffix(b, d);
    }
  }

  /** extname of the lowered name is the lowered extname: the extension test
      does not depend on whether the name or its extension is lowered first. */
  lemma ExtnameLower(p: string)
    ensures Extname(Lower(p)) == Lower(Extname(p))
  {
    BaseNameLower(p);
    ExtOfLowerSegment(BaseName(p));
  }
}
