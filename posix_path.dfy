/**
 * The two `os.path` operations (POSIX flavour) the upload endpoint uses on
 * the upload folder and the saved file's name: `join` and `splitext`.
 */
module PosixPath {
  import opened PyText

  predicate IsAbsolute(p: string)
  {
    |p| > 0 && p[0] == '/'
  }

  /** The directory part `join` puts in front of a relative name. */
  function DirPrefix(a: string): (d: string)
    ensures d == [] || d[|d| - 1] == '/'
  {
    if a == [] || a[|a| - 1] == '/' then a else a + "/"
  }

  /** `os.path.join(a, b)`: an absolute `b` discards `a`. */
  function Join(a: string, b: string): (p: string)
    ensures IsAbsolute(b) ==> p == b
    ensures IsAbsolute(p) <==> IsAbsolute(a) || IsAbsolute(b)
    ensures |b| <= |p| <= |a| + 1 + |b|
  {
    if IsAbsolute(b) then b else DirPrefix(a) + b
  }

  /** A relative name is put after the folder and one separator; the
      folder is kept as it is, and no second separator is added. */
  lemma JoinShape(a: string, b: string)
    requires !IsAbsolute(b)
    ensures var p := Join(a, b);
            && a <= p && p[|p| - |b|..] == b
            && (|p| > |b| ==> p[|p| - |b| - 1] == '/')
            && (a != [] && a[|a| - 1] == '/' ==> p == a + b)
            && (p == a + b || p == a + "/" + b)
            && |p| == |a| + |b| + (if a == [] || a[|a| - 1] == '/' then 0 else 1)
  {
  }

  /** Two names of the same kind (both absolute or both relative) join to
      the same path only if they are the same name. */
  lemma JoinInjective(a: string, x: string, y: string)
    requires IsAbsolute(x) == IsAbsolute(y)
    requires Join(a, x) == Join(a, y)
    ensures x == y
  {
    if !IsAbsolute(x) {
      var d := DirPrefix(a);
      assert x == (d + x)[|d|..];
      assert y == (d + y)[|d|..];
    }
  }

  /** Whether some character of `p` in positions [lo, hi) is not a '.'. */
  predicate NonDotIn(p: string, lo: int, hi: int)
    requires 0 <= lo && hi <= |p|
    decreases hi - lo
  {
    lo < hi && (p[hi - 1] != '.' || NonDotIn(p, lo, hi - 1))
  }

  /** One character other than '.' in the range is enough. */
  lemma {:induction false} NonDotInAt(p: string, lo: int, hi: int, j: int)
    requires 0 <= lo <= j < hi <= |p| && p[j] != '.'
    ensures NonDotIn(p, lo, hi)
    decreases hi - lo
  {
    if j < hi - 1 {
      NonDotInAt(p, lo, hi - 1, j);
    }
  }

  /** A range holding only '.' has no other character. */
  lemma {:induction false} NonDotInNone(p: string, lo: int, hi: int)
    requires 0 <= lo && hi <= |p|
    requires forall i :: lo <= i < hi ==> p[i] == '.'
    ensures !NonDotIn(p, lo, hi)
    decreases hi - lo
  {
    if lo < hi {
      NonDotInNone(p, lo, hi - 1);
    }
  }

  /** Whether a name whose last separator is at `sep` and last '.' at `dot`
      has an extension: the '.' must come after the separator and follow
      some character of the last component other than '.'. */
  predicate HasExt(p: string, sep: int, dot: int)
    requires -1 <= sep < |p| && -1 <= dot < |p|
  {
    sep < dot && NonDotIn(p, sep + 1, dot)
  }

  /**
   * `os.path.splitext(p)`: the extension starts at the last '.' of the last
   * path component, unless every character of that component before the
   * '.' is itself a '.', in which case there is no extension.
   */
  function SplitExt(p: string): (r: (string, string))
    ensures |r.0| + |r.1| == |p| && r.0 == p[..|r.0|]
    ensures r.1 == [] || r.1[0] == '.'
  {
    var sep := LastIndexOf(p, '/');
    var dot := LastIndexOf(p, '.');
    if HasExt(p, sep, dot) then (p[..dot], p[dot..]) else (p, [])
  }

  /** What Python documents of `splitext`: root and extension put back
      together give the path, and the extension is empty or is one '.'
      followed by text with no '.' and no separator. */
  lemma SplitExtShape(p: string)
    ensures SplitExt(p).0 + SplitExt(p).1 == p
    ensures var e := SplitExt(p).1; e == [] || (e[0] == '.' && '.' !in e[1..] && '/' !in e)
  {
    var sep, dot := LastIndexOf(p, '/'), LastIndexOf(p, '.');
    if HasExt(p, sep, dot) {
      ExtensionShape(p, sep, dot);
    }
  }

  /** A stem that does not end in '.' or '/', then '.', then text with no
      '.' and no '/': `splitext` cuts at that '.'. */
  lemma SplitExtFinds(stem: string, e: string)
    requires '.' !in e && '/' !in e
    requires stem != [] && stem[|stem| - 1] != '.' && stem[|stem| - 1] != '/'
    ensures SplitExt(stem + "." + e) == (stem, "." + e)
  {
    var p := stem + "." + e;
    FindsIndices(stem, e);
    NonDotInAt(p, LastIndexOf(p, '/') + 1, |stem|, |stem| - 1);
  }

  /** Where the last separator and the last '.' of `stem.e` lie. */
  lemma FindsIndices(stem: string, e: string)
    requires '.' !in e && '/' !in e
    requires stem != [] && stem[|stem| - 1] != '.' && stem[|stem| - 1] != '/'
    ensures var p := stem + "." + e;
            && LastIndexOf(p, '.') == |stem|
            && LastIndexOf(p, '/') < |stem| - 1
            && p[|stem| - 1] != '.'
            && p[..|stem|] == stem && p[|stem|..] == "." + e
  {
    var p := stem + "." + e;
    assert p == stem + ("." + e);
    LastIndexOfIs("." + e, '.', 0);
    LastIndexOfAppendPresent(stem, "." + e, '.');
    LastIndexOfAppendMissing(stem, "." + e, '/');
  }

  /** A last component made only of dots before its last '.' has no
      extension: `splitext` leaves the name whole. */
  lemma SplitExtLeadingDots(dots: string, e: string)
    requires forall i :: 0 <= i < |dots| ==> dots[i] == '.'
    requires '.' !in e && '/' !in e
    ensures SplitExt(dots + "." + e) == (dots + "." + e, [])
  {
    var p := dots + "." + e;
    assert p == dots + ("." + e);
    LastIndexOfIs("." + e, '.', 0);
    LastIndexOfAppendPresent(dots, "." + e, '.');
    assert '/' !in p;
    NonDotInNone(p, 0, |dots|);
  }

  lemma ExtensionShape(p: string, sep: int, dot: int)
    requires sep == LastIndexOf(p, '/') && dot == LastIndexOf(p, '.') && sep < dot
    ensures p[dot] == '.' && '.' !in p[dot..][1..] && '/' !in p[dot..]
  {
    var e := p[dot..];
    forall j | 0 <= j < |e|
      ensures e[j] != '/'
    {
      assert e[j] == p[dot + j];
    }
    forall j | 0 <= j < |e| - 1
      ensures e[1..][j] != '.'
    {
      assert e[1..][j] == p[dot + 1 + j];
    }
  }

  function Ext(p: string): string
  {
    SplitExt(p).1
  }

  /** Where the last separator of a name lands once a directory is put in front. */
  lemma SepUnderDir(d: string, x: string)
    requires d == [] || d[|d| - 1] == '/'
    ensures LastIndexOf(d + x, '/') == |d| + LastIndexOf(x, '/')
  {
    if '/' in x {
      LastIndexOfAppendPresent(d, x, '/');
    } else {
      LastIndexOfAppendMissing(d, x, '/');
      if d != [] {
        LastIndexOfIs(d, '/', |d| - 1);
      }
    }
  }

  /** Putting a directory in front of a name does not change its extension. */
  lemma ExtUnderDir(d: string, x: string)
    requires d == [] || d[|d| - 1] == '/'
    ensures Ext(d + x) == Ext(x)
  {
    SepUnderDir(d, x);
    if '.' in x {
      DotUnderDir(d, x);
    } else {
      NoDotUnderDir(d, x);
    }
  }

  lemma DotUnderDir(d: string, x: string)
    requires d == [] || d[|d| - 1] == '/'
    requires '.' in x
    requires LastIndexOf(d + x, '/') == |d| + LastIndexOf(x, '/')
    ensures Ext(d + x) == Ext(x)
  {
    LastIndexOfAppendPresent(d, x, '.');
    DotUnderDirAt(d, x, LastIndexOf(x, '/'), LastIndexOf(x, '.'));
  }

  lemma DotUnderDirAt(d: string, x: string, sep: int, dot: int)
    requires sep == LastIndexOf(x, '/') && dot == LastIndexOf(x, '.')
    requires LastIndexOf(d + x, '/') == |d| + sep
    requires LastIndexOf(d + x, '.') == |d| + dot
    ensures Ext(d + x) == Ext(x)
  {
    HasExtUnderDir(d, x, sep, dot);
    ExtTransfer(d + x, x, |d|, sep, dot);
  }

  /** Two names whose last separator and last '.' sit at the same places up
      to a shift `k`, with the same extension test and the same text from the
      '.' on, have the same extension. */
  lemma ExtTransfer(p: string, x: string, k: nat, sep: int, dot: int)
    requires sep == LastIndexOf(x, '/') && dot == LastIndexOf(x, '.')
    requires k + sep == LastIndexOf(p, '/') && k + dot == LastIndexOf(p, '.')
    requires HasExt(p, k + sep, k + dot) == HasExt(x, sep, dot)
    requires 0 <= dot ==> p[k + dot..] == x[dot..]
    ensures Ext(p) == Ext(x)
  {
    ExtAt(p, k + sep, k + dot);
    ExtAt(x, sep, dot);
  }

  lemma ExtAt(p: string, sep: int, dot: int)
    requires sep == LastIndexOf(p, '/') && dot == LastIndexOf(p, '.')
    ensures Ext(p) == if HasExt(p, sep, dot) then p[dot..] else []
  {
  }

  lemma HasExtUnderDir(d: string, x: string, sep: int, dot: int)
    requires -1 <= sep < |x| && -1 <= dot < |x|
    ensures HasExt(d + x, |d| + sep, |d| + dot) == HasExt(x, sep, dot)
    ensures 0 <= dot ==> (d + x)[|d| + dot..] == x[dot..]
  {
    if sep < dot {
      NonDotInShift(d, x, sep + 1, dot);
    }
  }

  lemma {:induction false} NonDotInShift(d: string, x: string, lo: nat, hi: int)
    requires hi <= |x|
    ensures NonDotIn(d + x, |d| + lo, |d| + hi) == NonDotIn(x, lo, hi)
    decreases hi - lo
  {
    if lo < hi {
      assert (d + x)[|d| + hi - 1] == x[hi - 1];
      NonDotInShift(d, x, lo, hi - 1);
    }
  }

  lemma {:induction false} NonDotInPrefix(a: string, b: string, lo: nat, hi: int)
    requires hi <= |a|
    ensures NonDotIn(a + b, lo, hi) == NonDotIn(a, lo, hi)
    decreases hi - lo
  {
    if lo < hi {
      NonDotInPrefix(a, b, lo, hi - 1);
    }
  }

  lemma NoDotUnderDir(d: string, x: string)
    requires d == [] || d[|d| - 1] == '/'
    requires '.' !in x
    requires LastIndexOf(d + x, '/') == |d| + LastIndexOf(x, '/')
    ensures Ext(d + x) == Ext(x)
  {
    var p := d + x;
    LastIndexOfAppendMissing(d, x, '.');
    assert !HasExt(p, LastIndexOf(p, '/'), LastIndexOf(p, '.'));
  }

  /** `join` keeps the extension of the name it appends. */
  lemma JoinKeepsExt(a: string, x: string)
    ensures Ext(Join(a, x)) == Ext(x)
  {
    if !IsAbsolute(x) {
      ExtUnderDir(DirPrefix(a), x);
    }
  }
}
