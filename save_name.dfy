/**
 * Where `upload_file` saves an upload (backend/app.py): in the upload
 * folder under the secured name, or, when that path exists, under
 * `base_k.ext` for the first `k >= 1` whose path does not exist. The file
 * system is the finite set of paths that exist.
 */
module SaveName {
  import opened PyText
  import opened PosixPath

  /** The name the rename loop tries on pass `k`: `f"{base_name}_{counter}{extension}"`
      with `base_name, extension = os.path.splitext(filename)`. */
  function Candidate(name: string, k: nat): (c: string)
    ensures |c| == |name| + 1 + |NatToString(k)|
    ensures var root := SplitExt(name).0; c[..|root|] == root && c[|root|] == '_'
  {
    SplitExt(name).0 + "_" + NatToString(k) + SplitExt(name).1
  }

  function CandidatePath(folder: string, name: string, k: nat): string
  {
    Join(folder, Candidate(name, k))
  }

  /** `k` is the first counter whose path is free. */
  ghost predicate FirstFree(folder: string, name: string, existing: set<string>, k: nat)
  {
    && k >= 1
    && CandidatePath(folder, name, k) !in existing
    && forall j :: 1 <= j < k ==> CandidatePath(folder, name, j) in existing
  }

  /** The path the upload is saved at: the secured name itself when free,
      otherwise the candidate of the first free counter. */
  ghost predicate IsSavePath(folder: string, name: string, existing: set<string>, path: string)
  {
    if Join(folder, name) !in existing then path == Join(folder, name)
    else exists k :: FirstFree(folder, name, existing, k) && path == CandidatePath(folder, name, k)
  }

  lemma CandidateInjective(name: string, i: nat, j: nat)
    requires Candidate(name, i) == Candidate(name, j)
    ensures i == j
  {
    var b := SplitExt(name).0;
    var si, sj := NatToString(i), NatToString(j);
    assert |si| == |sj|;
    assert Candidate(name, i)[|b| + 1..|b| + 1 + |si|] == si;
    assert Candidate(name, j)[|b| + 1..|b| + 1 + |sj|] == sj;
    NatToStringInjective(i, j);
  }

  /** Every candidate is absolute exactly when the base name is. */
  lemma CandidateAbsolute(name: string, k: nat)
    ensures IsAbsolute(Candidate(name, k)) == IsAbsolute(SplitExt(name).0)
  {
  }

  /** Different counters give different paths. */
  lemma CandidatePathInjective(folder: string, name: string, i: nat, j: nat)
    requires CandidatePath(folder, name, i) == CandidatePath(folder, name, j)
    ensures i == j
  {
    CandidateAbsolute(name, i);
    CandidateAbsolute(name, j);
    JoinInjective(folder, Candidate(name, i), Candidate(name, j));
    CandidateInjective(name, i, j);
  }

  /** If the first `n` candidates all exist, there are at least `n` existing paths. */
  lemma {:induction false} TakenCandidatesBounded(folder: string, name: string, existing: set<string>, n: nat)
    requires forall j :: 1 <= j <= n ==> CandidatePath(folder, name, j) in existing
    ensures n <= |existing|
  {
    if n > 0 {
      var last := CandidatePath(folder, name, n);
      var rest := existing - {last};
      forall j | 1 <= j <= n - 1
        ensures CandidatePath(folder, name, j) in rest
      {
        if CandidatePath(folder, name, j) == last {
          CandidatePathInjective(folder, name, j, n);
        }
      }
      TakenCandidatesBounded(folder, name, rest, n - 1);
    }
  }

  /** There is only one save path: the rule determines it. */
  lemma SavePathUnique(folder: string, name: string, existing: set<string>, p: string, q: string)
    requires IsSavePath(folder, name, existing, p)
    requires IsSavePath(folder, name, existing, q)
    ensures p == q
  {
    if Join(folder, name) in existing {
      var k: nat :| FirstFree(folder, name, existing, k) && p == CandidatePath(folder, name, k);
      var m: nat :| FirstFree(folder, name, existing, m) && q == CandidatePath(folder, name, m);
      FirstFreeUnique(folder, name, existing, k, m);
    }
  }

  /** Only one counter is the first free one. */
  lemma FirstFreeUnique(folder: string, name: string, existing: set<string>, k: nat, m: nat)
    requires FirstFree(folder, name, existing, k) && FirstFree(folder, name, existing, m)
    ensures k == m
  {
  }

  /** Whatever path the upload is saved at has the secured name's extension. */
  lemma SavePathKeepsExt(folder: string, name: string, existing: set<string>, path: string)
    requires IsSavePath(folder, name, existing, path)
    ensures Ext(path) == Ext(name)
  {
    if Join(folder, name) !in existing {
      JoinKeepsExt(folder, name);
    } else {
      var k: nat :| FirstFree(folder, name, existing, k) && path == CandidatePath(folder, name, k);
      CandidatePathKeepsExt(folder, name, k);
    }
  }

  /** The `k`-th renamed path keeps the name's extension. */
  lemma CandidatePathKeepsExt(folder: string, name: string, k: nat)
    ensures Ext(CandidatePath(folder, name, k)) == Ext(name)
  {
    JoinKeepsExt(folder, Candidate(name, k));
    CandidateKeepsExt(name, k);
  }

  /**
   * The save-path step of `upload_file`: keep the secured name when its path
   * is free, otherwise run the `while os.path.exists(filepath)` loop. The
   * loop ends because distinct counters give distinct paths and only finitely
   * many paths exist.
   */
  method ChooseSavePath(folder: string, filename: string, existing: set<string>) returns (filepath: string)
    ensures filepath !in existing
    ensures IsSavePath(folder, filename, existing, filepath)
  {
    filepath := Join(folder, filename);
    if filepath in existing {
      var base, extension := SplitExt(filename).0, SplitExt(filename).1;
      var counter := 1;
      while filepath in existing
        invariant counter >= 1
        invariant counter == 1 ==> filepath == Join(folder, filename)
        invariant counter > 1 ==> filepath == CandidatePath(folder, filename, counter - 1)
        invariant forall j :: 1 <= j < counter - 1 ==> CandidatePath(folder, filename, j) in existing
        decreases |existing| + 1 - counter
      {
        TakenCandidatesBounded(folder, filename, existing, counter - 1);
        var newFilename := base + "_" + NatToString(counter) + extension;
        assert newFilename == Candidate(filename, counter);
        filepath := Join(folder, newFilename);
        assert filepath == CandidatePath(folder, filename, counter);
        counter := counter + 1;
      }
      assert FirstFree(folder, filename, existing, counter - 1);
    }
  }

  /** The rename keeps the extension: `base_k.ext` still ends in `.ext`. */
  lemma CandidateKeepsExt(name: string, k: nat)
    ensures Ext(Candidate(name, k)) == Ext(name)
  {
    var root, ext := SplitExt(name).0, SplitExt(name).1;
    var mid := "_" + NatToString(k);
    SplitExtShape(name);
    NoSeparatorInDigits(k);
    assert Candidate(name, k) == root + mid + ext;
    PartsKeepExt(name, root, mid, ext);
  }

  /** Text free of '.' and '/' that does not end in '.', put between the
      root and the extension of a name, keeps that extension. */
  lemma PartsKeepExt(name: string, root: string, mid: string, ext: string)
    requires root + ext == name && Ext(name) == ext
    requires ext == [] || (ext[0] == '.' && '.' !in ext[1..] && '/' !in ext)
    requires '/' !in mid && '.' !in mid && mid != [] && mid[|mid| - 1] != '.'
    ensures Ext(root + mid + ext) == ext
  {
    if ext == [] {
      assert root + mid + ext == name + mid;
      SuffixKeepsNoExt(name, mid);
    } else {
      forall j | 0 < j < |ext|
        ensures ext[j] != '.'
      {
        assert ext[j] == ext[1..][j - 1];
      }
      InfixKeepsExt(root, mid, ext);
    }
  }

  /** A name without an extension keeps none when text free of '.' and '/' is appended. */
  lemma SuffixKeepsNoExt(name: string, mid: string)
    requires Ext(name) == []
    requires '/' !in mid && '.' !in mid
    ensures Ext(name + mid) == []
  {
    var sep, dot := LastIndexOf(name, '/'), LastIndexOf(name, '.');
    LastIndexOfAppendMissing(name, mid, '/');
    LastIndexOfAppendMissing(name, mid, '.');
    ExtAt(name, sep, dot);
    if sep < dot {
      NonDotInPrefix(name, mid, sep + 1, dot);
    }
    ExtAt(name + mid, sep, dot);
  }

  /** Text free of '.' and '/', ending in something other than '.', inserted
      between a root and its extension leaves the extension as it was. */
  lemma InfixKeepsExt(base: string, mid: string, ext: string)
    requires ext != [] && ext[0] == '.' && '/' !in ext
    requires forall j :: 0 < j < |ext| ==> ext[j] != '.'
    requires '/' !in mid && '.' !in mid && mid != [] && mid[|mid| - 1] != '.'
    ensures Ext(base + mid + ext) == ext
  {
    var c := base + mid + ext;
    var sep, dot := LastIndexOf(base, '/'), |base| + |mid|;
    InfixIndices(base, mid, ext);
    NonDotInAt(c, sep + 1, dot, dot - 1);
    ExtAt(c, sep, dot);
  }

  /** Where the last separator and the last '.' of `base + mid + ext` lie. */
  lemma InfixIndices(base: string, mid: string, ext: string)
    requires ext != [] && ext[0] == '.' && '/' !in ext
    requires forall j :: 0 < j < |ext| ==> ext[j] != '.'
    requires '/' !in mid && mid != [] && mid[|mid| - 1] != '.'
    ensures LastIndexOf(base + mid + ext, '/') == LastIndexOf(base, '/')
    ensures LastIndexOf(base + mid + ext, '.') == |base| + |mid|
    ensures (base + mid + ext)[|base| + |mid|..] == ext
    ensures (base + mid + ext)[|base| + |mid| - 1] != '.'
  {
    assert base + mid + ext == base + (mid + ext);
    assert '/' !in mid + ext;
    LastIndexOfAppendMissing(base, mid + ext, '/');
    LastIndexOfIs(ext, '.', 0);
    LastIndexOfAppendPresent(base + mid, ext, '.');
  }
}
