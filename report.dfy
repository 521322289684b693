/** The integer bookkeeping around the sequential benchmarks of
    caso2/src/secuencial/secuencial.c, pruebas/linealPrueba.c and
    caso1/linealPrueba.c: the directories `createDirectoryIfNotExists`
    asks `mkdir` for, the result file names, the operation count and the
    memory estimate. `mkdir` itself is not modelled: the model returns the
    paths it would be called on, in order. */
module Report {
  import opened Common

  // ---------------------------------------------------------------------
  // C strings
  // ---------------------------------------------------------------------

  /** Size of the `tmp` buffer of `createDirectoryIfNotExists`. */
  const PathBufferSize: nat := 1024

  /** A C string's characters: no NUL inside. */
  predicate IsCString(s: string)
  {
    forall i :: 0 <= i < |s| ==> s[i] != '\0'
  }

  /** The C string a buffer holds: its characters before the first NUL. */
  function CStr(buf: seq<char>): (s: string)
    ensures |s| <= |buf| && IsCString(s)
    decreases |buf|
  {
    if |buf| == 0 || buf[0] == '\0' then "" else [buf[0]] + CStr(buf[1..])
  }

  /** A buffer whose first NUL is at k holds the string buf[..k]. */
  lemma {:induction false} CStrAt(buf: seq<char>, k: nat)
    requires k < |buf| && buf[k] == '\0'
    requires forall i :: 0 <= i < k ==> buf[i] != '\0'
    ensures CStr(buf) == buf[..k]
    decreases k
  {
    if k > 0 {
      CStrAt(buf[1..], k - 1);
      assert buf[..k] == [buf[0]] + buf[1..][..k - 1];
    }
  }

  // ---------------------------------------------------------------------
  // createDirectoryIfNotExists
  // ---------------------------------------------------------------------

  /** What `createDirectoryIfNotExists` does: nothing (a null or empty
      path), exit with "Ruta demasiado larga." (a path that does not fit
      `tmp`), or `mkdir` on each of `targets`, in order. */
  datatype DirOutcome = NoPath | PathTooLong | MakeDirs(targets: seq<string>)

  /** The path with one trailing '/' cut off (`tmp[len - 1] = '\0'`). */
  function Trimmed(s: string): (t: string)
    requires |s| > 0
    ensures s == t || s == t + "/"
    ensures t == s <==> s[|s| - 1] != '/'
  {
    if s[|s| - 1] == '/' then s[..|s| - 1] else s
  }

  /** The prefixes t[..q], 1 <= q < p, that end just before a '/' of t,
      shortest first. */
  function SlashPrefixes(t: string, p: nat): (r: seq<string>)
    requires p <= 1 || p <= |t|
    ensures |r| < p || p == 0
    decreases p
  {
    if p <= 1 then []
    else SlashPrefixes(t, p - 1) + (if t[p - 1] == '/' then [t[..p - 1]] else [])
  }

  /** The `mkdir` targets for the trimmed path t: every prefix before a '/'
      at index 1 or more, then t itself. */
  function DirTargets(t: string): (d: seq<string>)
    ensures 1 <= |d| <= |t| + 1 && d[|d| - 1] == t
  {
    SlashPrefixes(t, |t|) + [t]
  }

  /** `strcpy(tmp, dirPath)`: the characters, then the terminator. */
  method CopyPath(s: string, tmp: array<char>)
    requires |s| < tmp.Length
    modifies tmp
    ensures forall k :: 0 <= k < |s| ==> tmp[k] == s[k]
    ensures tmp[|s|] == '\0'
  {
    for i := 0 to |s|
      invariant forall k :: 0 <= k < i ==> tmp[k] == s[k]
    {
      tmp[i] := s[i];
    }
    tmp[|s|] := '\0';
  }

  /** The `p` loop over `tmp`, which holds the trimmed path t (and, when t
      is empty, the terminator of the original one-character path at 1):
      each '/' at index 1 or more is cut for one `mkdir` and restored. The
      loop leaves `tmp` holding t and has asked for the parents of t. */
  method WalkSlashes(tmp: array<char>, ghost t: string, len: nat) returns (targets: seq<string>)
    requires IsCString(t) && 1 <= len < tmp.Length && |t| <= len && (|t| == 0 ==> len == 1)
    requires forall k :: 0 <= k < |t| ==> tmp[k] == t[k]
    requires tmp[|t|] == '\0' && tmp[len] == '\0'
    modifies tmp
    ensures forall k :: 0 <= k < |t| ==> tmp[k] == t[k]
    ensures tmp[|t|] == '\0'
    ensures targets == SlashPrefixes(t, |t|)
  {
    targets := [];
    var p := 1;
    while tmp[p] != '\0'
      invariant 1 <= p <= len && (p <= 1 || p <= |t|)
      invariant forall k :: 0 <= k < |t| ==> tmp[k] == t[k]
      invariant tmp[|t|] == '\0' && tmp[len] == '\0'
      invariant targets == SlashPrefixes(t, p)
      decreases |t| - p
    {
      if tmp[p] == '/' {
        tmp[p] := '\0';
        CStrAt(tmp[..], p);
        assert tmp[..][..p] == t[..p];
        targets := targets + [CStr(tmp[..])];
        tmp[p] := '/';
      }
      p := p + 1;
    }
  }

  /** `createDirectoryIfNotExists`: nothing for a null or empty path, an
      exit for a path that does not fit `tmp`; otherwise `mkdir` on each
      parent found by the `p` loop, then on the whole trimmed path. */
  method CreateDirectoryTargets(path: Option<string>) returns (r: DirOutcome)
    requires path.Some? ==> IsCString(path.value)
    ensures (path == None || path == Some("")) <==> r == NoPath
    ensures path.Some? && |path.value| >= PathBufferSize <==> r == PathTooLong
    ensures path.Some? && 0 < |path.value| < PathBufferSize ==>
      r == MakeDirs(DirTargets(Trimmed(path.value)))
  {
    if path.None? || |path.value| == 0 {
      return NoPath;
    }
    var s := path.value;
    var len := |s|;
    if len >= PathBufferSize {
      return PathTooLong;
    }
    var tmp := new char[PathBufferSize];
    CopyPath(s, tmp);
    if tmp[len - 1] == '/' {
      tmp[len - 1] := '\0';
    }
    ghost var t := Trimmed(s);
    var targets := WalkSlashes(tmp, t, len);
    CStrAt(tmp[..], |t|);
    assert tmp[..][..|t|] == t;
    targets := targets + [CStr(tmp[..])];
    return MakeDirs(targets);
  }

  /** Every target but the last is a proper prefix of t that stops just
      before one of t's '/' (a parent directory), and the lengths grow, so
      each parent is made before its children. */
  lemma {:induction false} SlashPrefixesSound(t: string, p: nat)
    requires p <= 1 || p <= |t|
    ensures forall k :: 0 <= k < |SlashPrefixes(t, p)| ==>
      var d := SlashPrefixes(t, p)[k];
      1 <= |d| < p && |d| < |t| && d == t[..|d|] && t[|d|] == '/'
    ensures forall k1, k2 :: 0 <= k1 < k2 < |SlashPrefixes(t, p)| ==>
      |SlashPrefixes(t, p)[k1]| < |SlashPrefixes(t, p)[k2]|
    decreases p
  {
    if p > 1 {
      SlashPrefixesSound(t, p - 1);
    }
  }

  /** Every '/' of t after the first character yields the target before it. */
  lemma {:induction false} SlashPrefixesComplete(t: string, p: nat, q: nat)
    requires p <= 1 || p <= |t|
    requires 1 <= q < p && t[q] == '/'
    ensures t[..q] in SlashPrefixes(t, p)
    decreases p
  {
    if q < p - 1 {
      SlashPrefixesComplete(t, p - 1, q);
    }
  }

  /** The targets of a trimmed path t: the parents of t, one per '/', in
      increasing length, then t itself. */
  lemma DirTargetsAreParents(t: string)
    ensures |DirTargets(t)| >= 1 && DirTargets(t)[|DirTargets(t)| - 1] == t
    ensures forall k :: 0 <= k < |DirTargets(t)| - 1 ==>
      var d := DirTargets(t)[k];
      1 <= |d| < |t| && d == t[..|d|] && t[|d|] == '/'
    ensures forall q :: 1 <= q < |t| && t[q] == '/' ==> t[..q] in DirTargets(t)
  {
    SlashPrefixesSound(t, |t|);
    forall q | 1 <= q < |t| && t[q] == '/'
      ensures t[..q] in DirTargets(t)
    {
      SlashPrefixesComplete(t, |t|, q);
    }
  }

  // ---------------------------------------------------------------------
  // File names and figures
  // ---------------------------------------------------------------------

  /** `generateFilename` of caso2/src/secuencial/secuencial.c:
      `"%s/Secuencial_Results.csv"`. */
  function SequentialResultsFile(dirPath: string): (f: string)
    ensures |f| == |dirPath| + 23 && f[..|dirPath|] == dirPath && f[|dirPath|] == '/'
    ensures f[|dirPath| + 1..] == "Secuencial_Results.csv"
  {
    dirPath + "/Secuencial_Results.csv"
  }

  /** `generateFilename` of caso1/linealPrueba.c: `"%s/Lineal_Results.csv"`,
      the same name on every run. */
  function LinealResultsFile(dirPath: string): (f: string)
    ensures |f| == |dirPath| + 19 && f[..|dirPath|] == dirPath && f[|dirPath|] == '/'
    ensures f[|dirPath| + 1..] == "Lineal_Results.csv"
  {
    dirPath + "/Lineal_Results.csv"
  }

  /** The two result files of one directory never coincide, and a file name
      determines its directory. */
  lemma ResultsFilesDistinct(d1: string, d2: string)
    ensures SequentialResultsFile(d1) != LinealResultsFile(d2)
    ensures SequentialResultsFile(d1) == SequentialResultsFile(d2) ==> d1 == d2
    ensures LinealResultsFile(d1) == LinealResultsFile(d2) ==> d1 == d2
  {
    var f1, f2 := SequentialResultsFile(d1), LinealResultsFile(d2);
    if |f1| == |f2| {
      // 19 characters from the end: the 'u' of "Secuencial" against the '/'
      assert f1[|d1| + 4] == "Secuencial_Results.csv"[3] == 'u';
      assert f2[|d2|] == '/';
    }
    if SequentialResultsFile(d1) == SequentialResultsFile(d2) {
      assert d1 == SequentialResultsFile(d1)[..|d1|];
    }
    if LinealResultsFile(d1) == LinealResultsFile(d2) {
      assert d1 == LinealResultsFile(d1)[..|d1|];
    }
  }

  /** `total_operations = (long long)size * size * (2*size - 1)`: the
      size^3 multiplications plus the size^2 * (size - 1) additions of the
      size^2 dot products. `main` of secuencial.c never checks `size`, so a
      negative size reports a negative count. */
  function TotalOperations(size: int): (ops: int)
    ensures ops == size * size * size + size * size * (size - 1)
    ensures ops < 0 <==> size < 0
  {
    size * size * (2 * size - 1)
  }

  /** `memory_used = (3 * size * size * sizeof(int)) / (1024 * 1024)`, with
      4-byte ints: the bytes of A, B and C in whole MiB, rounded down. */
  function MemoryUsedMb(size: nat): (mb: nat)
    ensures mb * 1048576 <= 12 * size * size < (mb + 1) * 1048576
  {
    (3 * size * size * 4) / (1024 * 1024)
  }
}
