/** Python's `os.path.basename` and `os.path.splitext` for Windows paths (`ntpath`). */
module NtPath {
  import opened PyStr

  /** Both `\` and `/` separate path components on Windows. */
  predicate IsSep(c: char) {
    c == '\\' || c == '/'
  }

  predicate NoSep(s: string) {
    forall i :: 0 <= i < |s| ==> !IsSep(s[i])
  }

  /** The index just after the last separator among the first `n` characters
      of `s`, or 0 when there is none: where the final component starts. */
  function SepEnd(s: string, n: nat): (k: nat)
    requires n <= |s|
    ensures k <= n
  {
    if n == 0 then 0
    else if IsSep(s[n - 1]) then n
    else SepEnd(s, n - 1)
  }

  /** No separator stands between SepEnd and `n`, and one stands just before SepEnd. */
  lemma {:induction false} SepEndIsLast(s: string, n: nat)
    requires n <= |s|
    ensures var k := SepEnd(s, n);
            && (forall i :: k <= i < n ==> !IsSep(s[i]))
            && (k > 0 ==> IsSep(s[k - 1]))
  {
    if n > 0 && !IsSep(s[n - 1]) {
      SepEndIsLast(s, n - 1);
    }
  }

  /** The text after the last separator of `s` (all of `s` when it has none). */
  function AfterLastSep(s: string): string {
    s[SepEnd(s, |s|)..]
  }

  /** The text after the last separator is a separator-free suffix of `s`,
      and when it is shorter than `s` a separator precedes it. */
  lemma AfterLastSepSuffix(s: string)
    ensures var r := AfterLastSep(s);
            && |r| <= |s| && r == s[|s| - |r|..]
            && NoSep(r)
            && (|r| < |s| ==> IsSep(s[|s| - |r| - 1]))
  {
    SepEndIsLast(s, |s|);
    var k := SepEnd(s, |s|);
    var r := s[k..];
    forall i | 0 <= i < |r| ensures !IsSep(r[i]) {
      assert r[i] == s[k + i];
    }
  }

  /** The path without its drive letter prefix `X:`, if it has one. */
  function DropDrive(p: string): string {
    if |p| >= 2 && p[1] == ':' then p[2..] else p
  }

  /** `os.path.basename(p)`: the final component of `p`; it contains no separator. */
  function Basename(p: string): (r: string)
    ensures NoSep(r)
  {
    AfterLastSepSuffix(DropDrive(p));
    AfterLastSep(DropDrive(p))
  }

  /** The final component is a suffix of `p`, and what precedes it in `p`
      ends in a separator or is exactly the drive prefix. */
  lemma BasenameSlice(p: string)
    ensures var r := Basename(p);
            && |r| <= |p| && r == p[|p| - |r|..]
            && (|r| < |p| ==> IsSep(p[|p| - |r| - 1]) || (|p| - |r| == 2 && p[1] == ':'))
  {
    var d := DropDrive(p);
    AfterLastSepSuffix(d);
    var r := AfterLastSep(d);
    if d != p {
      assert r == p[|p| - |r|..];
      if |r| < |d| {
        assert p[|p| - |r| - 1] == d[|d| - |r| - 1];
      }
    }
  }

  /** A suffix free of separators survives cutting at the last separator. */
  lemma AfterLastSepKeepsSuffix(s: string, suffix: string)
    requires EndsWith(s, suffix) && NoSep(suffix)
    ensures EndsWith(AfterLastSep(s), suffix)
  {
    SepEndIsLast(s, |s|);
    var k := SepEnd(s, |s|);
    assert s[k..][|s| - k - |suffix|..] == s[|s| - |suffix|..];
  }

  /** A suffix free of separators and colons survives `basename`. */
  lemma BasenameKeepsSuffix(p: string, suffix: string)
    requires EndsWith(p, suffix)
    requires NoSep(suffix) && ':' !in suffix
    ensures EndsWith(Basename(p), suffix)
  {
    var d := DropDrive(p);
    assert EndsWith(d, suffix) by {
      assert d[|d| - |suffix|..] == p[|p| - |suffix|..];
    }
    AfterLastSepKeepsSuffix(d, suffix);
  }

  /** The index of the last `.` among the first `n` characters of `s`, or -1. */
  function LastDot(s: string, n: nat): (k: int)
    requires n <= |s|
    ensures -1 <= k < n
  {
    if n == 0 then -1
    else if s[n - 1] == '.' then n - 1
    else LastDot(s, n - 1)
  }

  /** The index found is a dot with no dot after it, below `n`. */
  lemma {:induction false} LastDotIsLast(s: string, n: nat)
    requires n <= |s|
    ensures var k := LastDot(s, n);
            && (k >= 0 ==> s[k] == '.')
            && (forall i :: k < i < n ==> s[i] != '.')
  {
    if n > 0 && s[n - 1] != '.' {
      LastDotIsLast(s, n - 1);
    }
  }

  predicate AllDotsIn(s: string, lo: nat, hi: nat)
    requires lo <= hi <= |s|
  {
    forall i :: lo <= i < hi ==> s[i] == '.'
  }

  /** Where the extension that `os.path.splitext` finds begins (`|p|` when
      there is none): at the last dot of `p` if that dot lies in the final
      component and some character of the component before it is not a dot. */
  function ExtStart(p: string): (k: nat)
    ensures k <= |p|
  {
    var start := SepEnd(p, |p|);
    var dot := LastDot(p, |p|);
    if dot >= start && !AllDotsIn(p, start, dot) then dot else |p|
  }

  /** `os.path.splitext(p)`: the root and the extension. */
  function SplitExt(p: string): (string, string) {
    (p[..ExtStart(p)], p[ExtStart(p)..])
  }

  /** Root and extension concatenate back to the path; the extension is
      empty or a dot followed by neither a dot nor a separator. */
  lemma SplitExtParts(p: string)
    ensures SplitExt(p).0 + SplitExt(p).1 == p
    ensures var ext := SplitExt(p).1;
            ext == [] || (ext[0] == '.' && NoSep(ext) && forall i :: 1 <= i < |ext| ==> ext[i] != '.')
  {
    var k := ExtStart(p);
    assert p[..k] + p[k..] == p;
    SepEndIsLast(p, |p|);
    LastDotIsLast(p, |p|);
    var ext := p[k..];
    forall i | 0 <= i < |ext| ensures ext[i] == p[k + i] {
    }
  }

  /** In a name ending in `ext` (a dot followed by no dot) the last dot is the one that starts `ext`. */
  lemma LastDotOfSuffix(s: string, ext: string)
    requires EndsWith(s, ext)
    requires |ext| > 0 && ext[0] == '.' && forall i :: 1 <= i < |ext| ==> ext[i] != '.'
    ensures LastDot(s, |s|) == |s| - |ext|
  {
    LastDotIsLast(s, |s|);
    var k := |s| - |ext|;
    assert s[k] == ext[0];
    forall i | k < i < |s| ensures s[i] != '.' {
      assert s[i] == ext[i - k];
    }
  }

  /** The root that `splitext` gives for a name ending in `ext` (a dot and
      then no dot or separator): the name without `ext` when the final
      component has a character other than a dot before `ext`, else the whole name. */
  lemma SplitExtOfSuffix(p: string, ext: string)
    requires EndsWith(p, ext)
    requires |ext| > 0 && ext[0] == '.' && NoSep(ext) && forall i :: 1 <= i < |ext| ==> ext[i] != '.'
    ensures var start := SepEnd(p, |p|);
            && start <= |p| - |ext|
            && ExtStart(p) == if !AllDotsIn(p, start, |p| - |ext|) then |p| - |ext| else |p|
  {
    SepEndIsLast(p, |p|);
    var start := SepEnd(p, |p|);
    LastDotOfSuffix(p, ext);
  }

  /** The root that `splitext` gives for a name ending in `ext`: the name
      without `ext`, or the whole name when the final component is only dots before `ext`. */
  lemma SplitExtRootOfSuffix(p: string, ext: string)
    requires EndsWith(p, ext)
    requires |ext| > 0 && ext[0] == '.' && NoSep(ext) && forall i :: 1 <= i < |ext| ==> ext[i] != '.'
    ensures SepEnd(p, |p|) <= |p| - |ext|
    ensures !AllDotsIn(p, SepEnd(p, |p|), |p| - |ext|) ==> SplitExt(p).0 == p[..|p| - |ext|]
    ensures AllDotsIn(p, SepEnd(p, |p|), |p| - |ext|) ==> SplitExt(p).0 == p
  {
    SplitExtOfSuffix(p, ext);
  }
}
