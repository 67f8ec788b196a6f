/**
 The POSIX path helpers behind `validate_file_type` and `safe_path_join` in
 utils.py: `str.rfind`, `os.path.basename`, `os.path.splitext` (separator
 `/`, extension separator `.`) and `os.path.join`.
 */
module Paths {
  import opened Text

  datatype Option<T> = None | Some(value: T)

  /** `s.rfind(c)`: the last index holding `c`, or -1 when there is none. */
  function RFind(s: string, c: char): (r: int)
    ensures -1 <= r < |s|
    ensures r >= 0 ==> s[r] == c
    ensures forall i :: r < i < |s| ==> s[i] != c
  {
    if s == [] then -1
    else if s[|s| - 1] == c then |s| - 1
    else RFind(s[..|s| - 1], c)
  }

  /** `os.path.basename`: everything after the last `/`. */
  function Basename(p: string): (r: string)
    ensures '/' !in r
    ensures EndsWith(p, r)
    ensures |r| < |p| ==> p[|p| - |r| - 1] == '/'
  {
    p[RFind(p, '/') + 1..]
  }

  /** True when `p[lo..hi]` holds only dots: the leading-dot scan of `splitext`. */
  predicate OnlyDots(p: string, lo: int, hi: int)
    requires 0 <= lo && hi <= |p|
  {
    forall i :: lo <= i < hi ==> p[i] == '.'
  }

  /** `os.path.splitext`: the root and the extension, which together give back the path. */
  function SplitExt(p: string): (r: (string, string))
    ensures r.0 + r.1 == p
    ensures r.1 == [] || r.1[0] == '.'
    ensures forall i :: 0 < i < |r.1| ==> r.1[i] != '.' && r.1[i] != '/'
  {
    var sepIndex := RFind(p, '/');
    var dotIndex := RFind(p, '.');
    if dotIndex > sepIndex && !OnlyDots(p, sepIndex + 1, dotIndex) then
      (p[..dotIndex], p[dotIndex..])
    else
      (p, [])
  }

  /** `os.path.splitext(p)[1]`. */
  function Ext(p: string): (r: string)
    ensures |r| <= |p|
    ensures r == [] || r[0] == '.'
  {
    SplitExt(p).1
  }

  /**
   The extension of `p` can start at index `k`: `p[k]` is a dot, no dot or
   separator follows it, and the last path component holds some character
   other than a dot before it.
   */
  predicate ExtStartsAt(p: string, k: int) {
    && 0 <= k < |p|
    && p[k] == '.'
    && (forall i :: k < i < |p| ==> p[i] != '.' && p[i] != '/')
    && (exists j :: 0 <= j < k && p[j] != '.' && p[j] != '/' && NoSlashBetween(p, j, k))
  }

  predicate NoSlashBetween(p: string, j: int, k: int)
    requires 0 <= j && k <= |p|
  {
    forall m :: j < m < k ==> p[m] != '/'
  }

  /** At most one index can start an extension. */
  lemma ExtStartUnique(p: string, k: int, k': int)
    requires ExtStartsAt(p, k) && ExtStartsAt(p, k')
    ensures k == k'
  {
  }

  /**
   `splitext` returns a non-empty extension exactly when some index can start
   one, and then the extension is the suffix from that index.
   */
  lemma ExtCharacterization(p: string)
    ensures Ext(p) != [] <==> exists k :: ExtStartsAt(p, k)
    ensures Ext(p) != [] ==> ExtStartsAt(p, |p| - |Ext(p)|) && Ext(p) == p[|p| - |Ext(p)|..]
  {
    var sepIndex := RFind(p, '/');
    var dotIndex := RFind(p, '.');
    if Ext(p) != [] {
      assert dotIndex > sepIndex && !OnlyDots(p, sepIndex + 1, dotIndex);
      var j :| sepIndex + 1 <= j < dotIndex && p[j] != '.';
      assert p[j] != '/';
      assert NoSlashBetween(p, j, dotIndex);
      assert ExtStartsAt(p, dotIndex);
    } else {
      if k :| ExtStartsAt(p, k) {
        assert k == dotIndex;
        var j :| 0 <= j < k && p[j] != '.' && p[j] != '/' && NoSlashBetween(p, j, k);
        assert false;
      }
    }
  }

  /** The extension lies inside the last path component, after at least one other character of it. */
  lemma ExtWithinBasename(p: string)
    requires Ext(p) != []
    ensures |Ext(p)| < |Basename(p)|
    ensures EndsWith(Basename(p), Ext(p))
  {
    ExtFromLastDot(p);
    var sepIndex := RFind(p, '/');
    var dotIndex := RFind(p, '.');
    var base := p[sepIndex + 1..];
    assert base[dotIndex - sepIndex - 1..] == p[dotIndex..];
  }

  /** A non-empty extension starts at the last dot, which lies at least two places after the last separator. */
  lemma ExtFromLastDot(p: string)
    requires Ext(p) != []
    ensures RFind(p, '/') + 1 < RFind(p, '.')
    ensures Ext(p) == p[RFind(p, '.')..]
  {
    var sepIndex := RFind(p, '/');
    var dotIndex := RFind(p, '.');
    assert !OnlyDots(p, sepIndex + 1, dotIndex);
  }

  /** Any string is its prefix followed by the rest. */
  lemma SplitAt(s: string, n: nat)
    requires n <= |s|
    ensures s == s[..n] + s[n..]
  {
  }

  /** `validate_file_type`: the lower-cased extension is one of the allowed ones. */
  function ValidateFileType(filePath: string, allowedExtensions: set<string>): (r: bool)
    ensures r && [] !in allowedExtensions ==> Ext(filePath) != [] && Ext(filePath)[0] == '.'
  {
    Lower(Ext(filePath)) in allowedExtensions
  }

  /** An extension has no extension of its own: its only dot is its first character. */
  lemma ExtOfExt(p: string)
    ensures Ext(Ext(p)) == []
  {
    var e := Ext(p);
    if e != [] {
      assert RFind(e, '.') == 0;
      assert OnlyDots(e, RFind(e, '/') + 1, 0);
    }
  }

  /** The type check accepts a path exactly when its extension, found by the declarative rule, lowers into the allowed set. */
  lemma ValidateFileTypeSpec(p: string, allowed: set<string>)
    ensures ValidateFileType(p, allowed) <==>
      if exists k :: ExtStartsAt(p, k) then
        (var k :| ExtStartsAt(p, k); Lower(p[k..]) in allowed)
      else
        [] in allowed
  {
    ExtCharacterization(p);
    if exists k :: ExtStartsAt(p, k) {
      var k :| ExtStartsAt(p, k);
      ExtStartUnique(p, k, |p| - |Ext(p)|);
    }
  }

  /** Two strings that agree on where a character `c` occurs find the same last `c`. */
  lemma {:induction false} RFindAgrees(p: string, q: string, c: char)
    requires |p| == |q|
    requires forall i :: 0 <= i < |p| ==> (p[i] == c <==> q[i] == c)
    ensures RFind(p, c) == RFind(q, c)
    decreases |p|
  {
    if p != [] {
      RFindAgrees(p[..|p| - 1], q[..|q| - 1], c);
    }
  }

  /** Two paths with dots and separators in the same places have extensions starting at the same index. */
  lemma ExtSameShape(p: string, q: string)
    requires |p| == |q|
    requires forall i :: 0 <= i < |p| ==> (p[i] == '.' <==> q[i] == '.')
    requires forall i :: 0 <= i < |p| ==> (p[i] == '/' <==> q[i] == '/')
    ensures |Ext(p)| == |Ext(q)|
  {
    RFindAgrees(p, q, '/');
    RFindAgrees(p, q, '.');
    var sepIndex := RFind(p, '/');
    var dotIndex := RFind(p, '.');
    if dotIndex > sepIndex {
      assert OnlyDots(p, sepIndex + 1, dotIndex) == OnlyDots(q, sepIndex + 1, dotIndex);
    }
  }

  /** Changing the letter case of a path does not change whether its type is accepted. */
  lemma ValidateFileTypeCaseInsensitive(p: string, q: string, allowed: set<string>)
    requires Lower(p) == Lower(q)
    ensures ValidateFileType(p, allowed) == ValidateFileType(q, allowed)
  {
    SameLowerAgreesOnNonLetters(p, q, '/');
    SameLowerAgreesOnNonLetters(p, q, '.');
    ExtSameShape(p, q);
    var k := |p| - |Ext(p)|;
    assert Ext(p) == p[k..] by {
      SplitAt(p, |SplitExt(p).0|);
    }
    assert Ext(q) == q[k..] by {
      SplitAt(q, |SplitExt(q).0|);
    }
    LowerSuffix(p, k);
    LowerSuffix(q, k);
  }

  /** Leading dots do not start an extension: a hidden file such as `.pdf` has none. */
  lemma ExtHiddenFile()
    ensures Ext(".pdf") == ""
    ensures Ext("..pdf") == ""
  {
  }

  /** Only the last path component counts: a dot in a directory name is no extension. */
  lemma ExtDirectoryDot()
    ensures Ext("dir.pdf/readme") == ""
  {
    var p := "dir.pdf/readme";
    assert p[7] == '/' && p[3] == '.';
    assert forall i :: 3 < i < |p| ==> p[i] != '.';
    assert RFind(p, '.') == 3;
  }

  /** Only the last dot starts the extension: `archive.tar.gz` has extension `.gz`. */
  lemma ExtLastDotWins()
    ensures Ext("archive.tar.gz") == ".gz"
  {
    var p := "archive.tar.gz";
    ExtCharacterization(p);
    assert NoSlashBetween(p, 0, 11);
    assert ExtStartsAt(p, 11);
    ExtStartUnique(p, 11, |p| - |Ext(p)|);
  }

  /** One step of `os.path.join`: an absolute part restarts, otherwise a `/` is added unless already there. */
  function JoinStep(path: string, b: string): (r: string)
    ensures EndsWith(r, b)
    ensures (b == [] || b[0] != '/') ==> |path| <= |r| && r[..|path|] == path
    ensures |r| <= |path| + |b| + 1
    ensures (b == [] || b[0] != '/') && |r| == |path| + |b| + 1 ==> r[|path|] == '/'
  {
    if |b| > 0 && b[0] == '/' then b
    else if path == [] || path[|path| - 1] == '/' then path + b
    else path + "/" + b
  }

  /** `posixpath.join(a, *p)`, folding the parts from left to right. */
  function Join(a: string, parts: seq<string>): (r: string)
    ensures parts != [] ==> EndsWith(r, parts[|parts| - 1])
    decreases |parts|
  {
    if parts == [] then a
    else
      var rest := parts[1..];
      assert rest != [] ==> rest[|rest| - 1] == parts[|parts| - 1];
      Join(JoinStep(a, parts[0]), rest)
  }

  /** `safe_path_join(*paths)`: with no argument at all `os.path.join` raises, modelled as `None`. */
  function SafePathJoin(paths: seq<string>): (r: Option<string>)
    ensures r.None? <==> paths == []
  {
    if paths == [] then None else Some(Join(paths[0], paths[1..]))
  }

  /**
   Joining a relative name onto a base: the result is the base, then one `/`
   (left out when the base is empty or already ends in `/`), then the name,
   which becomes the last path component when it holds no `/`.
   */
  lemma JoinRelativeName(base: string, name: string)
    requires name == [] || name[0] != '/'
    ensures SafePathJoin([base, name]).Some?
    ensures var r := SafePathJoin([base, name]).value;
      && |base| + |name| <= |r| <= |base| + |name| + 1
      && r[..|base|] == base && r[|r| - |name|..] == name
      && (|r| == |base| + |name| <==> base == [] || base[|base| - 1] == '/')
      && (|r| == |base| + |name| + 1 ==> r[|base|] == '/')
      && (r == base + name || r == base + "/" + name)
    ensures '/' !in name ==> Basename(SafePathJoin([base, name]).value) == name
  {
    var r := SafePathJoin([base, name]).value;
    assert [base, name][1..] == [name];
    assert [name][1..] == [];
    assert Join(base, [name]) == Join(JoinStep(base, name), []);
    assert r == JoinStep(base, name);
    if '/' !in name {
      var pre := if base == [] || base[|base| - 1] == '/' then base else base + "/";
      assert r == pre + name;
      BasenameAfterSeparator(pre, name);
    }
  }

  /** A name without `/` placed after a separator (or at the start) is the basename. */
  lemma BasenameAfterSeparator(pre: string, name: string)
    requires pre == [] || pre[|pre| - 1] == '/'
    requires '/' !in name
    ensures Basename(pre + name) == name
  {
    var s := pre + name;
    var k := RFind(s, '/');
    if pre != [] {
      assert s[|pre| - 1] == '/';
    }
    assert k == |pre| - 1;
    assert s[|pre|..] == name;
  }

  /** An absolute part throws away everything joined before it. */
  lemma {:induction false} JoinRestartsAtAbsolute(a: string, parts: seq<string>, i: nat)
    requires i < |parts| && |parts[i]| > 0 && parts[i][0] == '/'
    ensures Join(a, parts) == Join(parts[i], parts[i + 1..])
    decreases i
  {
    if i > 0 {
      JoinRestartsAtAbsolute(JoinStep(a, parts[0]), parts[1..], i - 1);
      assert parts[1..][i - 1] == parts[i];
      assert parts[1..][i..] == parts[i + 1..];
    }
  }

  /** When no later part is absolute, the first part is a prefix of the joined path. */
  lemma {:induction false} JoinKeepsBase(a: string, parts: seq<string>)
    requires forall i :: 0 <= i < |parts| ==> parts[i] == [] || parts[i][0] != '/'
    ensures |a| <= |Join(a, parts)| && Join(a, parts)[..|a|] == a
    decreases |parts|
  {
    if parts != [] {
      var a' := JoinStep(a, parts[0]);
      assert a'[..|a|] == a;
      JoinKeepsBase(a', parts[1..]);
    }
  }
}
