/** The parts of POSIX `os.path` the program uses: `splitext`, `join` and
    `basename`, on `/`-separated paths. */
module Paths {
  import opened Strings

  /** `os.path.splitext`: the extension runs from the last `.` of the final
      path component to the end, unless only dots precede that `.` within the
      component (so `.mp4` and `..srt` have no extension). */
  function Splitext(p: string): (r: (string, string))
    ensures r.0 + r.1 == p
    ensures r.1 == "" || (r.1[0] == '.' && forall i :: 0 < i < |r.1| ==> r.1[i] != '.' && r.1[i] != '/')
  {
    var sep := LastIndexOf(p, '/');
    var dot := LastIndexOf(p, '.');
    if sep < dot && exists k :: sep < k < dot && p[k] != '.' then (p[..dot], p[dot..])
    else (p, "")
  }

  /** `os.path.splitext(p)[1]`. */
  function Extension(p: string): (ext: string)
  {
    Splitext(p).1
  }

  /** `os.path.join(a, b)`: an absolute `b` replaces `a`; otherwise a `/` is
      inserted unless `a` is empty or already ends in one. */
  function Join(a: string, b: string): (p: string)
    ensures |b| > 0 && b[0] == '/' ==> p == b
    ensures (|b| == 0 || b[0] != '/') ==> |a| <= |p| && p[..|a|] == a
    ensures (|b| == 0 || b[0] != '/') ==> |p| == |a| + |b| + (if |a| == 0 || a[|a| - 1] == '/' then 0 else 1)
    ensures '/' !in b ==> exists prefix :: p == prefix + b && (prefix == "" || prefix[|prefix| - 1] == '/')
  {
    if |b| > 0 && b[0] == '/' then b
    else if |a| == 0 || a[|a| - 1] == '/' then a + b
    else a + "/" + b
  }

  /** The joined path is the name itself, the two parts run together, or the
      two parts with exactly one `/` between them. */
  lemma JoinCases(a: string, b: string)
    ensures |b| > 0 && b[0] == '/' ==> Join(a, b) == b
    ensures (|b| == 0 || b[0] != '/') && (|a| == 0 || a[|a| - 1] == '/') ==> Join(a, b) == a + b
    ensures (|b| == 0 || b[0] != '/') && |a| > 0 && a[|a| - 1] != '/' ==> Join(a, b) == a + "/" + b
  {
    var p := Join(a, b);
    if (|b| == 0 || b[0] != '/') && |a| > 0 && a[|a| - 1] != '/' {
      assert p == p[..|a|] + [p[|a|]] + p[|a| + 1..];
    }
  }

  /** `os.path.basename`: everything after the last `/`. */
  function Basename(p: string): (b: string)
    ensures '/' !in b
    ensures |b| <= |p| && b == p[|p| - |b|..]
    ensures |b| == |p| || p[|p| - |b| - 1] == '/'
  {
    p[LastIndexOf(p, '/') + 1..]
  }

  /** For a name without a `/` (a directory entry), the extension is non-empty
      exactly when some `.` is preceded by a character other than `.`. */
  lemma ExtensionOfEntry(name: string)
    requires '/' !in name
    ensures Extension(name) != "" <==> exists k, d :: 0 <= k < d < |name| && name[k] != '.' && name[d] == '.'
  {
    var sep := LastIndexOf(name, '/');
    var dot := LastIndexOf(name, '.');
    assert sep == -1;
    if exists k, d :: 0 <= k < d < |name| && name[k] != '.' && name[d] == '.' {
      var k, d :| 0 <= k < d < |name| && name[k] != '.' && name[d] == '.';
      assert d <= dot;
      assert sep < k < dot && name[k] != '.';
      assert Extension(name) == name[dot..];
    }
  }

  /** When the last `.` of an entry name follows some other character, the
      extension is everything from that `.` on. */
  lemma ExtensionAfterLastDot(name: string, k: nat, d: nat)
    requires '/' !in name
    requires k < d < |name| && name[k] != '.' && name[d] == '.'
    requires forall j :: d < j < |name| ==> name[j] != '.'
    ensures Extension(name) == name[d..]
  {
    var sep := LastIndexOf(name, '/');
    var dot := LastIndexOf(name, '.');
    assert sep == -1;
    assert dot == d;
    assert sep < k < dot && name[k] != '.';
  }

  /** The base name of a path joined onto a directory is the entry name that
      was joined, so `join` followed by `basename` gives the listed name back. */
  lemma BasenameOfJoin(dir: string, name: string)
    requires '/' !in name
    ensures Basename(Join(dir, name)) == name
  {
    var p := Join(dir, name);
    var prefix :| p == prefix + name && (prefix == "" || prefix[|prefix| - 1] == '/');
    var i := LastIndexOf(p, '/');
    assert i < |prefix|;
    if prefix != "" {
      assert p[|prefix| - 1] == '/';
      assert i == |prefix| - 1;
    } else {
      assert i == -1;
    }
    assert p[i + 1..] == name;
  }

  /** Distinct entry names stay distinct when joined onto one directory. */
  lemma JoinInjective(dir: string, n1: string, n2: string)
    requires '/' !in n1 && '/' !in n2
    requires Join(dir, n1) == Join(dir, n2)
    ensures n1 == n2
  {
    BasenameOfJoin(dir, n1);
    BasenameOfJoin(dir, n2);
  }

  /** A stem holding some character other than `.`, a `.`, and a suffix
      without `.`: the extension is the `.` and the suffix, whatever its case. */
  lemma ExtensionOfStem(stem: string, suffix: string)
    requires '/' !in stem && '/' !in suffix && '.' !in suffix
    requires exists k :: 0 <= k < |stem| && stem[k] != '.'
    ensures Extension(stem + "." + suffix) == "." + suffix
  {
    var name := stem + "." + suffix;
    var k :| 0 <= k < |stem| && stem[k] != '.';
    assert name[k] == stem[k] && name[|stem|] == '.';
    assert forall j :: |stem| < j < |name| ==> name[j] == suffix[j - |stem| - 1];
    ExtensionAfterLastDot(name, k, |stem|);
    assert name[|stem|..] == "." + suffix;
  }

  /** A hidden file name, a `.` followed by no other `.`, has no extension. */
  lemma HiddenNameHasNoExtension(suffix: string)
    requires '/' !in suffix && '.' !in suffix
    ensures Extension("." + suffix) == ""
  {
    var name := "." + suffix;
    ExtensionOfEntry(name);
  }
}
