/** The POSIX flavour of Python's `os.path` functions the tools call:
    `basename`, `dirname`, `splitext` and `join`. */
module PosixPath {

  const Sep: char := '/'
  const ExtSep: char := '.'

  /** `s.rfind(c)`: the last index holding `c`, or -1. */
  function RFind(s: string, c: char): (r: int)
    ensures -1 <= r < |s|
    ensures r >= 0 ==> s[r] == c
    ensures forall k :: r < k < |s| ==> s[k] != c
  {
    if s == [] then -1
    else if s[|s| - 1] == c then |s| - 1
    else RFind(s[..|s| - 1], c)
  }

  /** `os.path.basename(p)`: everything after the last '/'. */
  function Basename(p: string): (b: string)
    ensures forall k :: 0 <= k < |b| ==> b[k] != Sep
    ensures |b| <= |p| && p == p[..|p| - |b|] + b
    ensures |b| < |p| ==> p[|p| - |b| - 1] == Sep
    ensures b == [] <==> p == [] || p[|p| - 1] == Sep
  {
    var i := RFind(p, Sep) + 1;
    var b := p[i..];
    assert |p| - |b| == i;
    assert p == p[..i] + b;
    b
  }

  /** `basename(p)` is not empty: `p` does not end in '/'. */
  predicate Named(p: string) {
    p != [] && p[|p| - 1] != Sep
  }

  /** `basename(p) == "."`: the last component of `p` is ".". */
  predicate DotNamed(p: string) {
    p != [] && p[|p| - 1] == ExtSep && (|p| == 1 || p[|p| - 2] == Sep)
  }

  /** The two tests on `basename` above say what their names say. */
  lemma BasenameTests(p: string)
    ensures Named(p) <==> Basename(p) != ""
    ensures DotNamed(p) <==> Basename(p) == "."
  {
    var b := Basename(p);
    if DotNamed(p) {
      if |p| == 1 {
        assert RFind(p, Sep) == -1;
      } else {
        RFindLast(p, Sep, |p| - 2);
      }
      assert b == p[|p| - 1..];
    }
  }

  function RStripSep(s: string): (r: string)
    ensures |r| <= |s| && r == s[..|r|]
    ensures forall k :: |r| <= k < |s| ==> s[k] == Sep
    ensures r == [] || r[|r| - 1] != Sep
  {
    if s != [] && s[|s| - 1] == Sep then RStripSep(s[..|s| - 1]) else s
  }

  predicate AllSep(s: string) {
    forall k :: 0 <= k < |s| ==> s[k] == Sep
  }

  /** `os.path.dirname(p)`: everything before the last '/', with trailing
      slashes removed unless the head consists of slashes only. */
  function Dirname(p: string): (d: string)
    ensures RFind(p, Sep) == -1 ==> d == ""
    ensures |d| <= |p|
    ensures p != [] && p[|p| - 1] != Sep ==> |d| < |p|
  {
    var head := p[..RFind(p, Sep) + 1];
    if head != [] && !AllSep(head) then RStripSep(head) else head
  }

  /** A directory name with its trailing slashes removed, unless it
      consists of slashes only: the name the directory is known by. */
  function TrimSep(d: string): (r: string)
    ensures |r| <= |d|
    ensures !AllSep(d) ==> r != [] && r[|r| - 1] != Sep
  {
    if AllSep(d) then d else RStripSep(d)
  }

  /** Index from which `splitext` takes the extension, or -1 when there is
      none: the last '.' must come after the last '/' and must not belong
      to the leading dots of the file name. */
  function ExtStart(p: string): (i: int)
    ensures i == -1 || (0 < i < |p| && p[i] == ExtSep)
  {
    var sepIndex := RFind(p, Sep);
    var dotIndex := RFind(p, ExtSep);
    if dotIndex > sepIndex && exists k :: sepIndex + 1 <= k < dotIndex && p[k] != ExtSep
    then dotIndex else -1
  }

  /** `os.path.splitext(p)`: `(root, ext)`. */
  function Splitext(p: string): (r: (string, string))
    ensures r.0 + r.1 == p
    ensures r.1 == [] || r.1[0] == ExtSep
    ensures forall k :: 0 < k < |r.1| ==> r.1[k] != ExtSep && r.1[k] != Sep
  {
    var i := ExtStart(p);
    if i == -1 then (p, "") else
      assert p == p[..i] + p[i..];
      (p[..i], p[i..])
  }

  /** `os.path.join(a, b)` for two components. */
  function Join(a: string, b: string): (r: string)
    ensures b != [] && b[0] == Sep ==> r == b
    ensures (b == [] || b[0] != Sep) && a != [] && a[|a| - 1] != Sep ==> r == a + [Sep] + b
  {
    if b != [] && b[0] == Sep then b
    else if a == [] || a[|a| - 1] == Sep then a + b
    else a + [Sep] + b
  }

  /** For a file name with a non-dot character before its last dot, and no
      other dot after it, `splitext` cuts exactly at that dot. */
  lemma SplitextAt(dir: string, stem: string, ext: string)
    requires dir == [] || dir[|dir| - 1] == Sep
    requires forall k :: 0 <= k < |stem| ==> stem[k] != Sep
    requires exists k :: 0 <= k < |stem| && stem[k] != ExtSep
    requires forall k :: 0 <= k < |ext| ==> ext[k] != Sep && ext[k] != ExtSep
    ensures Splitext(dir + stem + [ExtSep] + ext) == (dir + stem, [ExtSep] + ext)
  {
    var p := dir + stem + [ExtSep] + ext;
    var dot := |dir| + |stem|;
    assert p[dot] == ExtSep;
    forall k | dot < k < |p| ensures p[k] != ExtSep && p[k] != Sep {
      assert p[k] == ext[k - dot - 1];
    }
    RFindLast(p, ExtSep, dot);
    forall k | |dir| <= k < |p| ensures p[k] != Sep {
      if k < dot { assert p[k] == stem[k - |dir|]; }
    }
    assert RFind(p, Sep) < |dir|;
    var k :| 0 <= k < |stem| && stem[k] != ExtSep;
    assert p[|dir| + k] == stem[k];
    assert RFind(p, Sep) + 1 <= |dir| + k < dot;
    assert ExtStart(p) == dot;
    assert p[..dot] == dir + stem;
    assert p[dot..] == [ExtSep] + ext;
  }

  /** The directory part of a name joined onto `d` is `d` itself, without
      its trailing slashes. */
  lemma JoinDirname(d: string, name: string)
    requires name != [] && forall k :: 0 <= k < |name| ==> name[k] != Sep
    ensures Dirname(Join(d, name)) == TrimSep(d)
  {
    var p := Join(d, name);
    if d == [] {
      assert p == name;
      assert RFind(p, Sep) == -1;
    } else if d[|d| - 1] == Sep {
      assert p == d + name;
      forall k | |d| - 1 < k < |p| ensures p[k] != Sep {
        assert p[k] == name[k - |d|];
      }
      RFindLast(p, Sep, |d| - 1);
      assert p[..|d|] == d;
    } else {
      assert p == d + [Sep] + name;
      forall k | |d| < k < |p| ensures p[k] != Sep {
        assert p[k] == name[k - |d| - 1];
      }
      RFindLast(p, Sep, |d|);
      assert p[..|d| + 1] == d + [Sep];
      assert !AllSep(d + [Sep]) by {
        assert (d + [Sep])[|d| - 1] == d[|d| - 1];
      }
      assert (d + [Sep])[..|d|] == d;
      assert !AllSep(d);
    }
  }

  /** `dirname` has no trailing slashes to trim. */
  lemma DirnameTrimmed(p: string)
    ensures TrimSep(Dirname(p)) == Dirname(p)
  {
    var head := p[..RFind(p, Sep) + 1];
    if head != [] && !AllSep(head) {
      var d := RStripSep(head);
      assert !AllSep(d) by { assert d[|d| - 1] != Sep; }
    }
  }

  /** A name whose last component is "." is that component after its
      directory part, and the part before the '/' is all slashes or is
      known by the directory part. */
  lemma DotDirname(p: string)
    requires DotNamed(p) && Dirname(p) != ""
    ensures |p| >= 2 && p[|p| - 2] == Sep
    ensures AllSep(p[..|p| - 2]) || TrimSep(p[..|p| - 2]) == Dirname(p)
  {
    RFindLast(p, Sep, |p| - 2);
    var x := p[..|p| - 2];
    var head := p[..|p| - 1];
    assert head == x + [Sep];
    if !AllSep(x) {
      assert !AllSep(head) by {
        var k :| 0 <= k < |x| && x[k] != Sep;
        assert head[k] == x[k];
      }
      RStripSepSnoc(x);
    }
  }

  /** One more trailing slash is stripped with the rest. */
  lemma RStripSepSnoc(x: string)
    ensures RStripSep(x + [Sep]) == RStripSep(x)
  {
    assert (x + [Sep])[..|x|] == x;
  }

  lemma RFindLast(s: string, c: char, i: nat)
    requires i < |s| && s[i] == c
    requires forall k :: i < k < |s| ==> s[k] != c
    ensures RFind(s, c) == i
    decreases |s|
  {
    if i < |s| - 1 {
      RFindLast(s[..|s| - 1], c, i);
    }
  }
}
