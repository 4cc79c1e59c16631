/** The parts of Python's `posixpath` and `str` that the converter relies on:
    `rfind`, `splitext`, `basename`, `dirname`, `join`, `endswith` and an
    ASCII `lower`.  Paths are plain strings; `/` is the only separator. */
module Paths {

  /** Index of the last `c` in `s`, or -1 when there is none (`str.rfind`). */
  function RFind(s: string, c: char): (r: int)
    ensures -1 <= r < |s|
    ensures r >= 0 ==> s[r] == c
    ensures forall k :: r < k < |s| ==> s[k] != c
    decreases |s|
  {
    if |s| == 0 then -1
    else if s[|s| - 1] == c then |s| - 1
    else RFind(s[..|s| - 1], c)
  }

  /** The last occurrence of a character is determined by where it sits and
      what follows it. */
  lemma RFindAt(s: string, c: char, i: int)
    requires -1 <= i < |s|
    requires i >= 0 ==> s[i] == c
    requires forall k :: i < k < |s| ==> s[k] != c
    ensures RFind(s, c) == i
  {
  }

  /** How `rfind` sees through a concatenation. */
  lemma RFindAppend(a: string, b: string, c: char)
    ensures c in b ==> RFind(a + b, c) == |a| + RFind(b, c)
    ensures c !in b ==> RFind(a + b, c) == RFind(a, c)
  {
    if c in b {
      RFindInSuffix(a, b, c);
    } else {
      RFindNotInSuffix(a, b, c);
    }
  }

  lemma RFindInSuffix(a: string, b: string, c: char)
    requires c in b
    ensures RFind(a + b, c) == |a| + RFind(b, c)
  {
    var s := a + b;
    var rb := RFind(b, c);
    assert s[|a| + rb] == b[rb];
    forall k | |a| + rb < k < |s|
      ensures s[k] != c
    {
      assert s[k] == b[k - |a|];
    }
    RFindAt(s, c, |a| + rb);
  }

  lemma RFindNotInSuffix(a: string, b: string, c: char)
    requires c !in b
    ensures RFind(a + b, c) == RFind(a, c)
  {
    var s := a + b;
    var ra := RFind(a, c);
    forall k | ra < k < |s|
      ensures s[k] != c
    {
      if k >= |a| {
        assert s[k] == b[k - |a|];
      } else {
        assert s[k] == a[k];
      }
    }
    RFindAt(s, c, ra);
  }

  /** True when some character of `s[lo..hi]` is not a dot. */
  predicate HasNonDot(s: string, lo: int, hi: int)
    requires 0 <= lo <= hi <= |s|
  {
    exists k :: lo <= k < hi && s[k] != '.'
  }

  /** True when the last path component of `s` holds a character other than
      a dot, so that a dot appended to `s` starts an extension. */
  predicate NamedComponent(s: string)
  {
    HasNonDot(s, RFind(s, '/') + 1, |s|)
  }

  /** Python's `os.path.splitext`: the split happens at the last dot of the
      last component, unless everything before that dot in the component is
      a dot (leading dots of hidden files do not start an extension). */
  function SplitExt(p: string): (r: (string, string))
    ensures r.0 + r.1 == p
    ensures r.1 == [] || (r.1[0] == '.' && '/' !in r.1 && '.' !in r.1[1..])
    ensures r.1 != [] ==> NamedComponent(r.0)
  {
    var sep := RFind(p, '/');
    var dot := RFind(p, '.');
    if dot > sep && HasNonDot(p, sep + 1, dot) then
      var root := p[..dot];
      assert RFind(root, '/') == sep by { RFindAt(root, '/', sep); }
      assert forall k :: 1 <= k < |p[dot..]| ==> p[dot..][k] == p[dot + k];
      (root, p[dot..])
    else (p, [])
  }

  /** The extension of `p` including its dot, or "" (`splitext(p)[1]`). */
  function Ext(p: string): string
  {
    SplitExt(p).1
  }

  /** `s[1:]` in Python: everything after the first character, "" for "". */
  function DropFirst(s: string): string
  {
    if |s| == 0 then [] else s[1..]
  }

  /** Appending a dot and a separator-free, dot-free suffix to a path whose
      last component is named yields a path that `splitext` splits right
      back at that dot: the inverse direction of the round trip in
      `SplitExt`'s contract. */
  lemma SplitExtAppend(root: string, ext: string)
    requires '.' !in ext && '/' !in ext
    requires NamedComponent(root)
    ensures SplitExt(root + "." + ext) == (root, "." + ext)
  {
    var p := root + "." + ext;
    var sep0 := RFind(root, '/');
    RFindAppend(root, "." + ext, '/');
    RFindAppend(root + ".", ext, '.');
    assert p == (root + ".") + ext;
    RFindAt(root + ".", '.', |root|);
    var k :| sep0 + 1 <= k < |root| && root[k] != '.';
    assert p[k] == root[k];
    assert HasNonDot(p, sep0 + 1, |root|);
    assert p[..|root|] == root;
    var dot := RFind(p, '.');
    var sep := RFind(p, '/');
    assert dot == |root|;
    assert sep == sep0;
    assert dot > sep;
    assert HasNonDot(p, sep + 1, dot);
    assert p[dot..] == "." + ext;
  }

  /** `os.path.basename`: everything after the last separator. */
  function Basename(p: string): (r: string)
    ensures '/' !in r
    ensures |r| <= |p| && p[|p| - |r|..] == r
    ensures |r| < |p| ==> p[|p| - |r| - 1] == '/'
  {
    p[RFind(p, '/') + 1..]
  }

  /** Whether every character of `s` is a separator. */
  predicate AllSeparators(s: string)
  {
    forall i :: 0 <= i < |s| ==> s[i] == '/'
  }

  /** `s.rstrip('/')`. */
  function StripTrailingSeparators(s: string): (r: string)
    ensures |r| <= |s| && s[..|r|] == r
    ensures |r| == 0 || r[|r| - 1] != '/'
    decreases |s|
  {
    if |s| > 0 && s[|s| - 1] == '/' then StripTrailingSeparators(s[..|s| - 1]) else s
  }

  /** `os.path.dirname`: everything up to the last separator, with trailing
      separators stripped unless the head consists of separators only. */
  function Dirname(p: string): (r: string)
    ensures |r| <= |p| && p[..|r|] == r
  {
    var head := p[..RFind(p, '/') + 1];
    if |head| > 0 && !AllSeparators(head) then StripTrailingSeparators(head) else head
  }

  /** `s.startswith(prefix)`. */
  predicate StartsWith(s: string, prefix: string)
  {
    |prefix| <= |s| && s[..|prefix|] == prefix
  }

  /** `s.endswith(suffix)`. */
  predicate EndsWith(s: string, suffix: string)
  {
    |suffix| <= |s| && s[|s| - |suffix|..] == suffix
  }

  /** Two-argument `os.path.join`: an absolute second part replaces the
      first; otherwise a separator is inserted unless the first part is
      empty or already ends in one. */
  function Join(a: string, b: string): (r: string)
    ensures EndsWith(r, b)
    ensures !StartsWith(b, "/") ==> StartsWith(r, a)
  {
    if StartsWith(b, "/") then b
    else if |a| == 0 || a[|a| - 1] == '/' then a + b
    else a + "/" + b
  }

  /** Joining a separator-free name onto a directory gives a path whose
      base name is that name. */
  lemma BasenameOfJoin(dir: string, name: string)
    requires '/' !in name
    ensures Basename(Join(dir, name)) == name
  {
    var p := Join(dir, name);
    if |dir| == 0 || dir[|dir| - 1] == '/' {
      RFindAppend(dir, name, '/');
      if |dir| > 0 {
        RFindAt(dir, '/', |dir| - 1);
      }
    } else {
      RFindAppend(dir + "/", name, '/');
      RFindAt(dir + "/", '/', |dir|);
      assert p == (dir + "/") + name;
    }
  }

  /** Joining a name and then appending to it is joining the longer name,
      as long as the name does not start with a separator. */
  lemma JoinAppend(dir: string, name: string, suffix: string)
    requires name != [] && name[0] != '/'
    ensures Join(dir, name + suffix) == Join(dir, name) + suffix
  {
    assert (name + suffix)[0] == name[0];
  }

  /** Joining a separator-free name with a non-dot character onto any
      directory gives a path whose last component is named. */
  lemma NamedComponentOfJoin(dir: string, name: string)
    requires '/' !in name
    requires HasNonDot(name, 0, |name|)
    ensures NamedComponent(Join(dir, name))
  {
    var p := Join(dir, name);
    BasenameOfJoin(dir, name);
    var start := RFind(p, '/') + 1;
    assert p[start..] == name;
    var k :| 0 <= k < |name| && name[k] != '.';
    assert p[start + k] == name[k];
  }

  /** Python's `str.lower` restricted to ASCII letters. */
  function LowerChar(c: char): char
  {
    if 'A' <= c <= 'Z' then (c as int + 32) as char else c
  }

  function Lower(s: string): (r: string)
    ensures |r| == |s|
  {
    seq(|s|, i requires 0 <= i < |s| => LowerChar(s[i]))
  }

  predicate IsLowerCase(s: string)
  {
    forall c :: c in s ==> !('A' <= c <= 'Z')
  }

  /** Lower-casing leaves a string without upper-case letters unchanged. */
  lemma LowerOfLowerCase(s: string)
    requires IsLowerCase(s)
    ensures Lower(s) == s
  {
    forall i | 0 <= i < |s|
      ensures Lower(s)[i] == s[i]
    {
      assert s[i] in s;
    }
  }

  /** Lower-casing works character by character, so it distributes over
      concatenation. */
  lemma LowerAppend(a: string, b: string)
    ensures Lower(a + b) == Lower(a) + Lower(b)
  {
    assert forall i :: 0 <= i < |a| ==> (a + b)[i] == a[i];
    assert forall i :: |a| <= i < |a + b| ==> (a + b)[i] == b[i - |a|];
  }

  /** The result of lower-casing is lower-case. */
  lemma LowerIsLowerCase(s: string)
    ensures IsLowerCase(Lower(s))
  {
    forall c | c in Lower(s)
      ensures !('A' <= c <= 'Z')
    {
      var i :| 0 <= i < |s| && Lower(s)[i] == c;
    }
  }
}
