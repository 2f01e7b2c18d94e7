/** POSIX path helpers with the semantics of Python's `posixpath` module:
    `splitext`, `join` (two arguments) and `dirname`. */
module Paths {
  import opened Text

  /** `p[lo:hi]` holds a character other than the extension separator.
      This is the loop of `genericpath._splitext` that skips leading dots. */
  function HasNonDot(p: string, lo: int, hi: int): (r: bool)
    requires 0 <= lo <= hi <= |p|
    ensures r <==> (exists j :: lo <= j < hi && p[j] != '.')
    decreases hi - lo
  {
    if lo == hi then false
    else if p[lo] != '.' then true
    else HasNonDot(p, lo + 1, hi)
  }

  /** `os.path.splitext(p)`: the extension is everything from the last dot of
      the last path component, provided that dot is preceded in the component
      by some character other than a dot; otherwise the extension is empty. */
  function SplitExt(p: string): (r: (string, string))
    ensures r.0 + r.1 == p
    ensures r.1 == "" || (r.1[0] == '.' && '/' !in r.1 && '.' !in r.1[1..])
  {
    var sepIndex := RFind(p, '/');
    var dotIndex := RFind(p, '.');
    if dotIndex > sepIndex && HasNonDot(p, sepIndex + 1, dotIndex) then
      assert p == p[..dotIndex] + p[dotIndex..];
      (p[..dotIndex], p[dotIndex..])
    else
      (p, "")
  }

  /** The extension part of `SplitExt`. */
  function Ext(p: string): string
  {
    SplitExt(p).1
  }

  /** A single-dot extension such as ".png": a dot followed by characters that
      are neither dots nor separators. */
  predicate PlainExt(e: string)
  {
    |e| >= 1 && e[0] == '.' && forall i :: 1 <= i < |e| ==> e[i] != '.' && e[i] != '/'
  }

  /** The last path component of `r` holds a character other than a dot. */
  predicate StemHasName(r: string)
  {
    exists i :: 0 <= i < |r| && r[i] != '.' && r[i] != '/' && '/' !in r[i + 1..]
  }

  /** Declarative reading of "`q` has extension `e`": `q` ends with `e` and
      the part of the last component before `e` is not empty or all dots. */
  predicate EndsWithExt(q: string, e: string)
  {
    |e| <= |q| && q[|q| - |e|..] == e && StemHasName(q[..|q| - |e|])
  }

  /** `splitext` agrees with the declarative reading, in both directions. */
  lemma ExtIffEndsWith(q: string, e: string)
    requires PlainExt(e)
    ensures Ext(q) == e <==> EndsWithExt(q, e)
  {
    if Ext(q) == e {
      ExtMeansEndsWith(q, e);
    }
    if EndsWithExt(q, e) {
      EndsWithMeansExt(q, e);
    }
  }

  lemma ExtMeansEndsWith(q: string, e: string)
    requires PlainExt(e) && Ext(q) == e
    ensures EndsWithExt(q, e)
  {
    var sepIndex := RFind(q, '/');
    var dotIndex := RFind(q, '.');
    assert dotIndex > sepIndex && HasNonDot(q, sepIndex + 1, dotIndex);
    assert q[dotIndex..] == e;
    var j :| sepIndex + 1 <= j < dotIndex && q[j] != '.';
    var r := q[..|q| - |e|];
    assert r == q[..dotIndex];
    assert r[j] != '.' && r[j] != '/';
    assert forall k :: j + 1 <= k < |r| ==> r[k] == q[k];
    assert '/' !in r[j + 1..];
  }

  lemma EndsWithMeansExt(q: string, e: string)
    requires PlainExt(e) && EndsWithExt(q, e)
    ensures Ext(q) == e
  {
    var k := |q| - |e|;
    var r := q[..k];
    var i :| 0 <= i < |r| && r[i] != '.' && r[i] != '/' && '/' !in r[i + 1..];
    NoSeparatorAfter(q, e, i);
    NameAfterLastSeparator(q, i);
    assert q[k] == '.';
    assert forall j :: k < j < |q| ==> q[j] == e[j - k];
    RFindUnique(q, '.', k);
    assert HasNonDot(q, RFind(q, '/') + 1, RFind(q, '.'));
  }

  /** The name character found before the extension lies after the last separator. */
  lemma NameAfterLastSeparator(q: string, i: int)
    requires 0 <= i < |q| && q[i] != '/'
    requires forall j :: i < j < |q| ==> q[j] != '/'
    ensures RFind(q, '/') < i
  {
  }

  lemma NoSeparatorAfter(q: string, e: string, i: int)
    requires PlainExt(e) && |e| <= |q| && q[|q| - |e|..] == e
    requires 0 <= i < |q| - |e| && '/' !in q[..|q| - |e|][i + 1..]
    ensures forall j :: i < j < |q| ==> q[j] != '/'
  {
    var k := |q| - |e|;
    var tail := q[..k][i + 1..];
    assert forall j :: i < j < k ==> q[j] == tail[j - i - 1];
    assert forall j :: k <= j < |q| ==> q[j] == e[j - k];
  }

  /** After a prefix ending in a separator, the last separator of the whole
      string is the prefix's final character. */
  lemma LastSeparatorOfPrefixed(pre: string, f: string)
    requires pre != "" && pre[|pre| - 1] == '/'
    requires '/' !in f
    ensures RFind(pre + f, '/') == |pre| - 1
  {
    var q := pre + f;
    assert forall j :: |pre| <= j < |q| ==> q[j] == f[j - |pre|];
    RFindUnique(q, '/', |pre| - 1);
  }

  /** The last dot of `pre + f` lies in `f` exactly when `f` has one, at the
      shifted position; otherwise it lies before the prefix's final separator. */
  lemma LastDotOfPrefixed(pre: string, f: string)
    requires pre != "" && pre[|pre| - 1] == '/'
    ensures '.' in f ==> RFind(pre + f, '.') == |pre| + RFind(f, '.')
    ensures '.' !in f ==> RFind(pre + f, '.') < |pre| - 1
  {
    var q := pre + f;
    var n := |pre|;
    assert forall j :: n <= j < |q| ==> q[j] == f[j - n];
    if '.' in f {
      RFindUnique(q, '.', n + RFind(f, '.'));
    }
  }

  /** The leading-dot scan reads the same characters after shifting. */
  lemma HasNonDotShift(pre: string, f: string, d: int)
    requires 0 <= d <= |f|
    ensures HasNonDot(pre + f, |pre|, |pre| + d) == HasNonDot(f, 0, d)
  {
    var q := pre + f;
    var n := |pre|;
    if HasNonDot(f, 0, d) {
      var j :| 0 <= j < d && f[j] != '.';
      assert q[n + j] != '.';
    }
    if HasNonDot(q, n, n + d) {
      var j :| n <= j < n + d && q[j] != '.';
      assert f[j - n] != '.';
    }
  }

  /** A prefix ending in a separator does not change the extension of a
      separator-free name. */
  lemma ExtAfterSeparator(pre: string, f: string)
    requires pre == "" || pre[|pre| - 1] == '/'
    requires '/' !in f
    ensures Ext(pre + f) == Ext(f)
  {
    if pre != "" {
      var n := |pre|;
      var q := pre + f;
      LastSeparatorOfPrefixed(pre, f);
      LastDotOfPrefixed(pre, f);
      if '.' in f {
        var d := RFind(f, '.');
        HasNonDotShift(pre, f, d);
        assert q[n + d..] == f[d..];
      }
    } else {
      assert pre + f == f;
    }
  }

  /** `os.path.join(a, b)`. */
  function Join(a: string, b: string): (r: string)
    ensures StartsWith(b, "/") ==> r == b
    ensures !StartsWith(b, "/") ==> exists pre :: r == pre + b && (pre == "" || pre[|pre| - 1] == '/')
  {
    if StartsWith(b, "/") then b
    else if a == "" || a[|a| - 1] == '/' then
      a + b
    else
      var pre := a + "/";
      pre + b
  }

  /** Joining a directory with a separator-free name keeps the name's extension. */
  lemma ExtOfJoin(dir: string, name: string)
    requires '/' !in name
    ensures Ext(Join(dir, name)) == Ext(name)
  {
    if name != "" {
      assert name[0] != '/';
    }
    var pre :| Join(dir, name) == pre + name && (pre == "" || pre[|pre| - 1] == '/');
    ExtAfterSeparator(pre, name);
  }

  /** `s.rstrip('/')`. */
  function RStripSlashes(s: string): (r: string)
    ensures |r| <= |s| && r == s[..|r|]
    ensures r == "" || r[|r| - 1] != '/'
    ensures forall i :: |r| <= i < |s| ==> s[i] == '/'
  {
    if s == "" || s[|s| - 1] != '/' then s else RStripSlashes(s[..|s| - 1])
  }

  /** `os.path.dirname(p)`: everything up to the last separator, with trailing
      separators removed unless the head consists of separators only. */
  function Dirname(p: string): (r: string)
    ensures r == "" <==> '/' !in p
  {
    var i := RFind(p, '/') + 1;
    var head := p[..i];
    if head != "" && exists k :: 0 <= k < |head| && head[k] != '/' then
      var k :| 0 <= k < |head| && head[k] != '/';
      assert RStripSlashes(head) != "";
      RStripSlashes(head)
    else
      assert i > 0 ==> head[i - 1] == '/';
      head
  }
}
