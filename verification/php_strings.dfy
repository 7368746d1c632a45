/**
 * The PHP string built-ins the parser hook relies on, modelled on sequences
 * of characters: `substr` with a negative offset and the extension reported
 * by `pathinfo`; beside them, a first-occurrence search that the model itself
 * uses to read a generated tag back.
 */
module PhpStrings {

  datatype Option<T> = None | Some(value: T)

  /** Reference definition: `t` is a suffix of `s`. */
  ghost predicate EndsWith(s: string, t: string)
  {
    exists p :: p + t == s
  }

  /**
   * PHP `substr($s, -$n)` for a length `$n`: the last `n` characters of `s`.
   * A string no longer than `n` comes back whole, and so does any string
   * when `n` is 0, since `-0` is the offset 0.
   */
  function SubstrFromEnd(s: string, n: nat): (r: string)
    ensures |r| <= |s| && r == s[|s| - |r|..]
    ensures 0 < n <= |s| ==> |r| == n
    ensures n == 0 || |s| <= n ==> r == s
  {
    if n == 0 || |s| <= n then s else s[|s| - n..]
  }

  /**
   * Comparing `substr($s, -strlen($t))` with a non-empty `$t` is exactly a
   * case-sensitive suffix test; a string shorter than `t` never passes.
   */
  lemma SubstrSuffixTest(s: string, t: string)
    requires t != []
    ensures SubstrFromEnd(s, |t|) == t <==> EndsWith(s, t)
    ensures |s| < |t| ==> !EndsWith(s, t)
  {
    if SubstrFromEnd(s, |t|) == t {
      if |s| <= |t| {
        assert [] + t == s;
      } else {
        assert s[..|s| - |t|] + t == s;
      }
    }
    if EndsWith(s, t) {
      var p :| p + t == s;
      assert s[|s| - |t|..] == t;
    }
  }

  /** A string ends with the last character of each of its non-empty suffixes. */
  lemma EndsWithLastChar(s: string, t: string)
    requires t != [] && EndsWith(s, t)
    ensures s != [] && s[|s| - 1] == t[|t| - 1]
  {
    var p :| p + t == s;
    assert s[|s| - 1] == (p + t)[|p| + |t| - 1];
  }

  /**
   * The part of `s` after its last `c`: the longest suffix of `s` in which
   * `c` does not occur. It is all of `s` exactly when `c` does not occur in
   * `s`, and otherwise it is preceded by that last `c`.
   */
  function AfterLast(s: string, c: char): (r: string)
    ensures c !in r
    ensures |r| <= |s| && forall i :: 0 <= i < |r| ==> r[i] == s[|s| - |r| + i]
    ensures |r| < |s| ==> s[|s| - |r| - 1] == c
    ensures c in s ==> |r| < |s|
    decreases |s|
  {
    if s == [] then []
    else if s[|s| - 1] == c then []
    else AfterLast(s[..|s| - 1], c) + [s[|s| - 1]]
  }

  /**
   * The three facts `AfterLast` ensures pin its result down: any suffix of
   * `s` without `c` that is all of `s` or follows a `c` is `AfterLast(s, c)`.
   */
  lemma AfterLastUnique(s: string, c: char, r: string)
    requires c !in r
    requires |r| <= |s| && forall i :: 0 <= i < |r| ==> r[i] == s[|s| - |r| + i]
    requires |r| < |s| ==> s[|s| - |r| - 1] == c
    ensures r == AfterLast(s, c)
  {
    var q := AfterLast(s, c);
    if |r| < |q| {
      LongerSuffixHoldsSeparator(s, q, r, c);
    } else if |q| < |r| {
      LongerSuffixHoldsSeparator(s, r, q, c);
    }
    forall i | 0 <= i < |r| ensures r[i] == q[i] {
      assert r[i] == s[|s| - |r| + i];
    }
  }

  /** Of two suffixes of `s`, the longer holds the character before the shorter. */
  lemma LongerSuffixHoldsSeparator(s: string, long: string, short: string, c: char)
    requires |long| <= |s| && forall i :: 0 <= i < |long| ==> long[i] == s[|s| - |long| + i]
    requires |short| < |long| && s[|s| - |short| - 1] == c
    ensures c in long
  {
    assert long[|long| - |short| - 1] == c;
  }

  /** Appending text free of `c` extends the part after the last `c`. */
  lemma {:induction false} AfterLastAppend(s: string, t: string, c: char)
    requires c !in t
    ensures AfterLast(s + t, c) == AfterLast(s, c) + t
    decreases |t|
  {
    if t == [] {
      assert s + t == s;
    } else {
      var u := t[..|t| - 1];
      assert (s + t)[..|s + t| - 1] == s + u;
      assert (s + t)[|s + t| - 1] == t[|t| - 1];
      AfterLastAppend(s, u, c);
      assert u + [t[|t| - 1]] == t;
    }
  }

  /** What follows a `c` that is the last one is all that `AfterLast` returns. */
  lemma AfterLastSeparator(s: string, t: string, c: char)
    requires c !in t
    ensures AfterLast(s + [c] + t, c) == t
  {
    AfterLastAppend(s + [c], t, c);
    assert AfterLast(s + [c], c) == [];
  }

  /** The last `/`-separated segment of a path. */
  function Basename(path: string): string
  {
    AfterLast(path, '/')
  }

  /**
   * PHP `pathinfo($path, PATHINFO_EXTENSION)`: the text after the last `.`
   * of the last `/`-separated segment, and the empty string when that
   * segment has no `.`. The result is a suffix of that segment with no `.`
   * and no `/` in it, preceded by a `.` whenever the segment has one; these
   * facts determine it.
   */
  function PathInfoExtension(path: string): (e: string)
    ensures '.' !in e && '/' !in e
    ensures var base := Basename(path);
      |e| <= |base| && (forall i :: 0 <= i < |e| ==> e[i] == base[|base| - |e| + i]) &&
      ('.' in base ==> |e| < |base| && base[|base| - |e| - 1] == '.') &&
      ('.' !in base ==> e == [])
  {
    var base := Basename(path);
    if '.' in base then AfterLast(base, '.') else []
  }

  /** The extension of `p.e`, for an `e` with no `.` and no `/`, is `e`. */
  lemma ExtensionOfDottedName(p: string, e: string)
    requires '.' !in e && '/' !in e
    ensures PathInfoExtension(p + "." + e) == e
  {
    var dir := Basename(p);
    var tail := ['.'] + e;
    var path := p + tail;
    assert p + "." + e == path;
    assert '/' !in tail;
    AfterLastAppend(p, tail, '/');
    var base := dir + ['.'] + e;
    assert Basename(path) == base;
    assert base[|dir|] == '.';
    AfterLastSeparator(dir, e, '.');
  }

  /** A last segment without a `.` has the empty extension, whatever the directories hold. */
  lemma ExtensionOfPlainName(dir: string, name: string)
    requires '.' !in name && '/' !in name
    ensures PathInfoExtension(name) == []
    ensures PathInfoExtension(dir + "/" + name) == []
  {
    AfterLastAppend([], name, '/');
    assert [] + name == name;
    AfterLastSeparator(dir, name, '/');
    assert dir + "/" + name == dir + ['/'] + name;
  }

  /**
   * The index of the first `c` in `s`, or `None` when there is none. The
   * hook never searches a string; this helper serves the reader of the
   * source tag, which states what the generated tag holds.
   */
  function IndexOf(s: string, c: char): (r: Option<nat>)
    ensures r.None? <==> c !in s
    ensures r.Some? ==> r.value < |s| && s[r.value] == c && c !in s[..r.value]
  {
    if s == [] then None
    else if s[0] == c then Some(0)
    else
      match IndexOf(s[1..], c)
      case None =>
        assert s == [s[0]] + s[1..];
        None
      case Some(i) =>
        assert s[..i + 1] == [s[0]] + s[1..][..i];
        Some(i + 1)
  }

  /** The first `c` of `a + [c] + b`, for an `a` without `c`, sits right after `a`. */
  lemma IndexOfAfterPrefix(a: string, b: string, c: char)
    requires c !in a
    ensures IndexOf(a + [c] + b, c) == Some(|a|)
  {
    var s := a + [c] + b;
    assert s[|a|] == c;
  }
}
