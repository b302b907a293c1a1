/**
 * The Python string builtins the deployment scripts call, restricted to what
 * they are applied to: `str.lower` on ASCII text, `str.split` with a
 * one-character separator, indexing with `[-1]` and `str.endswith`.
 *
 * `RFind` (`str.rfind`) and `Basename` (`posixpath.basename`) are not called
 * by the scripts: they are independent reference definitions of "the text
 * after the last `/`", against which the store tag is proved.
 */
module PyStr {

  predicate IsUpper(c: char)
  {
    'A' <= c <= 'Z'
  }

  /** `str.lower` on one character, ASCII letters only. */
  function LowerChar(c: char): char
  {
    if IsUpper(c) then (c as int + 32) as char else c
  }

  /**
   * `str.lower` (ASCII): same length, no upper-case letter left, each of
   * `A`..`Z` replaced by its counterpart in `a`..`z`, and every other
   * character kept where it was.
   */
  function Lower(s: string): (r: string)
    ensures |r| == |s|
    ensures forall i :: 0 <= i < |r| ==> !IsUpper(r[i])
    ensures forall i :: 0 <= i < |s| && IsUpper(s[i]) ==> r[i] as int - 'a' as int == s[i] as int - 'A' as int
    ensures forall i :: 0 <= i < |s| && !IsUpper(s[i]) ==> r[i] == s[i]
  {
    seq(|s|, i requires 0 <= i < |s| => LowerChar(s[i]))
  }

  /** Lowering twice is lowering once. */
  lemma LowerIdempotent(s: string)
    ensures Lower(Lower(s)) == Lower(s)
  {
  }

  /** Lowering commutes with taking a slice. */
  lemma LowerSlice(s: string, i: nat, j: nat)
    requires i <= j <= |s|
    ensures Lower(s[i..j]) == Lower(s)[i..j]
  {
  }

  /**
   * `str.rfind` of one character: the highest index holding `c`, or -1 when
   * `c` does not occur.
   */
  function RFind(s: string, c: char): (r: int)
    ensures -1 <= r < |s|
    ensures r >= 0 ==> s[r] == c
    ensures forall j :: r < j < |s| ==> s[j] != c
    ensures r == -1 <==> c !in s
  {
    if s == [] then -1
    else if s[|s| - 1] == c then |s| - 1
    else
      assert s == s[..|s| - 1] + [s[|s| - 1]];
      RFind(s[..|s| - 1], c)
  }

  /** Appending text free of `c` leaves the last `c` where it was. */
  lemma {:induction false} RFindAppend(s: string, t: string, c: char)
    requires c !in t
    ensures RFind(s + t, c) == RFind(s, c)
  {
    var q := RFind(s, c);
    if q >= 0 {
      assert (s + t)[q] == c;
    }
    forall j | q < j < |s + t|
      ensures (s + t)[j] != c
    {
      if j >= |s| {
        assert (s + t)[j] == t[j - |s|];
      }
    }
  }

  /** Lowering never creates or removes a `/`, so the last one stays put. */
  lemma RFindLowerSlash(s: string)
    ensures RFind(Lower(s), '/') == RFind(s, '/')
  {
  }

  /** `posixpath.basename`: the text after the last `/`. */
  function Basename(p: string): (b: string)
    ensures '/' !in b
    ensures |b| <= |p| && b == p[|p| - |b|..]
    ensures |b| == |p| || p[|p| - |b| - 1] == '/'
  {
    p[RFind(p, '/') + 1..]
  }

  /**
   * Basename is fixed by the three facts it ensures: a suffix of the path,
   * free of `/`, and either the whole path or preceded by a `/`.
   */
  lemma BasenameUnique(p: string, b: string)
    requires |b| <= |p| && b == p[|p| - |b|..] && '/' !in b
    requires |b| == |p| || p[|p| - |b| - 1] == '/'
    ensures b == Basename(p)
  {
  }

  /**
   * `str.split(sep)` with a one-character separator: the pieces between
   * separators, in order, and always at least one (`"".split("/") == [""]`).
   */
  function Split(s: string, sep: char): (parts: seq<string>)
    ensures |parts| >= 1
    ensures forall k :: 0 <= k < |parts| ==> sep !in parts[k]
  {
    if s == [] then [[]]
    else
      var rest := Split(s[1..], sep);
      if s[0] == sep then [[]] + rest
      else [[s[0]] + rest[0]] + rest[1..]
  }

  /** `sep.join(parts)`, the inverse of Split. */
  function JoinWith(parts: seq<string>, sep: char): string
    requires |parts| >= 1
  {
    if |parts| == 1 then parts[0] else parts[0] + [sep] + JoinWith(parts[1..], sep)
  }

  /** `xs[-1]` */
  function Last<T>(xs: seq<T>): (x: T)
    requires |xs| >= 1
    ensures xs == xs[..|xs| - 1] + [x]
  {
    xs[|xs| - 1]
  }

  /** Joining the pieces back with the separator gives the original text. */
  lemma {:induction false} SplitJoin(s: string, sep: char)
    ensures JoinWith(Split(s, sep), sep) == s
  {
    if s != [] {
      var t := s[1..];
      SplitJoin(t, sep);
      if s[0] == sep {
        JoinConsSep(t, sep);
      } else {
        JoinConsChar(s[0], t, sep);
      }
      assert s == [s[0]] + t;
    }
  }

  lemma JoinConsSep(t: string, sep: char)
    ensures JoinWith(Split([sep] + t, sep), sep) == [sep] + JoinWith(Split(t, sep), sep)
  {
    var parts := Split([sep] + t, sep);
    assert ([sep] + t)[1..] == t;
    assert parts[1..] == Split(t, sep);
  }

  lemma JoinConsChar(h: char, t: string, sep: char)
    requires h != sep
    ensures JoinWith(Split([h] + t, sep), sep) == [h] + JoinWith(Split(t, sep), sep)
  {
    var rest, parts := Split(t, sep), Split([h] + t, sep);
    assert ([h] + t)[1..] == t;
    assert parts == [[h] + rest[0]] + rest[1..];
    if |rest| > 1 {
      assert parts[1..] == rest[1..];
    }
  }

  /** A split gives a single piece exactly when the separator is absent. */
  lemma {:induction false} SplitSingle(s: string, sep: char)
    ensures |Split(s, sep)| == 1 <==> sep !in s
  {
    if s != [] {
      SplitSingle(s[1..], sep);
      assert sep in s <==> s[0] == sep || sep in s[1..] by {
        assert s == [s[0]] + s[1..];
      }
    }
  }

  /** The last piece of a split is the text after the last separator. */
  lemma {:induction false} LastPieceAfterLastSep(s: string, sep: char)
    ensures Last(Split(s, sep)) == s[RFind(s, sep) + 1..]
  {
    if s != [] {
      var t := s[1..];
      var rest := Split(t, sep);
      LastPieceAfterLastSep(t, sep);
      SplitSingle(t, sep);
      assert s == [s[0]] + t;
      RFindCons(s[0], t, sep);
    }
  }

  /** RFind on a text with one more character in front. */
  lemma RFindCons(h: char, t: string, c: char)
    ensures RFind([h] + t, c) ==
      if RFind(t, c) >= 0 then RFind(t, c) + 1 else if h == c then 0 else -1
  {
    var s := [h] + t;
    var q := RFind(t, c);
    if q >= 0 {
      assert s[q + 1] == c;
    } else if h == c {
      assert s[0] == c;
    }
  }

  /** `str.endswith(suffix)`. */
  predicate EndsWith(s: string, suffix: string)
  {
    |suffix| <= |s| && s[|s| - |suffix|..] == suffix
  }

  /** A text ends with `suffix` exactly when one of its suffixes equals it. */
  lemma EndsWithSomeSuffix(s: string, suffix: string)
    ensures EndsWith(s, suffix) <==> exists k :: 0 <= k <= |s| && s[k..] == suffix
  {
  }
}
