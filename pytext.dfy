/**
  The pieces of Python's `str` and `posixpath` behaviour that app.py relies on,
  over Dafny strings: `str.split` on a one-character separator, `str.join`,
  `str.replace`, `str.endswith`, the decimal rendering of an `int` inside an
  f-string, and two-argument `os.path.join` on POSIX.
 */
module PyText {

  /** Python `s.endswith(suffix)`. */
  predicate EndsWith(s: string, suffix: string) {
    |suffix| <= |s| && s[|s| - |suffix|..] == suffix
  }

  /** `pat` occurs in `s` starting at index `i`. */
  predicate OccursAt(s: string, pat: string, i: nat) {
    i <= |s| && pat <= s[i..]
  }

  /** Python `pat in s`. */
  predicate Contains(s: string, pat: string) {
    exists i: nat | i <= |s| :: OccursAt(s, pat, i)
  }

  /** Python `s.count(c)` for a one-character `c`. */
  function Count(s: string, c: char): nat {
    if s == [] then 0 else (if s[0] == c then 1 else 0) + Count(s[1..], c)
  }

  /** Counting distributes over concatenation. */
  lemma {:induction false} CountAppend(a: string, b: string, c: char)
    ensures Count(a + b, c) == Count(a, c) + Count(b, c)
  {
    if a != [] {
      assert (a + b)[1..] == a[1..] + b;
      CountAppend(a[1..], b, c);
    } else {
      assert a + b == b;
    }
  }

  /** A character that does not occur is counted zero times. */
  lemma {:induction false} CountAbsent(s: string, c: char)
    requires c !in s
    ensures Count(s, c) == 0
  {
    if s != [] {
      assert s[0] in s;
      assert forall x :: x in s[1..] ==> x in s;
      CountAbsent(s[1..], c);
    }
  }

  // ---------------------------------------------------------------------------
  // str.split and str.join

  /**
    Python `s.split(sep)` for a one-character separator: the pieces between
    separators, in order. An empty string gives one empty piece, and `n`
    separators give `n + 1` pieces.
   */
  function Split(s: string, sep: char): (pieces: seq<string>)
    ensures |pieces| == Count(s, sep) + 1
    ensures forall k :: 0 <= k < |pieces| ==> sep !in pieces[k]
  {
    if s == [] then [""]
    else
      var rest := Split(s[1..], sep);
      if s[0] == sep then [""] + rest
      else [[s[0]] + rest[0]] + rest[1..]
  }

  /** Python `sep.join(pieces)`. */
  function Join(pieces: seq<string>, sep: string): string {
    if pieces == [] then ""
    else if |pieces| == 1 then pieces[0]
    else pieces[0] + sep + Join(pieces[1..], sep)
  }

  /** Joining the pieces of a split with the separator gives back the string. */
  lemma {:induction false} SplitThenJoin(s: string, sep: char)
    ensures Join(Split(s, sep), [sep]) == s
  {
    if s != [] {
      SplitThenJoin(s[1..], sep);
      var rest := Split(s[1..], sep);
      if s[0] != sep && |rest| > 1 {
        assert Join(rest, [sep]) == rest[0] + [sep] + Join(rest[1..], [sep]);
      }
    }
  }

  /** Splitting `p + t`, where `p` holds no separator, glues `p` onto the first piece of `t`. */
  lemma {:induction false} SplitPrefix(p: string, t: string, sep: char)
    requires sep !in p
    ensures Split(p + t, sep) == [p + Split(t, sep)[0]] + Split(t, sep)[1..]
  {
    if p != [] {
      assert (p + t)[1..] == p[1..] + t;
      assert p[0] in p;
      SplitPrefix(p[1..], t, sep);
      assert [p[0]] + (p[1..] + Split(t, sep)[0]) == p + Split(t, sep)[0];
    } else {
      assert p + t == t;
      assert p + Split(t, sep)[0] == Split(t, sep)[0];
      assert Split(t, sep) == [Split(t, sep)[0]] + Split(t, sep)[1..];
    }
  }

  /** Splitting a join of separator-free pieces gives back the pieces. */
  lemma {:induction false} JoinThenSplit(pieces: seq<string>, sep: char)
    requires |pieces| >= 1
    requires forall k :: 0 <= k < |pieces| ==> sep !in pieces[k]
    ensures Split(Join(pieces, [sep]), sep) == pieces
  {
    var p := pieces[0];
    if |pieces| == 1 {
      SplitPrefix(p, "", sep);
      assert p + "" == p;
    } else {
      var tail := Join(pieces[1..], [sep]);
      JoinThenSplit(pieces[1..], sep);
      assert p + [sep] + tail == p + ([sep] + tail);
      SplitPrefix(p, [sep] + tail, sep);
      assert ([sep] + tail)[1..] == tail;
      assert Split([sep] + tail, sep) == [""] + pieces[1..];
      assert p + "" == p;
    }
  }

  // ---------------------------------------------------------------------------
  // str.replace

  /**
    Python `s.replace(pat, rep)` for a non-empty `pat`: scanning left to
    right, every non-overlapping occurrence of `pat` is replaced by `rep`.
   */
  function ReplaceAll(s: string, pat: string, rep: string): (r: string)
    requires pat != []
    ensures |rep| <= |pat| ==> |r| <= |s|
    decreases |s|
  {
    if s == [] then ""
    else if pat <= s then rep + ReplaceAll(s[|pat|..], pat, rep)
    else [s[0]] + ReplaceAll(s[1..], pat, rep)
  }

  /** One step of the left-to-right scan. */
  lemma ReplaceAllUnfold(s: string, pat: string, rep: string)
    requires pat != []
    ensures s == [] ==> ReplaceAll(s, pat, rep) == []
    ensures s != [] && pat <= s ==> ReplaceAll(s, pat, rep) == rep + ReplaceAll(s[|pat|..], pat, rep)
    ensures s != [] && !(pat <= s) ==> ReplaceAll(s, pat, rep) == [s[0]] + ReplaceAll(s[1..], pat, rep)
  {
  }

  /** A string in which `pat` does not occur is left unchanged. */
  lemma {:induction false} ReplaceAllAbsent(s: string, pat: string, rep: string)
    requires pat != []
    requires !Contains(s, pat)
    ensures ReplaceAll(s, pat, rep) == s
    decreases |s|
  {
    if s != [] {
      assert !OccursAt(s, pat, 0);
      assert s[0..] == s;
      forall i: nat | i <= |s[1..]| ensures !OccursAt(s[1..], pat, i) {
        assert !OccursAt(s, pat, i + 1);
        assert s[1..][i..] == s[i + 1..];
      }
      ReplaceAllAbsent(s[1..], pat, rep);
      ReplaceAllUnfold(s, pat, rep);
      assert s == [s[0]] + s[1..];
    }
  }

  /** No proper suffix of `pat` is also a prefix of it. */
  predicate OverlapFree(pat: string) {
    forall k :: 0 < k < |pat| ==> pat[k..] != pat[..|pat| - k]
  }

  /** A string shorter than an overlap-free `pat`, followed by `pat`, does not start with `pat`. */
  lemma ShortOverlapMisses(s: string, pat: string)
    requires 0 < |s| < |pat|
    requires OverlapFree(pat)
    ensures !(pat <= s + pat)
  {
    var n, k := |pat|, |s|;
    assert pat[k..] != pat[..n - k];
    var j :| 0 <= j < n - k && pat[k..][j] != pat[..n - k][j];
    assert (s + pat)[k + j] == pat[j];
  }

  /** Two strings that agree on their first character share a prefix only if their tails do. */
  lemma PrefixTail(q: string, s: string)
    requires q != [] && s != [] && q[0] == s[0] && !(q <= s)
    ensures !(q[1..] <= s[1..])
  {
    if |q| <= |s| {
      assert q != s[..|q|];
      var k :| 0 <= k < |q| && q[k] != s[..|q|][k];
      assert q[1..][k - 1] == q[k] && s[1..][k - 1] == s[k];
    }
  }

  /** Below the length of `s`, `s` and any extension of it have the same prefixes. */
  lemma PrefixOfExtension(s: string, t: string, pat: string)
    requires |pat| <= |s| && s <= t
    ensures pat <= s <==> pat <= t
  {
    if pat <= t {
      forall j | 0 <= j < |pat| ensures pat[j] == s[j] {
        assert t[j] == s[j];
      }
    }
    if pat <= s {
      forall j | 0 <= j < |pat| ensures pat[j] == t[j] {
        assert t[j] == s[j];
      }
    }
  }

  /**
    For a pattern that cannot overlap itself, an occurrence at the very end
    is always one the left-to-right scan replaces.
   */
  lemma {:induction false} ReplaceAllTrailing(s: string, pat: string, rep: string)
    requires pat != []
    requires OverlapFree(pat)
    ensures ReplaceAll(s + pat, pat, rep) == ReplaceAll(s, pat, rep) + rep
    decreases |s|
  {
    if s == [] {
      assert s + pat == pat && pat[|pat|..] == [];
      ReplaceAllUnfold(pat, pat, rep);
    } else if pat <= s {
      ReplaceAllTrailing(s[|pat|..], pat, rep);
      TrailingMatchStep(s, pat, rep);
    } else {
      if |s| < |pat| {
        ShortOverlapMisses(s, pat);
      } else {
        PrefixOfExtension(s, s + pat, pat);
      }
      ReplaceAllTrailing(s[1..], pat, rep);
      TrailingSkipStep(s, pat, rep);
    }
  }

  /** The step of `ReplaceAllTrailing` where `s` starts with `pat`. */
  lemma TrailingMatchStep(s: string, pat: string, rep: string)
    requires pat != [] && pat <= s
    requires ReplaceAll(s[|pat|..] + pat, pat, rep) == ReplaceAll(s[|pat|..], pat, rep) + rep
    ensures ReplaceAll(s + pat, pat, rep) == ReplaceAll(s, pat, rep) + rep
  {
    MatchExtended(s, pat, rep);
    ReplaceAllUnfold(s, pat, rep);
  }

  /** When `s` starts with `pat`, so does `s + pat`, and the scan replaces that occurrence first. */
  lemma MatchExtended(s: string, pat: string, rep: string)
    requires pat != [] && pat <= s
    ensures ReplaceAll(s + pat, pat, rep) == rep + ReplaceAll(s[|pat|..] + pat, pat, rep)
  {
    var t := s + pat;
    PrefixOfExtension(s, t, pat);
    assert t[|pat|..] == s[|pat|..] + pat;
    ReplaceAllUnfold(t, pat, rep);
  }

  /** The step of `ReplaceAllTrailing` where neither `s` nor `s + pat` starts with `pat`. */
  lemma TrailingSkipStep(s: string, pat: string, rep: string)
    requires pat != [] && s != [] && !(pat <= s) && !(pat <= s + pat)
    requires ReplaceAll(s[1..] + pat, pat, rep) == ReplaceAll(s[1..], pat, rep) + rep
    ensures ReplaceAll(s + pat, pat, rep) == ReplaceAll(s, pat, rep) + rep
  {
    SkipExtended(s, pat, rep);
    ReplaceAllUnfold(s, pat, rep);
  }

  /** When `s + pat` does not start with `pat`, the scan keeps its first character. */
  lemma SkipExtended(s: string, pat: string, rep: string)
    requires pat != [] && s != [] && !(pat <= s + pat)
    ensures ReplaceAll(s + pat, pat, rep) == [s[0]] + ReplaceAll(s[1..] + pat, pat, rep)
  {
    var t := s + pat;
    assert t[1..] == s[1..] + pat;
    ReplaceAllUnfold(t, pat, rep);
  }

  // ---------------------------------------------------------------------------
  // Decimal rendering of a non-negative int, as an f-string writes it

  function DigitChar(d: nat): (c: char)
    requires d < 10
    ensures '0' <= c <= '9'
  {
    ('0' as int + d) as char
  }

  function DigitValue(c: char): (d: nat)
    requires '0' <= c <= '9'
    ensures d < 10
  {
    c as int - '0' as int
  }

  predicate AllDigits(s: string) {
    forall k :: 0 <= k < |s| ==> '0' <= s[k] <= '9'
  }

  /** `f"{n}"` for a non-negative `n`: at least one digit, and no leading zero. */
  function Decimal(n: nat): (s: string)
    ensures |s| >= 1 && AllDigits(s)
    ensures s[0] == '0' <==> n == 0
  {
    if n < 10 then [DigitChar(n)] else Decimal(n / 10) + [DigitChar(n % 10)]
  }

  /**
    Python `int(s)` on a non-empty string of decimal digits: the reading the
    rendering must satisfy. The empty string, on which `int` raises, is outside
    what it models (it reads as 0 only to end the recursion).
   */
  function ParseDecimal(s: string): nat
    requires AllDigits(s)
  {
    if s == [] then 0 else ParseDecimal(s[..|s| - 1]) * 10 + DigitValue(s[|s| - 1])
  }

  /** Reading back the rendering of `n` gives `n`. */
  lemma {:induction false} DecimalRoundTrip(n: nat)
    ensures ParseDecimal(Decimal(n)) == n
  {
    if n >= 10 {
      DecimalRoundTrip(n / 10);
      var s := Decimal(n);
      assert s[..|s| - 1] == Decimal(n / 10);
    }
  }

  // ---------------------------------------------------------------------------
  // posixpath.join

  /**
    Two-argument `os.path.join(a, b)` on POSIX: an absolute `b` replaces `a`;
    otherwise `b` is appended, with a `/` between unless `a` is empty or
    already ends with one. Either way the result ends with `b`.
   */
  function PathJoin(a: string, b: string): (p: string)
    ensures EndsWith(p, b)
    ensures |b| > 0 && b[0] == '/' ==> p == b
    ensures !(|b| > 0 && b[0] == '/') ==>
      var dir := p[..|p| - |b|];
      && (dir == a || dir == a + "/")
      && (dir == [] || dir[|dir| - 1] == '/')
      && (dir == a + "/" <==> a != [] && a[|a| - 1] != '/')
  {
    if |b| > 0 && b[0] == '/' then b
    else if a == [] || a[|a| - 1] == '/' then a + b
    else a + "/" + b
  }
}
