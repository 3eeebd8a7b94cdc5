/**
 * The handful of Python `str` operations the modelled code relies on:
 * `strip()`, `upper()`, `startswith`, `in` (substring), `replace`, `split`,
 * `int(...)` on a string and `str(...)` of an integer.  Strings are
 * sequences of Unicode code points, as in Python 3.
 */
module Text {
  import opened Wrappers

  /** Python's `str.isspace()` for a single code point. */
  predicate IsSpace(c: char) {
    || c == ' ' || c == '\t' || c == '\n' || c == '\r'
    || c == '\U{000B}' || c == '\U{000C}'
    || ('\U{001C}' <= c <= '\U{001F}')
    || c == '\U{0085}' || c == '\U{00A0}' || c == '\U{1680}'
    || ('\U{2000}' <= c <= '\U{200A}')
    || c == '\U{2028}' || c == '\U{2029}' || c == '\U{202F}'
    || c == '\U{205F}' || c == '\U{3000}'
  }

  predicate AllSpace(s: string) {
    forall i :: 0 <= i < |s| ==> IsSpace(s[i])
  }

  /** Neither end of `s` is whitespace (vacuously true of the empty string). */
  predicate Trimmed(s: string) {
    s == [] || (!IsSpace(s[0]) && !IsSpace(s[|s| - 1]))
  }

  /** `s.lstrip()`. */
  function StripLeft(s: string): string {
    if |s| > 0 && IsSpace(s[0]) then StripLeft(s[1..]) else s
  }

  /** `s.rstrip()`. */
  function StripRight(s: string): string {
    if |s| > 0 && IsSpace(s[|s| - 1]) then StripRight(s[..|s| - 1]) else s
  }

  /** `lstrip()` removes a whitespace-only prefix and stops at the first other character. */
  lemma {:induction false} StripLeftShape(s: string)
    ensures |StripLeft(s)| <= |s|
    ensures s == s[..|s| - |StripLeft(s)|] + StripLeft(s)
    ensures AllSpace(s[..|s| - |StripLeft(s)|])
    ensures StripLeft(s) == [] || !IsSpace(StripLeft(s)[0])
  {
    if |s| > 0 && IsSpace(s[0]) {
      StripLeftShape(s[1..]);
      var r := StripLeft(s[1..]);
      var k := |s[1..]| - |r|;
      assert s[1..] == s[1..][..k] + r;
      assert s[..k + 1] == [s[0]] + s[1..][..k];
      assert s == s[..k + 1] + r;
    } else {
      assert s == s[..0] + s;
    }
  }

  lemma AllSpaceSnoc(s: string, c: char)
    requires AllSpace(s) && IsSpace(c)
    ensures AllSpace(s + [c])
  {
    assert forall i :: 0 <= i < |s| ==> (s + [c])[i] == s[i];
  }

  /** `rstrip()` removes a whitespace-only suffix and stops at the last other character. */
  lemma {:induction false} StripRightShape(s: string)
    ensures |StripRight(s)| <= |s|
    ensures s == StripRight(s) + s[|StripRight(s)|..]
    ensures AllSpace(s[|StripRight(s)|..])
    ensures StripRight(s) == [] || !IsSpace(StripRight(s)[|StripRight(s)| - 1])
  {
    if |s| > 0 && IsSpace(s[|s| - 1]) {
      var t, c := s[..|s| - 1], s[|s| - 1];
      StripRightShape(t);
      var r := StripRight(t);
      assert StripRight(s) == r;
      assert s == t + [c];
      assert s[|r|..] == t[|r|..] + [c];
      AllSpaceSnoc(t[|r|..], c);
      assert s == r + s[|r|..] by {
        assert t == r + t[|r|..];
        assert r + (t[|r|..] + [c]) == (r + t[|r|..]) + [c];
      }
    } else {
      assert s == s + s[|s|..];
    }
  }

  /** `s.strip()`: drops the whitespace at both ends. */
  function Strip(s: string): (r: string)
    ensures Trimmed(r)
    ensures |r| <= |s|
  {
    StripLeftShape(s);
    StripRightShape(StripLeft(s));
    var r := StripRight(StripLeft(s));
    assert r != [] ==> r[0] == StripLeft(s)[0];
    r
  }

  /** What `strip()` removes is whitespace, and what it keeps is a slice of `s`. */
  lemma StripSplit(s: string) returns (a: string, b: string)
    ensures s == a + Strip(s) + b
    ensures AllSpace(a) && AllSpace(b)
  {
    var l := StripLeft(s);
    var r := StripRight(l);
    StripLeftShape(s);
    StripRightShape(l);
    a, b := s[..|s| - |l|], l[|r|..];
    assert Strip(s) == r;
    assert s == a + l && l == r + b;
    assert a + r + b == a + (r + b);
  }

  lemma {:induction false} StripLeftOfSpaces(a: string, t: string)
    requires AllSpace(a)
    requires t == [] || !IsSpace(t[0])
    ensures StripLeft(a + t) == t
  {
    if a == [] {
      assert a + t == t;
    } else {
      assert (a + t)[1..] == a[1..] + t;
      StripLeftOfSpaces(a[1..], t);
    }
  }

  lemma {:induction false} StripRightOfSpaces(t: string, b: string)
    requires AllSpace(b)
    requires t == [] || !IsSpace(t[|t| - 1])
    ensures StripRight(t + b) == t
  {
    if b == [] {
      assert t + b == t;
    } else {
      assert (t + b)[..|t + b| - 1] == t + b[..|b| - 1];
      StripRightOfSpaces(t, b[..|b| - 1]);
    }
  }

  /** Stripping a trimmed core padded with whitespace gives back exactly the core. */
  lemma StripOfPadded(a: string, m: string, b: string)
    requires AllSpace(a) && AllSpace(b) && Trimmed(m)
    ensures Strip(a + m + b) == m
  {
    assert a + m + b == a + (m + b);
    if m == [] {
      assert m + b == b;
      if b == [] {
        StripLeftOfSpaces(a, []);
        assert a + [] == a;
      } else {
        // everything is whitespace: lstrip eats it all
        assert AllSpace(a + b);
        StripLeftOfSpaces(a + b, []);
        assert a + b + [] == a + b;
      }
      assert StripLeft(a + m + b) == [];
    } else {
      StripLeftOfSpaces(a, m + b);
      StripRightOfSpaces(m, b);
    }
  }

  /** A string that does not start with whitespace keeps its first character through `strip()`. */
  lemma StripKeepsFirst(s: string)
    requires s != [] && !IsSpace(s[0])
    ensures Strip(s) != [] && Strip(s)[0] == s[0]
  {
    assert StripLeft(s) == s;
    StripRightShape(s);
  }

  lemma StripIdempotent(s: string)
    ensures Strip(Strip(s)) == Strip(s)
  {
    var m := Strip(s);
    assert [] + m + [] == m;
    StripOfPadded([], m, []);
  }

  /**
   * Python's `str.upper()` for one code point: ASCII and Latin-1 letters,
   * with the two Latin-1 letters whose capital lies outside Latin-1 and the
   * German sharp s, whose capital is the two letters "SS".
   */
  function UpperChar(c: char): (r: string)
    ensures |r| >= 1
    ensures IsSpace(c) ==> r == [c]
    ensures forall k :: 0 <= k < |r| ==> !IsSpace(r[k]) || IsSpace(c)
  {
    if 'a' <= c <= 'z' then [(c as int - 32) as char]
    else if '\U{00E0}' <= c <= '\U{00FE}' && c != '\U{00F7}' then [(c as int - 32) as char]
    else if c == '\U{00FF}' then ['\U{0178}']
    else if c == '\U{00B5}' then ['\U{039C}']
    else if c == '\U{00DF}' then "SS"
    else [c]
  }

  /** `upper()` maps the first character on its own. */
  lemma UpperHead(s: string)
    requires s != []
    ensures Upper(s)[0] == UpperChar(s[0])[0]
  {
  }

  /** `s.upper()`. */
  function Upper(s: string): (r: string)
    ensures |r| >= |s|
    ensures s == [] <==> r == []
  {
    if s == [] then [] else UpperChar(s[0]) + Upper(s[1..])
  }

  lemma {:induction false} UpperAppend(a: string, b: string)
    ensures Upper(a + b) == Upper(a) + Upper(b)
  {
    if a == [] {
      assert a + b == b;
    } else {
      assert (a + b)[1..] == a[1..] + b;
      UpperAppend(a[1..], b);
    }
  }

  lemma UpperCharIdempotent(c: char)
    ensures Upper(UpperChar(c)) == UpperChar(c)
  {
    var u := UpperChar(c);
    if |u| == 1 {
      assert Upper(u) == UpperChar(u[0]) + Upper([]);
    } else {
      assert u == "SS";
      assert Upper(u) == UpperChar('S') + Upper("S");
    }
  }

  /** Upper-casing twice is upper-casing once. */
  lemma {:induction false} UpperIdempotent(s: string)
    ensures Upper(Upper(s)) == Upper(s)
  {
    if s != [] {
      UpperAppend(UpperChar(s[0]), Upper(s[1..]));
      UpperCharIdempotent(s[0]);
      UpperIdempotent(s[1..]);
    }
  }

  lemma {:induction false} UpperOfSpaces(a: string)
    requires AllSpace(a)
    ensures Upper(a) == a
  {
    if a != [] {
      UpperOfSpaces(a[1..]);
      assert a == [a[0]] + a[1..];
    }
  }

  lemma {:induction false} UpperKeepsTrimmed(m: string)
    requires Trimmed(m)
    ensures Trimmed(Upper(m))
  {
    if m != [] {
      var u := Upper(m);
      assert u[0] == UpperChar(m[0])[0];
      var n := |m| - 1;
      assert m == m[..n] + [m[n]];
      UpperAppend(m[..n], [m[n]]);
      assert Upper([m[n]]) == UpperChar(m[n]) + Upper([]);
      var last := UpperChar(m[n]);
      assert u[|u| - 1] == last[|last| - 1];
    }
  }

  /** `c` is its own capital: `upper()` leaves it alone. */
  predicate Uncased(c: char) {
    && !('a' <= c <= 'z')
    && !('\U{00DF}' <= c <= '\U{00FF}' && c != '\U{00F7}')
    && c != '\U{00B5}'
  }

  predicate AllUncased(s: string) {
    s == [] || (Uncased(s[0]) && AllUncased(s[1..]))
  }

  lemma {:induction false} AllUncasedAppend(a: string, b: string)
    requires AllUncased(a) && AllUncased(b)
    ensures AllUncased(a + b)
  {
    if a != [] {
      AllUncasedAppend(a[1..], b);
      assert (a + b)[1..] == a[1..] + b;
    } else {
      assert a + b == b;
    }
  }

  lemma {:induction false} UpperOfUncased(s: string)
    requires AllUncased(s)
    ensures Upper(s) == s
  {
    if s != [] {
      UpperOfUncased(s[1..]);
      assert s == [s[0]] + s[1..];
    }
  }

  /** `s.upper().strip()` and `s.strip().upper()` agree. */
  lemma StripUpperCommute(s: string)
    ensures Strip(Upper(s)) == Upper(Strip(s))
  {
    var m := Strip(s);
    var a, b := StripSplit(s);
    UpperAppend(a + m, b);
    UpperAppend(a, m);
    UpperOfSpaces(a);
    UpperOfSpaces(b);
    UpperKeepsTrimmed(m);
    StripOfPadded(a, Upper(m), b);
  }

  /** Capital ASCII letters, `Á` and the space: the characters of the status names. */
  predicate PlainChar(c: char) {
    'A' <= c <= 'Z' || c == 'Á' || c == ' '
  }

  predicate Plain(s: string) {
    forall k :: 0 <= k < |s| ==> PlainChar(s[k])
  }

  lemma {:induction false} PlainUncased(s: string)
    requires Plain(s)
    ensures AllUncased(s)
  {
    if s != [] {
      PlainUncased(s[1..]);
    }
  }

  /** A name of plain characters with no space at either end is its own cleaned form and has no colon. */
  lemma PlainClean(s: string)
    requires Plain(s) && s != [] && s[0] != ' ' && s[|s| - 1] != ' '
    ensures Strip(s) == s && Upper(s) == s && ':' !in s
  {
    assert Trimmed(s);
    StripOfTrimmed(s);
    PlainUncased(s);
    UpperOfUncased(s);
    assert !PlainChar(':');
  }

  /** `s.startswith(p)`. */
  predicate StartsWith(s: string, p: string) {
    |p| <= |s| && s[..|p|] == p
  }

  /** `p in s` for strings: `p` occurs as a contiguous slice of `s`. */
  ghost predicate Contains(s: string, p: string) {
    exists i :: OccursAt(s, p, i)
  }

  predicate OccursAt(s: string, p: string, i: int) {
    0 <= i <= |s| - |p| && s[i..i + |p|] == p
  }

  /** Executable substring search; agrees with `Contains`. */
  function Find(s: string, p: string): (r: bool)
    ensures r <==> Contains(s, p)
  {
    if |s| < |p| then false
    else if s[..|p|] == p then (assert OccursAt(s, p, 0); true)
    else
      var r := Find(s[1..], p);
      assert r ==> Contains(s, p) by {
        if r {
          var i :| OccursAt(s[1..], p, i);
          assert s[i + 1..i + 1 + |p|] == s[1..][i..i + |p|];
          assert OccursAt(s, p, i + 1);
        }
      }
      assert Contains(s, p) ==> r by {
        if Contains(s, p) {
          var i :| OccursAt(s, p, i);
          assert i != 0;
          assert s[1..][i - 1..i - 1 + |p|] == s[i..i + |p|];
          assert OccursAt(s[1..], p, i - 1);
        }
      }
      r
  }

  /** `s.replace(pat, sub)`: every non-overlapping occurrence, scanning left to right. */
  function ReplaceAll(s: string, pat: string, sub: string): (r: string)
    requires pat != []
    ensures !Contains(s, pat) ==> r == s
    decreases |s|
  {
    if |s| < |pat| then s
    else if s[..|pat|] == pat then (assert OccursAt(s, pat, 0); sub + ReplaceAll(s[|pat|..], pat, sub))
    else
      assert !Contains(s, pat) ==> !Contains(s[1..], pat) by {
        if Contains(s[1..], pat) {
          var i :| OccursAt(s[1..], pat, i);
          assert s[i + 1..i + 1 + |pat|] == s[1..][i..i + |pat|];
          assert OccursAt(s, pat, i + 1);
        }
      }
      [s[0]] + ReplaceAll(s[1..], pat, sub)
  }

  /** `s.split(sep)` for a one-character separator. */
  function Split(s: string, sep: char): (parts: seq<string>)
    ensures |parts| >= 1
  {
    if s == [] then [[]]
    else
      var rest := Split(s[1..], sep);
      if s[0] == sep then [[]] + rest
      else [[s[0]] + rest[0]] + rest[1..]
  }

  /** `sep.join(parts)`. */
  function Join(parts: seq<string>, sep: char): string
    requires |parts| >= 1
  {
    if |parts| == 1 then parts[0] else parts[0] + [sep] + Join(parts[1..], sep)
  }

  /** Splitting and re-joining gives back the original string. */
  lemma {:induction false} JoinSplit(s: string, sep: char)
    ensures Join(Split(s, sep), sep) == s
  {
    if s != [] {
      var rest := Split(s[1..], sep);
      JoinSplit(s[1..], sep);
      if s[0] == sep {
        assert Split(s, sep)[1..] == rest;
      } else {
        var parts := Split(s, sep);
        if |rest| == 1 {
          assert parts == [[s[0]] + rest[0]];
        } else {
          assert parts[1..] == rest[1..];
          assert Join(rest, sep) == rest[0] + [sep] + Join(rest[1..], sep);
        }
      }
    }
  }

  /** Splitting at the first separator: the part before it comes out whole. */
  lemma {:induction false} SplitAtFirst(a: string, b: string, sep: char)
    requires sep !in a
    ensures Split(a + [sep] + b, sep) == [a] + Split(b, sep)
  {
    if a == [] {
      assert a + [sep] + b == [sep] + b;
      assert ([sep] + b)[1..] == b;
    } else {
      assert (a + [sep] + b)[1..] == a[1..] + [sep] + b;
      SplitAtFirst(a[1..], b, sep);
      assert [a[0]] + a[1..] == a;
    }
  }

  /** A string without the separator splits into itself. */
  lemma {:induction false} SplitWithout(s: string, sep: char)
    requires sep !in s
    ensures Split(s, sep) == [s]
  {
    if s != [] {
      SplitWithout(s[1..], sep);
      assert [s[0]] + s[1..] == s;
    }
  }

  /** A separator that is neither a digit nor `-` never occurs in a rendered integer. */
  lemma SeparatorNotInInt(n: int, sep: char)
    requires !IsDigit(sep) && sep != '-'
    ensures sep !in IntToString(n)
  {
  }

  /** A string that does not start with the separator starts its first piece. */
  lemma SplitFirstPiece(s: string, sep: char)
    requires s != [] && s[0] != sep
    ensures Split(s, sep)[0] != [] && Split(s, sep)[0][0] == s[0]
  {
  }

  /** A string split into exactly two parts is the first part, the separator and the second part. */
  lemma SplitTwo(s: string, sep: char)
    requires |Split(s, sep)| == 2
    ensures s == Split(s, sep)[0] + [sep] + Split(s, sep)[1]
  {
    JoinSplit(s, sep);
    var parts := Split(s, sep);
    assert Join(parts[1..], sep) == parts[1];
  }

  /** Number of occurrences of `c` in `s`. */
  function Occurrences(s: string, c: char): nat {
    if s == [] then 0 else (if s[0] == c then 1 else 0) + Occurrences(s[1..], c)
  }

  /** `s.split(sep)` yields one more piece than there are separators. */
  lemma {:induction false} SplitCount(s: string, sep: char)
    ensures |Split(s, sep)| == Occurrences(s, sep) + 1
  {
    if s != [] {
      SplitCount(s[1..], sep);
    }
  }

  predicate IsDigit(c: char) {
    '0' <= c <= '9'
  }

  function DigitValue(c: char): nat
    requires IsDigit(c)
  {
    c as int - '0' as int
  }

  function DigitChar(d: nat): (c: char)
    requires d < 10
    ensures IsDigit(c) && DigitValue(c) == d
  {
    ('0' as int + d) as char
  }

  /** The value of a non-empty string of decimal digits. */
  function DigitsValue(s: string): nat
    requires forall k :: 0 <= k < |s| ==> IsDigit(s[k])
  {
    if s == [] then 0 else DigitsValue(s[..|s| - 1]) * 10 + DigitValue(s[|s| - 1])
  }

  /** `str(n)` for a non-negative integer. */
  function NatToString(n: nat): (r: string)
    ensures |r| >= 1
    ensures forall k :: 0 <= k < |r| ==> IsDigit(r[k])
    ensures DigitsValue(r) == n
  {
    if n < 10 then [DigitChar(n)]
    else
      var r := NatToString(n / 10) + [DigitChar(n % 10)];
      assert r[..|r| - 1] == NatToString(n / 10);
      r
  }

  /** `str(n)` for any integer. */
  function IntToString(n: int): (r: string)
    ensures r != [] && Trimmed(r)
    ensures forall k :: 0 <= k < |r| ==> IsDigit(r[k]) || r[k] == '-'
  {
    var digits := NatToString(if n < 0 then -n else n);
    assert IsDigit(digits[0]) && IsDigit(digits[|digits| - 1]);
    if n < 0 then "-" + digits else digits
  }

  /**
   * `int(s)` on a string: surrounding whitespace allowed, an optional sign,
   * then one or more ASCII digits.  `None` stands for the `ValueError`.
   */
  function ParseInt(s: string): Option<int> {
    var t := Strip(s);
    if t == [] then None
    else
      var neg := t[0] == '-';
      var body := if t[0] == '-' || t[0] == '+' then t[1..] else t;
      if body != [] && forall k :: 0 <= k < |body| ==> IsDigit(body[k]) then
        Some(if neg then -(DigitsValue(body) as int) else DigitsValue(body) as int)
      else None
  }

  lemma StripOfTrimmed(s: string)
    requires Trimmed(s)
    ensures Strip(s) == s
  {
    assert [] + s + [] == s;
    StripOfPadded([], s, []);
  }

  /** `int(str(n)) == n`. */
  lemma IntRoundTrip(n: int)
    ensures ParseInt(IntToString(n)) == Some(n)
  {
    var s := IntToString(n);
    var digits := NatToString(if n < 0 then -n else n);
    assert IsDigit(digits[0]) && IsDigit(digits[|digits| - 1]);
    assert Trimmed(s);
    StripOfTrimmed(s);
    if n < 0 {
      assert s[0] == '-';
      assert s[1..] == digits;
    } else {
      assert s == digits;
      assert s[0] != '-' && s[0] != '+';
    }
  }
}
