/**
 * The few Python string operations the advising code relies on: `str.strip()`,
 * `str.split(',')`, the substring test `a in b`, the ordering `sorted` uses on
 * strings, and the decimal rendering of an `int` inside an f-string.
 */
module Text {

  /** The characters for which Python's `str.isspace()` holds. */
  predicate IsSpace(c: char) {
    c == ' ' || ('\t' <= c <= '\r') || ('\U{1C}' <= c <= '\U{1F}') ||
    c == '\U{85}' || c == '\U{A0}' || c == '\U{1680}' || ('\U{2000}' <= c <= '\U{200A}') ||
    c == '\U{2028}' || c == '\U{2029}' || c == '\U{202F}' || c == '\U{205F}' || c == '\U{3000}'
  }

  /** Drops the leading run of white space (`str.lstrip()`). */
  function TrimLeft(s: string): (r: string)
    ensures |r| <= |s| && r == s[|s| - |r|..]
    ensures r == [] || !IsSpace(r[0])
    ensures forall k :: 0 <= k < |s| - |r| ==> IsSpace(s[k])
  {
    if |s| > 0 && IsSpace(s[0]) then TrimLeft(s[1..]) else s
  }

  /** Drops the trailing run of white space (`str.rstrip()`). */
  function TrimRight(s: string): (r: string)
    ensures |r| <= |s| && r == s[..|r|]
    ensures r == [] || !IsSpace(r[|r| - 1])
    ensures forall k :: |r| <= k < |s| ==> IsSpace(s[k])
  {
    if |s| > 0 && IsSpace(s[|s| - 1]) then TrimRight(s[..|s| - 1]) else s
  }

  /** `str.strip()`: both white-space runs removed; empty exactly for an all-blank string. */
  function Strip(s: string): (r: string)
    ensures r == [] || (!IsSpace(r[0]) && !IsSpace(r[|r| - 1]))
    ensures r == [] <==> forall k :: 0 <= k < |s| ==> IsSpace(s[k])
  {
    var t := TrimLeft(s);
    var r := TrimRight(t);
    assert r != [] ==> r[0] == t[0];
    assert t != [] ==> t[0] == s[|s| - |t|];
    r
  }

  /**
   * Stripping removes nothing but the two white-space runs: the result is a slice of the
   * input with only white space before and after it.
   */
  lemma StripRemovesOnlyEnds(s: string)
    ensures exists i :: StripsAt(s, Strip(s), i)
  {
    var t := TrimLeft(s);
    var r := TrimRight(t);
    var i := |s| - |t|;
    assert r == Strip(s);
    assert t == s[i..];
    assert r == s[i..i + |r|] by {
      assert r == t[..|r|];
    }
    forall k | i + |r| <= k < |s|
      ensures IsSpace(s[k])
    {
      assert s[k] == t[k - i];
    }
    assert StripsAt(s, r, i);
  }

  /** `r` is the slice of `s` from `i`, with only white space before it and after it. */
  ghost predicate StripsAt(s: string, r: string, i: int) {
    && 0 <= i <= |s| - |r|
    && r == s[i..i + |r|]
    && (forall k :: 0 <= k < i ==> IsSpace(s[k]))
    && (forall k :: i + |r| <= k < |s| ==> IsSpace(s[k]))
  }

  /** A string with no white space at either end is its own stripped form. */
  lemma StripKeepsTrimmed(s: string)
    requires s == [] || (!IsSpace(s[0]) && !IsSpace(s[|s| - 1]))
    ensures Strip(s) == s
  {
  }

  /** A leading white-space character is dropped by stripping. */
  lemma StripDropsLeadingSpace(c: char, s: string)
    requires IsSpace(c)
    ensures Strip([c] + s) == Strip(s)
  {
    assert ([c] + s)[1..] == s;
  }

  /** Python's `s.split(sep)` for a one-character separator: never empty, `"".split(',') == ['']`. */
  function Split(s: string, sep: char): (r: seq<string>)
    ensures |r| >= 1
    ensures forall k :: 0 <= k < |r| ==> sep !in r[k]
  {
    if |s| == 0 then [""]
    else
      var rest := Split(s[1..], sep);
      if s[0] == sep then [""] + rest
      else [[s[0]] + rest[0]] + rest[1..]
  }

  /** A string without the separator splits into itself alone. */
  lemma {:induction false} SplitWithoutSeparator(s: string, sep: char)
    requires sep !in s
    ensures Split(s, sep) == [s]
  {
    if |s| > 0 {
      assert s[1..] == s[1..] && sep !in s[1..];
      SplitWithoutSeparator(s[1..], sep);
      assert [s[0]] + s[1..] == s;
    }
  }

  /** The piece before the first separator comes first; the rest is split the same way. */
  lemma {:induction false} SplitAtSeparator(a: string, b: string, sep: char)
    requires sep !in a
    ensures Split(a + [sep] + b, sep) == [a] + Split(b, sep)
  {
    var s := a + [sep] + b;
    if |a| == 0 {
      assert s[1..] == b;
    } else {
      assert s[1..] == a[1..] + [sep] + b;
      SplitAtSeparator(a[1..], b, sep);
      assert [a[0]] + a[1..] == a;
    }
  }

  /** `"a, b".split(',')` is `["a", " b"]`: the space stays on the second piece. */
  lemma SplitCommaSpace(a: string, b: string)
    requires ',' !in a && ',' !in b
    ensures Split(a + [','] + [' '] + b, ',') == [a, [' '] + b]
  {
    var spaced := [' '] + b;
    assert a + [','] + [' '] + b == a + [','] + spaced;
    SplitWithoutSeparator(spaced, ',');
    SplitAtSeparator(a, spaced, ',');
  }

  /** `sep.join(pieces)`. */
  function Join(pieces: seq<string>, sep: char): string
  {
    if |pieces| == 0 then ""
    else if |pieces| == 1 then pieces[0]
    else pieces[0] + [sep] + Join(pieces[1..], sep)
  }

  /** Splitting loses nothing: joining the pieces with the separator gives the string back. */
  lemma {:induction false} SplitJoin(s: string, sep: char)
    ensures Join(Split(s, sep), sep) == s
  {
    if |s| > 0 {
      var rest := Split(s[1..], sep);
      SplitJoin(s[1..], sep);
      if s[0] == sep {
        assert ([""] + rest)[1..] == rest;
        assert s == [sep] + s[1..];
      } else {
        var r := [[s[0]] + rest[0]] + rest[1..];
        if |rest| == 1 {
          assert s == [s[0]] + s[1..];
        } else {
          assert r[1..] == rest[1..];
          assert Join(rest, sep) == rest[0] + [sep] + Join(rest[1..], sep);
          assert s == [s[0]] + s[1..];
        }
      }
    }
  }

  /** Python's `needle in haystack` on strings (the empty string occurs everywhere). */
  predicate Occurs(needle: string, haystack: string)
    decreases |haystack|
  {
    needle <= haystack || (|haystack| > 0 && Occurs(needle, haystack[1..]))
  }

  /** The substring test holds exactly when the needle starts at some position of the haystack. */
  lemma {:induction false} OccursAt(needle: string, haystack: string)
    ensures Occurs(needle, haystack) <==> exists i :: 0 <= i <= |haystack| && needle <= haystack[i..]
    decreases |haystack|
  {
    assert haystack[0..] == haystack;
    if |haystack| > 0 {
      var tail := haystack[1..];
      OccursAt(needle, tail);
      if Occurs(needle, tail) {
        var j :| 0 <= j <= |tail| && needle <= tail[j..];
        assert tail[j..] == haystack[j + 1..];
      }
      if exists i :: 0 <= i <= |haystack| && needle <= haystack[i..] {
        var i :| 0 <= i <= |haystack| && needle <= haystack[i..];
        if i > 0 {
          assert haystack[i..] == tail[i - 1..];
          assert Occurs(needle, tail);
        }
        assert Occurs(needle, haystack);
      }
    }
  }

  /** A string always occurs inside itself, so an exact match passes a substring test. */
  lemma OccursInItself(s: string)
    ensures Occurs(s, s)
  {
  }

  /** A string occurs inside any string built around it. */
  lemma {:induction false} OccursInside(needle: string, before: string, after: string)
    ensures Occurs(needle, before + needle + after)
    decreases |before|
  {
    var s := before + needle + after;
    if |before| == 0 {
      assert s == needle + after;
    } else {
      assert s[1..] == before[1..] + needle + after;
      OccursInside(needle, before[1..], after);
    }
  }

  /** Python's `<` on `str`: lexicographic by code point, a proper prefix first. */
  predicate StrLess(a: string, b: string)
    decreases |a|
  {
    if |a| == 0 then |b| > 0
    else if |b| == 0 then false
    else if a[0] != b[0] then a[0] < b[0]
    else StrLess(a[1..], b[1..])
  }

  lemma {:induction false} StrLessIrreflexive(a: string)
    ensures !StrLess(a, a)
  {
    if |a| > 0 {
      StrLessIrreflexive(a[1..]);
    }
  }

  lemma {:induction false} StrLessAsymmetric(a: string, b: string)
    requires StrLess(a, b)
    ensures !StrLess(b, a)
  {
    if |a| > 0 && |b| > 0 && a[0] == b[0] {
      StrLessAsymmetric(a[1..], b[1..]);
    }
  }

  lemma {:induction false} StrLessTransitive(a: string, b: string, c: string)
    requires StrLess(a, b) && StrLess(b, c)
    ensures StrLess(a, c)
  {
    if |a| > 0 && |b| > 0 && |c| > 0 && a[0] == b[0] && b[0] == c[0] {
      StrLessTransitive(a[1..], b[1..], c[1..]);
    }
  }

  /** Two different strings are always ordered one way or the other. */
  lemma {:induction false} StrLessTotal(a: string, b: string)
    requires a != b
    ensures StrLess(a, b) || StrLess(b, a)
  {
    if |a| > 0 && |b| > 0 && a[0] == b[0] {
      assert a == [a[0]] + a[1..] && b == [b[0]] + b[1..];
      StrLessTotal(a[1..], b[1..]);
    }
  }

  /** Every pair of positions of `s` is in strictly increasing string order. */
  predicate StrictlyAscending(s: seq<string>) {
    forall i, j :: 0 <= i < j < |s| ==> StrLess(s[i], s[j])
  }

  /** Inserts `c` into a strictly ascending sequence, keeping it strictly ascending and without repeats. */
  function InsertCode(c: string, s: seq<string>): (r: seq<string>)
    requires StrictlyAscending(s)
    ensures StrictlyAscending(r)
    ensures forall x :: x in r <==> x == c || x in s
    decreases |s|
  {
    if |s| == 0 then [c]
    else if c == s[0] then s
    else if StrLess(c, s[0]) then
      assert forall j :: 0 < j < |s| ==> StrLess(c, s[j]) by {
        forall j | 0 < j < |s| ensures StrLess(c, s[j]) { StrLessTransitive(c, s[0], s[j]); }
      }
      [c] + s
    else
      StrLessTotal(c, s[0]);
      var tail := InsertCode(c, s[1..]);
      assert forall x :: x in tail ==> StrLess(s[0], x) by {
        forall x | x in tail ensures StrLess(s[0], x) {
          if x != c { var j :| 0 <= j < |s[1..]| && s[1..][j] == x; assert s[j + 1] == x; }
        }
      }
      [s[0]] + tail
  }

  /** Python's `sorted(set(codes))`: the distinct codes in increasing order. */
  function SortedCodes(codes: seq<string>): (r: seq<string>)
    ensures StrictlyAscending(r)
    ensures forall x :: x in r <==> x in codes
  {
    if |codes| == 0 then []
    else InsertCode(codes[|codes| - 1], SortedCodes(codes[..|codes| - 1]))
  }

  /** The first element of a strictly ascending sequence is below every other element. */
  lemma AscendingHeadIsLeast(s: seq<string>, x: string)
    requires StrictlyAscending(s) && x in s && x != s[0]
    ensures StrLess(s[0], x)
  {
    var j :| 0 <= j < |s| && s[j] == x;
  }

  /**
   * A strictly ascending sequence is determined by its elements, so `sorted` of a set has
   * only one possible result.
   */
  lemma {:induction false} AscendingUnique(a: seq<string>, b: seq<string>)
    requires StrictlyAscending(a) && StrictlyAscending(b)
    requires forall x :: x in a <==> x in b
    ensures a == b
  {
    assert a != [] ==> a[0] in b;
    assert b != [] ==> b[0] in a;
    if a != [] && b != [] {
      if a[0] != b[0] {
        AscendingHeadIsLeast(a, b[0]);
        AscendingHeadIsLeast(b, a[0]);
        StrLessAsymmetric(a[0], b[0]);
      }
      forall x ensures x in a[1..] <==> x in b[1..] {
        if x in a[1..] {
          var j :| 0 <= j < |a[1..]| && a[1..][j] == x;
          assert StrLess(a[0], a[j + 1]);
          StrLessIrreflexive(x);
          assert x in b && x != b[0];
          assert x in b[1..] by { assert b == [b[0]] + b[1..]; }
        }
        if x in b[1..] {
          var j :| 0 <= j < |b[1..]| && b[1..][j] == x;
          assert StrLess(b[0], b[j + 1]);
          StrLessIrreflexive(x);
          assert x in a && x != a[0];
          assert x in a[1..] by { assert a == [a[0]] + a[1..]; }
        }
      }
      AscendingUnique(a[1..], b[1..]);
      assert a == [a[0]] + a[1..] && b == [b[0]] + b[1..];
    }
  }

  function DigitChar(d: int): (c: char)
    requires 0 <= d < 10
    ensures '0' <= c <= '9' && c as int - '0' as int == d
  {
    "0123456789"[d]
  }

  /** The value of a string of decimal digits, read most significant first. */
  function DecimalValue(s: string): nat
    requires forall i :: 0 <= i < |s| ==> '0' <= s[i] <= '9'
  {
    if |s| == 0 then 0 else DecimalValue(s[..|s| - 1]) * 10 + (s[|s| - 1] as int - '0' as int)
  }

  /** The decimal digits of `n` without leading zeros. */
  function NatToString(n: nat): (r: string)
    ensures |r| > 0 && forall i :: 0 <= i < |r| ==> '0' <= r[i] <= '9'
    ensures |r| > 1 ==> r[0] != '0'
  {
    if n < 10 then [DigitChar(n)] else NatToString(n / 10) + [DigitChar(n % 10)]
  }

  /** Reading the digits back gives the number. */
  lemma {:induction false} NatToStringValue(n: nat)
    ensures DecimalValue(NatToString(n)) == n
  {
    var r := NatToString(n);
    if n >= 10 {
      NatToStringValue(n / 10);
      assert r[..|r| - 1] == NatToString(n / 10);
    }
  }

  /** `str(n)` for a Python `int`. */
  function IntToString(n: int): string
  {
    if n < 0 then "-" + NatToString(-n) else NatToString(n)
  }

  /** `str(n)`: a '-' exactly for a negative `n`, then the digits of `|n|`. */
  lemma IntToStringValue(n: int)
    ensures n < 0 ==> IntToString(n)[0] == '-' && IntToString(n)[1..] == NatToString(-n)
    ensures n >= 0 ==> IntToString(n) == NatToString(n) && IntToString(n)[0] != '-'
    ensures n < 0 ==> DecimalValue(IntToString(n)[1..]) == -n
    ensures n >= 0 ==> DecimalValue(IntToString(n)) == n
  {
    if n < 0 {
      NatToStringValue(-n);
      assert ("-" + NatToString(-n))[1..] == NatToString(-n);
    } else {
      NatToStringValue(n);
    }
  }
}
