// String helpers that stand for the JavaScript built-ins the application
// relies on: String.prototype.split with a one-character separator,
// Array.prototype.join, String.prototype.trim and the decimal rendering of
// a non-negative integer inside a template literal.

module Text {

  /** `parts.join(sep)`: the parts with `sep` between neighbours. */
  function Join(parts: seq<string>, sep: string): string
    decreases |parts|
  {
    if |parts| == 0 then ""
    else if |parts| == 1 then parts[0]
    else parts[0] + sep + Join(parts[1..], sep)
  }

  /** Joining two non-empty lists is joining each and putting the separator between. */
  lemma {:induction false} JoinAppend(a: seq<string>, b: seq<string>, sep: string)
    requires |a| >= 1 && |b| >= 1
    ensures Join(a + b, sep) == Join(a, sep) + sep + Join(b, sep)
    decreases |a|
  {
    if |a| == 1 {
      assert (a + b)[1..] == b;
    } else {
      JoinAppend(a[1..], b, sep);
      assert (a + b)[1..] == a[1..] + b;
    }
  }

  /** A join starts with its first part, so it is empty only if that part is. */
  lemma {:induction false} JoinStartsWithFirst(parts: seq<string>, sep: string)
    requires |parts| >= 1
    ensures |Join(parts, sep)| >= |parts[0]| && Join(parts, sep)[..|parts[0]|] == parts[0]
  {
    if |parts| > 1 {
      var rest := Join(parts[1..], sep);
      assert Join(parts, sep) == parts[0] + (sep + rest);
    }
  }

  /** A character absent from every part and from the separator is absent from the join. */
  lemma {:induction false} JoinAvoids(parts: seq<string>, sep: string, x: char)
    requires forall i :: 0 <= i < |parts| ==> x !in parts[i]
    requires x !in sep
    ensures x !in Join(parts, sep)
    decreases |parts|
  {
    if |parts| > 1 {
      JoinAvoids(parts[1..], sep, x);
    }
  }

  /** `s.split(sep)` for a one-character separator: never empty, and no part
      holds the separator. */
  function Split(s: string, sep: char): (parts: seq<string>)
    ensures |parts| >= 1
    ensures forall i :: 0 <= i < |parts| ==> sep !in parts[i]
    decreases |s|
  {
    if |s| == 0 then [""]
    else
      var rest := Split(s[1..], sep);
      if s[0] == sep then [""] + rest
      else [[s[0]] + rest[0]] + rest[1..]
  }

  /** Joining the pieces of a split with the same separator gives the string back. */
  lemma {:induction false} JoinSplit(s: string, sep: char)
    ensures Join(Split(s, sep), [sep]) == s
    decreases |s|
  {
    if |s| > 0 {
      var rest := Split(s[1..], sep);
      JoinSplit(s[1..], sep);
      if s[0] == sep {
        assert Split(s, sep) == [""] + rest;
        assert ([""] + rest)[1..] == rest;
        assert Join([""] + rest, [sep]) == "" + [sep] + Join(rest, [sep]);
        assert s == [s[0]] + s[1..];
      } else {
        var first := [s[0]] + rest[0];
        assert Split(s, sep) == [first] + rest[1..];
        if |rest| == 1 {
          assert Join([first] + rest[1..], [sep]) == first;
          assert s == [s[0]] + s[1..];
        } else {
          assert ([first] + rest[1..])[1..] == rest[1..];
          assert Join([first] + rest[1..], [sep]) == first + [sep] + Join(rest[1..], [sep]);
          assert Join(rest, [sep]) == rest[0] + [sep] + Join(rest[1..], [sep]);
          assert s == [s[0]] + s[1..];
        }
      }
    }
  }

  lemma {:induction false} SplitWithoutSeparator(a: string, sep: char)
    requires sep !in a
    ensures Split(a, sep) == [a]
    decreases |a|
  {
    if |a| > 0 {
      assert sep !in a[1..];
      SplitWithoutSeparator(a[1..], sep);
      assert [a[0]] + a[1..] == a;
    }
  }

  lemma {:induction false} SplitAfterFirst(a: string, sep: char, b: string)
    requires sep !in a
    ensures Split(a + [sep] + b, sep) == [a] + Split(b, sep)
    decreases |a|
  {
    var s := a + [sep] + b;
    if |a| == 0 {
      assert s[0] == sep && s[1..] == b;
    } else {
      assert s[0] == a[0] && s[1..] == a[1..] + [sep] + b;
      assert sep !in a[1..];
      SplitAfterFirst(a[1..], sep, b);
      assert [a[0]] + a[1..] == a;
    }
  }

  /** Splitting a join whose parts hold no separator gives the parts back. */
  lemma {:induction false} SplitJoin(parts: seq<string>, sep: char)
    requires |parts| >= 1
    requires forall i :: 0 <= i < |parts| ==> sep !in parts[i]
    ensures Split(Join(parts, [sep]), sep) == parts
    decreases |parts|
  {
    if |parts| == 1 {
      SplitWithoutSeparator(parts[0], sep);
    } else {
      SplitJoin(parts[1..], sep);
      SplitAfterFirst(parts[0], sep, Join(parts[1..], [sep]));
      assert [parts[0]] + parts[1..] == parts;
    }
  }

  /** The code points that `String.prototype.trim` removes: the ECMAScript
      WhiteSpace and LineTerminator characters. */
  predicate IsJsWhitespace(c: char)
  {
    c in {'\U{0009}', '\U{000A}', '\U{000B}', '\U{000C}', '\U{000D}', '\U{0020}', '\U{00A0}',
          '\U{1680}', '\U{2000}', '\U{2001}', '\U{2002}', '\U{2003}', '\U{2004}', '\U{2005}',
          '\U{2006}', '\U{2007}', '\U{2008}', '\U{2009}', '\U{200A}', '\U{2028}', '\U{2029}',
          '\U{202F}', '\U{205F}', '\U{3000}', '\U{FEFF}'}
  }

  function TrimStart(s: string): string
    decreases |s|
  {
    if |s| > 0 && IsJsWhitespace(s[0]) then TrimStart(s[1..]) else s
  }

  function TrimEnd(s: string): string
    decreases |s|
  {
    if |s| > 0 && IsJsWhitespace(s[|s| - 1]) then TrimEnd(s[..|s| - 1]) else s
  }

  /** `s.trim()`. */
  function Trim(s: string): string
  {
    TrimEnd(TrimStart(s))
  }

  predicate AllWhitespace(s: string)
  {
    forall i :: 0 <= i < |s| ==> IsJsWhitespace(s[i])
  }

  /** A trimmed string neither starts nor ends with whitespace. */
  predicate IsTrimmed(s: string)
  {
    |s| == 0 || (!IsJsWhitespace(s[0]) && !IsJsWhitespace(s[|s| - 1]))
  }

  lemma {:induction false} TrimStartShape(s: string)
    ensures exists a :: PaddedBy(s, a, TrimStart(s), "")
    ensures |TrimStart(s)| == 0 || !IsJsWhitespace(TrimStart(s)[0])
    decreases |s|
  {
    if |s| > 0 && IsJsWhitespace(s[0]) {
      TrimStartShape(s[1..]);
      var a :| PaddedBy(s[1..], a, TrimStart(s[1..]), "");
      assert PaddedBy(s, [s[0]] + a, TrimStart(s), "") by {
        assert s == [s[0]] + s[1..];
      }
    } else {
      assert TrimStart(s) == s && "" + s + "" == s;
      assert PaddedBy(s, "", TrimStart(s), "");
    }
  }

  lemma {:induction false} TrimEndShape(s: string)
    ensures exists b :: PaddedBy(s, "", TrimEnd(s), b)
    ensures |TrimEnd(s)| == 0 || !IsJsWhitespace(TrimEnd(s)[|TrimEnd(s)| - 1])
    decreases |s|
  {
    var n := |s|;
    if n > 0 && IsJsWhitespace(s[n - 1]) {
      var t := s[..n - 1];
      TrimEndShape(t);
      assert TrimEnd(s) == TrimEnd(t);
      var b :| PaddedBy(t, "", TrimEnd(t), b);
      var b' := b + [s[n - 1]];
      assert AllWhitespace(b') by {
        assert forall i :: 0 <= i < |b'| ==> b'[i] == if i < |b| then b[i] else s[n - 1];
      }
      assert s == "" + TrimEnd(s) + b' by {
        assert s == t + [s[n - 1]];
        assert t == "" + TrimEnd(t) + b;
      }
      assert PaddedBy(s, "", TrimEnd(s), b');
    } else {
      assert TrimEnd(s) == s && "" + s + "" == s;
      assert PaddedBy(s, "", TrimEnd(s), "");
    }
  }

  /** `s` is `r` with the whitespace-only pieces `a` before and `b` after it. */
  predicate PaddedBy(s: string, a: string, r: string, b: string)
  {
    s == a + r + b && AllWhitespace(a) && AllWhitespace(b)
  }

  /** `s.trim()` cuts whitespace off both ends and nothing else: the input is
      the result with whitespace-only pieces before and after it, and the
      result is trimmed. */
  lemma TrimShape(s: string)
    ensures exists a, b :: PaddedBy(s, a, Trim(s), b)
    ensures IsTrimmed(Trim(s))
  {
    var t := TrimStart(s);
    TrimStartShape(s);
    var a :| PaddedBy(s, a, t, "");
    TrimEndShape(t);
    var b :| PaddedBy(t, "", TrimEnd(t), b);
    assert PaddedBy(s, a, Trim(s), b) by {
      assert s == a + t;
      assert t == Trim(s) + b;
    }
    TrimEndKeepsFirst(t);
  }

  lemma {:induction false} TrimEndKeepsFirst(t: string)
    requires |t| == 0 || !IsJsWhitespace(t[0])
    ensures |TrimEnd(t)| == 0 || !IsJsWhitespace(TrimEnd(t)[0])
    decreases |t|
  {
    var n := |t|;
    if n > 0 && IsJsWhitespace(t[n - 1]) {
      if n > 1 {
        TrimEndKeepsFirst(t[..n - 1]);
      }
    }
  }

  /** Trimming twice trims no more than trimming once. */
  lemma TrimIdempotent(s: string)
    ensures Trim(Trim(s)) == Trim(s)
  {
    var t := Trim(s);
    TrimShape(s);
    if |t| > 0 {
      assert TrimStart(t) == t;
      assert TrimEnd(t) == t;
    }
  }

  predicate IsDigit(c: char)
  {
    '0' as int <= c as int <= '9' as int
  }

  function DigitChar(d: nat): (c: char)
    requires d < 10
  {
    "0123456789"[d]
  }

  /** The decimal text of a non-negative count, as `${n}` prints it. */
  function NatToString(n: nat): (r: string)
    ensures |r| >= 1
    ensures forall i :: 0 <= i < |r| ==> IsDigit(r[i])
    ensures (r[0] == '0') == (n == 0)
    decreases n
  {
    if n < 10 then [DigitChar(n)]
    else NatToString(n / 10) + [DigitChar(n % 10)]
  }

  /** The value of a string of decimal digits. */
  function DecimalValue(s: string): nat
    requires forall i :: 0 <= i < |s| ==> IsDigit(s[i])
    decreases |s|
  {
    if |s| == 0 then 0
    else
      var last := s[|s| - 1];
      assert IsDigit(last);
      DecimalValue(s[..|s| - 1]) * 10 + ((last as int) - ('0' as int))
  }

  /** Reading back the decimal text of a count gives the count. */
  lemma {:induction false} NatToStringRoundTrip(n: nat)
    ensures DecimalValue(NatToString(n)) == n
    decreases n
  {
    var r := NatToString(n);
    if n < 10 {
      assert r[..0] == [];
    } else {
      NatToStringRoundTrip(n / 10);
      assert r[..|r| - 1] == NatToString(n / 10);
    }
  }

  /** The longest run of decimal digits at the start of `s`. */
  function DigitPrefix(s: string): (d: string)
    ensures |d| <= |s| && d == s[..|d|]
    ensures forall i :: 0 <= i < |d| ==> IsDigit(d[i])
    ensures |d| < |s| ==> !IsDigit(s[|d|])
    decreases |s|
  {
    if |s| == 0 || !IsDigit(s[0]) then ""
    else [s[0]] + DigitPrefix(s[1..])
  }

  /** The result of `parseInt`: a number, or NaN. */
  datatype Parsed = NaN | Num(value: int)

  /** `parseInt(s)` on decimal text: leading whitespace is skipped, one sign
      is read, then the longest run of digits; no digit at all gives NaN. */
  function ParseInt(s: string): Parsed
  {
    var t := TrimStart(s);
    var signed := |t| > 0 && (t[0] == '-' || t[0] == '+');
    var digits := DigitPrefix(if signed then t[1..] else t);
    if digits == "" then NaN
    else if signed && t[0] == '-' then Num(-(DecimalValue(digits) as int))
    else Num(DecimalValue(digits))
  }

  lemma DigitIsNotWhitespace(c: char)
    requires IsDigit(c)
    ensures !IsJsWhitespace(c) && c != '-' && c != '+'
  {
  }

  lemma {:induction false} DigitPrefixOfDigits(s: string)
    requires forall i :: 0 <= i < |s| ==> IsDigit(s[i])
    ensures DigitPrefix(s) == s
    decreases |s|
  {
    if |s| > 0 {
      DigitPrefixOfDigits(s[1..]);
      assert s == [s[0]] + s[1..];
    }
  }

  /** Reading back the rendered decimal text of a count gives the count. */
  lemma ParseIntOfNatString(n: nat)
    ensures ParseInt(NatToString(n)) == Num(n)
  {
    var r := NatToString(n);
    DigitIsNotWhitespace(r[0]);
    assert TrimStart(r) == r;
    DigitPrefixOfDigits(r);
    NatToStringRoundTrip(n);
  }

  /** A minus sign before the digits gives the negated count. */
  lemma ParseIntOfNegative(n: nat)
    ensures ParseInt("-" + NatToString(n)) == Num(-(n as int))
  {
    var r := NatToString(n);
    var t := "-" + r;
    assert !IsJsWhitespace('-');
    assert TrimStart(t) == t;
    assert t[1..] == r;
    DigitPrefixOfDigits(r);
    NatToStringRoundTrip(n);
  }

  /** An emptied input box reads as NaN. */
  lemma ParseIntOfEmpty()
    ensures ParseInt("") == NaN
  {
  }
}
