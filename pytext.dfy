/** The Python text conventions both scripts lean on: f-string zero padding
    (`{n:02d}`, `{n:04d}`), `str(n)`, `int(s)`, `str.split`, `startswith`,
    `endswith`, substring `in`, `str.lower` and `os.path.join`. */
module PyText {

  datatype Option<+T> = None | Some(value: T)

  // ---------------------------------------------------------------------------
  // Decimal digits

  predicate IsDigit(c: char) { '0' <= c <= '9' }

  predicate AllDigits(s: string) { forall i :: 0 <= i < |s| ==> IsDigit(s[i]) }

  function DigitChar(d: nat): (c: char)
    requires d < 10
    ensures IsDigit(c) && c as int - '0' as int == d
  {
    ('0' as int + d) as char
  }

  function DigitValue(c: char): nat
    requires IsDigit(c)
  {
    c as int - '0' as int
  }

  /** The value of a string of decimal digits, most significant first. */
  function DigitsValue(s: string): nat
    requires AllDigits(s)
  {
    if s == [] then 0 else DigitsValue(s[..|s| - 1]) * 10 + DigitValue(s[|s| - 1])
  }

  /** `str(n)` for a non-negative integer: no sign, no leading zeros. */
  function Decimal(n: nat): (s: string)
    ensures 1 <= |s| && AllDigits(s)
    ensures s[0] == '0' ==> n == 0
    ensures n < 10 ==> |s| == 1
  {
    if n < 10 then [DigitChar(n)] else Decimal(n / 10) + [DigitChar(n % 10)]
  }

  lemma {:induction false} DecimalValue(n: nat)
    ensures DigitsValue(Decimal(n)) == n
  {
    if n >= 10 {
      var s := Decimal(n);
      assert s[..|s| - 1] == Decimal(n / 10);
      DecimalValue(n / 10);
    }
  }

  function Zeros(k: nat): (z: string)
    ensures |z| == k && AllDigits(z)
  {
    seq(k, _ => '0')
  }

  /** Left-pads a digit string with zeros up to `width` characters. */
  function ZeroPad(s: string, width: nat): string
  {
    if |s| < width then Zeros(width - |s|) + s else s
  }

  /** Python's `f"{n:0<width>d}"`: the sign comes first and counts toward the
      width, zeros fill the gap between the sign and the digits. */
  function FormatInt(n: int, width: nat): (s: string)
    ensures |s| >= width && |s| >= 1
    ensures n >= 0 ==> AllDigits(s)
  {
    if n >= 0 then ZeroPad(Decimal(n), width)
    else "-" + ZeroPad(Decimal(-n), if width > 0 then width - 1 else 0)
  }

  lemma {:induction false} ZerosValue(k: nat, s: string)
    requires AllDigits(s)
    ensures AllDigits(Zeros(k) + s) && DigitsValue(Zeros(k) + s) == DigitsValue(s)
  {
    var t := Zeros(k) + s;
    assert AllDigits(t) by {
      forall i | 0 <= i < |t| ensures IsDigit(t[i]) {
        if i < k { assert t[i] == Zeros(k)[i]; } else { assert t[i] == s[i - k]; }
      }
    }
    if s == [] {
      if k > 0 {
        assert t[..|t| - 1] == Zeros(k - 1) + [];
        ZerosValue(k - 1, []);
      }
    } else {
      assert t[..|t| - 1] == Zeros(k) + s[..|s| - 1];
      ZerosValue(k, s[..|s| - 1]);
    }
  }

  lemma ZeroPadDecimal(n: nat, width: nat)
    ensures AllDigits(ZeroPad(Decimal(n), width))
    ensures DigitsValue(ZeroPad(Decimal(n), width)) == n
  {
    DecimalValue(n);
    if |Decimal(n)| < width { ZerosValue(width - |Decimal(n)|, Decimal(n)); }
  }

  lemma FormatIntShape(n: int, width: nat)
    ensures IsDigit(FormatInt(n, width)[|FormatInt(n, width)| - 1])
    ensures IsDigit(FormatInt(n, width)[0]) || FormatInt(n, width)[0] == '-'
    ensures '_' !in FormatInt(n, width)
  {
  }

  /** A value below 10^width is printed in exactly `width` characters. */
  lemma {:induction false} DecimalLength(n: nat, width: nat)
    requires n < Pow10(width)
    ensures |Decimal(n)| <= width || (n == 0 && width == 0)
  {
    if n >= 10 {
      assert width >= 1;
      DecimalLength(n / 10, width - 1);
    }
  }

  function Pow10(k: nat): (p: nat)
    ensures p >= 1
  {
    if k == 0 then 1 else 10 * Pow10(k - 1)
  }

  lemma FormatIntWidth(n: nat, width: nat)
    requires 1 <= width && n < Pow10(width)
    ensures |FormatInt(n, width)| == width
  {
    DecimalLength(n, width);
  }

  // ---------------------------------------------------------------------------
  // int(s)

  /** The whitespace `int()` skips around a literal: space and `\t` to `\r`.
      (`str.strip()` also strips `\x1c` to `\x1f`; `int()` does not.) */
  predicate IsSpace(c: char)
  {
    c == ' ' || '\t' <= c <= '\r'
  }

  /** `int(" 5\n")` is 5, while `int("\x1c5")` raises. */
  lemma IntSkipsOnlyBlanks()
    ensures ParseInt(" 5\n") == Some(5)
    ensures ParseInt("\U{1C}5") == None
  {
    assert Strip(" 5\n") == "5" by {
      assert StripLeft(" 5\n") == "5\n" by {
        assert " 5\n"[1..] == "5\n";
      }
      assert "5\n"[..1] == "5";
    }
    ParseDigits("5");
    assert Strip("\U{1C}5") == "\U{1C}5";
    assert !IsDigitRun("\U{1C}5");
  }

  function StripLeft(s: string): string
  {
    if |s| > 0 && IsSpace(s[0]) then StripLeft(s[1..]) else s
  }

  /** The leading strip removes only whitespace, and leaves a suffix that
      does not start with whitespace. */
  lemma {:induction false} StripLeftShape(s: string)
    ensures var t := StripLeft(s);
      && |t| <= |s| && (|t| > 0 ==> !IsSpace(t[0])) && t == s[|s| - |t|..]
      && forall i :: 0 <= i < |s| - |t| ==> IsSpace(s[i])
  {
    if |s| > 0 && IsSpace(s[0]) {
      StripLeftShape(s[1..]);
      forall i | 1 <= i < |s| - |StripLeft(s)| ensures IsSpace(s[i]) {
        assert s[i] == s[1..][i - 1];
      }
    }
  }

  function StripRight(s: string): string
  {
    if |s| > 0 && IsSpace(s[|s| - 1]) then StripRight(s[..|s| - 1]) else s
  }

  /** The trailing strip removes only whitespace, and leaves a prefix that
      does not end with whitespace. */
  lemma {:induction false} StripRightShape(s: string)
    ensures var t := StripRight(s);
      && |t| <= |s| && (|t| > 0 ==> !IsSpace(t[|t| - 1])) && t == s[..|t|]
      && forall i :: |t| <= i < |s| ==> IsSpace(s[i])
  {
    if |s| > 0 && IsSpace(s[|s| - 1]) {
      StripRightShape(s[..|s| - 1]);
      forall i | |StripRight(s)| <= i < |s| - 1 ensures IsSpace(s[i]) {
        assert s[i] == s[..|s| - 1][i];
      }
    }
  }

  function Strip(s: string): string
  {
    StripRight(StripLeft(s))
  }

  /** Python's integer-literal digit body: digits, where a single `_` may stand
      between two digits. */
  predicate IsDigitRun(b: string)
  {
    |b| > 0 && IsDigit(b[0]) && forall i :: 0 <= i < |b| ==> DigitOrSeparator(b, i)
  }

  /** Position `i` of `b` holds a digit, or a `_` followed by a digit. */
  predicate DigitOrSeparator(b: string, i: nat)
    requires i < |b|
  {
    IsDigit(b[i]) || (b[i] == '_' && i + 1 < |b| && IsDigit(b[i + 1]))
  }

  /** Drops the `_` separators. */
  function Unseparated(b: string): (r: string)
    ensures (forall i :: 0 <= i < |b| ==> IsDigit(b[i]) || b[i] == '_') ==> AllDigits(r)
    ensures AllDigits(b) ==> r == b
  {
    if b == [] then []
    else (if b[0] == '_' then [] else [b[0]]) + Unseparated(b[1..])
  }

  /** Dropping separators works character by character: it distributes over
      concatenation ... */
  lemma {:induction false} UnseparatedAppend(a: string, b: string)
    ensures Unseparated(a + b) == Unseparated(a) + Unseparated(b)
  {
    if a == [] {
      assert a + b == b;
    } else {
      var c, t := a[0], a[1..];
      assert a == [c] + t;
      assert a + b == [c] + (t + b);
      UnseparatedAppend(t, b);
      UnseparatedCons(c, t);
      UnseparatedCons(c, t + b);
      var head := if c == '_' then [] else [c];
      AppendAssociative(head, Unseparated(t), Unseparated(b));
    }
  }

  lemma AppendAssociative<T>(x: seq<T>, y: seq<T>, z: seq<T>)
    ensures x + (y + z) == (x + y) + z
  {
  }

  lemma UnseparatedCons(c: char, t: string)
    ensures Unseparated([c] + t) == (if c == '_' then [] else [c]) + Unseparated(t)
  {
    assert ([c] + t)[0] == c && ([c] + t)[1..] == t;
  }

  /** ... drops a lone `_` and keeps any other character. */
  lemma UnseparatedChar(c: char)
    ensures Unseparated([c]) == if c == '_' then [] else [c]
  {
  }

  lemma DigitRunChars(b: string)
    requires IsDigitRun(b)
    ensures forall i :: 0 <= i < |b| ==> IsDigit(b[i]) || b[i] == '_'
  {
    forall i | 0 <= i < |b| ensures IsDigit(b[i]) || b[i] == '_' {
      assert DigitOrSeparator(b, i);
    }
  }

  function ParseDigitRun(b: string): Option<nat>
  {
    if IsDigitRun(b) then
      DigitRunChars(b);
      Some(DigitsValue(Unseparated(b)))
    else None
  }

  /** `int(s)` in base 10: surrounding whitespace, an optional sign, then a
      digit run; `None` stands for the `ValueError` Python raises. */
  function ParseInt(s: string): Option<int>
  {
    ParseSigned(Strip(s))
  }

  /** A literal without surrounding whitespace: an optional sign, then a
      digit run. */
  function ParseSigned(t: string): Option<int>
  {
    if |t| > 0 && (t[0] == '-' || t[0] == '+') then
      match ParseDigitRun(t[1..])
      case None => None
      case Some(v) => Some(if t[0] == '-' then -(v as int) else v as int)
    else
      ParseDigitRun(t)
  }

  lemma StripNoSpace(s: string)
    requires |s| > 0 && !IsSpace(s[0]) && !IsSpace(s[|s| - 1])
    ensures Strip(s) == s
  {
  }

  /** A plain digit string is a digit run, and parses to its value. */
  lemma ParseDigits(d: string)
    requires |d| > 0 && AllDigits(d)
    ensures ParseDigitRun(d) == Some(DigitsValue(d))
  {
    assert IsDigitRun(d) by {
      forall i | 0 <= i < |d| ensures DigitOrSeparator(d, i) {
        assert IsDigit(d[i]);
      }
    }
  }

  /** `int()` of an unsigned digit string is its value. */
  lemma ParseUnsigned(d: string)
    requires |d| > 0 && AllDigits(d)
    ensures ParseInt(d) == Some(DigitsValue(d))
  {
    StripNoSpace(d);
    ParseDigits(d);
  }

  /** A stripped literal `-` followed by a digit run parses to minus the
      run's value. */
  lemma ParseMinus(t: string, v: nat)
    requires |t| > 0 && t[0] == '-' && ParseDigitRun(t[1..]) == Some(v)
    ensures ParseSigned(t) == Some(-(v as int))
  {
  }

  /** `int()` of `-` followed by a digit string is minus its value. */
  lemma ParseNegative(s: string, d: string, v: nat)
    requires |d| > 0 && AllDigits(d) && DigitsValue(d) == v && s == "-" + d
    ensures ParseInt(s) == Some(-(v as int))
  {
    assert s[0] == '-' && s[|s| - 1] == d[|d| - 1] && s[1..] == d;
    StripNoSpace(s);
    ParseDigits(d);
    ParseMinus(s, v);
  }

  /** The zero-padded decimal digits of `n`: a non-empty digit string worth
      `n`. */
  lemma PaddedDigits(n: nat, width: nat) returns (d: string)
    ensures d == ZeroPad(Decimal(n), width)
    ensures |d| > 0 && AllDigits(d) && DigitsValue(d) == n
  {
    d := ZeroPad(Decimal(n), width);
    ZeroPadDecimal(n, width);
    assert |d| >= |Decimal(n)| >= 1;
  }

  /** `int()` reads back a non-negative integer, which prints as a digit
      string worth it ... */
  lemma ParseFormatNonNegative(n: nat, width: nat)
    ensures ParseInt(FormatInt(n, width)) == Some(n)
  {
    var d := PaddedDigits(n, width);
    ParseUnsigned(d);
  }

  /** ... and a negative one, which prints as `-` and a digit string worth
      its magnitude. */
  lemma ParseFormatNegative(n: int, width: nat)
    requires n < 0
    ensures ParseInt(FormatInt(n, width)) == Some(n)
  {
    var d := PaddedDigits(-n, if width > 0 then width - 1 else 0);
    ParseNegative(FormatInt(n, width), d, -n);
  }

  /** Round trip: `int(f"{n:0<width>d}") == n` for every integer and width. */
  lemma ParseFormatInt(n: int, width: nat)
    ensures ParseInt(FormatInt(n, width)) == Some(n)
  {
    if n >= 0 {
      ParseFormatNonNegative(n, width);
    } else {
      ParseFormatNegative(n, width);
    }
  }

  /** Distinct integers never print the same, at any width. */
  lemma FormatIntInjective(m: int, n: int, width: nat)
    requires FormatInt(m, width) == FormatInt(n, width)
    ensures m == n
  {
    ParseFormatInt(m, width);
    ParseFormatInt(n, width);
  }

  // ---------------------------------------------------------------------------
  // str.split, startswith, endswith, `in`

  /** `s.split(sep)` for a one-character separator. */
  function Split(s: string, sep: char): (parts: seq<string>)
    ensures |parts| >= 1
    ensures forall p :: p in parts ==> sep !in p
  {
    if s == [] then [[]]
    else
      var rest := Split(s[1..], sep);
      if s[0] == sep then [[]] + rest else [[s[0]] + rest[0]] + rest[1..]
  }

  /** `sep.join(parts)`. */
  function JoinWith(parts: seq<string>, sep: char): string
    requires |parts| >= 1
  {
    if |parts| == 1 then parts[0] else parts[0] + [sep] + JoinWith(parts[1..], sep)
  }

  /** Splitting and joining again gives back the original string. */
  lemma {:induction false} SplitJoin(s: string, sep: char)
    ensures JoinWith(Split(s, sep), sep) == s
  {
    if s != [] {
      SplitJoin(s[1..], sep);
      var rest := Split(s[1..], sep);
      if s[0] != sep {
        if |rest| == 1 {
          assert [s[0]] + rest[0] == s;
        } else {
          var tail := [[s[0]] + rest[0]] + rest[1..];
          assert tail[1..] == rest[1..];
          assert [s[0]] + rest[0] + [sep] + JoinWith(rest[1..], sep) == s;
        }
      } else {
        assert ([[]] + rest)[1..] == rest;
      }
    }
  }

  /** A field free of the separator, then the separator: the field comes out
      first and the split goes on with what follows. */
  lemma {:induction false} SplitField(a: string, sep: char, b: string)
    requires sep !in a
    ensures Split(a + [sep] + b, sep) == [a] + Split(b, sep)
  {
    if a != [] {
      assert (a + [sep] + b)[1..] == a[1..] + [sep] + b;
      SplitField(a[1..], sep, b);
      assert [a[0]] + a[1..] == a;
    } else {
      assert (a + [sep] + b)[1..] == b;
    }
  }

  predicate StartsWith(s: string, prefix: string)
  {
    |prefix| <= |s| && s[..|prefix|] == prefix
  }

  predicate EndsWith(s: string, suffix: string)
  {
    |suffix| <= |s| && s[|s| - |suffix|..] == suffix
  }

  lemma PrefixOfConcat(a: string, b: string)
    ensures StartsWith(a + b, a)
  {
    assert (a + b)[..|a|] == a;
  }

  lemma SuffixOfConcat(a: string, b: string)
    ensures EndsWith(a + b, b)
  {
    assert (a + b)[|a + b| - |b|..] == b;
  }

  lemma PrefixExtends(s: string, prefix: string, t: string)
    requires StartsWith(s, prefix)
    ensures StartsWith(s + t, prefix)
  {
    assert (s + t)[..|prefix|] == s[..|prefix|];
  }

  /** Of two suffixes of equal length, a string ending with one ends with
      no other. */
  lemma SuffixOfEqualLength(s: string, t: string, w: string)
    requires |t| == |w| && t != w
    ensures !EndsWith(s + t, w)
  {
    assert (s + t)[|s + t| - |w|..] == t;
  }

  /** Python's `needle in s` for strings. */
  predicate Contains(s: string, needle: string)
    decreases |s|
  {
    StartsWith(s, needle) || (|s| > 0 && Contains(s[1..], needle))
  }

  /** `needle` occurs in `s` starting at position `i`. */
  predicate OccursAt(s: string, needle: string, i: nat)
  {
    i + |needle| <= |s| && s[i..i + |needle|] == needle
  }

  /** `needle in s` holds exactly when `needle` occurs at some position. */
  lemma ContainsIff(s: string, needle: string)
    ensures Contains(s, needle) <==> exists i: nat :: OccursAt(s, needle, i)
  {
    if exists i: nat :: OccursAt(s, needle, i) {
      var i: nat :| OccursAt(s, needle, i);
      ContainsAt(s, needle, i);
    }
    if Contains(s, needle) {
      var i := ContainsWitness(s, needle);
    }
  }

  /** A position where `needle` occurs, when `needle in s`. */
  lemma {:induction false} ContainsWitness(s: string, needle: string) returns (i: nat)
    requires Contains(s, needle)
    ensures OccursAt(s, needle, i)
    decreases |s|
  {
    if StartsWith(s, needle) {
      i := 0;
    } else {
      var j := ContainsWitness(s[1..], needle);
      assert s[1..][j..j + |needle|] == s[j + 1..j + 1 + |needle|];
      i := j + 1;
    }
  }

  lemma {:induction false} ContainsAt(s: string, needle: string, i: nat)
    requires i + |needle| <= |s| && s[i..i + |needle|] == needle
    ensures Contains(s, needle)
    decreases i
  {
    if i > 0 {
      assert s[1..][i - 1..i - 1 + |needle|] == needle;
      ContainsAt(s[1..], needle, i - 1);
    }
  }

  lemma EndsWithContains(s: string, suffix: string)
    requires EndsWith(s, suffix)
    ensures Contains(s, suffix)
  {
    ContainsAt(s, suffix, |s| - |suffix|);
  }

  // ---------------------------------------------------------------------------
  // str.lower, os.path.join

  function LowerChar(c: char): char
  {
    if 'A' <= c <= 'Z' then (c as int + 32) as char else c
  }

  /** `s.lower()` over ASCII letters. */
  function Lower(s: string): (r: string)
    ensures |r| == |s|
  {
    seq(|s|, i requires 0 <= i < |s| => LowerChar(s[i]))
  }

  /** `os.path.join(a, b)` for a relative `b` and an `a` without a trailing
      separator. */
  function PathJoin(a: string, b: string): string
  {
    a + "/" + b
  }
}
