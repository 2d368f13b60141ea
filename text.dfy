/** Character classes, trimming, case folding, splitting and decimal numerals,
    as Python 2's `str` methods and `re` module treat byte strings. */
module Text {

  /** `\s` of the `re` module without the UNICODE flag; also the set `str.strip()` removes. */
  predicate IsSpace(c: char) {
    c == ' ' || '\t' <= c <= '\r'
  }

  /** `\d` without the UNICODE flag. */
  predicate IsDigit(c: char) {
    '0' <= c <= '9'
  }

  /** `\w` without the LOCALE and UNICODE flags. */
  predicate IsWordChar(c: char) {
    'a' <= c <= 'z' || 'A' <= c <= 'Z' || IsDigit(c) || c == '_'
  }

  predicate AllDigits(s: string) {
    forall i :: 0 <= i < |s| ==> IsDigit(s[i])
  }

  predicate AllWordChars(s: string) {
    forall i :: 0 <= i < |s| ==> IsWordChar(s[i])
  }

  /** `str.lstrip()`: the result is the suffix left after a run of whitespace. */
  function TrimLeft(s: string): (r: string)
    ensures |r| <= |s| && r == s[|s| - |r|..]
    ensures r == [] || !IsSpace(r[0])
    ensures forall i :: 0 <= i < |s| - |r| ==> IsSpace(s[i])
  {
    if s != [] && IsSpace(s[0]) then TrimLeft(s[1..]) else s
  }

  /** `str.rstrip()`: the result is the prefix left before a run of whitespace. */
  function TrimRight(s: string): (r: string)
    ensures |r| <= |s| && r == s[..|r|]
    ensures r == [] || !IsSpace(r[|r| - 1])
    ensures forall i :: |r| <= i < |s| ==> IsSpace(s[i])
  {
    if s != [] && IsSpace(s[|s| - 1]) then TrimRight(s[..|s| - 1]) else s
  }

  /** `str.strip()`: neither end of the result is whitespace, and a string
      that neither starts nor ends with whitespace is returned as it is
      (`StripTrimsEnds` says what is removed). */
  function Strip(s: string): (r: string)
    ensures |r| <= |s|
    ensures r == [] || (!IsSpace(r[0]) && !IsSpace(r[|r| - 1]))
    ensures (s == [] || (!IsSpace(s[0]) && !IsSpace(s[|s| - 1]))) ==> r == s
  {
    TrimRight(TrimLeft(s))
  }

  /** Stripping removes a leading and a trailing run of whitespace and
      nothing else: the result is a slice of the input with only whitespace
      before and after it. */
  lemma StripTrimsEnds(s: string)
    ensures exists i, j ::
              && 0 <= i <= j <= |s| && Strip(s) == s[i..j]
              && (forall k :: 0 <= k < i ==> IsSpace(s[k]))
              && (forall k :: j <= k < |s| ==> IsSpace(s[k]))
  {
    var t := TrimLeft(s);
    var r := TrimRight(t);
    var i := |s| - |t|;
    var j := i + |r|;
    assert Strip(s) == s[i..j] by {
      assert t == s[i..] && r == t[..|r|];
    }
    assert forall k :: 0 <= k < i ==> IsSpace(s[k]);
    assert forall k :: j <= k < |s| ==> IsSpace(s[k]) by {
      forall k | j <= k < |s|
        ensures IsSpace(s[k])
      {
        assert s[k] == t[k - i];
      }
    }
  }

  /** A string of whitespace alone strips to the empty string. */
  lemma StripBlank(s: string)
    requires forall i :: 0 <= i < |s| ==> IsSpace(s[i])
    ensures Strip(s) == []
  {
  }

  /** Stripping never introduces a character. */
  lemma StripAddsNothing(s: string, c: char)
    requires c !in s
    ensures c !in Strip(s)
  {
    var t := TrimLeft(s);
    var r := TrimRight(t);
    forall j | 0 <= j < |r| ensures r[j] != c {
      assert r[j] == t[j] == s[|s| - |t| + j];
    }
  }

  /** `str.lower()` on an ASCII letter. */
  function LowerChar(c: char): (d: char)
    ensures IsWordChar(c) <==> IsWordChar(d)
    ensures !('A' <= d <= 'Z')
  {
    if 'A' <= c <= 'Z' then (c as int + 32) as char else c
  }

  /** `str.lower()`: every character folded, the length kept. */
  function Lower(s: string): (r: string)
    ensures |r| == |s|
    ensures forall i :: 0 <= i < |s| ==> r[i] == LowerChar(s[i])
  {
    if s == [] then [] else [LowerChar(s[0])] + Lower(s[1..])
  }

  /** `a.lower() == b.lower()` */
  predicate SameIgnoringCase(a: string, b: string) {
    Lower(a) == Lower(b)
  }

  /** Folding is idempotent, so a folded string matches itself ignoring case. */
  lemma LowerIdempotent(s: string)
    ensures Lower(Lower(s)) == Lower(s)
    ensures SameIgnoringCase(Lower(s), s)
  {
  }

  /** A string without upper-case letters is its own lower-case form. */
  lemma {:induction false} LowerOfLowercase(s: string)
    requires forall i :: 0 <= i < |s| ==> !('A' <= s[i] <= 'Z')
    ensures Lower(s) == s
  {
    if s != [] {
      LowerOfLowercase(s[1..]);
      assert s == [s[0]] + s[1..];
    }
  }

  /** `s.split(sep)` for a one-character separator: always at least one piece,
      and no piece holds the separator. */
  function Split(s: string, sep: char): (r: seq<string>)
    ensures |r| >= 1
    ensures forall i :: 0 <= i < |r| ==> sep !in r[i]
  {
    if s == [] then [[]]
    else
      var rest := Split(s[1..], sep);
      if s[0] == sep then [[]] + rest else [[s[0]] + rest[0]] + rest[1..]
  }

  /** `sep.join(parts)` */
  function Join(parts: seq<string>, sep: char): string {
    if parts == [] then []
    else if |parts| == 1 then parts[0]
    else parts[0] + [sep] + Join(parts[1..], sep)
  }

  /** A join begins with its first part. */
  lemma {:induction false} JoinStartsWithFirst(parts: seq<string>, sep: char)
    requires |parts| >= 1
    ensures |Join(parts, sep)| >= |parts[0]| && Join(parts, sep)[..|parts[0]|] == parts[0]
  {
    if |parts| > 1 {
      assert Join(parts, sep) == parts[0] + ([sep] + Join(parts[1..], sep));
    }
  }

  /** Joining the pieces of a split gives back the original string. */
  lemma {:induction false} JoinSplit(s: string, sep: char)
    ensures Join(Split(s, sep), sep) == s
  {
    if s != [] {
      var rest := Split(s[1..], sep);
      JoinSplit(s[1..], sep);
      if s[0] == sep {
        assert Split(s, sep) == [[]] + rest;
      } else {
        var r := Split(s, sep);
        assert r == [[s[0]] + rest[0]] + rest[1..];
        if |rest| == 1 {
          assert Join(rest, sep) == rest[0];
        } else {
          assert rest == [rest[0]] + rest[1..];
          assert Join(rest, sep) == rest[0] + [sep] + Join(rest[1..], sep);
          assert r[1..] == rest[1..];
        }
      }
    }
  }

  /** A separator-free prefix sticks to the first piece. */
  lemma {:induction false} SplitPrefix(a: string, b: string, sep: char)
    requires sep !in a
    ensures Split(a + b, sep) == [a + Split(b, sep)[0]] + Split(b, sep)[1..]
  {
    if a != [] {
      var parts := Split(b, sep);
      assert (a + b)[0] == a[0] && (a + b)[1..] == a[1..] + b;
      SplitPrefix(a[1..], b, sep);
      var rest := Split(a[1..] + b, sep);
      assert rest[0] == a[1..] + parts[0] && rest[1..] == parts[1..];
      assert Split(a + b, sep) == [[a[0]] + rest[0]] + rest[1..];
      assert [a[0]] + (a[1..] + parts[0]) == a + parts[0];
    } else {
      var parts := Split(b, sep);
      assert a + b == b;
      assert parts == [parts[0]] + parts[1..];
      assert a + parts[0] == parts[0];
    }
  }

  /** Joining two non-empty lists of parts is joining each and putting a
      separator between the two. */
  lemma {:induction false} JoinAppend(p: seq<string>, q: seq<string>, sep: char)
    requires |p| >= 1 && |q| >= 1
    ensures Join(p + q, sep) == Join(p, sep) + [sep] + Join(q, sep)
  {
    assert (p + q)[0] == p[0] && (p + q)[1..] == p[1..] + q;
    if |p| > 1 {
      JoinAppend(p[1..], q, sep);
    }
  }

  /** Splitting at a separator splits each side on its own. */
  lemma SplitAtSep(a: string, b: string, sep: char)
    ensures Split(a + [sep] + b, sep) == Split(a, sep) + Split(b, sep)
  {
    var p, q := Split(a, sep), Split(b, sep);
    JoinSplit(a, sep);
    JoinSplit(b, sep);
    JoinAppend(p, q, sep);
    assert forall i :: 0 <= i < |p + q| ==> sep !in (p + q)[i] by {
      forall i | 0 <= i < |p + q|
        ensures sep !in (p + q)[i]
      {
        if i < |p| {
          assert (p + q)[i] == p[i];
        } else {
          assert (p + q)[i] == q[i - |p|];
        }
      }
    }
    SplitJoin(p + q, sep);
  }

  /** A string that splits into one piece holds no separator. */
  lemma OnePiece(s: string, sep: char)
    requires |Split(s, sep)| == 1
    ensures Split(s, sep) == [s] && sep !in s
  {
    JoinSplit(s, sep);
  }

  /** Splitting a join of separator-free pieces gives back the pieces. */
  lemma {:induction false} SplitJoin(parts: seq<string>, sep: char)
    requires |parts| >= 1
    requires forall i :: 0 <= i < |parts| ==> sep !in parts[i]
    ensures Split(Join(parts, sep), sep) == parts
  {
    if |parts| == 1 {
      SplitPrefix(parts[0], [], sep);
      assert parts[0] + [] == parts[0];
    } else {
      var tail := Join(parts[1..], sep);
      SplitJoin(parts[1..], sep);
      SplitPrefix(parts[0], [sep] + tail, sep);
      assert parts[0] + [sep] + tail == parts[0] + ([sep] + tail);
      assert ([sep] + tail)[1..] == tail;
      assert Split([sep] + tail, sep) == [[]] + Split(tail, sep);
      assert parts[0] + [] == parts[0];
      assert parts == [parts[0]] + parts[1..];
    }
  }

  function DigitChar(d: nat): (c: char)
    requires d < 10
    ensures IsDigit(c)
  {
    ('0' as int + d) as char
  }

  function DigitValue(c: char): (d: nat)
    requires IsDigit(c)
    ensures d < 10 && DigitChar(d) == c
  {
    c as int - '0' as int
  }

  /** `str(n)` for a natural number: decimal digits without a leading zero. */
  function Decimal(n: nat): (r: string)
    ensures |r| >= 1 && AllDigits(r)
    ensures r[0] == '0' ==> n == 0
    ensures n < 10 <==> |r| == 1
  {
    if n < 10 then [DigitChar(n)] else Decimal(n / 10) + [DigitChar(n % 10)]
  }

  /** The value of a string of decimal digits (`int(s)` for such a string). */
  function ParseDecimal(s: string): nat
    requires AllDigits(s)
  {
    if s == [] then 0 else ParseDecimal(s[..|s| - 1]) * 10 + DigitValue(s[|s| - 1])
  }

  /** Reading back the decimal form of a number gives the number. */
  lemma {:induction false} ParseDecimalOfDecimal(n: nat)
    ensures ParseDecimal(Decimal(n)) == n
  {
    if n >= 10 {
      var s := Decimal(n);
      ParseDecimalOfDecimal(n / 10);
      assert s[..|s| - 1] == Decimal(n / 10);
    }
  }

  /** Two numbers have the same decimal form only if they are equal. */
  lemma DecimalInjective(m: nat, n: nat)
    requires Decimal(m) == Decimal(n)
    ensures m == n
  {
    ParseDecimalOfDecimal(m);
    ParseDecimalOfDecimal(n);
  }

  /** `digits` preceded by as many '0' as it takes to reach `width`. */
  function ZeroPad(digits: string, width: nat): (r: string)
    ensures |r| == if |digits| >= width then |digits| else width
    ensures r[|r| - |digits|..] == digits
    ensures forall i :: 0 <= i < |r| - |digits| ==> r[i] == '0'
  {
    if |digits| >= width then digits else seq(width - |digits|, _ => '0') + digits
  }

  /** A string of '0' characters reads as zero. */
  lemma {:induction false} ParseZeros(k: nat)
    ensures AllDigits(seq(k, _ => '0')) && ParseDecimal(seq(k, _ => '0')) == 0
  {
    if k > 0 {
      ParseZeros(k - 1);
      assert seq(k, _ => '0')[..k - 1] == seq(k - 1, _ => '0');
    }
  }

  /** Leading zeros do not change the value of a digit string. */
  lemma {:induction false} ParseLeadingZeros(k: nat, s: string)
    requires AllDigits(s)
    ensures AllDigits(seq(k, _ => '0') + s)
    ensures ParseDecimal(seq(k, _ => '0') + s) == ParseDecimal(s)
  {
    var z: string := seq(k, _ => '0');
    if s == [] {
      ParseZeros(k);
      assert z + s == z;
    } else {
      ParseLeadingZeros(k, s[..|s| - 1]);
      var t := z + s;
      assert t[..|t| - 1] == z + s[..|s| - 1];
      assert t[|t| - 1] == s[|s| - 1];
    }
  }

  /** Padding a digit string with zeros keeps its value. */
  lemma ZeroPadValue(digits: string, width: nat)
    requires AllDigits(digits)
    ensures AllDigits(ZeroPad(digits, width)) && ParseDecimal(ZeroPad(digits, width)) == ParseDecimal(digits)
  {
    if |digits| < width {
      ParseLeadingZeros(width - |digits|, digits);
    }
  }

  /** `"%0*d" % (width, n)`: at least `width` characters, of which the first
      is '-' exactly for a negative number; the sign counts towards the width,
      and the digits read back as the magnitude of `n`. */
  function FormatZeroPadded(n: int, width: nat): (r: string)
    ensures n >= 0 ==> |r| == if |Decimal(n)| >= width then |Decimal(n)| else width
    ensures n < 0 ==> |r| == if |Decimal(-n)| + 1 >= width then |Decimal(-n)| + 1 else width
    ensures |r| >= 1 && (r[0] == '-' <==> n < 0)
    ensures n >= 0 ==> AllDigits(r) && ParseDecimal(r) == n
    ensures n < 0 ==> AllDigits(r[1..]) && ParseDecimal(r[1..]) == -n
  {
    if n >= 0 then
      ParseDecimalOfDecimal(n);
      ZeroPadValue(Decimal(n), width);
      ZeroPad(Decimal(n), width)
    else
      ParseDecimalOfDecimal(-n);
      ZeroPadValue(Decimal(-n), if width > 0 then width - 1 else 0);
      var r := ['-'] + ZeroPad(Decimal(-n), if width > 0 then width - 1 else 0);
      assert r[1..] == ZeroPad(Decimal(-n), if width > 0 then width - 1 else 0);
      r
  }
}
