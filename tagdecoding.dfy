/** The percent-decoding of the tag in `TagHandler.get` (blog.py:350-352):
    `re.sub('(%25|%)(\d\d)', ...)` replaces, in one left-to-right pass, "%dd"
    or "%25dd" (two decimal digits) by the character whose code is dd read as
    hexadecimal. */
module TagDecoding {
  import opened Text

  /** `chr(string.atoi(hi + lo, 16))` for two decimal digits. */
  function HexPairChar(hi: char, lo: char): (c: char)
    requires IsDigit(hi) && IsDigit(lo)
    ensures c as int == 16 * DigitValue(hi) + DigitValue(lo)
  {
    (16 * DigitValue(hi) + DigitValue(lo)) as char
  }

  /** The first alternative of the pattern matches at the start: "%25dd". */
  predicate LongEscapeAt(s: string) {
    |s| >= 5 && s[0] == '%' && s[1] == '2' && s[2] == '5' && IsDigit(s[3]) && IsDigit(s[4])
  }

  /** The second alternative matches at the start: "%dd". */
  predicate ShortEscapeAt(s: string) {
    |s| >= 3 && s[0] == '%' && IsDigit(s[1]) && IsDigit(s[2])
  }

  /** The decoded tag. The alternation tries "%25" first and falls back to
      "%"; a replacement is never scanned again. The result is never longer
      than the input; `DecodePlainPrefix`, `DecodeLonePercent` and the escape
      lemmas below say what each part of the input becomes. */
  function DecodeTag(s: string): (r: string)
    ensures |r| <= |s|
  {
    if s == [] then []
    else if LongEscapeAt(s) then [HexPairChar(s[3], s[4])] + DecodeTag(s[5..])
    else if ShortEscapeAt(s) then [HexPairChar(s[1], s[2])] + DecodeTag(s[3..])
    else [s[0]] + DecodeTag(s[1..])
  }

  /** The first `n` characters of a string, when none of them is '%', are
      copied as they are, and decoding goes on after them. */
  lemma {:induction false} DecodePlainRun(s: string, n: nat)
    requires n <= |s| && '%' !in s[..n]
    ensures DecodeTag(s) == s[..n] + DecodeTag(s[n..])
  {
    if n > 0 {
      var t, d := s[1..], DecodeTag(s[n..]);
      assert DecodeTag(t) == t[..n - 1] + d by {
        assert '%' !in t[..n - 1] by {
          assert t[..n - 1] == s[..n][1..];
        }
        DecodePlainRun(t, n - 1);
        assert t[n - 1..] == s[n..];
      }
      assert DecodeTag(s) == [s[0]] + DecodeTag(t) by {
        assert s[0] == s[..n][0];
      }
      assert s[..n] == [s[0]] + t[..n - 1];
    }
  }

  /** A '%'-free prefix is copied as it is, and decoding goes on after it. */
  lemma DecodePlainPrefix(x: string, y: string)
    requires '%' !in x
    ensures DecodeTag(x + y) == x + DecodeTag(y)
  {
    var s := x + y;
    assert s[..|x|] == x && s[|x|..] == y;
    DecodePlainRun(s, |x|);
  }

  /** A string without '%' comes back unchanged. */
  lemma DecodeWithoutPercent(s: string)
    requires '%' !in s
    ensures DecodeTag(s) == s
  {
    assert s + [] == s;
    DecodePlainPrefix(s, []);
  }

  /** A '%' not followed by two digits is copied, and decoding goes on after it. */
  lemma DecodeLonePercent(rest: string)
    requires !(|rest| >= 2 && IsDigit(rest[0]) && IsDigit(rest[1]))
    ensures DecodeTag("%" + rest) == "%" + DecodeTag(rest)
  {
    var s := "%" + rest;
    assert s[1..] == rest;
    assert !LongEscapeAt(s) by {
      if |s| >= 5 { assert s[1] == rest[0] && s[2] == rest[1]; }
    }
    assert !ShortEscapeAt(s) by {
      if |s| >= 3 { assert s[1] == rest[0] && s[2] == rest[1]; }
    }
  }

  /** An ordinary escaped tag: "python%20tips" is "python tips". */
  lemma DecodeSpaceInTag()
    ensures DecodeTag("python%20tips") == "python tips"
  {
    var rest := "%" + ['2', '0'] + "tips";
    assert DecodeTag(rest) == " tips" by {
      DecodeShortEscape('2', '0', "tips");
      DecodeWithoutPercent("tips");
      assert HexPairChar('2', '0') == ' ';
    }
    assert "python%20tips" == "python" + rest;
    DecodePlainPrefix("python", rest);
  }

  /** "%25dd" decodes to one character, and decoding goes on after it. */
  lemma DecodeLongEscape(hi: char, lo: char, rest: string)
    requires IsDigit(hi) && IsDigit(lo)
    ensures DecodeTag("%25" + [hi, lo] + rest) == [HexPairChar(hi, lo)] + DecodeTag(rest)
  {
    var long := "%25" + [hi, lo] + rest;
    assert LongEscapeAt(long) && long[3] == hi && long[4] == lo && long[5..] == rest;
  }

  /** "%dd" decodes to one character, and decoding goes on after it, unless
      it is the start of a "%25dd". */
  lemma DecodeShortEscape(hi: char, lo: char, rest: string)
    requires IsDigit(hi) && IsDigit(lo)
    requires !(hi == '2' && lo == '5' && |rest| >= 2 && IsDigit(rest[0]) && IsDigit(rest[1]))
    ensures DecodeTag("%" + [hi, lo] + rest) == [HexPairChar(hi, lo)] + DecodeTag(rest)
  {
    var short := "%" + [hi, lo] + rest;
    assert !LongEscapeAt(short) by {
      if |short| >= 5 { assert short[3] == rest[0] && short[4] == rest[1]; }
    }
    assert ShortEscapeAt(short) && short[1] == hi && short[2] == lo && short[3..] == rest;
  }

  /** The doubly escaped "%25dd" decodes like the singly escaped "%dd",
      unless "%dd" is itself the start of a "%25dd". */
  lemma DoubleEscapeSameAsSingle(hi: char, lo: char, rest: string)
    requires IsDigit(hi) && IsDigit(lo)
    requires !(hi == '2' && lo == '5' && |rest| >= 2 && IsDigit(rest[0]) && IsDigit(rest[1]))
    ensures DecodeTag("%25" + [hi, lo] + rest) == DecodeTag("%" + [hi, lo] + rest)
  {
    DecodeLongEscape(hi, lo, rest);
    DecodeShortEscape(hi, lo, rest);
  }

  /** "%25" not followed by two digits is read as '%' followed by "25", so it
      decodes to '%'. */
  lemma LoneEscapedPercent(rest: string)
    requires !(|rest| >= 2 && IsDigit(rest[0]) && IsDigit(rest[1]))
    ensures DecodeTag("%25" + rest) == "%" + DecodeTag(rest)
  {
    var s := "%25" + rest;
    assert !LongEscapeAt(s);
    assert ShortEscapeAt(s) && s[3..] == rest;
    assert HexPairChar('2', '5') == '%';
  }

  /** The pass is not repeated: "%252541" decodes to "%41", not to "A". */
  lemma SinglePass()
    ensures DecodeTag("%252541") == "%41"
  {
    var s := "%252541";
    assert LongEscapeAt(s) && s[5..] == "41";
    assert HexPairChar('2', '5') == '%';
    assert DecodeTag("41") == "41";
  }

  /** The characters an escape this decoder reads can stand for: both
      hexadecimal digits of the code are decimal digits. */
  predicate Escapable(c: char) {
    c as int < 160 && c as int % 16 < 10
  }

  /** "%" and the two hexadecimal digits of the code of `c`. */
  function Escape(c: char): (r: string)
    requires Escapable(c)
    ensures |r| == 3 && r[0] == '%' && IsDigit(r[1]) && IsDigit(r[2])
  {
    ['%', DigitChar(c as int / 16), DigitChar(c as int % 16)]
  }

  /** A reference percent-encoder: every escapable character (among them
      '%' and the digits) is escaped, every other character is copied. The
      result never starts with a digit. */
  function EncodeTag(t: string): (r: string)
    ensures r == [] || !IsDigit(r[0])
  {
    if t == [] then []
    else if Escapable(t[0]) then Escape(t[0]) + EncodeTag(t[1..])
    else [t[0]] + EncodeTag(t[1..])
  }

  /** An escape followed by something that does not start with a digit
      decodes to the escaped character, and decoding goes on after it. */
  lemma DecodeEscape(c: char, rest: string)
    requires Escapable(c)
    requires rest == [] || !IsDigit(rest[0])
    ensures DecodeTag(Escape(c) + rest) == [c] + DecodeTag(rest)
  {
    var e := Escape(c);
    var s := e + rest;
    assert s[1] == e[1] && s[2] == e[2] && s[3..] == rest;
    assert !LongEscapeAt(s) by {
      if |s| >= 5 { assert s[3] == rest[0]; }
    }
    assert HexPairChar(e[1], e[2]) == c;
  }

  /** Decoding inverts the reference encoder on every string. */
  lemma {:induction false} DecodeEncode(t: string)
    ensures DecodeTag(EncodeTag(t)) == t
  {
    if t != [] {
      var rest := EncodeTag(t[1..]);
      DecodeEncode(t[1..]);
      var s := EncodeTag(t);
      if Escapable(t[0]) {
        DecodeEscape(t[0], rest);
      } else {
        assert t[0] != '%' && !IsDigit(t[0]);
        assert s == [t[0]] + rest && s[1..] == rest;
      }
      assert t == [t[0]] + t[1..];
    }
  }
}
