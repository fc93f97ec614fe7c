/** Character classes and the small string functions the game relies on:
    the three classes of the tokenizer's regular expression, JavaScript's
    whitespace set, `toLowerCase`, `trim`, and decimal rendering of indices. */
module Chars {

  /** The three alternatives of the tokenizer's regular expression
      `([\p{L}\p{N}_]+)|([^\p{L}\p{N}_\s]+)|(\s+)`. */
  datatype CharClass = WordClass | OtherClass | SpaceClass

  /** JavaScript's `\s`: the WhiteSpace and LineTerminator code points
      (tab, line feed, vertical tab, form feed, carriage return, space,
      no-break space, the Zs separators, line and paragraph separator,
      byte order mark). `String.prototype.trim` strips the same set. */
  predicate IsSpace(c: char) {
    var n := c as int;
    || (0x09 <= n <= 0x0D) || n == 0x20 || n == 0xA0 || n == 0x1680
    || (0x2000 <= n <= 0x200A) || n == 0x2028 || n == 0x2029
    || n == 0x202F || n == 0x205F || n == 0x3000 || n == 0xFEFF
  }

  /** `[\p{L}\p{N}_]`: a Unicode letter, a Unicode number or the underscore.
      Exact for U+0000..U+00FF; above that, every non-space code point outside
      the General Punctuation block U+2000..U+206F counts as word-forming. */
  predicate IsWordChar(c: char) {
    var n := c as int;
    if n < 0x80 then
      ('0' <= c <= '9') || ('A' <= c <= 'Z') || ('a' <= c <= 'z') || c == '_'
    else if n < 0x100 then
      // ª µ º, the superscript digits and vulgar fractions, and the
      // Latin-1 letters except × and ÷
      || n == 0xAA || n == 0xB5 || n == 0xBA
      || n == 0xB2 || n == 0xB3 || n == 0xB9 || (0xBC <= n <= 0xBE)
      || (0xC0 <= n <= 0xFF && n != 0xD7 && n != 0xF7)
    else
      !IsSpace(c) && !(0x2000 <= n <= 0x206F)
  }

  /** The class a character belongs to. The regular expression tries the
      word alternative first, then "neither word nor space", then space. */
  function ClassOf(c: char): (k: CharClass)
    ensures k == WordClass <==> IsWordChar(c)
    ensures k == SpaceClass <==> IsSpace(c) && !IsWordChar(c)
  {
    if IsWordChar(c) then WordClass
    else if IsSpace(c) then SpaceClass
    else OtherClass
  }

  /** No character is both word-forming and whitespace, so the priority
      order of the alternatives never matters. */
  lemma WordAndSpaceDisjoint(c: char)
    ensures !(IsWordChar(c) && IsSpace(c))
    ensures IsSpace(c) <==> ClassOf(c) == SpaceClass
  {
  }

  /** An ASCII or Latin-1 capital letter: `A`..`Z` and U+00C0..U+00DE
      except the multiplication sign U+00D7. */
  predicate IsCapital(c: char) {
    ('A' <= c <= 'Z') || (0xC0 <= c as int <= 0xDE && c as int != 0xD7)
  }

  /** `toLowerCase` on one character: ASCII and Latin-1 capitals map to
      their small letters, everything else is left alone. */
  function LowerChar(c: char): char {
    if IsCapital(c) then (c as int + 0x20) as char else c
  }

  /** Lower-casing changes a character exactly when it is a capital, and
      never yields a capital. */
  lemma LowerCharChanges(c: char)
    ensures LowerChar(c) != c <==> IsCapital(c)
    ensures !IsCapital(LowerChar(c))
  {
  }

  /** `String.prototype.toLowerCase`, character by character. */
  function Lower(s: string): (r: string)
    ensures |r| == |s|
    ensures forall i :: 0 <= i < |s| ==> r[i] == LowerChar(s[i])
  {
    seq(|s|, i requires 0 <= i < |s| => LowerChar(s[i]))
  }

  /** Drops leading whitespace. */
  function TrimStart(s: string): (r: string)
    ensures |r| <= |s| && r == s[|s| - |r|..]
    ensures forall i :: 0 <= i < |s| - |r| ==> IsSpace(s[i])
    ensures |r| > 0 ==> !IsSpace(r[0])
  {
    if |s| > 0 && IsSpace(s[0]) then TrimStart(s[1..]) else s
  }

  /** Drops trailing whitespace. */
  function TrimEnd(s: string): (r: string)
    ensures |r| <= |s| && r == s[..|r|]
    ensures forall i :: |r| <= i < |s| ==> IsSpace(s[i])
    ensures |r| > 0 ==> !IsSpace(r[|r| - 1])
  {
    if |s| > 0 && IsSpace(s[|s| - 1]) then TrimEnd(s[..|s| - 1]) else s
  }

  /** `String.prototype.trim`: whitespace removed at both ends. */
  function Trim(s: string): (r: string)
    ensures |r| <= |s|
    ensures |r| > 0 ==> !IsSpace(r[0]) && !IsSpace(r[|r| - 1])
  {
    TrimEnd(TrimStart(s))
  }

  /** Leading whitespace in front of a string that starts with a
      non-space is exactly what `TrimStart` removes. */
  lemma {:induction false} TrimStartPadded(pre: string, t: string)
    requires forall i :: 0 <= i < |pre| ==> IsSpace(pre[i])
    requires |t| > 0 && !IsSpace(t[0])
    ensures TrimStart(pre + t) == t
    decreases |pre|
  {
    if |pre| > 0 {
      assert (pre + t)[1..] == pre[1..] + t;
      TrimStartPadded(pre[1..], t);
    } else {
      assert pre + t == t;
    }
  }

  /** Trailing whitespace behind a string that ends with a non-space is
      exactly what `TrimEnd` removes. */
  lemma {:induction false} TrimEndPadded(t: string, suf: string)
    requires forall i :: 0 <= i < |suf| ==> IsSpace(suf[i])
    requires |t| > 0 && !IsSpace(t[|t| - 1])
    ensures TrimEnd(t + suf) == t
    decreases |suf|
  {
    if |suf| > 0 {
      var n := |suf| - 1;
      assert (t + suf)[..|t| + n] == t + suf[..n];
      TrimEndPadded(t, suf[..n]);
    } else {
      assert t + suf == t;
    }
  }

  /** Trimming a string padded with whitespace on both sides gives back
      the string, when it neither starts nor ends with whitespace. */
  lemma TrimPadded(pre: string, t: string, suf: string)
    requires forall i :: 0 <= i < |pre| ==> IsSpace(pre[i])
    requires forall i :: 0 <= i < |suf| ==> IsSpace(suf[i])
    requires |t| > 0 && !IsSpace(t[0]) && !IsSpace(t[|t| - 1])
    ensures Trim(pre + t + suf) == t
  {
    assert pre + t + suf == pre + (t + suf);
    TrimStartPadded(pre, t + suf);
    TrimEndPadded(t, suf);
  }

  /** Lower-casing neither makes nor removes whitespace: no whitespace
      character is a capital letter. */
  lemma LowerKeepsSpace(c: char)
    ensures IsSpace(LowerChar(c)) <==> IsSpace(c)
  {
  }

  /** Lower-casing twice is lower-casing once. */
  lemma LowerIdempotent(s: string)
    ensures Lower(Lower(s)) == Lower(s)
  {
  }

  /** Stripping leading whitespace commutes with lower-casing. */
  lemma {:induction false} TrimStartLower(s: string)
    ensures TrimStart(Lower(s)) == Lower(TrimStart(s))
    decreases |s|
  {
    if |s| > 0 {
      LowerKeepsSpace(s[0]);
      if IsSpace(s[0]) {
        assert Lower(s)[1..] == Lower(s[1..]);
        TrimStartLower(s[1..]);
      }
    }
  }

  /** Stripping trailing whitespace commutes with lower-casing. */
  lemma {:induction false} TrimEndLower(s: string)
    ensures TrimEnd(Lower(s)) == Lower(TrimEnd(s))
    decreases |s|
  {
    if |s| > 0 {
      var n := |s| - 1;
      LowerKeepsSpace(s[n]);
      if IsSpace(s[n]) {
        assert Lower(s)[..n] == Lower(s[..n]);
        TrimEndLower(s[..n]);
      }
    }
  }

  /** `trim` and `toLowerCase` may be applied in either order. */
  lemma TrimLower(s: string)
    ensures Trim(Lower(s)) == Lower(Trim(s))
  {
    TrimStartLower(s);
    TrimEndLower(TrimStart(s));
  }

  /** Trimming twice is trimming once. */
  lemma TrimIdempotent(s: string)
    ensures Trim(Trim(s)) == Trim(s)
  {
    var t := Trim(s);
    if |t| > 0 {
      assert [] + t + [] == t;
      TrimPadded([], t, []);
    }
  }

  /** The ASCII digit for `d`. */
  function DigitChar(d: nat): (c: char)
    requires d < 10
    ensures '0' <= c <= '9'
  {
    (0x30 + d) as char
  }

  /** `n.toString()` for a non-negative integer: its decimal digits, most
      significant first, without leading zeros. */
  function NatToString(n: nat): (s: string)
    ensures |s| > 0
    ensures n >= 10 ==> |s| >= 2
    ensures forall i :: 0 <= i < |s| ==> '0' <= s[i] <= '9'
    ensures n > 0 ==> s[0] != '0'
  {
    if n < 10 then [DigitChar(n)]
    else NatToString(n / 10) + [DigitChar(n % 10)]
  }

  /** The value of a string of decimal digits, the inverse of `NatToString`. */
  function DecimalValue(s: string): nat
    requires forall i :: 0 <= i < |s| ==> '0' <= s[i] <= '9'
  {
    if |s| == 0 then 0
    else DecimalValue(s[..|s| - 1]) * 10 + (s[|s| - 1] as int - 0x30)
  }

  /** Reading back the decimal rendering of `n` gives `n`. */
  lemma {:induction false} DecimalRoundTrip(n: nat)
    ensures DecimalValue(NatToString(n)) == n
    decreases n
  {
    if n >= 10 {
      var s := NatToString(n);
      assert s[..|s| - 1] == NatToString(n / 10);
      DecimalRoundTrip(n / 10);
    }
  }

  /** Different numbers render differently. */
  lemma NatToStringInjective(a: nat, b: nat)
    requires NatToString(a) == NatToString(b)
    ensures a == b
  {
    DecimalRoundTrip(a);
    DecimalRoundTrip(b);
  }
}
