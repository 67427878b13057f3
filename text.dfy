/**
 * The string operations of the JavaScript runtime that the routes rely on:
 * String.prototype.trim, toLowerCase (ASCII letters only), split on one
 * character, Number() applied to a string, and the binary (code point) order
 * in which the database compares strings when it sorts.
 */
module Text {
  import opened Wrappers

  /** ECMAScript WhiteSpace and LineTerminator code points: what trim() removes. */
  predicate IsWhitespace(c: char) {
    || c == '\U{9}' || c == '\U{A}' || c == '\U{B}' || c == '\U{C}' || c == '\U{D}'
    || c == ' ' || c == '\U{A0}' || c == '\U{1680}'
    || ('\U{2000}' <= c <= '\U{200A}')
    || c == '\U{2028}' || c == '\U{2029}' || c == '\U{202F}' || c == '\U{205F}'
    || c == '\U{3000}' || c == '\U{FEFF}'
  }

  /** Drops the leading whitespace of `s`: what is left is a suffix of `s`
      that does not start with whitespace, and only whitespace was dropped. */
  function TrimStart(s: string): (r: string)
    ensures |r| <= |s| && r == s[|s| - |r|..]
    ensures forall i :: 0 <= i < |s| - |r| ==> IsWhitespace(s[i])
    ensures r != [] ==> !IsWhitespace(r[0])
    decreases |s|
  {
    if s != [] && IsWhitespace(s[0]) then TrimStart(s[1..]) else s
  }

  /** Drops the trailing whitespace of `s`: what is left is a prefix of `s`
      that does not end with whitespace, and only whitespace was dropped. */
  function TrimEnd(s: string): (r: string)
    ensures |r| <= |s| && r == s[..|r|]
    ensures forall i :: |r| <= i < |s| ==> IsWhitespace(s[i])
    ensures r != [] ==> !IsWhitespace(r[|r| - 1])
    decreases |s|
  {
    if s != [] && IsWhitespace(s[|s| - 1]) then TrimEnd(s[..|s| - 1]) else s
  }

  /** Neither end of `s` is whitespace. */
  predicate IsTrimmed(s: string) {
    s != [] ==> !IsWhitespace(s[0]) && !IsWhitespace(s[|s| - 1])
  }

  /** String.prototype.trim. */
  function Trim(s: string): (r: string)
    ensures |r| <= |s|
    ensures IsTrimmed(r)
  {
    TrimEnd(TrimStart(s))
  }

  /** Trim returns a slice of `s` with only whitespace of `s` outside it;
      with IsTrimmed this determines the result. */
  lemma TrimIsSlice(s: string)
    ensures exists i, j :: && 0 <= i <= j <= |s| && Trim(s) == s[i..j]
                          && (forall k :: 0 <= k < i ==> IsWhitespace(s[k]))
                          && (forall k :: j <= k < |s| ==> IsWhitespace(s[k]))
  {
    var t := TrimStart(s);
    var r := TrimEnd(t);
    var i := |s| - |t|;
    var j := i + |r|;
    assert Trim(s) == s[i..j] by {
      assert t == s[i..];
      assert r == t[..|r|];
    }
    assert forall k :: j <= k < |s| ==> IsWhitespace(s[k]) by {
      forall k | j <= k < |s| ensures IsWhitespace(s[k]) {
        assert s[k] == t[k - i];
      }
    }
  }

  /** Conversely, a slice with trimmed ends and only whitespace outside it is
      what Trim returns. */
  lemma TrimmedSliceIsTrim(s: string, i: int, j: int)
    requires 0 <= i <= j <= |s| && IsTrimmed(s[i..j])
    requires forall k :: 0 <= k < i ==> IsWhitespace(s[k])
    requires forall k :: j <= k < |s| ==> IsWhitespace(s[k])
    ensures Trim(s) == s[i..j]
  {
    if i == j {
      assert forall k :: 0 <= k < |s| ==> IsWhitespace(s[k]) by {
        forall k | 0 <= k < |s| ensures IsWhitespace(s[k]) {
          if k >= i {
            assert j <= k;
          }
        }
      }
      BlankIffAllWhitespace(s);
    } else {
      var t := TrimStart(s);
      var p := |s| - |t|;
      assert !IsWhitespace(s[i]) by { assert s[i..j][0] == s[i]; }
      assert p == i;
      var r := TrimEnd(t);
      var q := i + |r|;
      assert !IsWhitespace(s[j - 1]) by { assert s[i..j][j - i - 1] == s[j - 1]; }
      assert t[j - i - 1] == s[j - 1];
      assert q == j;
      assert r == s[i..j];
    }
  }

  /** A string is blank when trimming leaves nothing (`!s.trim()` in the routes). */
  predicate IsBlank(s: string) {
    Trim(s) == []
  }

  lemma TrimmedIsFixed(t: string)
    requires IsTrimmed(t)
    ensures Trim(t) == t
  {
  }

  /** Trimming twice is trimming once (the route trims and so does the schema). */
  lemma TrimIdempotent(s: string)
    ensures Trim(Trim(s)) == Trim(s)
  {
    TrimmedIsFixed(Trim(s));
  }

  /** A string is blank exactly when every one of its characters is whitespace. */
  lemma BlankIffAllWhitespace(s: string)
    ensures IsBlank(s) <==> forall i :: 0 <= i < |s| ==> IsWhitespace(s[i])
  {
  }

  function LowerChar(c: char): char {
    if 'A' <= c <= 'Z' then (c as int + 32) as char else c
  }

  /** toLowerCase restricted to the ASCII letters A-Z. */
  function ToLowerAscii(s: string): (r: string)
    ensures |r| == |s|
    ensures forall i :: 0 <= i < |s| ==> r[i] == LowerChar(s[i])
    decreases |s|
  {
    if s == [] then [] else [LowerChar(s[0])] + ToLowerAscii(s[1..])
  }

  lemma LowerCharKeepsWhitespace(c: char)
    ensures IsWhitespace(LowerChar(c)) == IsWhitespace(c)
  {
  }

  lemma ToLowerIdempotent(s: string)
    ensures ToLowerAscii(ToLowerAscii(s)) == ToLowerAscii(s)
  {
  }

  lemma {:induction false} LowerCommutesWithTrimStart(s: string)
    ensures TrimStart(ToLowerAscii(s)) == ToLowerAscii(TrimStart(s))
    decreases |s|
  {
    var l := ToLowerAscii(s);
    if s != [] {
      LowerCharKeepsWhitespace(s[0]);
      if IsWhitespace(s[0]) {
        assert l[1..] == ToLowerAscii(s[1..]);
        LowerCommutesWithTrimStart(s[1..]);
      }
    }
  }

  lemma {:induction false} LowerCommutesWithTrimEnd(s: string)
    ensures TrimEnd(ToLowerAscii(s)) == ToLowerAscii(TrimEnd(s))
    decreases |s|
  {
    var l := ToLowerAscii(s);
    if s != [] {
      LowerCharKeepsWhitespace(s[|s| - 1]);
      if IsWhitespace(s[|s| - 1]) {
        assert l[..|s| - 1] == ToLowerAscii(s[..|s| - 1]);
        LowerCommutesWithTrimEnd(s[..|s| - 1]);
      }
    }
  }

  /** Lowercasing changes no whitespace, so it commutes with trimming. */
  lemma LowerCommutesWithTrim(s: string)
    ensures Trim(ToLowerAscii(s)) == ToLowerAscii(Trim(s))
  {
    LowerCommutesWithTrimStart(s);
    LowerCommutesWithTrimEnd(TrimStart(s));
  }

  /** `email.trim().toLowerCase()` in routes/auth.js. */
  function NormalizeEmail(s: string): string {
    ToLowerAscii(Trim(s))
  }

  /** An address as NormalizeEmail leaves it: trimmed, with no upper-case
      ASCII letter. */
  predicate IsNormalizedEmail(s: string) {
    IsTrimmed(s) && forall i :: 0 <= i < |s| ==> !('A' <= s[i] <= 'Z')
  }

  /** NormalizeEmail leaves a normalized address, and leaves a normalized
      address as it is. */
  lemma NormalizeEmailNormalizes(s: string)
    ensures IsNormalizedEmail(NormalizeEmail(s))
    ensures IsNormalizedEmail(s) ==> NormalizeEmail(s) == s
  {
    var t := Trim(s);
    var l := ToLowerAscii(t);
    if t != [] {
      LowerCharKeepsWhitespace(t[0]);
      LowerCharKeepsWhitespace(t[|t| - 1]);
    }
    forall i | 0 <= i < |l| ensures !('A' <= l[i] <= 'Z') {
      LowerCharIsNotUpper(t[i]);
    }
    if IsNormalizedEmail(s) {
      TrimmedIsFixed(s);
      LowerOfNoUpper(s);
    }
  }

  lemma LowerCharIsNotUpper(c: char)
    ensures !('A' <= LowerChar(c) <= 'Z')
  {
  }

  /** Lowercasing a string without upper-case ASCII letters changes nothing. */
  lemma LowerOfNoUpper(s: string)
    requires forall i :: 0 <= i < |s| ==> !('A' <= s[i] <= 'Z')
    ensures ToLowerAscii(s) == s
  {
    var l := ToLowerAscii(s);
    assert |l| == |s|;
    forall i | 0 <= i < |s| ensures l[i] == s[i] {
    }
  }

  /** Normalizing an already normalized address changes nothing, so a stored
      address is found again by the same normalization. */
  lemma NormalizeEmailIdempotent(s: string)
    ensures NormalizeEmail(NormalizeEmail(s)) == NormalizeEmail(s)
  {
    LowerCommutesWithTrim(Trim(s));
    TrimIdempotent(s);
    ToLowerIdempotent(Trim(s));
  }

  /** A normalized address is empty exactly when the input was blank. */
  lemma NormalizeEmailEmptyIffBlank(s: string)
    ensures NormalizeEmail(s) == [] <==> IsBlank(s)
  {
  }

  /** Strict lexicographic order on code points (the database's binary
      string order; UTF-8 byte order agrees with code point order). */
  predicate LexLess(a: string, b: string)
    decreases |a|
  {
    |b| > 0 && (|a| == 0 || a[0] < b[0] || (a[0] == b[0] && LexLess(a[1..], b[1..])))
  }

  lemma {:induction false} LexLessIrreflexive(a: string)
    ensures !LexLess(a, a)
    decreases |a|
  {
    if |a| > 0 {
      LexLessIrreflexive(a[1..]);
    }
  }

  /** `s.split(sep)` with a one-character separator. */
  function Split(s: string, sep: char): (parts: seq<string>)
    ensures |parts| >= 1
    ensures forall i :: 0 <= i < |parts| ==> sep !in parts[i]
    decreases |s|
  {
    if s == [] then [""]
    else
      var rest := Split(s[1..], sep);
      if s[0] == sep then [""] + rest else [[s[0]] + rest[0]] + rest[1..]
  }

  /** `parts.join(sep)`, the inverse of Split. */
  function Join(parts: seq<string>, sep: char): string
    requires |parts| >= 1
    decreases |parts|
  {
    if |parts| == 1 then parts[0] else parts[0] + [sep] + Join(parts[1..], sep)
  }

  /** Joining the pieces of a split gives back the string. */
  lemma {:induction false} JoinSplit(s: string, sep: char)
    ensures Join(Split(s, sep), sep) == s
    decreases |s|
  {
    if s != [] {
      var rest := Split(s[1..], sep);
      JoinSplit(s[1..], sep);
      if s[0] == sep {
        assert ([""] + rest)[1..] == rest;
      } else {
        var parts := [[s[0]] + rest[0]] + rest[1..];
        if |rest| == 1 {
          assert parts == [[s[0]] + rest[0]];
        } else {
          assert parts[1..] == rest[1..];
          assert Join(rest, sep) == rest[0] + [sep] + Join(rest[1..], sep);
        }
      }
    }
  }

  /** A string without the separator splits into itself alone. */
  lemma {:induction false} SplitWithoutSeparator(a: string, sep: char)
    requires sep !in a
    ensures Split(a, sep) == [a]
    decreases |a|
  {
    if a != [] {
      assert sep !in a[1..] by {
        forall i | 0 <= i < |a[1..]| ensures a[1..][i] != sep {
          assert a[1..][i] == a[i + 1];
        }
      }
      SplitWithoutSeparator(a[1..], sep);
      assert [a[0]] + a[1..] == a;
    }
  }

  /** Splitting `a + sep + b`, where `a` does not hold the separator, gives `a`
      followed by the pieces of `b`. */
  lemma {:induction false} SplitAtSeparator(a: string, b: string, sep: char)
    requires sep !in a
    ensures Split(a + [sep] + b, sep) == [a] + Split(b, sep)
    decreases |a|
  {
    var s := a + [sep] + b;
    if a == [] {
      assert s[1..] == b;
    } else {
      assert s[1..] == a[1..] + [sep] + b;
      assert sep !in a[1..] by {
        forall i | 0 <= i < |a[1..]| ensures a[1..][i] != sep {
          assert a[1..][i] == a[i + 1];
        }
      }
      SplitAtSeparator(a[1..], b, sep);
      assert [a[0]] + a[1..] == a;
    }
  }

  predicate IsDigit(c: char) {
    '0' <= c <= '9'
  }

  predicate AllDigits(s: string) {
    forall i :: 0 <= i < |s| ==> IsDigit(s[i])
  }

  /** The value of a string of decimal digits, most significant first. */
  function DigitsValue(s: string): nat
    requires AllDigits(s)
    decreases |s|
  {
    if s == [] then 0
    else DigitsValue(s[..|s| - 1]) * 10 + (s[|s| - 1] as int - '0' as int)
  }

  /** The shortest decimal rendering of `n`. */
  function Decimal(n: nat): (s: string)
    ensures s != [] && AllDigits(s)
    decreases n
  {
    if n < 10 then [('0' as int + n) as char]
    else Decimal(n / 10) + [('0' as int + n % 10) as char]
  }

  lemma {:induction false} DigitsValueOfDecimal(n: nat)
    ensures DigitsValue(Decimal(n)) == n
    decreases n
  {
    if n >= 10 {
      var s := Decimal(n);
      assert s[..|s| - 1] == Decimal(n / 10);
      DigitsValueOfDecimal(n / 10);
    }
  }

  /** A sign followed by at least one digit. */
  predicate IsSignedDigits(t: string) {
    |t| > 1 && (t[0] == '-' || t[0] == '+') && AllDigits(t[1..])
  }

  /** The (trimmed) strings Number() reads as an integer here: digits, possibly
      none, or a sign and digits; every other string is NaN. */
  predicate IsIntegerLiteral(t: string) {
    AllDigits(t) || IsSignedDigits(t)
  }

  /**
   * `Number(s)` for a string `s`, for the decimal integer literals: surrounding
   * whitespace is ignored, the empty string is 0, an optional sign may precede
   * the digits. None stands for NaN.
   */
  function StringToNumber(s: string): (r: Option<int>)
    ensures r.Some? <==> IsIntegerLiteral(Trim(s))
    ensures AllDigits(Trim(s)) ==> r == Some(DigitsValue(Trim(s)))
    ensures IsSignedDigits(Trim(s)) && !AllDigits(Trim(s)) ==>
              r == Some(if Trim(s)[0] == '-' then -(DigitsValue(Trim(s)[1..]) as int) else DigitsValue(Trim(s)[1..]))
    ensures r.None? ==> !IsBlank(s)
  {
    var t := Trim(s);
    if AllDigits(t) then Some(DigitsValue(t))
    else if IsSignedDigits(t) then
      Some(if t[0] == '-' then -(DigitsValue(t[1..]) as int) else DigitsValue(t[1..]))
    else None
  }

  lemma DigitsAreTrimmed(s: string)
    requires s != [] && AllDigits(s)
    ensures Trim(s) == s
  {
    TrimmedIsFixed(s);
  }

  /** A plus sign and leading zeros are accepted: "+3" is 3 and "-05" is -5. */
  lemma SignedLiterals()
    ensures StringToNumber("+3") == Some(3)
    ensures StringToNumber("-05") == Some(-5)
  {
    TrimmedIsFixed("+3");
    TrimmedIsFixed("-05");
    assert !AllDigits("+3") by { assert !IsDigit("+3"[0]); }
    assert !AllDigits("-05") by { assert !IsDigit("-05"[0]); }
    assert "+3"[1..] == "3" && "-05"[1..] == "05";
    assert "05"[..1] == "0";
  }

  /** Number() reads back what Decimal writes, with or without a minus sign. */
  lemma NumberOfDecimal(n: nat)
    ensures StringToNumber(Decimal(n)) == Some(n)
    ensures StringToNumber("-" + Decimal(n)) == Some(-(n as int))
  {
    var d := Decimal(n);
    DigitsAreTrimmed(d);
    DigitsValueOfDecimal(n);
    var m := "-" + d;
    assert !IsWhitespace(m[0]) && m[|m| - 1] == d[|d| - 1];
    TrimmedIsFixed(m);
    assert !AllDigits(m) by { assert !IsDigit(m[0]); }
    assert m[1..] == d;
  }
}
