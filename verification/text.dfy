/**
 String operations with the meaning the JavaScript and Python sources give them:
 `startsWith`, `includes`, `split(t).join(r)`, `toLowerCase`, `trim`, and the
 decimal rendering of integers.
 */
module Text {

  predicate IsDigit(c: char) {
    '0' <= c <= '9'
  }

  predicate AllDigits(s: string) {
    forall i :: 0 <= i < |s| ==> IsDigit(s[i])
  }

  lemma AllDigitsAppend(a: string, b: string)
    requires AllDigits(a) && AllDigits(b)
    ensures AllDigits(a + b)
  {
    assert forall i :: |a| <= i < |a + b| ==> (a + b)[i] == b[i - |a|];
  }

  /** `s.startsWith(p)` */
  predicate StartsWith(s: string, p: string) {
    |p| <= |s| && s[..|p|] == p
  }

  /** `s.includes(t)`: some suffix of `s` starts with `t`. */
  predicate Contains(s: string, t: string)
    decreases |s|
  {
    StartsWith(s, t) || (|s| > 0 && Contains(s[1..], t))
  }

  /** `s.replace(/[^0-9]/g, '')`: the digits of `s`, in order. */
  function KeepDigits(s: string): (r: string)
    ensures AllDigits(r)
    ensures |r| <= |s|
    ensures AllDigits(s) ==> r == s
  {
    if s == [] then []
    else if IsDigit(s[0]) then [s[0]] + KeepDigits(s[1..])
    else KeepDigits(s[1..])
  }

  /** Dropping the non-digits of a concatenation drops them from each part. */
  lemma {:induction false} KeepDigitsAppend(a: string, b: string)
    ensures KeepDigits(a + b) == KeepDigits(a) + KeepDigits(b)
  {
    if a != [] {
      assert (a + b)[0] == a[0];
      assert (a + b)[1..] == a[1..] + b;
      KeepDigitsAppend(a[1..], b);
    } else {
      assert a + b == b;
    }
  }

  lemma KeepDigitsSkip(c: char, s: string)
    requires !IsDigit(c)
    ensures KeepDigits([c] + s) == KeepDigits(s)
  {
    assert ([c] + s)[1..] == s;
  }

  /** `s.split(t).join(r)` for a non-empty separator: every occurrence of `t`,
      scanning left to right without overlap, becomes `r`. */
  function ReplaceAll(s: string, t: string, r: string): (res: string)
    requires |t| > 0
    ensures Occurrences(s, t) == 0 ==> res == s
    ensures StartsWith(s, t) ==> StartsWith(res, r)
    ensures !StartsWith(s, t) && |s| > 0 ==> |res| > 0 && res[0] == s[0]
    decreases |s|
  {
    if |s| < |t| then s
    else if s[..|t|] == t then r + ReplaceAll(s[|t|..], t, r)
    else [s[0]] + ReplaceAll(s[1..], t, r)
  }

  /** Number of occurrences `ReplaceAll` rewrites. */
  function Occurrences(s: string, t: string): nat
    requires |t| > 0
    decreases |s|
  {
    if |s| < |t| then 0
    else if s[..|t|] == t then 1 + Occurrences(s[|t|..], t)
    else Occurrences(s[1..], t)
  }

  /** Replacing a separator that does not occur leaves the text unchanged. */
  lemma {:induction false} ReplaceAllAbsent(s: string, t: string, r: string)
    requires |t| > 0
    requires !Contains(s, t)
    ensures ReplaceAll(s, t, r) == s
    decreases |s|
  {
    if |s| >= |t| {
      assert s[..|t|] != t;
      ReplaceAllAbsent(s[1..], t, r);
      assert [s[0]] + s[1..] == s;
    }
  }

  /** Replacing a separator by itself is the identity. */
  lemma {:induction false} ReplaceAllSelf(s: string, t: string)
    requires |t| > 0
    ensures ReplaceAll(s, t, t) == s
    decreases |s|
  {
    if |s| >= |t| {
      if s[..|t|] == t {
        ReplaceAllSelf(s[|t|..], t);
        assert s[..|t|] + s[|t|..] == s;
      } else {
        ReplaceAllSelf(s[1..], t);
        assert [s[0]] + s[1..] == s;
      }
    }
  }

  /** Each rewritten occurrence trades `|t|` characters for `|r|`. */
  lemma {:induction false} ReplaceAllLength(s: string, t: string, r: string)
    requires |t| > 0
    ensures |ReplaceAll(s, t, r)| == |s| + Occurrences(s, t) * (|r| - |t|)
    decreases |s|
  {
    if |s| >= |t| {
      if s[..|t|] == t {
        var tail := s[|t|..];
        ReplaceAllLength(tail, t, r);
        LengthStep(|s|, |t|, |r|, Occurrences(tail, t), |ReplaceAll(tail, t, r)|);
      } else {
        ReplaceAllLength(s[1..], t, r);
      }
    }
  }

  /** The arithmetic of one rewritten occurrence. */
  lemma LengthStep(n: int, lt: int, lr: int, k: int, rest: int)
    requires rest == (n - lt) + k * (lr - lt)
    ensures lr + rest == n + (1 + k) * (lr - lt)
  {
    assert (1 + k) * (lr - lt) == (lr - lt) + k * (lr - lt);
  }

  /** The separator is rewritten at least once exactly when it occurs. */
  lemma {:induction false} OccurrencesIffContains(s: string, t: string)
    requires |t| > 0
    ensures Occurrences(s, t) > 0 <==> Contains(s, t)
    decreases |s|
  {
    if |s| < |t| {
      ShortNotContains(s, t);
    } else if s[..|t|] != t {
      OccurrencesIffContains(s[1..], t);
    }
  }

  /** A text without the first character of `t` does not contain `t`. */
  lemma {:induction false} MissingFirstNotContains(s: string, t: string)
    requires |t| > 0
    requires forall i :: 0 <= i < |s| ==> s[i] != t[0]
    ensures !Contains(s, t)
    decreases |s|
  {
    if |s| > 0 {
      if |t| <= |s| {
        assert s[..|t|][0] != t[0];
      }
      MissingFirstNotContains(s[1..], t);
    }
  }

  lemma {:induction false} ShortNotContains(s: string, t: string)
    requires |s| < |t|
    ensures !Contains(s, t)
    decreases |s|
  {
    if |s| > 0 {
      ShortNotContains(s[1..], t);
    }
  }

  /** `toLowerCase` on one character, for ASCII and the Latin-1 letters. */
  function LowerChar(c: char): char {
    if 'A' <= c <= 'Z' || ('\U{C0}' <= c <= '\U{DE}' && c != '\U{D7}') then
      (c as int + 32) as char
    else
      c
  }

  function Lower(s: string): (r: string)
    ensures |r| == |s|
    ensures forall i :: 0 <= i < |s| ==> r[i] == LowerChar(s[i])
  {
    seq(|s|, i requires 0 <= i < |s| => LowerChar(s[i]))
  }

  /** The characters JavaScript's `trim` removes: WhiteSpace and LineTerminator
      of section 12.2 and 12.3 of ECMA-262. */
  predicate IsSpace(c: char) {
    c in SpaceChars || '\U{2000}' <= c <= '\U{200A}'
  }

  const SpaceChars: set<char> := {
    '\t', '\n', '\U{B}', '\U{C}', '\r', ' ', '\U{A0}', '\U{1680}',
    '\U{2028}', '\U{2029}', '\U{202F}', '\U{205F}', '\U{3000}', '\U{FEFF}'
  }

  /** `trimStart`: drops exactly the leading white space. */
  function TrimStart(s: string): (r: string)
    ensures |r| <= |s| && r == s[|s| - |r|..]
    ensures forall i :: 0 <= i < |s| - |r| ==> IsSpace(s[i])
    ensures |r| > 0 ==> !IsSpace(r[0])
  {
    if |s| > 0 && IsSpace(s[0]) then TrimStart(s[1..]) else s
  }

  /** `trimEnd`: drops exactly the trailing white space. */
  function TrimEnd(s: string): (r: string)
    ensures |r| <= |s| && r == s[..|r|]
    ensures forall i :: |r| <= i < |s| ==> IsSpace(s[i])
    ensures |r| > 0 ==> !IsSpace(r[|r| - 1])
  {
    if |s| > 0 && IsSpace(s[|s| - 1]) then TrimEnd(s[..|s| - 1]) else s
  }

  /** `trim`: the longest slice of `s` with no white space at either end;
      everything cut away on both sides is white space. */
  function Trim(s: string): (r: string)
    ensures |r| <= |s|
    ensures exists p :: CutAt(s, r, p)
    ensures |r| > 0 ==> !IsSpace(r[0]) && !IsSpace(r[|r| - 1])
  {
    var t := TrimStart(s);
    var p := |s| - |t|;
    var r := TrimEnd(t);
    assert t == s[p..];
    assert r == s[p..p + |r|];
    assert CutAt(s, r, p);
    r
  }

  /** Trimming leaves nothing exactly when the text is all white space. */
  lemma TrimEmpty(s: string)
    ensures Trim(s) == "" <==> forall i :: 0 <= i < |s| ==> IsSpace(s[i])
  {
    var r := Trim(s);
    var p :| CutAt(s, r, p);
    if r != "" {
      assert s[p] == r[0];
    }
  }

  /** `r` is the slice of `s` starting at `p`, and only white space lies
      around it. */
  predicate CutAt(s: string, r: string, p: int) {
    && 0 <= p <= |s| - |r| && r == s[p..p + |r|]
    && (forall i :: 0 <= i < p ==> IsSpace(s[i]))
    && (forall i :: p + |r| <= i < |s| ==> IsSpace(s[i]))
  }

  function DigitChar(d: nat): (c: char)
    requires d < 10
    ensures IsDigit(c)
  {
    ('0' as int + d) as char
  }

  /** The value of a string of decimal digits. */
  function DigitsValue(s: string): nat
    requires AllDigits(s)
  {
    if s == [] then 0
    else DigitsValue(s[..|s| - 1]) * 10 + (s[|s| - 1] as int - '0' as int)
  }

  /** `n.toString()` for a non-negative integer: decimal, no leading zero. */
  function NatToString(n: nat): (r: string)
    ensures |r| >= 1 && AllDigits(r)
    ensures |r| > 1 ==> r[0] != '0'
  {
    if n < 10 then [DigitChar(n)] else NatToString(n / 10) + [DigitChar(n % 10)]
  }

  /** Decimal rendering and reading back are inverse. */
  lemma {:induction false} NatToStringRoundTrip(n: nat)
    ensures DigitsValue(NatToString(n)) == n
  {
    if n >= 10 {
      var s := NatToString(n);
      assert s[..|s| - 1] == NatToString(n / 10);
      NatToStringRoundTrip(n / 10);
    }
  }

  /** `String(n)` for an integer-valued JavaScript number. */
  function IntToString(n: int): string {
    if n < 0 then "-" + NatToString(-n) else NatToString(n)
  }
}
