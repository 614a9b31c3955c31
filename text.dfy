/** String helpers with the JavaScript semantics the loader relies on:
    `String.prototype.split` on one character, `trim`, `toLowerCase`
    (ASCII letters only), `includes`, and `parseFloat(x) || 0` restricted
    to integers. */
module Text {

  /** The characters `trim` and `parseFloat` skip (WhiteSpace and
      LineTerminator of ECMA-262, Unicode category Zs reduced to U+00A0). */
  predicate IsWhitespace(c: char) {
    c == ' ' || c == '\t' || c == '\n' || c == '\r' || c == '\U{0B}' || c == '\U{0C}'
    || c == '\U{A0}' || c == '\U{FEFF}' || c == '\U{2028}' || c == '\U{2029}'
  }

  predicate AllWhitespace(s: string) {
    forall i :: 0 <= i < |s| ==> IsWhitespace(s[i])
  }

  function TrimStart(s: string): (r: string)
    ensures |r| <= |s| && r == s[|s| - |r|..]
    ensures AllWhitespace(s[..|s| - |r|])
    ensures r == [] || !IsWhitespace(r[0])
  {
    if s != [] && IsWhitespace(s[0]) then
      var tail := s[1..];
      var r := TrimStart(tail);
      assert tail[|tail| - |r|..] == s[|s| - |r|..];
      assert s[..|s| - |r|] == [s[0]] + tail[..|tail| - |r|];
      r
    else s
  }

  function TrimEnd(s: string): (r: string)
    ensures |r| <= |s| && r == s[..|r|]
    ensures AllWhitespace(s[|r|..])
    ensures r == [] || !IsWhitespace(r[|r| - 1])
  {
    if s != [] && IsWhitespace(s[|s| - 1]) then
      var init := s[..|s| - 1];
      var r := TrimEnd(init);
      assert init[..|r|] == s[..|r|];
      assert s[|r|..] == init[|r|..] + [s[|s| - 1]];
      r
    else s
  }

  /** `String.prototype.trim`. */
  function Trim(s: string): (r: string)
    ensures r == [] || (!IsWhitespace(r[0]) && !IsWhitespace(r[|r| - 1]))
  {
    var t := TrimStart(s);
    var r := TrimEnd(t);
    assert r != [] ==> r[0] == t[0];
    r
  }

  /** What `trim` keeps is the middle of the text, and what it cuts at
      either end is white space. */
  lemma TrimMiddle(s: string)
    ensures PaddedBy(s, Trim(s))
  {
    var t := TrimStart(s);
    var r := TrimEnd(t);
    MiddleOf(s, t, r);
  }

  /** `s` is `r` with white space added at either end. */
  predicate PaddedBy(s: string, r: string) {
    exists i :: (0 <= i && i + |r| <= |s| && r == s[i..i + |r|]
                 && AllWhitespace(s[..i]) && AllWhitespace(s[i + |r|..]))
  }

  /** A prefix of a suffix, each cut from white space, is a middle cut from
      white space. */
  lemma MiddleOf(s: string, t: string, r: string)
    requires |t| <= |s| && t == s[|s| - |t|..] && AllWhitespace(s[..|s| - |t|])
    requires |r| <= |t| && r == t[..|r|] && AllWhitespace(t[|r|..])
    ensures PaddedBy(s, r)
  {
    var i := |s| - |t|;
    assert t[..|r|] == s[i..i + |r|];
    assert t[|r|..] == s[i + |r|..];
  }

  /** `trim` gives back the text between white-space padding. */
  lemma TrimPadded(before: string, t: string, after: string)
    requires AllWhitespace(before) && AllWhitespace(after)
    requires t == [] || (!IsWhitespace(t[0]) && !IsWhitespace(t[|t| - 1]))
    ensures Trim(before + t + after) == t
  {
    if t == [] {
      assert before + t + after == before + after;
      BlankIffAllWhitespace(before + after);
    } else {
      assert before + t + after == before + (t + after);
      TrimStartOfPadded(before, t + after);
      TrimEndOfPadded(t, after);
    }
  }

  lemma {:induction false} TrimEndOfPadded(t: string, pad: string)
    requires AllWhitespace(pad)
    requires t == [] || !IsWhitespace(t[|t| - 1])
    ensures TrimEnd(t + pad) == t
  {
    if pad == [] {
      assert t + pad == t;
    } else {
      var init := pad[..|pad| - 1];
      assert (t + pad)[..|t + pad| - 1] == t + init;
      TrimEndOfPadded(t, init);
    }
  }

  /** A line whose `trim()` is the empty (falsy) string. */
  predicate IsBlank(s: string) {
    Trim(s) == []
  }

  lemma BlankIffAllWhitespace(s: string)
    ensures IsBlank(s) <==> AllWhitespace(s)
  {
    var t := TrimStart(s);
    if !AllWhitespace(s) {
      assert t != [] && !IsWhitespace(t[0]);
      assert TrimEnd(t) != [] by {
        assert t[0..] == t;
      }
    }
  }

  /** Number of occurrences of `c` in `s`. */
  function Occurrences(s: string, c: char): nat {
    if s == [] then 0 else (if s[0] == c then 1 else 0) + Occurrences(s[1..], c)
  }

  /** `s.split(sep)` for a one-character separator: there is always one more
      piece than separators, and no piece holds the separator. */
  function Split(s: string, sep: char): (parts: seq<string>)
    ensures |parts| == 1 + Occurrences(s, sep)
    ensures forall i :: 0 <= i < |parts| ==> sep !in parts[i]
  {
    if s == [] then [""]
    else if s[0] == sep then [""] + Split(s[1..], sep)
    else
      var rest := Split(s[1..], sep);
      [[s[0]] + rest[0]] + rest[1..]
  }

  /** `parts.join(sep)`. */
  function Join(parts: seq<string>, sep: string): (r: string)
    ensures parts != [] ==> StartsWith(r, parts[0])
  {
    if parts == [] then ""
    else if |parts| == 1 then parts[0]
    else parts[0] + sep + Join(parts[1..], sep)
  }

  /** Splitting and re-joining on the same character gives the text back. */
  lemma {:induction false} JoinSplit(s: string, sep: char)
    ensures Join(Split(s, sep), [sep]) == s
  {
    if s == [] {
    } else if s[0] == sep {
      JoinSplit(s[1..], sep);
    } else {
      var rest := Split(s[1..], sep);
      JoinSplit(s[1..], sep);
      if |rest| == 1 {
        assert Join(rest, [sep]) == rest[0];
      } else {
        assert Join(rest, [sep]) == rest[0] + [sep] + Join(rest[1..], [sep]);
        assert ([[s[0]] + rest[0]] + rest[1..])[1..] == rest[1..];
      }
    }
  }

  /** Splitting `a + [sep] + b`, where `a` holds no separator, yields `a`
      followed by the pieces of `b`. */
  lemma {:induction false} SplitAfterFirst(a: string, sep: char, b: string)
    requires sep !in a
    ensures Split(a + [sep] + b, sep) == [a] + Split(b, sep)
  {
    if a == [] {
      assert a + [sep] + b == [sep] + b;
      assert ([sep] + b)[1..] == b;
    } else {
      assert (a + [sep] + b)[1..] == a[1..] + [sep] + b;
      SplitAfterFirst(a[1..], sep, b);
      assert [a[0]] + a[1..] == a;
    }
  }

  /** A text without the separator is one piece. */
  lemma {:induction false} SplitNoSeparator(s: string, sep: char)
    requires sep !in s
    ensures Split(s, sep) == [s]
  {
    if s != [] {
      SplitNoSeparator(s[1..], sep);
      assert [s[0]] + s[1..] == s;
    }
  }

  /** Joining pieces that hold no separator, then splitting on it, gives the
      pieces back. */
  lemma {:induction false} SplitJoin(parts: seq<string>, sep: char)
    requires parts != []
    requires forall i :: 0 <= i < |parts| ==> sep !in parts[i]
    ensures Split(Join(parts, [sep]), sep) == parts
  {
    if |parts| == 1 {
      SplitNoSeparator(parts[0], sep);
    } else {
      var tail := Join(parts[1..], [sep]);
      assert Join(parts, [sep]) == parts[0] + [sep] + tail;
      SplitJoin(parts[1..], sep);
      SplitAfterFirst(parts[0], sep, tail);
      assert [parts[0]] + parts[1..] == parts;
    }
  }

  function LowerChar(c: char): char {
    if 'A' <= c <= 'Z' then (c as int + 32) as char else c
  }

  /** `toLowerCase` restricted to ASCII letters. */
  function ToLower(s: string): (r: string)
    ensures |r| == |s|
    ensures forall i :: 0 <= i < |s| ==> r[i] == LowerChar(s[i])
  {
    seq(|s|, i requires 0 <= i < |s| => LowerChar(s[i]))
  }

  lemma ToLowerIdempotent(s: string)
    ensures ToLower(ToLower(s)) == ToLower(s)
  {
  }

  predicate StartsWith(s: string, prefix: string) {
    |prefix| <= |s| && s[..|prefix|] == prefix
  }

  /** `sub` occurs in `s` starting at offset `i`. */
  predicate OccursAt(s: string, sub: string, i: int) {
    0 <= i <= |s| - |sub| && s[i..i + |sub|] == sub
  }

  /** `s.includes(sub)`. */
  predicate Contains(s: string, sub: string)
    ensures sub == [] ==> Contains(s, sub)
    ensures Contains(s, sub) ==> |sub| <= |s|
    decreases |s|
  {
    StartsWith(s, sub) || (s != [] && Contains(s[1..], sub))
  }

  /** `includes` holds exactly when `sub` occurs at some offset of `s`. */
  lemma {:induction false} ContainsIffOccurs(s: string, sub: string)
    ensures Contains(s, sub) <==> exists i :: OccursAt(s, sub, i)
    decreases |s|
  {
    if StartsWith(s, sub) {
      assert OccursAt(s, sub, 0);
    } else if s == [] {
    } else {
      ContainsIffOccurs(s[1..], sub);
      if exists i :: OccursAt(s, sub, i) {
        var i :| OccursAt(s, sub, i);
        assert i != 0;
        assert s[1..][i - 1..i - 1 + |sub|] == s[i..i + |sub|];
        assert OccursAt(s[1..], sub, i - 1);
      }
      if exists j :: OccursAt(s[1..], sub, j) {
        var j :| OccursAt(s[1..], sub, j);
        assert s[1..][j..j + |sub|] == s[j + 1..j + 1 + |sub|];
        assert OccursAt(s, sub, j + 1);
      }
    }
  }

  predicate IsDigit(c: char) {
    '0' <= c <= '9'
  }

  /** The longest prefix of `s` made of decimal digits. */
  function LeadingDigits(s: string): (d: string)
    ensures |d| <= |s| && d == s[..|d|]
    ensures forall i :: 0 <= i < |d| ==> IsDigit(d[i])
    ensures |d| < |s| ==> !IsDigit(s[|d|])
  {
    if s != [] && IsDigit(s[0]) then [s[0]] + LeadingDigits(s[1..]) else ""
  }

  function DigitValue(c: char): nat
    requires IsDigit(c)
  {
    c as int - '0' as int
  }

  /** Value of a digit string read in base 10; 0 for the empty string. */
  function DigitsValue(d: string): nat
    requires forall i :: 0 <= i < |d| ==> IsDigit(d[i])
  {
    if d == [] then 0 else 10 * DigitsValue(d[..|d| - 1]) + DigitValue(d[|d| - 1])
  }

  /** `parseFloat(x) || 0` over integers: leading white space is skipped, an
      optional sign is read, then the leading decimal digits; text without
      such digits (NaN) gives 0. */
  function ParseNum(s: string): (n: int)
    ensures TrimStart(s) == [] ==> n == 0
    ensures TrimStart(s) != [] && !IsDigit(TrimStart(s)[0]) && TrimStart(s)[0] != '-' && TrimStart(s)[0] != '+' ==> n == 0
    ensures n < 0 ==> TrimStart(s) != [] && TrimStart(s)[0] == '-'
  {
    var t := TrimStart(s);
    if t != [] && (t[0] == '-' || t[0] == '+') then
      var n: int := DigitsValue(LeadingDigits(t[1..]));
      if t[0] == '-' then -n else n
    else
      DigitsValue(LeadingDigits(t))
  }

  /** The decimal rendering of `n`, without leading zeros. */
  function Decimal(n: nat): (d: string)
    ensures d != [] && forall i :: 0 <= i < |d| ==> IsDigit(d[i])
    ensures DigitsValue(d) == n
  {
    var last := [('0' as int + n % 10) as char];
    if n < 10 then last
    else
      var d := Decimal(n / 10) + last;
      assert d[..|d| - 1] == Decimal(n / 10);
      d
  }

  lemma {:induction false} LeadingDigitsOfNumber(d: string, rest: string)
    requires forall i :: 0 <= i < |d| ==> IsDigit(d[i])
    requires rest == [] || !IsDigit(rest[0])
    ensures LeadingDigits(d + rest) == d
  {
    if d != [] {
      assert (d + rest)[1..] == d[1..] + rest;
      LeadingDigitsOfNumber(d[1..], rest);
    }
  }

  lemma {:induction false} TrimStartOfPadded(pad: string, t: string)
    requires AllWhitespace(pad)
    requires t == [] || !IsWhitespace(t[0])
    ensures TrimStart(pad + t) == t
  {
    if pad != [] {
      assert (pad + t)[1..] == pad[1..] + t;
      TrimStartOfPadded(pad[1..], t);
    }
  }

  /** A number written in decimal after any white space, and followed by
      anything that is not a digit, reads back as that number. */
  lemma ParseNumDecimal(pad: string, n: nat, rest: string)
    requires AllWhitespace(pad)
    requires rest == [] || !IsDigit(rest[0])
    ensures ParseNum(pad + Decimal(n) + rest) == n
  {
    var digits := Decimal(n);
    var body := digits + rest;
    assert pad + digits + rest == pad + body;
    assert body[0] == digits[0];
    TrimStartOfPadded(pad, body);
    LeadingDigitsOfNumber(digits, rest);
    UnsignedBody(pad + body, body);
  }

  /** A count written in decimal reads back as itself. */
  lemma ParseDecimal(s: string, n: nat)
    requires s == Decimal(n)
    ensures ParseNum(s) == n
  {
    ParseDigits(s);
  }

  lemma ParseDigits(d: string)
    requires d != [] && forall i :: 0 <= i < |d| ==> IsDigit(d[i])
    ensures ParseNum(d) == DigitsValue(d)
  {
    TrimStartOfDigits(d);
    AllLeadingDigits(d);
    UnsignedBody(d, d);
  }

  lemma TrimStartOfDigits(d: string)
    requires d != [] && IsDigit(d[0])
    ensures TrimStart(d) == d
  {
    TrimStartOfPadded("", d);
    assert "" + d == d;
  }

  lemma AllLeadingDigits(d: string)
    requires forall i :: 0 <= i < |d| ==> IsDigit(d[i])
    ensures LeadingDigits(d) == d
  {
    LeadingDigitsOfNumber(d, "");
    assert d + "" == d;
  }

  /** The same with a minus sign before the digits. */
  lemma ParseNumNegativeDecimal(pad: string, n: nat, rest: string)
    requires AllWhitespace(pad)
    requires rest == [] || !IsDigit(rest[0])
    ensures ParseNum(pad + "-" + Decimal(n) + rest) == -(n as int)
  {
    var digits := Decimal(n);
    assert pad + "-" + digits + rest == pad + "-" + (digits + rest);
    SignedAfterPadding(pad, digits + rest);
    LeadingDigitsOfNumber(digits, rest);
  }

  /** White space, a minus sign, then whatever follows. */
  lemma SignedAfterPadding(pad: string, tail: string)
    requires AllWhitespace(pad)
    ensures ParseNum(pad + "-" + tail) == -(DigitsValue(LeadingDigits(tail)) as int)
  {
    var body := ['-'] + tail;
    assert pad + "-" + tail == pad + body;
    TrimStartOfPadded(pad, body);
    NegativeBody(pad + body, body, tail);
  }

  lemma UnsignedBody(s: string, body: string)
    requires TrimStart(s) == body && body != [] && IsDigit(body[0])
    ensures ParseNum(s) == DigitsValue(LeadingDigits(body))
  {
  }

  lemma NegativeBody(s: string, body: string, tail: string)
    requires TrimStart(s) == body && body == ['-'] + tail
    ensures ParseNum(s) == -(DigitsValue(LeadingDigits(tail)) as int)
  {
    assert body[1..] == tail;
  }
}
