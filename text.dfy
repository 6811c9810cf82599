/** The string and number primitives of JavaScript that the blog code relies on:
    the whitespace class shared by `String.prototype.trim` and the regular
    expression `\s`, `trim()`, `split(/\s+/)`, `slice(0, n)`, `parseInt(s, 10)`,
    `Math.ceil(a / b)` on integers, and decimal rendering of a number. */
module Text {
  import opened Wrappers

  /** ECMAScript WhiteSpace and LineTerminator code points: the characters that
      both `trim()` removes and `\s` matches. */
  predicate IsSpace(c: char) {
    || c == ' ' || c == '\t' || c == '\n' || c == '\r'
    || c == '\U{000B}' || c == '\U{000C}' || c == '\U{00A0}' || c == '\U{1680}'
    || ('\U{2000}' <= c <= '\U{200A}')
    || c == '\U{2028}' || c == '\U{2029}' || c == '\U{202F}' || c == '\U{205F}'
    || c == '\U{3000}' || c == '\U{FEFF}'
  }

  predicate NoSpace(s: string) {
    forall i :: 0 <= i < |s| ==> !IsSpace(s[i])
  }

  predicate AllSpace(s: string) {
    forall i :: 0 <= i < |s| ==> IsSpace(s[i])
  }

  /** A string that `trim()` leaves as it is and that is not empty. */
  predicate Trimmed(s: string) {
    s != [] && !IsSpace(s[0]) && !IsSpace(s[|s| - 1])
  }

  /** The number of whitespace characters `s` starts with. */
  function LeadingSpaces(s: string): (n: nat)
    ensures n <= |s|
    ensures forall i :: 0 <= i < n ==> IsSpace(s[i])
    ensures n < |s| ==> !IsSpace(s[n])
  {
    if s != [] && IsSpace(s[0]) then 1 + LeadingSpaces(s[1..]) else 0
  }

  /** The length of `s` without the whitespace it ends with. */
  function TrailingStart(s: string): (n: nat)
    ensures n <= |s|
    ensures forall i :: n <= i < |s| ==> IsSpace(s[i])
    ensures n > 0 ==> !IsSpace(s[n - 1])
  {
    if s != [] && IsSpace(s[|s| - 1]) then TrailingStart(s[..|s| - 1]) else |s|
  }

  /** `s` without its leading whitespace. */
  function DropSpaces(s: string): (r: string)
    ensures |r| <= |s| && r == s[|s| - |r|..]
    ensures forall i :: 0 <= i < |s| - |r| ==> IsSpace(s[i])
    ensures r != [] ==> !IsSpace(r[0])
  {
    s[LeadingSpaces(s)..]
  }

  /** `s` without its trailing whitespace. */
  function DropTrailingSpaces(s: string): (r: string)
    ensures |r| <= |s| && r == s[..|r|]
    ensures forall i :: |r| <= i < |s| ==> IsSpace(s[i])
    ensures r != [] ==> !IsSpace(r[|r| - 1])
  {
    s[..TrailingStart(s)]
  }

  /** `s.trim()`. */
  function Trim(s: string): (r: string)
    ensures r == [] || Trimmed(r)
    ensures r == [] <==> AllSpace(s)
  {
    var d := DropSpaces(s);
    var r := DropTrailingSpaces(d);
    var a := |s| - |d|;
    assert r != [] ==> r[0] == d[0];
    assert forall i :: a <= i < |s| ==> s[i] == d[i - a];
    r
  }

  /** What `trim()` removes is whitespace at both ends, and what it keeps is a
      contiguous piece of the input. */
  lemma TrimIsInfix(s: string) returns (a: nat)
    ensures a + |Trim(s)| <= |s| && Trim(s) == s[a..a + |Trim(s)|]
    ensures forall i :: 0 <= i < a ==> IsSpace(s[i])
    ensures forall i :: a + |Trim(s)| <= i < |s| ==> IsSpace(s[i])
  {
    var d := DropSpaces(s);
    var r := Trim(s);
    a := |s| - |d|;
    assert forall i :: a <= i < |s| ==> s[i] == d[i - a];
  }

  lemma TrimmedIsFixed(s: string)
    requires Trimmed(s)
    ensures Trim(s) == s
  {
    assert DropSpaces(s) == s;
  }

  /** JavaScript truthiness of an optional string: absent and `""` are
      falsy. */
  predicate Truthy(s: Option<string>) {
    s.Some? && s.value != ""
  }

  /** The longest prefix of `s` holding no whitespace. */
  function TakeWord(s: string): (w: string)
    ensures w <= s && NoSpace(w)
    ensures |w| < |s| ==> IsSpace(s[|w|])
  {
    if s == [] || IsSpace(s[0]) then [] else [s[0]] + TakeWord(s[1..])
  }

  /** `s.split(/\s+/)`: the pieces between maximal runs of whitespace. A leading
      or trailing run yields an empty first or last piece, and the empty string
      splits into one empty piece. */
  function Split(s: string): (parts: seq<string>)
    ensures |parts| >= 1
    ensures forall i :: 0 <= i < |parts| ==> NoSpace(parts[i])
    decreases |s|
  {
    var w := TakeWord(s);
    if |w| == |s| then [w]
    else
      var rest := DropSpaces(s[|w|..]);
      [w] + Split(rest)
  }

  /** The words of `s`: its maximal runs of non-whitespace characters, in order. */
  function Words(s: string): (ws: seq<string>)
    ensures forall i :: 0 <= i < |ws| ==> ws[i] != [] && NoSpace(ws[i])
    decreases |s|
  {
    if s == [] then []
    else if IsSpace(s[0]) then Words(s[1..])
    else
      var w := TakeWord(s);
      [w] + Words(s[|w|..])
  }

  /** Skipping leading whitespace changes no word. */
  lemma {:induction false} WordsSkipSpaces(s: string)
    ensures Words(DropSpaces(s)) == Words(s)
    decreases |s|
  {
    if s != [] && IsSpace(s[0]) {
      WordsSkipSpaces(s[1..]);
    }
  }

  /** Removing leading and trailing whitespace changes no word. */
  lemma {:induction false} WordsOfTrim(s: string)
    ensures Words(Trim(s)) == Words(s)
  {
    WordsSkipSpaces(s);
    WordsDropTrailing(DropSpaces(s));
  }

  lemma {:induction false} WordsDropTrailing(s: string)
    ensures Words(DropTrailingSpaces(s)) == Words(s)
    decreases |s|
  {
    if s != [] && IsSpace(s[|s| - 1]) {
      var t := s[..|s| - 1];
      assert t[..TrailingStart(t)] == s[..TrailingStart(t)];
      assert DropTrailingSpaces(s) == DropTrailingSpaces(t);
      WordsDropTrailing(t);
      WordsTrailingSpace(t, s[|s| - 1]);
      assert t + [s[|s| - 1]] == s;
    } else {
      assert s[..|s|] == s;
    }
  }

  /** One more whitespace character at the end adds no word. */
  lemma {:induction false} WordsTrailingSpace(t: string, c: char)
    requires IsSpace(c)
    ensures Words(t + [c]) == Words(t)
    decreases |t|
  {
    var s := t + [c];
    if t == [] {
      assert Words(s) == Words(s[1..]);
      assert s[1..] == [];
    } else if IsSpace(t[0]) {
      assert s[1..] == t[1..] + [c];
      WordsTrailingSpace(t[1..], c);
    } else {
      var w := TakeWord(t);
      TakeWordOfExtension(t, [c]);
      assert TakeWord(s) == w;
      assert s[|w|..] == t[|w|..] + [c];
      WordsTrailingSpace(t[|w|..], c);
    }
  }

  /** Appending text that starts with whitespace does not change the first word. */
  lemma {:induction false} TakeWordOfExtension(t: string, u: string)
    requires u != [] && IsSpace(u[0])
    ensures TakeWord(t + u) == TakeWord(t)
    decreases |t|
  {
    if t == [] {
      assert (t + u)[0] == u[0];
    } else if !IsSpace(t[0]) {
      assert (t + u)[1..] == t[1..] + u;
      TakeWordOfExtension(t[1..], u);
    }
  }

  /** Leading whitespace is dropped before a last character that is not
      whitespace, which stays last. */
  lemma {:induction false} DropSpacesKeepsLast(s: string)
    requires s != [] && !IsSpace(s[|s| - 1])
    ensures DropSpaces(s) != [] && DropSpaces(s)[|DropSpaces(s)| - 1] == s[|s| - 1]
    decreases |s|
  {
    if IsSpace(s[0]) {
      assert s[1..][|s| - 2] == s[|s| - 1];
      DropSpacesKeepsLast(s[1..]);
    }
  }

  /** For trimmed text, `split(/\s+/)` yields exactly the words. */
  lemma {:induction false} SplitOfTrimmed(s: string)
    requires Trimmed(s)
    ensures Split(s) == Words(s)
    decreases |s|
  {
    var w := TakeWord(s);
    if |w| < |s| {
      var rest := s[|w|..];
      var d := DropSpaces(rest);
      assert rest[|rest| - 1] == s[|s| - 1];
      DropSpacesKeepsLast(rest);
      WordsSkipSpaces(rest);
      assert Split(s) == [w] + Split(d);
      assert Words(s) == [w] + Words(rest);
      SplitOfTrimmed(d);
    }
  }

  /** The number of pieces `split(/\s+/)` yields for any non-empty string: the
      words, plus one piece for leading and one for trailing whitespace. */
  lemma {:induction false} SplitCount(s: string)
    requires s != []
    ensures |Split(s)| == |Words(s)| + (if IsSpace(s[0]) then 1 else 0)
                                      + (if IsSpace(s[|s| - 1]) then 1 else 0)
  {
    if IsSpace(s[0]) {
      var d := DropSpaces(s);
      assert TakeWord(s) == [];
      assert Split(s) == [[]] + Split(d);
      WordsSkipSpaces(s);
      if d == [] {
        assert IsSpace(s[|s| - 1]) by { assert s[..|s|][|s| - 1] == s[|s| - 1]; }
      } else {
        assert d[|d| - 1] == s[|s| - 1];
        SplitCountWordStart(d);
      }
    } else {
      SplitCountWordStart(s);
    }
  }

  lemma {:induction false} SplitCountWordStart(s: string)
    requires s != [] && !IsSpace(s[0])
    ensures |Split(s)| == |Words(s)| + (if IsSpace(s[|s| - 1]) then 1 else 0)
    decreases |s|
  {
    var w := TakeWord(s);
    if |w| < |s| {
      var rest := s[|w|..];
      var d := DropSpaces(rest);
      WordsSkipSpaces(rest);
      assert rest[0] == s[|w|];
      assert rest[|rest| - 1] == s[|s| - 1];
      if d == [] {
        assert IsSpace(rest[|rest| - 1]) by { assert rest[..|rest|][|rest| - 1] == rest[|rest| - 1]; }
      } else {
        assert d[|d| - 1] == s[|s| - 1];
        SplitCountWordStart(d);
      }
    } else {
      assert s[|s| - 1] == w[|w| - 1];
    }
  }

  /** `s.slice(0, n)` for `n >= 0`. */
  function Prefix(s: string, n: nat): (r: string)
    ensures |r| == if |s| < n then |s| else n
    ensures r <= s
  {
    if |s| <= n then s else s[..n]
  }

  /** `Math.ceil(n / d)` for a positive divisor, in exact integer arithmetic. */
  function CeilDiv(n: int, d: int): (q: int)
    requires d > 0
    ensures (q - 1) * d < n <= q * d
  {
    var q := -((-n) / d);
    assert (-n) / d * d <= -n < ((-n) / d + 1) * d;
    q
  }

  /** `Math.ceil(n / d)` for any integer divisor; `None` stands for the
      non-finite results (`Infinity` when `n != 0`, `NaN` when `n == 0`) of a
      zero divisor. */
  function CeilQuotient(n: int, d: int): (q: Option<int>)
    ensures q.None? <==> d == 0
    ensures d > 0 ==> q == Some(CeilDiv(n, d))
    ensures d < 0 ==> q == Some(CeilDiv(-n, -d))
  {
    if d == 0 then None else if d > 0 then Some(CeilDiv(n, d)) else Some(CeilDiv(-n, -d))
  }

  predicate IsDigit(c: char) {
    '0' <= c <= '9'
  }

  function DigitValue(c: char): nat
    requires IsDigit(c)
  {
    (c as int) - ('0' as int)
  }

  function DigitChar(d: nat): (c: char)
    requires d < 10
    ensures IsDigit(c) && DigitValue(c) == d
  {
    ('0' as int + d) as char
  }

  /** The decimal rendering of `n` (`String(n)`, or a template literal). */
  function NatToString(n: nat): (s: string)
    ensures s != [] && forall i :: 0 <= i < |s| ==> IsDigit(s[i])
    ensures s[0] == '0' ==> n == 0
  {
    if n < 10 then [DigitChar(n)] else NatToString(n / 10) + [DigitChar(n % 10)]
  }

  /** The longest prefix of `s` made of decimal digits. */
  function DigitPrefix(s: string): (ds: string)
    ensures ds <= s
    ensures forall i :: 0 <= i < |ds| ==> IsDigit(ds[i])
    ensures |ds| < |s| ==> !IsDigit(s[|ds|])
  {
    if s == [] || !IsDigit(s[0]) then [] else [s[0]] + DigitPrefix(s[1..])
  }

  /** The number a string of decimal digits denotes. */
  function DigitsValue(ds: string): nat
    requires forall i :: 0 <= i < |ds| ==> IsDigit(ds[i])
  {
    if ds == [] then 0 else DigitsValue(ds[..|ds| - 1]) * 10 + DigitValue(ds[|ds| - 1])
  }

  /** The text `parseInt` reads its digits from: what follows the leading
      whitespace and one optional sign. */
  function NumberBody(s: string): (body: string)
    ensures |body| <= |s| && body == s[|s| - |body|..]
  {
    var t := DropSpaces(s);
    if t != [] && (t[0] == '-' || t[0] == '+') then t[1..] else t
  }

  /** `parseInt(s, 10)`: leading whitespace skipped, an optional sign, then the
      longest run of digits; `None` is `NaN` (no digit after the sign). */
  function ParseInt(s: string): (r: Option<int>)
    ensures r.None? <==> DigitPrefix(NumberBody(s)) == []
    ensures r.Some? ==> exists i :: 0 <= i < |s| && IsDigit(s[i])
    ensures r.Some? ==> (if r.value < 0 then -r.value else r.value) == DigitsValue(DigitPrefix(NumberBody(s)))
    ensures r.Some? && r.value < 0 ==> DropSpaces(s) != [] && DropSpaces(s)[0] == '-'
    ensures r.Some? ==> r.value == if DropSpaces(s) != [] && DropSpaces(s)[0] == '-'
                                   then -(DigitsValue(DigitPrefix(NumberBody(s))) as int)
                                   else DigitsValue(DigitPrefix(NumberBody(s)))
  {
    var t := DropSpaces(s);
    var negative := t != [] && t[0] == '-';
    var body := NumberBody(s);
    var ds := DigitPrefix(body);
    if ds == [] then None
    else
      assert IsDigit(s[|s| - |body|]) by { assert body[0] == s[|s| - |body|]; }
      var v: int := DigitsValue(ds);
      Some(if negative then -v else v)
  }

  lemma {:induction false} DigitsValueOfNatToString(n: nat)
    ensures DigitsValue(NatToString(n)) == n
  {
    if n >= 10 {
      var s := NatToString(n);
      assert s[..|s| - 1] == NatToString(n / 10);
      DigitsValueOfNatToString(n / 10);
    }
  }

  lemma {:induction false} DigitPrefixOfDigits(ds: string, u: string)
    requires forall i :: 0 <= i < |ds| ==> IsDigit(ds[i])
    requires u == [] || !IsDigit(u[0])
    ensures DigitPrefix(ds + u) == ds
    decreases |ds|
  {
    if ds == [] {
      assert ds + u == u;
    } else {
      assert (ds + u)[1..] == ds[1..] + u;
      DigitPrefixOfDigits(ds[1..], u);
    }
  }

  /** `parseInt` recovers a number from its decimal rendering, whatever
      non-digit text follows the rendering. */
  lemma ParseRendered(n: nat, suffix: string)
    requires suffix == [] || !IsDigit(suffix[0])
    ensures ParseInt(NatToString(n) + suffix) == Some(n)
  {
    var s := NatToString(n) + suffix;
    assert !IsSpace(s[0]);
    assert DropSpaces(s) == s;
    DigitPrefixOfDigits(NatToString(n), suffix);
    DigitsValueOfNatToString(n);
  }

  /** `parseInt` of a `-` then digits, with no leading whitespace. */
  lemma ParseMinus(t: string)
    requires DigitPrefix(t) != []
    ensures ParseInt(['-'] + t) == Some(-(DigitsValue(DigitPrefix(t)) as int))
  {
    var s := ['-'] + t;
    assert DropSpaces(s) == s by {
      assert !IsSpace(s[0]);
    }
    assert NumberBody(s) == t by {
      assert s[1..] == t;
    }
  }

  /** A minus sign before a decimal rendering gives the negated number. */
  lemma ParseNegativeRendered(n: nat, suffix: string)
    requires suffix == [] || !IsDigit(suffix[0])
    ensures ParseInt("-" + NatToString(n) + suffix) == Some(-(n as int))
  {
    var ds := NatToString(n);
    assert "-" + ds + suffix == ['-'] + (ds + suffix);
    DigitPrefixOfDigits(ds, suffix);
    DigitsValueOfNatToString(n);
    ParseMinus(ds + suffix);
  }

  /** Decimal rendering is injective, since `parseInt` inverts it. */
  lemma NatToStringInjective(m: nat, n: nat)
    requires NatToString(m) == NatToString(n)
    ensures m == n
  {
    ParseRendered(m, []);
    ParseRendered(n, []);
    assert NatToString(m) + [] == NatToString(m);
    assert NatToString(n) + [] == NatToString(n);
  }
}
