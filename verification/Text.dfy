/** Decimal printing and parsing, separators, the byte order on strings and the instance-name
    pattern. The names, the backup file names, the listen endpoints, the audit cursor and the
    password record all rest on these. */
module Text {
  import opened Prelude

  // ---------------------------------------------------------------- characters

  predicate IsDigit(c: char) {
    '0' <= c <= '9'
  }

  predicate IsAlnum(c: char) {
    IsDigit(c) || 'A' <= c <= 'Z' || 'a' <= c <= 'z'
  }

  predicate IsNameChar(c: char) {
    IsAlnum(c) || c == '.' || c == '-'
  }

  /** What `strings.TrimSpace` strips: Unicode white space. */
  predicate IsSpace(c: char) {
    '\t' <= c <= '\r' || c == ' ' || c == '\U{85}' || c == '\U{A0}' || c == '\U{1680}' ||
    '\U{2000}' <= c <= '\U{200A}' || c == '\U{2028}' || c == '\U{2029}' || c == '\U{202F}' ||
    c == '\U{205F}' || c == '\U{3000}'
  }

  /** The White_Space characters of Unicode, one by one. */
  lemma SpaceList(c: char)
    ensures IsSpace(c) <==>
            c in "\t\n\U{B}\U{C}\r \U{85}\U{A0}\U{1680}" +
                 "\U{2000}\U{2001}\U{2002}\U{2003}\U{2004}\U{2005}\U{2006}\U{2007}\U{2008}\U{2009}\U{200A}" +
                 "\U{2028}\U{2029}\U{202F}\U{205F}\U{3000}"
  {
  }

  predicate Blank(s: string) {
    forall c | c in s :: IsSpace(c)
  }

  /** `^[A-Za-z0-9][A-Za-z0-9.-]{0,62}$`. */
  predicate ValidName(s: string) {
    1 <= |s| <= 63 && IsAlnum(s[0]) && forall c | c in s :: IsNameChar(c)
  }

  lemma NameNotBlank(s: string)
    requires ValidName(s)
    ensures !Blank(s) && s != ""
  {
    assert s[0] in s && !IsSpace(s[0]);
  }

  /** The names, letter by letter: an ASCII letter or digit, then letters, digits, dots and hyphens,
      up to 63 characters. */
  lemma NameGrows(s: string, c: char)
    ensures !ValidName("")
    ensures ValidName(s + [c]) <==>
            ('0' <= c <= '9' || 'A' <= c <= 'Z' || 'a' <= c <= 'z' || (s != "" && (c == '.' || c == '-'))) &&
            (s == "" || (ValidName(s) && |s| < 63))
  {
    var t := s + [c];
    assert t[|s|] == c && forall i | 0 <= i < |s| :: t[i] == s[i];
    assert c in t && forall d | d in s :: d in t;
    assert forall d | d in t :: d in s || d == c;
  }

  /** `^[1-9][0-9]{0,2}%$`, or empty. */
  predicate ValidCpu(s: string) {
    s == "" ||
    (2 <= |s| <= 4 && '1' <= s[0] <= '9' && s[|s| - 1] == '%' &&
     forall k | 0 <= k < |s| - 1 :: IsDigit(s[k]))
  }

  /** `strings.TrimSpace`. */
  function TrimSpace(s: string): string {
    if s == "" then s
    else if IsSpace(s[0]) then TrimSpace(s[1..])
    else if IsSpace(s[|s| - 1]) then TrimSpace(s[..|s| - 1])
    else s
  }

  /** White space on both sides goes, and nothing else. */
  lemma {:induction false} TrimBlanks(before: string, s: string, after: string)
    requires Blank(before) && Blank(after) && (s != "" ==> !IsSpace(s[0]) && !IsSpace(s[|s| - 1]))
    ensures TrimSpace(before + s + after) == s
    decreases |before| + |after|
  {
    hide IsSpace;
    var t := before + s + after;
    if before != "" {
      assert before[0] in before && forall c | c in before[1..] :: c in before;
      assert t[1..] == before[1..] + s + after;
      TrimBlanks(before[1..], s, after);
    } else if after != "" {
      var shorter := after[..|after| - 1];
      assert after[|after| - 1] in after && forall c | c in shorter :: c in after;
      assert t[|t| - 1] == after[|after| - 1] && t[..|t| - 1] == before + s + shorter;
      TrimBlanks(before, s, shorter);
      if s == "" {
        assert t[1..] == "" + "" + after[1..] && after[0] in after && forall c | c in after[1..] :: c in after;
        TrimBlanks("", "", after[1..]);
      } else {
        assert t[0] == s[0];
      }
    } else {
      assert t == s;
    }
  }

  lemma {:induction false} BlankTrims(s: string)
    ensures TrimSpace(s) == "" <==> Blank(s)
  {
    hide IsSpace;
    if s == "" {
    } else if IsSpace(s[0]) {
      BlankTrims(s[1..]);
      assert s == [s[0]] + s[1..];
    } else if IsSpace(s[|s| - 1]) {
      BlankTrims(s[..|s| - 1]);
      assert s == s[..|s| - 1] + [s[|s| - 1]];
    } else {
      assert s[0] in s;
    }
  }

  // ---------------------------------------------------------------- decimals

  function DigitChar(d: nat): (c: char)
    requires d < 10
    ensures IsDigit(c) && DigitValue(c) == d
  {
    '0' + d as char
  }

  function DigitValue(c: char): (d: nat)
    requires IsDigit(c)
    ensures d < 10
  {
    (c - '0') as nat
  }

  function Itoa(n: nat): (s: string)
    ensures s != [] && forall c | c in s :: IsDigit(c)
  {
    if n < 10 then [DigitChar(n)] else Itoa(n / 10) + [DigitChar(n % 10)]
  }

  lemma DigitsOnly(n: nat, c: char)
    requires !IsDigit(c)
    ensures c !in Itoa(n)
  {
  }

  predicate AllDigits(s: string) {
    forall c | c in s :: IsDigit(c)
  }

  function DigitsValue(s: string): nat
    requires AllDigits(s)
  {
    if s == [] then 0 else DigitsValue(s[..|s| - 1]) * 10 + DigitValue(s[|s| - 1])
  }

  /** `strconv.ParseUint(s, 10, bits)`, with the first value out of range as `limit`. */
  function ParseUint(s: string, limit: nat): Option<nat> {
    if s == [] || !AllDigits(s) || DigitsValue(s) >= limit then None else Some(DigitsValue(s))
  }

  /** `strconv.Atoi` and `strconv.ParseInt(s, 10, 64)`: an optional sign, then digits. */
  function Atoi(s: string): Option<int> {
    if s != [] && s[0] == '-' then
      var magnitude := ParseUint(s[1..], TWO_63 + 1);
      if magnitude.None? then None else var v: int := magnitude.value; Some(-v)
    else
      var magnitude := ParseUint(if s != [] && s[0] == '+' then s[1..] else s, TWO_63);
      if magnitude.None? then None else var v: int := magnitude.value; Some(v)
  }

  lemma {:induction false} DigitsValueItoa(n: nat)
    ensures DigitsValue(Itoa(n)) == n
  {
    if n >= 10 {
      DigitsValueItoa(n / 10);
      assert Itoa(n)[..|Itoa(n)| - 1] == Itoa(n / 10);
    } else {
      assert Itoa(n)[..0] == [];
    }
  }

  /** Printing a number and reading it back gives the number. */
  lemma AtoiItoa(n: nat)
    requires n < TWO_63
    ensures Atoi(Itoa(n)) == Some(n)
  {
    DigitsValueItoa(n);
    assert IsDigit(Itoa(n)[0]);
  }

  /** A sign in front counts, once. */
  lemma AtoiSigned(n: nat)
    ensures Atoi("-" + Itoa(n)) == var m: int := n; if m <= TWO_63 then Some(-m) else None
    ensures Atoi("+" + Itoa(n)) == Atoi(Itoa(n)) == if n < TWO_63 then Some(n) else None
  {
    hide Itoa, DigitsValue;
    DigitsValueItoa(n);
    assert ("-" + Itoa(n))[1..] == Itoa(n) && ("+" + Itoa(n))[1..] == Itoa(n);
    assert IsDigit(Itoa(n)[0]);
  }

  /** Without a leading zero, digits are what printing their value gives. */
  lemma {:induction false} ItoaDigitsValue(s: string)
    requires s != "" && AllDigits(s) && s[0] != '0'
    ensures DigitsValue(s) > 0 && Itoa(DigitsValue(s)) == s
  {
    var front, last := s[..|s| - 1], s[|s| - 1];
    assert last in s && forall c | c in front :: c in s;
    DigitBack(last);
    assert DigitsValue(s) == DigitsValue(front) * 10 + DigitValue(last);
    hide Itoa, DigitsValue, DigitValue, DigitChar;
    if front == "" {
      OneDigit(last);
      assert s == [last];
    } else {
      ItoaDigitsValue(front);
      ItoaStep(DigitsValue(front), DigitValue(last));
      assert s == front + [last];
    }
  }

  lemma DigitBack(c: char)
    requires IsDigit(c)
    ensures DigitChar(DigitValue(c)) == c
  {
    assert '0' + DigitValue(c) as char == c;
  }

  lemma OneDigit(c: char)
    requires IsDigit(c)
    ensures DigitsValue("") == 0 && Itoa(DigitValue(c)) == [c] && (c != '0' ==> DigitValue(c) > 0)
  {
    DigitBack(c);
  }

  lemma ItoaStep(n: nat, d: nat)
    requires n > 0 && d < 10
    ensures Itoa(n * 10 + d) == Itoa(n) + [DigitChar(d)]
  {
    assert (n * 10 + d) / 10 == n && (n * 10 + d) % 10 == d;
  }

  /** The CPU limits: nothing, or 1% to 999% without leading zeros. */
  lemma CpuRange(s: string)
    ensures ValidCpu(s) <==> s == "" || exists n: nat :: 1 <= n <= 999 && s == Itoa(n) + "%"
  {
    if s != "" && ValidCpu(s) {
      var digits := s[..|s| - 1];
      forall c | c in digits ensures IsDigit(c) {
        var k :| 0 <= k < |digits| && digits[k] == c;
        assert s[k] == c;
      }
      ItoaDigitsValue(digits);
      Thousand();
      ItoaLength(DigitsValue(digits), 3);
      assert s == Itoa(DigitsValue(digits)) + "%";
    }
    if n: nat :| 1 <= n <= 999 && s == Itoa(n) + "%" {
      Thousand();
      ItoaLength(n, 3);
      NoLeadingZero(n);
      assert forall k | 0 <= k < |s| - 1 :: s[k] == Itoa(n)[k] && Itoa(n)[k] in Itoa(n);
    }
  }

  lemma Thousand()
    ensures Pow10(3) == 1000
  {
    assert Pow10(1) == 10 * Pow10(0);
    assert Pow10(2) == 10 * Pow10(1);
  }

  lemma {:induction false} NoLeadingZero(n: nat)
    requires n > 0
    ensures Itoa(n)[0] != '0'
  {
    if n >= 10 { NoLeadingZero(n / 10); }
  }

  lemma ItoaInjective(m: nat, n: nat)
    requires Itoa(m) == Itoa(n)
    ensures m == n
  {
    DigitsValueItoa(m);
    DigitsValueItoa(n);
  }

  function Pow10(w: nat): nat {
    if w == 0 then 1 else 10 * Pow10(w - 1)
  }

  lemma {:induction false} Pow10Monotone(v: nat, w: nat)
    requires v <= w
    ensures Pow10(v) <= Pow10(w)
  {
    if v < w { Pow10Monotone(v, w - 1); }
  }

  /** A number has at most w digits exactly when it is below 10^w. */
  lemma {:induction false} ItoaLength(n: nat, w: nat)
    requires w >= 1
    ensures |Itoa(n)| <= w <==> n < Pow10(w)
  {
    if w == 1 {
      assert Pow10(1) == 10 * Pow10(0) == 10;
      if n >= 10 { assert |Itoa(n)| == |Itoa(n / 10)| + 1; }
    } else if n < 10 {
      Pow10Monotone(1, w);
      assert Pow10(1) == 10 * Pow10(0) == 10;
    } else {
      ItoaLength(n / 10, w - 1);
      assert n / 10 < Pow10(w - 1) <==> n < Pow10(w);
    }
  }

  function Zeros(k: nat): (s: string)
    ensures |s| == k
  {
    seq(k, i => '0')
  }

  /** `fmt.Sprintf("%0*d", width, n)`. */
  function Padded(width: nat, n: nat): (s: string)
    ensures |s| >= width
  {
    if |Itoa(n)| >= width then Itoa(n) else Zeros(width - |Itoa(n)|) + Itoa(n)
  }

  /** The w low decimal digits of n. */
  function FixedDigits(w: nat, n: nat): (s: string)
    ensures |s| == w
  {
    if w == 0 then [] else FixedDigits(w - 1, n / 10) + [DigitChar(n % 10)]
  }

  lemma {:induction false} FixedZero(w: nat)
    ensures FixedDigits(w, 0) == Zeros(w)
  {
    if w > 0 {
      FixedZero(w - 1);
      assert Zeros(w) == Zeros(w - 1) + ['0'];
    }
  }

  lemma {:induction false} PaddedIsFixed(w: nat, n: nat)
    requires w >= 1 && n < Pow10(w)
    ensures Padded(w, n) == FixedDigits(w, n)
  {
    ItoaLength(n, w);
    if n < 10 {
      FixedZero(w - 1);
      assert n / 10 == 0 && n % 10 == n;
      assert FixedDigits(w, n) == Zeros(w - 1) + [DigitChar(n)];
      if w == 1 { assert Zeros(0) + [DigitChar(n)] == [DigitChar(n)]; }
    } else {
      assert w > 1 by { assert Pow10(1) == 10 * Pow10(0) == 10; }
      assert n / 10 < Pow10(w - 1);
      PaddedIsFixed(w - 1, n / 10);
      ItoaLength(n / 10, w - 1);
      var z := (w - 1) - |Itoa(n / 10)|;
      assert |Itoa(n)| == |Itoa(n / 10)| + 1;
      assert Zeros(z) + Itoa(n / 10) + [DigitChar(n % 10)] == Zeros(z) + Itoa(n);
      if z == 0 { assert Zeros(0) + Itoa(n) == Itoa(n); }
    }
  }

  /** Reading fixed digits back. */
  lemma {:induction false} FixedValue(w: nat, n: nat)
    requires n < Pow10(w)
    ensures AllDigits(FixedDigits(w, n)) && DigitsValue(FixedDigits(w, n)) == n
  {
    if w > 0 {
      assert n / 10 < Pow10(w - 1);
      FixedValue(w - 1, n / 10);
      assert FixedDigits(w, n)[..w - 1] == FixedDigits(w - 1, n / 10);
    }
  }

  // ---------------------------------------------------------------- byte order

  /** Go's `<` on strings, and SQLite's BINARY order. */
  predicate StrLess(a: string, b: string) {
    b != [] && (a == [] || a[0] < b[0] || (a[0] == b[0] && StrLess(a[1..], b[1..])))
  }

  predicate StrLe(a: string, b: string) {
    !StrLess(b, a)
  }

  lemma {:induction false} StrLessIrreflexive(a: string)
    ensures !StrLess(a, a)
  {
    if a != [] { StrLessIrreflexive(a[1..]); }
  }

  lemma {:induction false} StrLessTransitive(a: string, b: string, c: string)
    requires StrLess(a, b) && StrLess(b, c)
    ensures StrLess(a, c)
  {
    if a != [] && a[0] == b[0] == c[0] { StrLessTransitive(a[1..], b[1..], c[1..]); }
  }

  lemma {:induction false} StrLessTotal(a: string, b: string)
    ensures StrLess(a, b) || a == b || StrLess(b, a)
  {
    if a != [] && b != [] && a[0] == b[0] {
      StrLessTotal(a[1..], b[1..]);
      if a[1..] == b[1..] { assert a == [a[0]] + a[1..] == [b[0]] + b[1..] == b; }
    }
  }

  lemma StrLessAsymmetric(a: string, b: string)
    requires StrLess(a, b)
    ensures !StrLess(b, a)
  {
    if StrLess(b, a) {
      StrLessTransitive(a, b, a);
      StrLessIrreflexive(a);
    }
  }

  /** A common prefix does not matter. */
  lemma {:induction false} StrLessPrefix(p: string, a: string, b: string)
    ensures StrLess(p + a, p + b) <==> StrLess(a, b)
  {
    if p == [] {
      assert p + a == a && p + b == b;
    } else {
      assert (p + a)[1..] == p[1..] + a && (p + b)[1..] == p[1..] + b;
      StrLessPrefix(p[1..], a, b);
    }
  }

  /** When two strings of one length already differ, what follows does not matter. */
  lemma {:induction false} StrLessHead(a: string, b: string, x: string, y: string)
    requires |a| == |b| && StrLess(a, b)
    ensures StrLess(a + x, b + y)
  {
    if a[0] == b[0] {
      StrLessHead(a[1..], b[1..], x, y);
      assert (a + x)[1..] == a[1..] + x && (b + y)[1..] == b[1..] + y;
    }
  }

  /** On digits of one width the byte order is the numeric order. */
  lemma {:induction false} FixedOrder(w: nat, m: nat, n: nat)
    requires m < n < Pow10(w)
    ensures StrLess(FixedDigits(w, m), FixedDigits(w, n))
  {
    if w > 0 {
      var a, b := FixedDigits(w - 1, m / 10), FixedDigits(w - 1, n / 10);
      assert n / 10 < Pow10(w - 1);
      if m / 10 < n / 10 {
        FixedOrder(w - 1, m / 10, n / 10);
        StrLessHead(a, b, [DigitChar(m % 10)], [DigitChar(n % 10)]);
      } else {
        assert a == b && m % 10 < n % 10;
        assert DigitValue(DigitChar(m % 10)) < DigitValue(DigitChar(n % 10));
        StrLessPrefix(a, [DigitChar(m % 10)], [DigitChar(n % 10)]);
      }
    }
  }

  // ---------------------------------------------------------------- separators

  /** `strings.Split` at a one-byte separator. */
  function Split(s: string, sep: char): (parts: seq<string>)
    ensures parts != []
  {
    if s == [] then [[]]
    else
      var rest := Split(s[1..], sep);
      if s[0] == sep then [[]] + rest else [[s[0]] + rest[0]] + rest[1..]
  }

  lemma {:induction false} SplitLast(a: string, sep: char)
    requires sep !in a
    ensures Split(a, sep) == [a]
  {
    if a != [] {
      SplitLast(a[1..], sep);
      assert a == [a[0]] + a[1..];
    }
  }

  /** The text before the first separator is the first part. */
  lemma {:induction false} SplitFirst(a: string, sep: char, b: string)
    requires sep !in a
    ensures Split(a + [sep] + b, sep) == [a] + Split(b, sep)
  {
    var s := a + [sep] + b;
    if a == [] {
      assert s[1..] == b;
    } else {
      assert s[1..] == a[1..] + [sep] + b;
      SplitFirst(a[1..], sep, b);
      assert a == [a[0]] + a[1..];
    }
  }

  /** Splitting finds a separator inside a part. */
  lemma {:induction false} SplitCount(s: string, sep: char)
    ensures |Split(s, sep)| == 1 + multiset(s)[sep]
  {
    if s != [] {
      SplitCount(s[1..], sep);
      assert s == [s[0]] + s[1..];
      assert multiset(s) == multiset{s[0]} + multiset(s[1..]);
    }
  }

  lemma SplitThree(a: string, b: string, c: string, sep: char)
    requires sep !in a && sep !in b && sep !in c
    ensures Split(a + [sep] + b + [sep] + c, sep) == [a, b, c]
  {
    var rest := b + [sep] + c;
    assert a + [sep] + b + [sep] + c == a + [sep] + rest;
    SplitFirst(a, sep, rest);
    SplitFirst(b, sep, c);
    SplitLast(c, sep);
  }
}
