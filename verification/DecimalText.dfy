/** Decimal strings of IOU amounts: parsing and printing. */
module DecimalText {
  import opened Primitives
  import opened Decimal
  import opened Iou

  // ---------------------------------------------------------------- strings

  predicate IsSpace(c: char) {
    var u := c as int;
    || 0x09 <= u <= 0x0D || u == 0x20 || u == 0x85 || u == 0xA0 || u == 0x1680 || 0x2000 <= u <= 0x200A
    || u == 0x2028 || u == 0x2029 || u == 0x202F || u == 0x205F || u == 0x3000
  }

  predicate IsSign(c: char) {
    c == '-' || c == '+'
  }

  predicate IsZeroDigit(c: char) {
    c == '0'
  }

  predicate IsDigit(c: char) {
    '0' <= c <= '9'
  }

  predicate AllDigits(s: string) {
    forall c :: c in s ==> IsDigit(c)
  }

  /** Drop the leading characters that satisfy `p`. */
  function TrimStart(s: string, p: char -> bool): (r: string)
    ensures |r| <= |s| && r == s[|s| - |r|..]
    ensures forall i :: 0 <= i < |s| - |r| ==> p(s[i])
    ensures r != [] ==> !p(r[0])
  {
    if s != [] && p(s[0]) then TrimStart(s[1..], p) else s
  }

  /** Drop the trailing characters that satisfy `p`. */
  function TrimEnd(s: string, p: char -> bool): (r: string)
    ensures r <= s
    ensures forall i :: |r| <= i < |s| ==> p(s[i])
    ensures r != [] ==> !p(r[|r| - 1])
  {
    if s != [] && p(s[|s| - 1]) then TrimEnd(s[..|s| - 1], p) else s
  }

  /** The parts before and after the first point; everything is before when there is none. */
  function SplitPoint(s: string): (r: (string, string))
    ensures '.' !in r.0
    ensures '.' in s ==> s == r.0 + "." + r.1
    ensures '.' !in s ==> r == (s, "")
  {
    if s == [] then ("", "")
    else if s[0] == '.' then ("", s[1..])
    else
      var (a, b) := SplitPoint(s[1..]);
      assert s == [s[0]] + s[1..];
      assert '.' in s[1..] ==> [s[0]] + a + "." + b == [s[0]] + (a + "." + b);
      ([s[0]] + a, b)
  }

  /** The split is the only one whose first part has no point. */
  lemma {:induction false} SplitPointOf(a: string, b: string)
    requires '.' !in a
    ensures SplitPoint(a + "." + b) == (a, b)
    decreases |a|
  {
    var s := a + "." + b;
    if a == [] {
      assert s[1..] == b;
    } else {
      assert s[1..] == a[1..] + "." + b;
      SplitPointOf(a[1..], b);
      assert [a[0]] + a[1..] == a;
    }
  }

  // ---------------------------------------------------------------- reading digits

  function DigitValue(c: char): (d: nat)
    requires IsDigit(c)
    ensures d <= 9
  {
    c as int - '0' as int
  }

  /** The number a string of digits stands for. */
  function NatOf(s: string): (n: nat)
    requires AllDigits(s)
  {
    if s == [] then 0 else NatOf(s[..|s| - 1]) * 10 + DigitValue(s[|s| - 1])
  }

  lemma {:induction false} NatOfAppend(a: string, b: string)
    requires AllDigits(a) && AllDigits(b)
    ensures AllDigits(a + b)
    ensures NatOf(a + b) == NatOf(a) * Pow10(|b|) + NatOf(b)
    decreases |b|
  {
    if b == [] {
      assert a + b == a;
      assert Pow10(0) == 1;
    } else {
      var b' := b[..|b| - 1];
      assert (a + b)[..|a + b| - 1] == a + b';
      NatOfAppend(a, b');
      ShiftLeft(NatOf(a), Pow10(|b'|), NatOf(b'));
    }
  }

  lemma ShiftLeft(x: nat, p: nat, y: nat)
    ensures (x * p + y) * 10 == x * (10 * p) + y * 10
  {
  }

  lemma {:induction false} NatOfBound(s: string)
    requires AllDigits(s)
    ensures NatOf(s) < Pow10(|s|)
    decreases |s|
  {
    if s != [] { NatOfBound(s[..|s| - 1]); }
  }

  lemma {:induction false} NatOfZeros(s: string)
    requires forall c :: c in s ==> c == '0'
    ensures AllDigits(s) && NatOf(s) == 0
    decreases |s|
  {
    if s != [] {
      var t := s[..|s| - 1];
      assert forall c :: c in t ==> c in s;
      NatOfZeros(t);
      assert s[|s| - 1] in s;
    }
  }

  /** A nonzero leading digit fixes the number of digits. */
  lemma NatOfLeading(s: string)
    requires AllDigits(s) && s != [] && s[0] != '0'
    ensures NatOf(s) >= Pow10(|s| - 1)
  {
    assert s == [s[0]] + s[1..];
    NatOfAppend([s[0]], s[1..]);
    assert NatOf([s[0]]) == DigitValue(s[0]) >= 1;
    MultiplyBounds(1, NatOf([s[0]]), Pow10(|s| - 1), Pow10(|s| - 1));
  }

  /** Leading zeros carry no value. */
  lemma NatOfTrimmed(s: string)
    requires AllDigits(s)
    ensures var t := TrimStart(s, IsZeroDigit); AllDigits(t) && NatOf(t) == NatOf(s)
  {
    var t := TrimStart(s, IsZeroDigit);
    var z := s[..|s| - |t|];
    assert s == z + t;
    NatOfZeros(z);
    NatOfAppend(z, t);
  }

  // ---------------------------------------------------------------- parsing

  /** Sign and body of a decimal string: blanks cut off both ends, all leading signs dropped, the
      first one deciding. */
  function Signed(s: string): (r: (bool, string)) {
    var t := TrimEnd(TrimStart(s, IsSpace), IsSpace);
    (t != [] && t[0] == '-', TrimStart(t, IsSign))
  }

  /** Digits, at most one point, and at least one digit. */
  predicate WellFormed(s: string) {
    var (a, b) := SplitPoint(Signed(s).1);
    (a != [] || b != []) && AllDigits(a) && AllDigits(b)
  }

  /** The digits without leading zeros. */
  function Significant(a: string, b: string): (digits: string)
    requires AllDigits(a) && AllDigits(b)
    ensures AllDigits(digits)
  {
    TrimStart(a + b, IsZeroDigit)
  }

  function FromDecimalString(s: string): (r: Result<IouAmount>) {
    var (negative, body) := Signed(s);
    var (a, b) := SplitPoint(body);
    if a == [] && b == [] then Err(Overflow)
    else if !AllDigits(a) || !AllDigits(b) then Err(Overflow)
    else
      var trimmed := Significant(a, b);
      if trimmed == [] then Ok(ZERO)
      else
        var kept := trimmed[..if |trimmed| < 17 then |trimmed| else 17];
        var dropped := |trimmed| - |kept|;
        FromParts(NatOf(kept), dropped - |b|, negative)
  }

  /** The exact magnitude a well-formed string stands for. */
  ghost function Reading(s: string): (x: real)
    requires WellFormed(s)
  {
    var (a, b) := SplitPoint(Signed(s).1);
    Value(NatOf(a + b), -|b|)
  }

  /** The first digits of a long string are its floor at the higher exponent. */
  lemma KeptFloors(s: string, n: nat, e: int)
    requires AllDigits(s) && n <= |s|
    ensures AllDigits(s[..n]) && Floors(Value(NatOf(s), e), NatOf(s[..n]), e + |s| - n)
  {
    hide Floors, Value, Pow10, NatOf, AllDigits;
    KeptBounds(s, n);
    FloorOfBounds(NatOf(s), NatOf(s[..n]), |s| - n, e);
  }

  lemma FloorOfBounds(x: nat, q: nat, k: nat, e: int)
    requires q * Pow10(k) <= x < (q + 1) * Pow10(k)
    ensures Floors(Value(x, e), q, e + k)
  {
    hide Value, Scale, Pow10;
    ValueShift(q, k, e);
    ValueShift(q + 1, k, e);
    ValueMonotone(q * Pow10(k), x, e);
    ValueMonotone(x, (q + 1) * Pow10(k), e);
  }

  lemma KeptBounds(s: string, n: nat)
    requires AllDigits(s) && n <= |s|
    ensures AllDigits(s[..n])
    ensures NatOf(s[..n]) * Pow10(|s| - n) <= NatOf(s) < (NatOf(s[..n]) + 1) * Pow10(|s| - n)
  {
    assert s == s[..n] + s[n..];
    hide NatOf, Pow10;
    NatOfAppend(s[..n], s[n..]);
    NatOfBound(s[n..]);
    Between(NatOf(s), NatOf(s[..n]), Pow10(|s| - n), NatOf(s[n..]));
  }

  lemma Between(x: nat, q: nat, p: nat, r: nat)
    requires x == q * p + r && r < p
    ensures q * p <= x < (q + 1) * p
  {
    assert (q + 1) * p == q * p + p;
  }

  lemma SeventeenDigitsLarge(n: nat)
    requires n >= Pow10(16)
    ensures n >= MIN_MANTISSA
  {
    assert Pow10(8) == 100_000_000;
    Pow10Add(8, 8);
  }

  /** Parsing any well-formed string of any length truncates its exact value toward zero to
      sixteen digits; anything else is an error. */
  lemma ParseTruncates(s: string)
    ensures !WellFormed(s) ==> FromDecimalString(s) == Err(Overflow)
    ensures WellFormed(s) ==> Truncates(Reading(s), Signed(s).0, FromDecimalString(s))
  {
    hide Value, Scale, FromParts, Truncates, Signed, NatOf, TrimStart;
    if WellFormed(s) {
      var (a, b) := SplitPoint(Signed(s).1);
      var digits := a + b;
      NatOfTrimmed(digits);
      var trimmed := TrimStart(digits, IsZeroDigit);
      var negative, e := Signed(s).0, -|b|;
      if trimmed == [] {
        NatOfZeros(trimmed);
        ZeroTruncates(e, negative);
      } else if |trimmed| <= 17 {
        assert trimmed[..|trimmed|] == trimmed;
        FromPartsTruncates(NatOf(trimmed), e, negative);
      } else {
        KeptFloors(trimmed, 17, e);
        NatOfLeading(trimmed[..17]);
        SeventeenDigitsLarge(NatOf(trimmed[..17]));
        FromPartsFloors(Reading(s), NatOf(trimmed[..17]), e + |trimmed| - 17, negative);
      }
    }
  }

  // ---------------------------------------------------------------- what is read

  predicate Blank(s: string) {
    forall c :: c in s ==> c == ' ' || c == '\t' || c == '\n' || c == '\r'
  }

  lemma BlankIsSpace(s: string)
    requires Blank(s)
    ensures forall c :: c in s ==> IsSpace(c)
  {
  }

  lemma {:induction false} TrimPrefix(pre: string, s: string, p: char -> bool)
    requires (forall c :: c in pre ==> p(c)) && (s == [] || !p(s[0]))
    ensures TrimStart(pre + s, p) == s
    decreases |pre|
  {
    if pre == [] {
      assert pre + s == s;
    } else {
      assert (pre + s)[0] == pre[0] && pre[0] in pre;
      assert (pre + s)[1..] == pre[1..] + s;
      TrimPrefix(pre[1..], s, p);
    }
  }

  lemma {:induction false} TrimSuffix(s: string, post: string, p: char -> bool)
    requires (forall c :: c in post ==> p(c)) && (s == [] || !p(s[|s| - 1]))
    ensures TrimEnd(s + post, p) == s
    decreases |post|
  {
    if post == [] {
      assert s + post == s;
    } else {
      var rest, last := post[..|post| - 1], post[|post| - 1];
      assert last in post && forall c :: c in rest ==> c in post;
      assert (s + post)[..|s + post| - 1] == s + rest && (s + post)[|s + post| - 1] == last;
      TrimSuffix(s, rest, p);
    }
  }

  lemma SplitAtPoint(a: string, b: string)
    requires '.' !in a
    ensures SplitPoint(a + "." + b) == (a, b)
  {
    var s := a + "." + b;
    var (x, y) := SplitPoint(s);
    assert s[|a|] == '.';
    assert s == x + "." + y && s[|x|] == '.';
    hide SplitPoint;
    assert forall i :: 0 <= i < |a| ==> s[i] == a[i] && a[i] in a;
    assert forall i :: 0 <= i < |x| ==> s[i] == x[i] && x[i] in x;
    assert |x| == |a|;
    assert x == s[..|a|] && a == s[..|a|] && y == s[|a| + 1..] && b == s[|a| + 1..];
  }

  /** Neither blank nor sign at either end of the digits. */
  lemma BodyEnds(a: string, b: string)
    requires AllDigits(a) && AllDigits(b)
    ensures var body := a + "." + b;
            !IsSpace(body[0]) && !IsSign(body[0]) && !IsSpace(body[|body| - 1]) && '.' !in a
  {
    var body := a + "." + b;
    assert body[0] == if a == [] then '.' else a[0];
    assert body[|body| - 1] == if b == [] then '.' else b[|b| - 1];
    assert a != [] ==> a[0] in a;
    assert b != [] ==> b[|b| - 1] in b;
    assert !IsDigit('.');
  }

  lemma SignEnds(sign: string, body: string)
    requires (sign == "" || sign == "-" || sign == "+") && body != []
    requires !IsSpace(body[0]) && !IsSign(body[0]) && !IsSpace(body[|body| - 1])
    ensures var written := sign + body;
            && !IsSpace(written[0]) && !IsSpace(written[|written| - 1])
            && (written[0] == '-' <==> sign == "-") && TrimStart(written, IsSign) == body
  {
    var written := sign + body;
    assert written[|written| - 1] == body[|body| - 1];
    if sign == "" {
      assert written == body;
    } else {
      assert written[1..] == body && written[0] == sign[0];
    }
  }

  lemma SignedText(pre: string, written: string, post: string)
    requires Blank(pre) && Blank(post) && written != []
    requires !IsSpace(written[0]) && !IsSpace(written[|written| - 1])
    ensures Signed(pre + written + post) == (written[0] == '-', TrimStart(written, IsSign))
  {
    hide TrimStart, TrimEnd, IsSpace, IsSign;
    assert pre + written + post == pre + (written + post);
    assert (written + post)[0] == written[0];
    BlankIsSpace(pre);
    BlankIsSpace(post);
    TrimPrefix(pre, written + post, IsSpace);
    TrimSuffix(written, post, IsSpace);
  }

  /** Any amount of blanks, at most one sign and digits with a point somewhere: read as written, whatever
      its length, and truncated toward zero to sixteen digits. */
  lemma PlainTextParses(pre: string, sign: string, a: string, b: string, post: string)
    requires Blank(pre) && Blank(post) && (sign == "" || sign == "-" || sign == "+")
    requires AllDigits(a) && AllDigits(b) && a + b != []
    ensures Truncates(Value(NatOf(a + b), -|b|), sign == "-",
                      FromDecimalString(pre + (sign + (a + "." + b)) + post))
  {
    var body := a + "." + b;
    var s := pre + (sign + body) + post;
    hide Signed, SplitPoint, FromDecimalString, Truncates, Value, NatOf, AllDigits, TrimStart, IsSpace, IsSign, Blank;
    BodyEnds(a, b);
    SignEnds(sign, body);
    SignedText(pre, sign + body, post);
    SplitAtPoint(a, b);
    ParsedAs(s, sign == "-", body, a, b);
  }

  lemma ParsedAs(s: string, negative: bool, body: string, a: string, b: string)
    requires Signed(s) == (negative, body) && SplitPoint(body) == (a, b)
    requires AllDigits(a) && AllDigits(b) && a + b != []
    ensures Truncates(Value(NatOf(a + b), -|b|), negative, FromDecimalString(s))
  {
    hide Signed, SplitPoint, FromDecimalString, Truncates, Value, NatOf, AllDigits;
    ParseTruncates(s);
  }

  lemma ZeroTruncates(e: int, negative: bool)
    ensures Truncates(Value(0, e), negative, Ok(ZERO))
  {
    ScalePositive(96);
    ScalePositive(-81);
  }

  // ---------------------------------------------------------------- printing

  function Digits(n: nat): (s: string)
    ensures AllDigits(s) && s != []
  {
    if n < 10 then [('0' as int + n) as char] else Digits(n / 10) + [('0' as int + n % 10) as char]
  }

  lemma {:induction false} DigitsRead(n: nat)
    ensures NatOf(Digits(n)) == n
    decreases n
  {
    var last := ('0' as int + n % 10) as char;
    if n < 10 {
      assert Digits(n) == [last];
      assert [last][..0] == [];
    } else {
      DigitsRead(n / 10);
      assert Digits(n)[..|Digits(n)| - 1] == Digits(n / 10);
    }
  }

  function Zeros(k: nat): (s: string)
    ensures |s| == k && forall c :: c in s ==> c == '0'
  {
    seq(k, _ => '0')
  }

  /** Integer and fraction digits of the printed form; the point is written when there is a fraction. */
  function PrintedParts(a: IouAmount): (r: (string, string)) {
    var digits, e := Digits(a.mantissa), a.exponent;
    if e >= 0 then (digits + Zeros(e), "")
    else if -e >= |digits| then ("0", TrimEnd(Zeros(-e - |digits|) + digits, IsZeroDigit))
    else
      var point := |digits| + e;
      (digits[..point], TrimEnd(digits[point..], IsZeroDigit))
  }

  /** Whether the point is written: there is a fraction, or the value is below one. */
  predicate WritesPoint(a: IouAmount) {
    -a.exponent >= |Digits(a.mantissa)| || PrintedParts(a).1 != []
  }

  function Body(a: IouAmount): (s: string) {
    var (w, f) := PrintedParts(a);
    if WritesPoint(a) then w + "." + f else w
  }

  function ToDecimalString(a: IouAmount): (s: string) {
    if a.mantissa == 0 then "0" else (if a.negative then "-" else "") + Body(a)
  }

  // ---------------------------------------------------------------- the round trip

  /** The printed parts are digits that read back as the magnitude. */
  lemma PrintedValue(a: IouAmount)
    ensures var (w, f) := PrintedParts(a);
            && w != [] && AllDigits(w) && AllDigits(f) && AllDigits(w + f)
            && Value(NatOf(w + f), -|f|) == Value(a.mantissa, a.exponent)
  {
    var digits, e := Digits(a.mantissa), a.exponent;
    DigitsRead(a.mantissa);
    hide Value, Scale, Pow10, NatOf, Digits, TrimEnd;
    if e >= 0 {
      NatOfZeros(Zeros(e));
      NatOfAppend(digits, Zeros(e));
      assert digits + Zeros(e) + "" == digits + Zeros(e);
      ValueShift(a.mantissa, e, 0);
    } else if -e >= |digits| {
      var pad := Zeros(-e - |digits|);
      NatOfZeros(pad);
      NatOfAppend(pad, digits);
      LeadingZero(pad + digits);
      CutValue("0", pad + digits, a.mantissa);
    } else {
      var point := |digits| + e;
      assert digits == digits[..point] + digits[point..];
      CutValue(digits[..point], digits[point..], a.mantissa);
    }
  }

  lemma LeadingZero(s: string)
    requires AllDigits(s)
    ensures AllDigits("0" + s) && NatOf("0" + s) == NatOf(s)
  {
    NatOfZeros("0");
    NatOfAppend("0", s);
  }

  /** Cutting the fraction's trailing zeros leaves the value alone. */
  lemma CutValue(w: string, f: string, m: nat)
    requires AllDigits(w) && AllDigits(f) && AllDigits(w + f) && NatOf(w + f) == m
    ensures var t := TrimEnd(f, IsZeroDigit);
            AllDigits(t) && AllDigits(w + t) && Value(NatOf(w + t), -|t|) == Value(m, -|f|)
  {
    var t := TrimEnd(f, IsZeroDigit);
    var z := f[|t|..];
    assert w + f == (w + t) + z;
    assert AllDigits(w + t);
    NatOfZeros(z);
    NatOfAppend(w + t, z);
    hide NatOf, Value, Scale;
    ValueShift(NatOf(w + t), |z|, -|f|);
  }

  /** A digit or a point is neither a blank nor a sign. */
  lemma PlainBody(a: IouAmount)
    requires a.mantissa > 0
    ensures var b := Body(a);
            && b != [] && !IsSign(b[0]) && !IsSpace(b[0]) && !IsSpace(b[|b| - 1])
            && SplitPoint(b) == PrintedParts(a)
  {
    PrintedValue(a);
    hide PrintedParts, Digits, Value, Scale, NatOf;
    var (w, f) := PrintedParts(a);
    var b := Body(a);
    assert forall c :: c in w ==> c != '.';
    assert b[0] == w[0] && w[0] in w;
    if WritesPoint(a) {
      SplitPointOf(w, f);
      assert f != [] ==> b[|b| - 1] == f[|f| - 1] && f[|f| - 1] in f;
      assert f == [] ==> b[|b| - 1] == '.';
    } else {
      assert b == w && w[|w| - 1] in w;
    }
  }

  /** Nothing to trim. */
  lemma SignedOf(negative: bool, b: string)
    requires b != [] && !IsSign(b[0]) && !IsSpace(b[0]) && !IsSpace(b[|b| - 1])
    ensures Signed((if negative then "-" else "") + b) == (negative, b)
  {
    var sign := if negative then "-" else "";
    hide Signed, TrimStart, IsSpace, IsSign;
    SignEnds(sign, b);
    SignedText("", sign + b, "");
    NothingAround(sign + b);
  }

  lemma NothingAround(s: string)
    ensures "" + s + "" == s
  {
  }

  /** Printing and parsing give back the same amount. */
  lemma PrintParseRoundTrip(a: IouAmount)
    requires Normalized(a)
    ensures FromDecimalString(ToDecimalString(a)) == Ok(a)
  {
    hide Value, Scale, FromDecimalString, PrintedParts, Body, Signed, SplitPoint, NatOf, Truncates;
    var s := ToDecimalString(a);
    if a == ZERO {
      assert s == "0";
      ParseZero(s);
    } else {
      PlainBody(a);
      SignedOf(a.negative, Body(a));
      PrintedValue(a);
      ParseTruncates(s);
      TruncationOfAmount(a, FromDecimalString(s));
    }
  }

  /** An amount is its own truncation. */
  lemma TruncationOfAmount(a: IouAmount, r: Result<IouAmount>)
    requires Normalized(a) && a != ZERO && Truncates(Magnitude(a), a.negative, r)
    ensures r == Ok(a)
  {
    hide Value, Scale;
    ValueMonotone(a.mantissa, a.mantissa + 1, a.exponent);
    DecadeBounds(Magnitude(a), a.mantissa, a.exponent);
    ScaleMonotone(-81, a.exponent + 15);
    ScaleMonotone(a.exponent + 16, 96);
    TruncationUnique(Magnitude(a), a.mantissa, a.exponent, r.value.mantissa, r.value.exponent);
  }

  lemma ParseZero(s: string)
    requires s == "0"
    ensures FromDecimalString(s) == Ok(ZERO)
  {
    hide FromDecimalString, Signed, SplitPoint, NatOf, Value, Scale;
    assert s[0] == '0' && |s| == 1;
    SignedOf(false, s);
    assert "" + s == s && s + "" == s;
    NatOfZeros(s);
    ParseTruncates(s);
    ZeroValue(0);
    ScalePositive(-81);
  }
}
