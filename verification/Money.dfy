/**
 * Printing and parsing amounts in the desktop wallet (bin/zipherx-gui/src/app.rs).
 *
 * Arithmetic overflow stops the program there, so parsing has three outcomes.
 */
module Money {
  import opened Common

  /** Units per coin: eight decimal places. */
  const COIN: nat := 100_000_000

  datatype Parsed = Amount(value: nat) | Rejected | Overflows

  // ---------------------------------------------------------------- decimal digits

  predicate IsDigit(c: char) {
    '0' <= c <= '9'
  }

  function DigitChar(d: nat): (c: char)
    requires d < 10
    ensures IsDigit(c) && DigitValue(c) == d
  {
    '0' + d as char
  }

  function DigitValue(c: char): (d: nat)
    requires IsDigit(c)
    ensures d < 10
  {
    (c - '0') as nat
  }

  predicate AllDigits(s: string) {
    forall i :: 0 <= i < |s| ==> IsDigit(s[i])
  }

  function Value(s: string): nat
    requires AllDigits(s)
  {
    if s == "" then 0 else 10 * Value(s[..|s| - 1]) + DigitValue(s[|s| - 1])
  }

  /** Decimal notation without leading zeros. */
  function Decimal(n: nat): (s: string)
    ensures s != "" && AllDigits(s)
  {
    if n < 10 then [DigitChar(n)] else Decimal(n / 10) + [DigitChar(n % 10)]
  }

  /** The last `width` digits of `n`, padded with zeros on the left (`{:08}` for amounts below 10^8). */
  function Fixed(n: nat, width: nat): (s: string)
    ensures |s| == width && AllDigits(s)
  {
    if width == 0 then "" else Fixed(n / 10, width - 1) + [DigitChar(n % 10)]
  }

  function Pow10(k: nat): nat {
    if k == 0 then 1 else 10 * Pow10(k - 1)
  }

  lemma ValueExtend(s: string, c: char)
    requires AllDigits(s) && IsDigit(c)
    ensures AllDigits(s + [c]) && Value(s + [c]) == 10 * Value(s) + DigitValue(c)
  {
    assert (s + [c])[..|s|] == s;
  }

  lemma {:induction false} DecimalValue(n: nat)
    ensures Value(Decimal(n)) == n
  {
    if n < 10 {
      ValueExtend("", DigitChar(n));
      assert "" + [DigitChar(n)] == [DigitChar(n)];
    } else {
      DecimalValue(n / 10);
      ValueExtend(Decimal(n / 10), DigitChar(n % 10));
    }
  }

  /** What is printed of a number is its value, and starts with a zero only if that is all. */
  lemma {:induction false} DecimalIs(n: nat)
    ensures Value(Decimal(n)) == n && (Decimal(n)[0] == '0' ==> |Decimal(n)| == 1)
  {
    DecimalValue(n);
    if 10 <= n {
      DecimalIs(n / 10);
      assert Decimal(n)[0] == Decimal(n / 10)[0];
      if Decimal(n)[0] == '0' {
        OneDigit('0');
        assert false;
      }
    }
  }

  lemma LoneZero(n: nat)
    ensures Value(Decimal(n)) == n && (Decimal(n)[0] == '0' ==> n == 0 && |Decimal(n)| == 1)
  {
    hide Value, Decimal;
    DecimalIs(n);
    if Decimal(n)[0] == '0' {
      OneDigit('0');
      assert Decimal(n) == "0";
    }
  }

  lemma {:induction false} FixedValue(n: nat, width: nat)
    requires n < Pow10(width)
    ensures Value(Fixed(n, width)) == n
  {
    if width > 0 {
      FixedValue(n / 10, width - 1);
      ValueExtend(Fixed(n / 10, width - 1), DigitChar(n % 10));
    }
  }

  // ---------------------------------------------------------------- string operations

  function Zeros(n: nat): (s: string)
    ensures |s| == n && AllDigits(s) && forall i :: 0 <= i < n ==> s[i] == '0'
  {
    seq(n, _ => '0')
  }

  /** `trim_end_matches('0')` */
  function TrimZeros(s: string): string {
    if s != "" && s[|s| - 1] == '0' then TrimZeros(s[..|s| - 1]) else s
  }

  /** `{:0<8}` */
  function PadRight(s: string, width: nat): string {
    if |s| < width then s + Zeros(width - |s|) else s
  }

  /** `split`: the pieces between separators. */
  function Split(s: string, sep: char): (parts: seq<string>)
    ensures parts != []
  {
    if s == "" then [""]
    else
      var n := |s| - 1;
      var parts := Split(s[..n], sep);
      if s[n] == sep then parts + [""] else parts[..|parts| - 1] + [parts[|parts| - 1] + [s[n]]]
  }

  lemma {:induction false} SplitNone(s: string, sep: char)
    requires sep !in s
    ensures Split(s, sep) == [s]
  {
    if s != "" {
      SplitNone(s[..|s| - 1], sep);
      assert s == s[..|s| - 1] + [s[|s| - 1]];
    }
  }

  lemma {:induction false} SplitOnce(a: string, b: string, sep: char)
    requires sep !in a && sep !in b
    ensures Split(a + [sep] + b, sep) == [a, b]
  {
    var s := a + [sep] + b;
    if b == "" {
      assert s[..|s| - 1] == a;
      SplitNone(a, sep);
    } else {
      assert s[..|s| - 1] == a + [sep] + b[..|b| - 1];
      SplitOnce(a, b[..|b| - 1], sep);
      assert b == b[..|b| - 1] + [b[|b| - 1]];
    }
  }

  /** Trimming removes zeros only, and all of those at the end. */
  lemma {:induction false} TrimExact(s: string)
    ensures var t := TrimZeros(s); |t| <= |s| && s == t + Zeros(|s| - |t|)
    ensures var t := TrimZeros(s); t != "" ==> t[|t| - 1] != '0'
  {
    if s != "" && s[|s| - 1] == '0' {
      TrimExact(s[..|s| - 1]);
    }
  }

  /** A separator stops the trimming. */
  lemma {:induction false} TrimAfter(a: string, b: string)
    requires b != "" && TrimZeros(b) != ""
    ensures TrimZeros(a + b) == a + TrimZeros(b)
  {
    if b[|b| - 1] == '0' {
      assert (a + b)[..|a + b| - 1] == a + b[..|b| - 1];
      TrimAfter(a, b[..|b| - 1]);
    }
  }

  // ---------------------------------------------------------------- printing and parsing

  function Format(amount: nat): string {
    var whole, frac := amount / COIN, amount % COIN;
    if frac == 0 then Decimal(whole) + ".0"
    else TrimZeros(Decimal(whole) + "." + Fixed(frac, 8))
  }

  /** What follows an optional plus sign. */
  function Unsigned(s: string): string {
    if s != "" && s[0] == '+' then s[1..] else s
  }

  /** `str::parse::<u64>`: an optional plus sign, then at least one digit, and no overflow. */
  function ParseU64(s: string): Option<nat> {
    var digits := Unsigned(s);
    if digits == "" || !AllDigits(digits) || U64_MAX < Value(digits) then None else Some(Value(digits))
  }

  function Checked(value: nat): Parsed {
    if value <= U64_MAX then Amount(value) else Overflows
  }

  function Parse(input: string): Parsed {
    var parts := Split(input, '.');
    if |parts| == 1 then
      var whole := ParseU64(parts[0]);
      if whole.None? then Rejected else Checked(whole.value * COIN)
    else if |parts| == 2 then
      var whole := ParseU64(parts[0]);
      var padded := PadRight(parts[1], 8);
      if whole.None? || 8 < |padded| then Rejected
      else
        var frac := ParseU64(padded);
        if frac.None? then Rejected else Checked(whole.value * COIN + frac.value)
    else Rejected
  }

  lemma ParseDigits(s: string)
    requires s != "" && AllDigits(s)
    ensures ParseU64(s) == if Value(s) <= U64_MAX then Some(Value(s)) else None
  {
  }

  lemma NoDot(s: string)
    requires AllDigits(s)
    ensures '.' !in s
  {
  }

  lemma TenToTheEighth()
    ensures Pow10(8) == COIN
  {
    assert Pow10(4) == 10_000;
  }

  /** Digits that are not all zero survive the trimming. */
  lemma {:induction false} TrimLeavesDigits(s: string)
    requires AllDigits(s) && Value(s) != 0
    ensures TrimZeros(s) != ""
  {
    if s[|s| - 1] == '0' {
      TrimLeavesDigits(s[..|s| - 1]);
    }
  }

  /** The shape of a printed amount: a whole part and a fraction that pads back to eight digits. */
  lemma FormatShape(amount: nat) returns (frac: string)
    ensures AllDigits(frac) && 1 <= |frac| <= 8
    ensures Format(amount) == Decimal(amount / COIN) + ['.'] + frac
    ensures PadRight(frac, 8) == Fixed(amount % COIN, 8)
    ensures frac == "0" || frac[|frac| - 1] != '0'
    ensures Value(Decimal(amount / COIN)) == amount / COIN && Value(Fixed(amount % COIN, 8)) == amount % COIN
    ensures Decimal(amount / COIN)[0] == '0' ==> amount < COIN && |Decimal(amount / COIN)| == 1
  {
    hide Value, Pow10, Decimal, Fixed;
    LoneZero(amount / COIN);
    var f := amount % COIN;
    TenToTheEighth();
    FixedValue(f, 8);
    var digits := Fixed(f, 8);
    if f == 0 {
      frac := "0";
      FixedZero(8);
      assert PadRight("0", 8) == Zeros(8);
    } else {
      frac := TrimZeros(digits);
      TrimExact(digits);
      TrimLeavesDigits(digits);
      assert forall i :: 0 <= i < |frac| ==> frac[i] == digits[i];
      TrimAfter(Decimal(amount / COIN) + ".", digits);
    }
  }

  lemma {:induction false} FixedZero(width: nat)
    ensures Fixed(0, width) == Zeros(width)
  {
    if width > 0 {
      FixedZero(width - 1);
    }
  }

  /**
   * Parsing the eight-decimal notation of any number: the number itself if it is a 64-bit amount,
   * a stop if only the whole part still is, and a refusal otherwise.
   */
  lemma ParsePrinted(n: nat)
    ensures Parse(Format(n)) ==
            if n <= U64_MAX then Amount(n) else if n / COIN <= U64_MAX then Overflows else Rejected
  {
    hide Decimal, Fixed, TrimZeros, Split, Value;
    var frac := FormatShape(n);
    var whole := Decimal(n / COIN);
    NoDot(whole);
    NoDot(frac);
    SplitOnce(whole, frac, '.');
    DecimalValue(n / COIN);
    TenToTheEighth();
    FixedValue(n % COIN, 8);
    ParseDigits(whole);
    ParseDigits(Fixed(n % COIN, 8));
  }

  /** Parsing what was printed gives the amount back, for every 64-bit amount. */
  lemma RoundTrip(amount: nat)
    requires amount <= U64_MAX
    ensures Parse(Format(amount)) == Amount(amount)
  {
    ParsePrinted(amount);
  }

  /** Two amounts print alike only if they are equal. */
  lemma FormatInjective(a: nat, b: nat)
    requires a <= U64_MAX && b <= U64_MAX && Format(a) == Format(b)
    ensures a == b
  {
    RoundTrip(a);
    RoundTrip(b);
  }

  // ---------------------------------------------------------------- accepted spellings

  /** An optional plus sign and digits that make a 64-bit number. */
  predicate Whole(w: string) {
    Unsigned(w) != "" && AllDigits(Unsigned(w)) && Value(Unsigned(w)) <= U64_MAX
  }

  /** At most eight characters: an optional plus sign, which takes one of the places, and digits. */
  predicate Fraction(f: string) {
    |f| <= 8 && AllDigits(Unsigned(f))
  }

  ghost predicate Spelled(input: string) {
    Whole(input) || exists w, f :: Whole(w) && Fraction(f) && input == w + ['.'] + f
  }

  /** One piece is the whole string; two are what stands before and after the separator. */
  lemma {:induction false} SplitPieces(s: string, sep: char)
    ensures var parts := Split(s, sep);
            && (|parts| == 1 ==> s == parts[0])
            && (|parts| == 2 ==> s == parts[0] + [sep] + parts[1])
  {
    if s != "" {
      SplitPieces(s[..|s| - 1], sep);
      assert s == s[..|s| - 1] + [s[|s| - 1]];
    }
  }

  lemma {:induction false} ValueZeros(s: string, n: nat)
    requires AllDigits(s)
    ensures Value(s + Zeros(n)) == Value(s) * Pow10(n)
  {
    hide Value, AllDigits;
    if n == 0 {
      assert s + Zeros(0) == s;
    } else {
      ValueZeros(s, n - 1);
      ZeroLast(s, n);
      TimesTen(Value(s), Pow10(n - 1));
    }
  }

  lemma ZeroLast(s: string, n: nat)
    requires AllDigits(s) && 0 < n
    ensures Value(s + Zeros(n)) == 10 * Value(s + Zeros(n - 1))
  {
    hide Value;
    assert s + Zeros(n) == s + Zeros(n - 1) + ['0'];
    ValueExtend(s + Zeros(n - 1), '0');
  }

  lemma TimesTen(v: nat, p: nat)
    ensures 10 * (v * p) == v * (10 * p)
  {
  }

  lemma {:induction false} ValueBelow(s: string)
    requires AllDigits(s)
    ensures Value(s) < Pow10(|s|)
  {
    if s != "" {
      ValueBelow(s[..|s| - 1]);
    }
  }

  lemma {:induction false} PowGrows(a: nat, b: nat)
    requires a <= b
    ensures Pow10(a) <= Pow10(b)
  {
    if a < b {
      PowGrows(a, b - 1);
    }
  }

  lemma SpelledNoDot(s: string)
    requires AllDigits(Unsigned(s))
    ensures '.' !in s
  {
    NoDot(Unsigned(s));
  }

  /** A fraction is accepted exactly if it is so spelled, and counts units by its last place. */
  lemma FractionPadded(f: string)
    ensures |PadRight(f, 8)| <= 8 && ParseU64(PadRight(f, 8)).Some? <==> Fraction(f)
    ensures Fraction(f) ==> ParseU64(PadRight(f, 8)) == Some(Value(Unsigned(f)) * Pow10(8 - |f|))
  {
    hide Value, Pow10;
    var padded := PadRight(f, 8);
    if |f| <= 8 {
      var zeros := Zeros(8 - |f|);
      assert padded == f + zeros;
      if f == "" {
        assert padded == zeros;
        ValueZeros("", 8);
        assert "" + zeros == zeros;
        NoDigits();
      } else {
        assert Unsigned(padded) == Unsigned(f) + zeros;
        assert forall i :: 0 <= i < |Unsigned(f)| ==> Unsigned(padded)[i] == Unsigned(f)[i];
        assert Unsigned(f) == "" ==> |zeros| == 7;
        if AllDigits(Unsigned(f)) {
          ValueZeros(Unsigned(f), 8 - |f|);
          ValueBelow(Unsigned(padded));
          PowGrows(|Unsigned(padded)|, 8);
          TenToTheEighth();
        }
      }
    }
  }

  lemma WholeParsed(w: string)
    requires Whole(w)
    ensures ParseU64(w) == Some(Value(Unsigned(w)))
  {
  }

  /** What each spelling stands for. */
  lemma SpellingMeans(w: string, f: string)
    requires Whole(w) && Fraction(f)
    ensures Parse(w) == Checked(Value(Unsigned(w)) * COIN)
    ensures Parse(w + ['.'] + f) == Checked(Value(Unsigned(w)) * COIN + Value(Unsigned(f)) * Pow10(8 - |f|))
  {
    hide Value, PadRight, Split, Unsigned, AllDigits, ParseU64, Pow10, Checked;
    SpelledNoDot(w);
    SpelledNoDot(f);
    WholeParsed(w);
    SplitNone(w, '.');
    SplitOnce(w, f, '.');
    FractionPadded(f);
  }

  /** An input gets past the refusals if and only if it is so spelled. */
  lemma AcceptedSpellings(input: string)
    ensures Parse(input) != Rejected <==> Spelled(input)
  {
    hide Value, PadRight, Split;
    SplitPieces(input, '.');
    var parts := Split(input, '.');
    if Parse(input) != Rejected && |parts| == 2 {
      FractionPadded(parts[1]);
      assert Whole(parts[0]) && Fraction(parts[1]);
    }
    if Whole(input) {
      SpellingMeans(input, "");
    }
    forall w, f | Whole(w) && Fraction(f) && input == w + ['.'] + f ensures Parse(input) != Rejected {
      SpellingMeans(w, f);
    }
  }

  /** A plus sign inside the fraction is accepted and takes a decimal place: this is 1.05, not 1.5. */
  lemma SignInFraction()
    ensures Parse("1.+5") == Amount(105_000_000) && Parse("1.5") == Amount(150_000_000)
  {
    hide Split, PadRight, Parse;
    OneDigit('1');
    OneDigit('5');
    assert Unsigned("+5") == "5" && Unsigned("5") == "5" && Unsigned("1") == "1";
    SpellingMeans("1", "+5");
    SpellingMeans("1", "5");
    assert "1" + ['.'] + "+5" == "1.+5" && "1" + ['.'] + "5" == "1.5";
    assert Pow10(3) == 1_000 && Pow10(6) == 1_000_000;
  }

  lemma OneDigit(c: char)
    requires IsDigit(c)
    ensures AllDigits([c]) && Value([c]) == DigitValue(c)
  {
    hide Value;
    NoDigits();
    ValueExtend("", c);
    assert "" + [c] == [c];
  }

  lemma NoDigits()
    ensures Value("") == 0
  {
  }
}
