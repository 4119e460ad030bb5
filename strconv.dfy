/** Go's strconv.Atoi for a 64-bit int, and strconv.Itoa as its inverse. */
module Strconv {
  import opened Wrappers

  const MaxInt: int := 0x7fff_ffff_ffff_ffff
  const MinInt: int := -0x8000_0000_0000_0000
  const MaxUint64: int := 0xffff_ffff_ffff_ffff

  datatype NumError = ErrSyntax | ErrRange

  /** What Atoi returns: a value and, possibly, an error; Go returns both together. */
  datatype Parsed = Parsed(value: int, err: Option<NumError>)

  predicate IsDigit(c: char)
  {
    '0' <= c <= '9'
  }

  predicate AllDigits(s: string)
  {
    forall i :: 0 <= i < |s| ==> IsDigit(s[i])
  }

  function DigitOf(c: char): nat
    requires IsDigit(c)
  {
    c as int - '0' as int
  }

  predicate HasSign(s: string)
  {
    |s| > 0 && (s[0] == '+' || s[0] == '-')
  }

  predicate IsNegative(s: string)
  {
    |s| > 0 && s[0] == '-'
  }

  /** The characters after an optional sign. */
  function Magnitude(s: string): string
  {
    if HasSign(s) then s[1..] else s
  }

  /** A decimal integer in base 10: an optional sign and at least one digit (no '_', no spaces). */
  predicate IsDecimal(s: string)
  {
    |Magnitude(s)| > 0 && AllDigits(Magnitude(s))
  }

  function DecimalValue(ds: string): nat
    requires AllDigits(ds)
  {
    if |ds| == 0 then 0
    else DecimalValue(ds[..|ds| - 1]) * 10 + DigitOf(ds[|ds| - 1])
  }

  /** The longest run of digits at the front of s. */
  function LeadingDigits(s: string): (d: string)
    ensures AllDigits(d) && |d| <= |s|
  {
    if |s| == 0 || !IsDigit(s[0]) then ""
    else [s[0]] + LeadingDigits(s[1..])
  }

  /** The value of the digit run that follows the sign. */
  function LeadingValue(s: string): nat
  {
    DecimalValue(LeadingDigits(Magnitude(s)))
  }

  // ---------------------------------------------------------------------
  // The slow path: ParseInt(s, 10, 0) over ParseUint

  /** What ParseUint returns in base 10: a value, a syntax error, or a range error (value maxUint64). */
  datatype Unsigned = Value(n: nat) | SyntaxError | RangeError

  /**
   * ParseUint's digit loop from the value n read so far. A non-digit is a
   * syntax error; a digit that takes the value past maxUint64 is a range
   * error at once, whatever follows. Go's two checks (n >= cutoff, then
   * n1 > maxVal) together say exactly that n * 10 + d exceeds maxUint64.
   */
  function ParseDigits(s: string, n: nat): (r: Unsigned)
    requires n <= MaxUint64
    ensures r.Value? ==> r.n <= MaxUint64
    decreases |s|
  {
    if |s| == 0 then Value(n)
    else if !IsDigit(s[0]) then SyntaxError
    else if n * 10 + DigitOf(s[0]) > MaxUint64 then RangeError
    else ParseDigits(s[1..], n * 10 + DigitOf(s[0]))
  }

  /** strconv.ParseUint(s, 10, 64). */
  function ParseUint(s: string): Unsigned
  {
    if |s| == 0 then SyntaxError else ParseDigits(s, 0)
  }

  /**
   * strconv.ParseInt(s, 10, 64): a syntax error gives 0; a range error, from
   * ParseUint or from the int64 bounds, gives the bound on the side of the sign.
   */
  function ParseInt(s: string): (r: Parsed)
    ensures MinInt <= r.value <= MaxInt
  {
    if |s| == 0 then Parsed(0, Some(ErrSyntax))
    else
      var neg := s[0] == '-';
      match ParseUint(Magnitude(s))
      case SyntaxError => Parsed(0, Some(ErrSyntax))
      case RangeError => if neg then Parsed(MinInt, Some(ErrRange)) else Parsed(MaxInt, Some(ErrRange))
      case Value(un) =>
        if !neg && un > MaxInt then Parsed(MaxInt, Some(ErrRange))
        else if neg && un > -MinInt then Parsed(MinInt, Some(ErrRange))
        else Parsed(if neg then -(un as int) else un, None)
  }

  // ---------------------------------------------------------------------
  // The fast path for fewer than 19 bytes, and Atoi

  /** The fast path's digit loop: no overflow check (18 digits cannot overflow). */
  function FastDigits(s: string, n: int): Option<int>
    decreases |s|
  {
    if |s| == 0 then Some(n)
    else if !IsDigit(s[0]) then None
    else FastDigits(s[1..], n * 10 + DigitOf(s[0]))
  }

  function FastAtoi(s: string): Parsed
    requires |s| > 0
  {
    if HasSign(s) && |s| == 1 then Parsed(0, Some(ErrSyntax))
    else match FastDigits(Magnitude(s), 0)
      case None => Parsed(0, Some(ErrSyntax))
      case Some(n) => Parsed(if s[0] == '-' then -n else n, None)
  }

  /** strconv.Atoi on a 64-bit platform: the fast path below 19 bytes, ParseInt otherwise. */
  function Atoi(s: string): (r: Parsed)
    ensures MinInt <= r.value <= MaxInt
  {
    if 0 < |s| < 19 then
      FastPathAgrees(s);
      FastAtoi(s)
    else ParseInt(s)
  }

  // ---------------------------------------------------------------------
  // What the loops compute

  /** The run LeadingDigits takes is a prefix of s, and the character after it is not a digit. */
  lemma {:induction false} LeadingDigitsIsRun(s: string)
    ensures LeadingDigits(s) == s[..|LeadingDigits(s)|]
    ensures |LeadingDigits(s)| < |s| ==> !IsDigit(s[|LeadingDigits(s)|])
    decreases |s|
  {
    if |s| > 0 && IsDigit(s[0]) {
      LeadingDigitsIsRun(s[1..]);
      var d' := LeadingDigits(s[1..]);
      assert s[..1 + |d'|] == [s[0]] + s[1..][..|d'|];
      if 1 + |d'| < |s| {
        assert s[1 + |d'|] == s[1..][|d'|];
      }
    }
  }

  lemma {:induction false} LeadingDigitsOfDigits(s: string)
    requires AllDigits(s)
    ensures LeadingDigits(s) == s
    decreases |s|
  {
    if |s| > 0 {
      LeadingDigitsOfDigits(s[1..]);
      assert [s[0]] + s[1..] == s;
    }
  }

  /** The value both digit loops build, reading left to right from n. */
  function Fold(n: nat, ds: string): nat
    requires AllDigits(ds)
    decreases |ds|
  {
    if |ds| == 0 then n else Fold(n * 10 + DigitOf(ds[0]), ds[1..])
  }

  lemma {:induction false} FoldGrows(n: nat, ds: string)
    requires AllDigits(ds)
    ensures Fold(n, ds) >= n
    decreases |ds|
  {
    if |ds| > 0 {
      FoldGrows(n * 10 + DigitOf(ds[0]), ds[1..]);
    }
  }

  lemma {:induction false} FoldSnoc(n: nat, ds: string, c: char)
    requires AllDigits(ds) && IsDigit(c)
    ensures AllDigits(ds + [c])
    ensures Fold(n, ds + [c]) == Fold(n, ds) * 10 + DigitOf(c)
    decreases |ds|
  {
    if |ds| == 0 {
      assert ds + [c] == [c];
      assert [c][1..] == "";
    } else {
      assert (ds + [c])[0] == ds[0];
      assert (ds + [c])[1..] == ds[1..] + [c];
      FoldSnoc(n * 10 + DigitOf(ds[0]), ds[1..], c);
    }
  }

  /** Reading left to right gives the decimal value. */
  lemma {:induction false} FoldValue(ds: string)
    requires AllDigits(ds)
    ensures Fold(0, ds) == DecimalValue(ds)
    decreases |ds|
  {
    if |ds| > 0 {
      var init := ds[..|ds| - 1];
      FoldValue(init);
      assert init + [ds[|ds| - 1]] == ds;
      FoldSnoc(0, init, ds[|ds| - 1]);
    }
  }

  /**
   * ParseUint's loop from the value n: a range error exactly when reading the
   * leading digit run takes the value past maxUint64; otherwise the value when
   * s is only digits; otherwise a syntax error.
   */
  lemma {:induction false} ParseDigitsFold(s: string, n: nat)
    requires n <= MaxUint64
    ensures ParseDigits(s, n) ==
              if Fold(n, LeadingDigits(s)) > MaxUint64 then RangeError
              else if LeadingDigits(s) == s then Value(Fold(n, s))
              else SyntaxError
    decreases |s|
  {
    if |s| > 0 && IsDigit(s[0]) {
      var n1 := n * 10 + DigitOf(s[0]);
      var d' := LeadingDigits(s[1..]);
      var d := LeadingDigits(s);
      assert d == [s[0]] + d';
      assert d[0] == s[0] && d[1..] == d';
      assert Fold(n, d) == Fold(n1, d');
      assert d == s <==> d' == s[1..];
      if n1 > MaxUint64 {
        FoldGrows(n1, d');
      } else {
        ParseDigitsFold(s[1..], n1);
      }
    }
  }

  /** The fast path's loop from the value n: the value when s is only digits, otherwise none. */
  lemma {:induction false} FastDigitsFold(s: string, n: nat)
    ensures FastDigits(s, n) == if AllDigits(s) then Some(Fold(n, s) as int) else None
    decreases |s|
  {
    if |s| > 0 && IsDigit(s[0]) {
      assert AllDigits(s) <==> AllDigits(s[1..]) by {
        if AllDigits(s[1..]) {
          assert forall i :: 1 <= i < |s| ==> s[i] == s[1..][i - 1];
        }
      }
      FastDigitsFold(s[1..], n * 10 + DigitOf(s[0]));
    }
  }

  /** ParseUint in three cases, by the value of the leading digit run. */
  lemma ParseUintCases(m: string)
    ensures DecimalValue(LeadingDigits(m)) > MaxUint64 ==> ParseUint(m) == RangeError
    ensures DecimalValue(LeadingDigits(m)) <= MaxUint64 && |m| > 0 && AllDigits(m) ==>
              ParseUint(m) == Value(DecimalValue(m))
    ensures DecimalValue(LeadingDigits(m)) <= MaxUint64 && !(|m| > 0 && AllDigits(m)) ==>
              ParseUint(m) == SyntaxError
  {
    var d := LeadingDigits(m);
    FoldValue(d);
    if |m| > 0 {
      ParseDigitsFold(m, 0);
      if AllDigits(m) {
        LeadingDigitsOfDigits(m);
      } else {
        assert d != m;
      }
    }
  }

  lemma DecimalValueBound(ds: string)
    requires AllDigits(ds)
    ensures DecimalValue(ds) < Pow10(|ds|)
  {
    if |ds| > 0 {
      DecimalValueBound(ds[..|ds| - 1]);
    }
  }

  function Pow10(k: nat): (p: nat)
    ensures p >= 1
  {
    if k == 0 then 1 else 10 * Pow10(k - 1)
  }

  lemma Pow10Grows(j: nat, k: nat)
    requires j <= k
    ensures Pow10(j) <= Pow10(k)
  {
  }

  lemma {:induction false} Pow10Add(j: nat, k: nat)
    ensures Pow10(j + k) == Pow10(j) * Pow10(k)
    decreases j
  {
    if j > 0 {
      Pow10Add(j - 1, k);
      assert Pow10(j + k) == 10 * Pow10(j - 1 + k);
    }
  }

  /** Eighteen digits stay below 10^18, inside the int64 range. */
  lemma EighteenDigitsFit(ds: string)
    requires AllDigits(ds) && |ds| <= 18
    ensures DecimalValue(ds) < 1_000_000_000_000_000_000
  {
    DecimalValueBound(ds);
    Pow10Grows(|ds|, 18);
    assert Pow10(3) == 1000;
    Pow10Add(3, 3);
    Pow10Add(6, 3);
    Pow10Add(9, 9);
  }

  /** Below 19 bytes the fast path answers what ParseInt answers. */
  lemma FastPathAgrees(s: string)
    requires 0 < |s| < 19
    ensures FastAtoi(s) == ParseInt(s)
  {
    var m := Magnitude(s);
    ParseUintCases(m);
    EighteenDigitsFit(LeadingDigits(m));
    FastDigitsFold(m, 0);
    if AllDigits(m) {
      FoldValue(m);
      LeadingDigitsOfDigits(m);
    }
  }

  /**
   * Atoi's outcome by cases on the sign and the leading digit run: a syntax
   * error (value 0) exactly when the text is not decimal and its leading run
   * fits in 64 bits; no error exactly when it is decimal and in int64 range,
   * with its signed value; otherwise a range error with the bound of the sign.
   */
  lemma AtoiCases(s: string)
    ensures Atoi(s).err == Some(ErrSyntax) <==> !IsDecimal(s) && LeadingValue(s) <= MaxUint64
    ensures Atoi(s).err == Some(ErrSyntax) ==> Atoi(s).value == 0
    ensures Atoi(s).err.None? <==>
              IsDecimal(s) && LeadingValue(s) <= (if IsNegative(s) then -MinInt else MaxInt)
    ensures Atoi(s).err.None? ==>
              Atoi(s).value == if IsNegative(s) then -(LeadingValue(s) as int) else LeadingValue(s)
    ensures Atoi(s).err == Some(ErrRange) ==> Atoi(s).value == if IsNegative(s) then MinInt else MaxInt
  {
    if 0 < |s| < 19 {
      FastPathAgrees(s);
    }
    var m := Magnitude(s);
    ParseUintCases(m);
    if |m| > 0 && AllDigits(m) {
      LeadingDigitsOfDigits(m);
    }
  }

  // ---------------------------------------------------------------------
  // Itoa

  function DigitChar(d: nat): char
    requires d < 10
  {
    ('0' as int + d) as char
  }

  /** The decimal digits of n, without leading zeros. */
  function DecimalDigits(n: nat): (s: string)
    ensures |s| >= 1 && AllDigits(s)
    decreases n
  {
    if n < 10 then [DigitChar(n)]
    else DecimalDigits(n / 10) + [DigitChar(n % 10)]
  }

  /** strconv.Itoa. */
  function Itoa(n: int): string
  {
    if n < 0 then "-" + DecimalDigits(-n) else DecimalDigits(n)
  }

  lemma {:induction false} DecimalDigitsValue(n: nat)
    ensures DecimalValue(DecimalDigits(n)) == n
    decreases n
  {
    if n >= 10 {
      var s := DecimalDigits(n);
      DecimalDigitsValue(n / 10);
      assert s[..|s| - 1] == DecimalDigits(n / 10);
    }
  }

  /** Atoi reads back every int64 that Itoa prints, without error. */
  lemma AtoiItoa(n: int)
    requires MinInt <= n <= MaxInt
    ensures Atoi(Itoa(n)) == Parsed(n, None)
  {
    var s := Itoa(n);
    if n < 0 {
      assert s[1..] == DecimalDigits(-n);
      DecimalDigitsValue(-n);
    } else {
      DecimalDigitsValue(n);
    }
    LeadingDigitsOfDigits(Magnitude(s));
    AtoiCases(s);
  }
}
