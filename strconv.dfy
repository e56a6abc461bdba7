/** The two text parsers `populate` relies on: `strconv.ParseInt(s, 10, 64)`
    for `int` fields and `strconv.ParseBool` for `bool` fields. Each is given
    as Go computes it and is proved equal to a declarative description of the
    texts it accepts, the value it yields and the error it reports. */
module Strconv {
  import opened Errors

  const MaxUint64: int := 0xFFFF_FFFF_FFFF_FFFF
  const MaxInt64: int := 0x7FFF_FFFF_FFFF_FFFF
  const MinInt64: int := -0x8000_0000_0000_0000
  /** An accumulator at or above this bound overflows 64 bits when multiplied by 10. */
  const Cutoff: int := MaxUint64 / 10 + 1

  predicate InInt64(n: int) {
    MinInt64 <= n <= MaxInt64
  }

  predicate IsDigit(c: char) {
    '0' <= c <= '9'
  }

  function DigitValue(c: char): nat
    requires IsDigit(c)
  {
    c as int - '0' as int
  }

  predicate AllDigits(t: string) {
    forall i :: 0 <= i < |t| ==> IsDigit(t[i])
  }

  /** The number a digit string denotes, most significant digit first. */
  function DecimalValue(t: string): nat
    requires AllDigits(t)
  {
    if t == [] then 0 else 10 * DecimalValue(t[..|t| - 1]) + DigitValue(t[|t| - 1])
  }

  /** The length of the longest prefix of `t` made of digits. */
  function DigitRun(t: string): (n: nat)
    ensures n <= |t| && AllDigits(t[..n])
    ensures n < |t| ==> !IsDigit(t[n])
  {
    if t == [] || !IsDigit(t[0]) then 0
    else
      var n := 1 + DigitRun(t[1..]);
      assert t[..n] == [t[0]] + t[1..][..n - 1];
      n
  }

  /** `s` without the one leading sign ParseInt strips. */
  function Magnitude(s: string): string {
    if |s| > 0 && (s[0] == '+' || s[0] == '-') then s[1..] else s
  }

  predicate IsNegative(s: string) {
    |s| > 0 && s[0] == '-'
  }

  /** An optional sign followed by one or more decimal digits. */
  predicate IsDecimal(s: string) {
    |Magnitude(s)| > 0 && AllDigits(Magnitude(s))
  }

  function SignedValue(s: string): int
    requires IsDecimal(s)
  {
    var v: int := DecimalValue(Magnitude(s));
    if IsNegative(s) then -v else v
  }

  /** The texts for which ParseInt reports "value out of range" rather than
      "invalid syntax": the digits before the first non-digit already exceed
      64 bits unsigned, or the whole text is decimal and outside int64. */
  predicate OutOfRange(s: string) {
    var t := Magnitude(s);
    |t| > 0 &&
    (DecimalValue(t[..DigitRun(t)]) > MaxUint64 || (AllDigits(t) && !InInt64(SignedValue(s))))
  }

  /** What ParseUint's digit loop ends with. */
  datatype UintScan = Scanned(n: nat) | SyntaxAt | Overflow

  /** ParseUint's loop for base 10 and 64 bits, from index `i` with accumulator `n`:
      a non-digit is a syntax error, and the first digit that takes the
      accumulator past 64 bits is a range error, whatever follows it. */
  function ScanDigits(t: string, i: nat, n: nat): (r: UintScan)
    requires i <= |t|
    ensures r.Scanned? ==> n <= r.n
    ensures r.Scanned? && n <= MaxUint64 ==> r.n <= MaxUint64
    decreases |t| - i
  {
    if i == |t| then Scanned(n)
    else if !IsDigit(t[i]) then SyntaxAt
    else if n >= Cutoff then Overflow
    else if 10 * n + DigitValue(t[i]) > MaxUint64 then Overflow
    else ScanDigits(t, i + 1, 10 * n + DigitValue(t[i]))
  }

  /** strconv.ParseInt(s, 10, 64): what it yields fits int64, and a failure
      is always a NumError of ParseInt carrying the whole text. */
  function ParseInt(s: string): (r: Result<int>)
    ensures r.Ok? ==> InInt64(r.value)
    ensures r.Err? ==> r.error.NumError? && r.error.fnName == "ParseInt" && r.error.num == s
  {
    if s == [] then Err(NumError("ParseInt", s, ErrSyntax))
    else
      var neg := s[0] == '-';
      var t := Magnitude(s);
      var scan := if t == [] then SyntaxAt else ScanDigits(t, 0, 0);
      if scan.SyntaxAt? then Err(NumError("ParseInt", s, ErrSyntax))
      else
        var un := if scan.Overflow? then MaxUint64 else scan.n;
        if !neg && un >= -MinInt64 then Err(NumError("ParseInt", s, ErrRange))
        else if neg && un > -MinInt64 then Err(NumError("ParseInt", s, ErrRange))
        else Ok(if neg then -un else un)
  }

  const TrueLiterals: set<string> := {"1", "t", "T", "TRUE", "true", "True"}
  const FalseLiterals: set<string> := {"0", "f", "F", "FALSE", "false", "False"}

  /** strconv.ParseBool: exactly the twelve literals, anything else a syntax error. */
  function ParseBool(s: string): (r: Result<bool>)
    ensures r.Ok? <==> s in TrueLiterals + FalseLiterals
    ensures r.Ok? ==> (r.value <==> s in TrueLiterals)
    ensures r.Err? ==> r.error == NumError("ParseBool", s, ErrSyntax)
  {
    if s == "1" || s == "t" || s == "T" || s == "TRUE" || s == "true" || s == "True" then Ok(true)
    else if s == "0" || s == "f" || s == "F" || s == "FALSE" || s == "false" || s == "False" then Ok(false)
    else Err(NumError("ParseBool", s, ErrSyntax))
  }

  function DigitChar(d: nat): (c: char)
    requires d < 10
    ensures IsDigit(c) && DigitValue(c) == d
  {
    ('0' as int + d) as char
  }

  /** The shortest decimal text of a natural number. */
  function FormatNat(n: nat): (r: string)
    ensures |r| > 0 && AllDigits(r) && DecimalValue(r) == n
  {
    if n < 10 then [DigitChar(n)]
    else
      var r := FormatNat(n / 10) + [DigitChar(n % 10)];
      assert r[..|r| - 1] == FormatNat(n / 10);
      r
  }

  /** strconv.FormatInt(n, 10). */
  function FormatInt(n: int): string {
    if n < 0 then "-" + FormatNat(-n) else FormatNat(n)
  }

  // ----- Lemmas about the digit loop -----

  lemma DigitsOfPrefix(t: string, k: nat)
    requires k <= |t| && AllDigits(t[..k])
    ensures forall i :: 0 <= i < k ==> IsDigit(t[i])
  {
    forall i | 0 <= i < k ensures IsDigit(t[i]) {
      assert t[..k][i] == t[i];
    }
  }

  lemma DigitRunIs(t: string, k: nat)
    requires k <= |t| && AllDigits(t[..k])
    requires k < |t| ==> !IsDigit(t[k])
    ensures DigitRun(t) == k
  {
    var m := DigitRun(t);
    DigitsOfPrefix(t, k);
    DigitsOfPrefix(t, m);
  }

  lemma DigitRunAtLeast(t: string, k: nat)
    requires k <= |t| && AllDigits(t[..k])
    ensures DigitRun(t) >= k
  {
    DigitsOfPrefix(t, k);
  }

  /** Reading more digits never makes the value smaller. */
  lemma {:induction false} PrefixValueMonotone(t: string, j: nat, k: nat)
    requires j <= k <= |t| && AllDigits(t[..k])
    ensures AllDigits(t[..j]) && DecimalValue(t[..j]) <= DecimalValue(t[..k])
    decreases k - j
  {
    if j < k {
      assert t[..k][..k - 1] == t[..k - 1];
      assert AllDigits(t[..k - 1]);
      PrefixValueMonotone(t, j, k - 1);
    }
  }

  /** Once a prefix of digits exceeds 64 bits, so do the digits before the
      first non-digit, and so does the whole text if it is all digits. */
  lemma PrefixOverflows(t: string, k: nat)
    requires k <= |t| && AllDigits(t[..k]) && DecimalValue(t[..k]) > MaxUint64
    ensures DecimalValue(t[..DigitRun(t)]) > MaxUint64
    ensures !(AllDigits(t) && DecimalValue(t) <= MaxUint64)
  {
    DigitRunAtLeast(t, k);
    PrefixValueMonotone(t, k, DigitRun(t));
    if AllDigits(t) {
      assert t[..|t|] == t;
      PrefixValueMonotone(t, k, |t|);
    }
  }

  /** The digit loop scanned from a consistent state ends in `Scanned` exactly
      for digit strings that fit 64 bits (with their value), and in `Overflow`
      exactly when the digits before the first non-digit exceed 64 bits. */
  lemma {:induction false} ScanDigitsSpec(t: string, i: nat, n: nat)
    requires i <= |t| && AllDigits(t[..i]) && n == DecimalValue(t[..i]) && n <= MaxUint64
    ensures ScanDigits(t, i, n).Scanned? <==> AllDigits(t) && DecimalValue(t) <= MaxUint64
    ensures ScanDigits(t, i, n).Scanned? ==> ScanDigits(t, i, n).n == DecimalValue(t)
    ensures ScanDigits(t, i, n).Overflow? <==> DecimalValue(t[..DigitRun(t)]) > MaxUint64
    decreases |t| - i
  {
    if i == |t| {
      assert t[..i] == t;
      DigitRunIs(t, i);
    } else if !IsDigit(t[i]) {
      DigitRunIs(t, i);
    } else {
      var n' := 10 * n + DigitValue(t[i]);
      assert t[..i + 1][..i] == t[..i];
      assert AllDigits(t[..i + 1]);
      assert DecimalValue(t[..i + 1]) == n';
      if n >= Cutoff || n' > MaxUint64 {
        PrefixOverflows(t, i + 1);
      } else {
        ScanDigitsSpec(t, i + 1, n');
      }
    }
  }

  /** ParseInt accepts exactly an optional sign and decimal digits whose value
      fits int64, returns that value, and reports a range error exactly for
      `OutOfRange` texts and a syntax error for every other rejected text. */
  lemma ParseIntSpec(s: string)
    ensures ParseInt(s).Ok? <==> IsDecimal(s) && InInt64(SignedValue(s))
    ensures ParseInt(s).Ok? ==> ParseInt(s).value == SignedValue(s)
    ensures ParseInt(s).Err? ==>
      ParseInt(s).error == NumError("ParseInt", s, if OutOfRange(s) then ErrRange else ErrSyntax)
  {
    var t := Magnitude(s);
    if t != [] {
      assert t[..0] == [];
      ScanDigitsSpec(t, 0, 0);
      if AllDigits(t) {
        DigitRunIs(t, |t|);
        assert t[..|t|] == t;
      }
    }
  }

  /** Every int64 value has a decimal text that ParseInt reads back to it. */
  lemma ParseIntFormatInt(n: int)
    requires InInt64(n)
    ensures ParseInt(FormatInt(n)) == Ok(n)
  {
    var s := FormatInt(n);
    if n < 0 {
      assert Magnitude(s) == FormatNat(-n);
    } else {
      assert Magnitude(s) == FormatNat(n);
    }
    ParseIntSpec(s);
  }
}
