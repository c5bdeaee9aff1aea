/** Decimal integers: how `operator<<` prints them and how the C library reads them back. */
module JsonNumbers {
  import opened Bytes
  import opened JsonStrings
  import opened JsonValue
  import opened JsonDfa
  import opened JsonScan

  const MAX_UNSIGNED: int := 0xFFFF_FFFF_FFFF_FFFF
  const MIN_MAGNITUDE: int := 0x8000_0000_0000_0000

  /** The first position from `i` on that holds no digit. */
  function DigitsEnd(s: Text, i: nat): (e: nat)
    requires i <= |s|
    ensures i <= e <= |s|
    ensures forall k :: i <= k < e ==> IsDigit(s[k])
    ensures !IsDigit(At(s, e))
    decreases |s| - i
  {
    if i < |s| && IsDigit(s[i]) then DigitsEnd(s, i + 1) else i
  }

  function DigitsValue(w: Text): nat
    requires AllDigits(w)
  {
    if w == [] then 0 else 10 * DigitsValue(w[..|w| - 1]) + (w[|w| - 1] - 0x30)
  }

  /** `strtoull`: the value (`None` for ERANGE) and the position after it. */
  function Strtoull(s: Text, p: nat): (Option<uint64>, nat)
    requires p <= |s|
  {
    var e := DigitsEnd(s, p);
    var v := DigitsValue(s[p..e]);
    (if v <= MAX_UNSIGNED then Some(v) else None, e)
  }

  /** `strtoll` on a number with a minus sign. */
  function Strtoll(s: Text, p: nat): (Option<int64>, nat)
    requires p < |s|
  {
    var e := DigitsEnd(s, p + 1);
    var v := DigitsValue(s[p + 1..e]);
    (if v <= MIN_MAGNITUDE then Some(-(v as int)) else None, e)
  }

  /** The position up to which `strtod` reads. */
  function StrtodEnd(s: Text, p: nat): nat
    requires p <= |s|
  {
    var i := if At(s, p) == MINUS then p + 1 else p;
    var j := DigitsEnd(s, i);
    var k := if At(s, j) == DOT then DigitsEnd(s, j + 1) else j;
    if IsExp(At(s, k)) then
      var m := if At(s, k + 1) == PLUS || At(s, k + 1) == MINUS then k + 2 else k + 1;
      if IsDigit(At(s, m)) then DigitsEnd(s, m) else k
    else k
  }

  /** The value of the number token [start, end): `lexer::get_number`. */
  function NumberValue(s: Text, start: nat, end: nat): JsonResult<Json>
    requires start < end <= |s|
  {
    var positive := Strtoull(s, start);
    var negative := Strtoll(s, start);
    if s[start] != MINUS && positive.0.Some? && positive.1 == end then Ok(Unsigned(positive.0.value))
    else if s[start] == MINUS && negative.0.Some? && negative.1 == end then Ok(Integer(negative.0.value))
    else if StrtodEnd(s, start) == end then Ok(Float(s[start..end]))
    else Err(InvalidArgument)
  }

  /** `operator<<` for an unsigned number. */
  function PrintNat(n: nat): (w: Text)
    ensures w != [] && AllDigits(w)
  {
    var last: Byte := 0x30 + n % 10;
    if n < 10 then [last] else PrintNat(n / 10) + [last]
  }

  function PrintInt(n: int): (w: Text)
    ensures w != []
  {
    if n < 0 then [MINUS] + PrintNat(-n) else PrintNat(n)
  }

  /** Reading the printed digits gives the number; there is no leading zero. */
  lemma {:induction false} PrintNatValue(n: nat)
    ensures DigitsValue(PrintNat(n)) == n
    ensures |PrintNat(n)| > 1 ==> PrintNat(n)[0] != 0x30
    ensures n > 0 ==> PrintNat(n)[0] != 0x30
  {
    var w := PrintNat(n);
    if n >= 10 {
      PrintNatValue(n / 10);
      assert w[..|w| - 1] == PrintNat(n / 10);
      assert w[0] == PrintNat(n / 10)[0];
    } else {
      assert w[..|w| - 1] == [];
    }
  }

  function Power(k: nat): (p: nat)
    ensures p > 0
  {
    if k == 0 then 1 else 10 * Power(k - 1)
  }

  /**
   * The decimal digits of a number: the byte `k` places before the last one counts the 10^k that are left
   * when the higher places are taken out, up to a remainder smaller than 10^k.
   */
  lemma {:induction false} PrintedDigit(n: nat, k: nat) returns (higher: nat, lower: nat)
    requires k < |PrintNat(n)|
    ensures lower < Power(k)
    ensures
      var digit := PrintNat(n)[|PrintNat(n)| - 1 - k] - 0x30;
      0 <= digit <= 9 && n == higher * (10 * Power(k)) + digit * Power(k) + lower
  {
    if k == 0 {
      higher, lower := n / 10, 0;
    } else {
      var before := PrintNat(n / 10);
      var low;
      higher, low := PrintedDigit(n / 10, k - 1);
      lower := 10 * low + n % 10;
      assert PrintNat(n)[|PrintNat(n)| - 1 - k] == before[|before| - 1 - (k - 1)];
      var digit, p := before[|before| - 1 - (k - 1)] - 0x30, Power(k - 1);
      Scale(n, higher, digit, p, low);
    }
  }

  lemma Scale(n: nat, higher: nat, digit: nat, p: nat, low: nat)
    requires n / 10 == higher * (10 * p) + digit * p + low
    ensures n == higher * (10 * (10 * p)) + digit * (10 * p) + (10 * low + n % 10)
  {
  }

  /** All digits are there and no zero is in front of them; the sign is, when the number is negative. */
  lemma {:induction false} PrintedLength(n: nat)
    ensures n < Power(|PrintNat(n)|)
    ensures |PrintNat(n)| > 1 ==> Power(|PrintNat(n)| - 1) <= n
    ensures n > 0 ==> PrintInt(-(n as int)) == [0x2D] + PrintNat(n)
    ensures PrintInt(n) == PrintNat(n)
  {
    if n >= 10 {
      PrintedLength(n / 10);
      var before := PrintNat(n / 10);
      assert |PrintNat(n)| == |before| + 1;
      assert Power(|before| + 1) == 10 * Power(|before|);
      assert |before| > 1 ==> Power(|before|) == 10 * Power(|before| - 1);
      assert |before| == 1 ==> Power(1) == 10 * Power(0) == 10;
    }
  }

  lemma PrintIntIsInteger(n: int)
    ensures IsInteger(PrintInt(n))
  {
    PrintNatValue(if n < 0 then -n else n);
    if n < 0 {
      assert PrintInt(n)[1..] == PrintNat(-n);
    }
  }

  lemma {:induction false} DigitsEndAt(s: Text, i: nat, n: nat)
    requires i + n <= |s|
    requires forall k :: i <= k < i + n ==> IsDigit(s[k])
    requires !IsDigit(At(s, i + n))
    ensures DigitsEnd(s, i) == i + n
    decreases n
  {
    if n > 0 {
      DigitsEndAt(s, i + 1, n - 1);
    }
  }

  lemma DigitsEndOver(s: Text, p: nat, w: Text)
    requires Occurs(s, p, w) && AllDigits(w) && !IsDigit(At(s, p + |w|))
    ensures DigitsEnd(s, p) == p + |w|
  {
    OccursAt(s, p, w);
    forall k | p <= k < p + |w| ensures IsDigit(s[k]) {
      assert s[p + (k - p)] == w[k - p];
    }
    DigitsEndAt(s, p, |w|);
  }

  /** The value of a number token that is the text of an integer. */
  lemma PrintedIntegerValue(s: Text, p: nat, n: int)
    requires -MIN_MAGNITUDE <= n <= MAX_UNSIGNED
    requires Occurs(s, p, PrintInt(n)) && EndsNumber(At(s, p + |PrintInt(n)|))
    ensures NumberValue(s, p, p + |PrintInt(n)|) == Ok(if n < 0 then Integer(n) else Unsigned(n))
  {
    hide PrintNat, DigitsEnd, DigitsValue, StrtodEnd;
    var w := PrintInt(n);
    OccursAt(s, p, w);
    assert s[p + 0] == w[0];
    if n < 0 {
      PrintNatValue(-n);
      OccursSplit(s, p, [MINUS], PrintNat(-n));
      DigitsEndOver(s, p + 1, PrintNat(-n));
    } else {
      PrintNatValue(n);
      DigitsEndOver(s, p, w);
    }
  }

  /**
   * A printed integer is one number token; a non-negative one is read as unsigned, a
   * negative one as signed.
   */
  lemma PrintedIntegerIsRead(s: Text, p: nat, n: int)
    requires -MIN_MAGNITUDE <= n <= MAX_UNSIGNED
    requires Occurs(s, p, PrintInt(n)) && EndsNumber(At(s, p + |PrintInt(n)|))
    ensures PrintInt(n) != []
    ensures Scan(s, p) == Lexeme(ValueNumber, p, p + |PrintInt(n)|)
    ensures NumberValue(s, p, p + |PrintInt(n)|) == Ok(if n < 0 then Integer(n) else Unsigned(n))
  {
    hide PrintInt, NumberValue, Scan;
    PrintIntIsInteger(n);
    ScanInteger(s, p, PrintInt(n));
    PrintedIntegerValue(s, p, n);
  }
}
