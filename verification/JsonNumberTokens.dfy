/** Number tokens: the longest text that the grammar of section 6 of RFC 7159 allows, and its value. */
module JsonNumberTokens {
  import opened Bytes
  import opened JsonStrings
  import opened JsonValue
  import opened JsonDfa
  import opened JsonScan
  import opened JsonNumbers

  // ---- The grammar ---------------------------------------------------------------------------

  predicate Digits(s: Text, i: nat, j: nat) {
    i < j <= |s| && forall k :: i <= k < j ==> IsDigit(s[k])
  }

  predicate IsSign(c: Byte) {
    c == PLUS || c == MINUS
  }

  /** s[p..e) is minus, int, frac and exp, divided at `i`, `j` and `k`; all but int may be empty. */
  predicate NumberParts(s: Text, p: nat, i: nat, j: nat, k: nat, e: nat) {
    && p <= i < j <= k <= e <= |s|
    && (i == p || (i == p + 1 && s[p] == MINUS))
    && Digits(s, i, j) && (s[i] == 0x30 ==> j == i + 1)
    && (k == j || (s[j] == DOT && Digits(s, j + 1, k)))
    && (e == k || (IsExp(s[k]) && (Digits(s, k + 1, e) || (k + 1 < e && IsSign(s[k + 1]) && Digits(s, k + 2, e)))))
  }

  ghost predicate IsNumber(s: Text, p: nat, e: nat) {
    exists i: nat, j: nat, k: nat :: NumberParts(s, p, i, j, k, e)
  }

  // ---- Where the longest number ends ------------------------------------------------------------

  function IntStart(s: Text, p: nat): (i: nat)
    requires p <= |s|
    ensures p <= i <= |s|
  {
    if At(s, p) == MINUS then p + 1 else p
  }

  function IntEnd(s: Text, i: nat): (j: nat)
    requires i < |s|
    ensures j <= |s|
  {
    if s[i] == 0x30 then i + 1 else DigitsEnd(s, i)
  }

  function FracEnd(s: Text, j: nat): (k: nat)
    requires j <= |s|
    ensures j <= k <= |s|
  {
    if At(s, j) == DOT && IsDigit(At(s, j + 1)) then DigitsEnd(s, j + 1) else j
  }

  function ExpEnd(s: Text, k: nat): (e: nat)
    requires k <= |s|
    ensures k <= e <= |s|
  {
    if !IsExp(At(s, k)) then k
    else
      var m := if IsSign(At(s, k + 1)) then k + 2 else k + 1;
      if IsDigit(At(s, m)) then DigitsEnd(s, m) else k
  }

  /** A number starts at `p`. */
  predicate NumberAt(s: Text, p: nat)
    requires p <= |s|
  {
    IsDigit(At(s, IntStart(s, p)))
  }

  function NumberEnd(s: Text, p: nat): nat
    requires p <= |s| && NumberAt(s, p)
  {
    ExpEnd(s, FracEnd(s, IntEnd(s, IntStart(s, p))))
  }

  /** That end divides into the parts of a number. */
  lemma NumberEndIsNumber(s: Text, p: nat)
    requires p <= |s| && NumberAt(s, p)
    ensures IsNumber(s, p, NumberEnd(s, p))
  {
    var i := IntStart(s, p);
    var j := IntEnd(s, i);
    var k := FracEnd(s, j);
    assert NumberParts(s, p, i, j, k, NumberEnd(s, p));
  }

  lemma {:induction false} DigitsStop(s: Text, i: nat, j: nat)
    requires Digits(s, i, j)
    ensures j <= DigitsEnd(s, i) && (j < DigitsEnd(s, i) ==> j < |s| && IsDigit(s[j]))
  {
  }

  /** No longer text is a number. */
  lemma NumberEndIsLongest(s: Text, p: nat, e: nat)
    requires IsNumber(s, p, e)
    ensures p <= |s| && NumberAt(s, p) && e <= NumberEnd(s, p)
  {
    var i: nat, j: nat, k: nat :| NumberParts(s, p, i, j, k, e);
    PartsAreLongest(s, p, i, j, k, e);
  }

  lemma PartsAreLongest(s: Text, p: nat, i: nat, j: nat, k: nat, e: nat)
    requires NumberParts(s, p, i, j, k, e)
    ensures p <= |s| && NumberAt(s, p) && e <= NumberEnd(s, p)
  {
    hide DigitsEnd;
    assert IsDigit(s[i]);
    DigitsStop(s, i, j);
    if e > j {
      assert j == IntEnd(s, i);
      if k > j {
        DigitsStop(s, j + 1, k);
      }
      if e > k {
        assert k == FracEnd(s, j);
        DigitsStop(s, if Digits(s, k + 1, e) then k + 1 else k + 2, e);
      }
    }
  }

  // ---- The scanner finds it -----------------------------------------------------------------------

  lemma {:induction false} RunExponentDigits(s: Text, i: nat, start: nat, marker: nat)
    requires start < marker < i <= |s|
    ensures Run(s, ExponentDigits, i, start, Some(marker), ValueNumber) == Lexeme(ValueNumber, start, DigitsEnd(s, i))
    decreases |s| - i
  {
    hide Run;
    if IsDigit(At(s, i)) {
      StepAdvance(s, ExponentDigits, i, start, Some(marker), ValueNumber, ExponentDigits);
      RunExponentDigits(s, i + 1, start, marker);
    } else {
      StepStop(s, ExponentDigits, i, start, Some(marker), ValueNumber, ValueNumber);
    }
  }

  /** From a state in which a number may end, at the start of an exponent. */
  lemma RunExponent(s: Text, q: State, k: nat, start: nat)
    requires (q == Zero || q == Integral || q == Fraction) && start < k <= |s|
    requires IsExp(At(s, k))
    ensures Run(s, q, k, start, Some(k), ValueNumber) == Lexeme(ValueNumber, start, ExpEnd(s, k))
  {
    hide Run, DigitsEnd;
    StepAdvance(s, q, k, start, Some(k), ValueNumber, Exponent);
    if IsSign(At(s, k + 1)) {
      StepAdvance(s, Exponent, k + 1, start, Some(k), ValueNumber, ExponentSign);
      RunExponentValue(s, ExponentSign, k, k + 2, start);
    } else {
      RunExponentValue(s, Exponent, k, k + 1, start);
    }
  }

  lemma RunExponentValue(s: Text, q: State, k: nat, m: nat, start: nat)
    requires start < k < m <= |s| && (q == ExponentSign || (q == Exponent && !IsSign(At(s, m))))
    ensures Run(s, q, m, start, Some(k), ValueNumber)
         == Lexeme(ValueNumber, start, if IsDigit(At(s, m)) then DigitsEnd(s, m) else k)
  {
    hide Run, DigitsEnd;
    if IsDigit(At(s, m)) {
      StepAdvance(s, q, m, start, Some(k), ValueNumber, ExponentDigits);
      RunExponentDigits(s, m + 1, start, k);
      DigitsEndNext(s, m);
    } else {
      StepBack(s, q, m, start, Some(k), ValueNumber);
    }
  }

  lemma DigitsEndNext(s: Text, i: nat)
    requires i <= |s| && IsDigit(At(s, i))
    ensures i < |s| && DigitsEnd(s, i) == DigitsEnd(s, i + 1)
  {
  }

  lemma {:induction false} RunFraction(s: Text, i: nat, start: nat)
    requires start < i <= |s|
    ensures Run(s, Fraction, i, start, Some(i), ValueNumber) == Lexeme(ValueNumber, start, ExpEnd(s, DigitsEnd(s, i)))
    decreases |s| - i
  {
    hide Run;
    if IsDigit(At(s, i)) {
      StepMark(s, Fraction, i, start, Some(i), ValueNumber, Fraction, ValueNumber);
      RunFraction(s, i + 1, start);
    } else if IsExp(At(s, i)) {
      RunExponent(s, Fraction, i, start);
    } else {
      StepStop(s, Fraction, i, start, Some(i), ValueNumber, ValueNumber);
    }
  }

  /** After the integer part. */
  lemma RunAfterInt(s: Text, q: State, j: nat, start: nat)
    requires start < j <= |s| && (q == Zero || (q == Integral && !IsDigit(At(s, j))))
    ensures Run(s, q, j, start, Some(j), ValueNumber) == Lexeme(ValueNumber, start, ExpEnd(s, FracEnd(s, j)))
  {
    hide Run, DigitsEnd;
    if At(s, j) == DOT {
      StepAdvance(s, q, j, start, Some(j), ValueNumber, Point);
      if IsDigit(At(s, j + 1)) {
        StepMark(s, Point, j + 1, start, Some(j), ValueNumber, Fraction, ValueNumber);
        RunFraction(s, j + 2, start);
        DigitsEndNext(s, j + 1);
      } else {
        StepBack(s, Point, j + 1, start, Some(j), ValueNumber);
      }
    } else if IsExp(At(s, j)) {
      RunExponent(s, q, j, start);
    } else {
      StepStop(s, q, j, start, Some(j), ValueNumber, ValueNumber);
    }
  }

  lemma {:induction false} RunIntegral(s: Text, i: nat, start: nat)
    requires start < i <= |s|
    ensures Run(s, Integral, i, start, Some(i), ValueNumber)
         == Lexeme(ValueNumber, start, ExpEnd(s, FracEnd(s, DigitsEnd(s, i))))
    decreases |s| - i
  {
    hide Run, FracEnd, ExpEnd;
    if IsDigit(At(s, i)) {
      StepMark(s, Integral, i, start, Some(i), ValueNumber, Integral, ValueNumber);
      RunIntegral(s, i + 1, start);
    } else {
      RunAfterInt(s, Integral, i, start);
    }
  }

  lemma RunInt(s: Text, q: State, p: nat, i: nat)
    requires (q == Start && i == p) || (q == Minus && i == p + 1)
    requires i < |s| && IsDigit(s[i])
    ensures Run(s, q, i, p, None, ParseError) == Lexeme(ValueNumber, p, ExpEnd(s, FracEnd(s, IntEnd(s, i))))
  {
    hide Run, FracEnd, ExpEnd, DigitsEnd;
    if s[i] == 0x30 {
      StepMark(s, q, i, p, None, ParseError, Zero, ValueNumber);
      RunAfterInt(s, Zero, i + 1, p);
    } else {
      StepMark(s, q, i, p, None, ParseError, Integral, ValueNumber);
      RunIntegral(s, i + 1, p);
      DigitsEndNext(s, i);
    }
  }

  /**
   * At a digit or a minus sign the scanner takes the longest number there is, and reports an error
   * when there is none.
   */
  lemma ScanNumber(s: Text, p: nat)
    requires p < |s| && (IsDigit(s[p]) || s[p] == MINUS)
    ensures Scan(s, p) ==
      if NumberAt(s, p) then Lexeme(ValueNumber, p, NumberEnd(s, p)) else Lexeme(ParseError, p, p + 1)
    ensures NumberAt(s, p) ==>
      IsNumber(s, p, NumberEnd(s, p)) && forall e: nat :: IsNumber(s, p, e) ==> e <= NumberEnd(s, p)
    ensures !NumberAt(s, p) ==> forall e: nat :: !IsNumber(s, p, e)
  {
    hide Run, IntEnd, FracEnd, ExpEnd, IsNumber;
    if s[p] == MINUS {
      StepAdvance(s, Start, p, p, None, ParseError, Minus);
      if NumberAt(s, p) {
        RunInt(s, Minus, p, p + 1);
      } else {
        StepStop(s, Minus, p + 1, p, None, ParseError, ParseError);
      }
    } else {
      RunInt(s, Start, p, p);
    }
    if NumberAt(s, p) {
      NumberEndIsNumber(s, p);
    }
    forall e: nat | IsNumber(s, p, e) ensures NumberAt(s, p) && e <= NumberEnd(s, p) {
      NumberEndIsLongest(s, p, e);
    }
  }

  // ---- Its value ------------------------------------------------------------------------------------

  /** The number at `p` has neither fraction nor exponent. */
  predicate Plain(s: Text, p: nat)
    requires p <= |s| && NumberAt(s, p)
  {
    NumberEnd(s, p) == IntEnd(s, IntStart(s, p))
  }

  lemma IntDigits(s: Text, i: nat)
    requires i < |s| && IsDigit(s[i])
    ensures i < IntEnd(s, i) && AllDigits(s[i..IntEnd(s, i)])
  {
  }

  /** The value of the integer part, without its sign. */
  function Magnitude(s: Text, p: nat): nat
    requires p <= |s| && NumberAt(s, p)
  {
    var i := IntStart(s, p);
    IntDigits(s, i);
    DigitsValue(s[i..IntEnd(s, i)])
  }

  /** The integer part has a 64-bit representation. */
  predicate InRange(s: Text, p: nat)
    requires p <= |s| && NumberAt(s, p)
  {
    Magnitude(s, p) <= if At(s, p) == MINUS then MIN_MAGNITUDE else MAX_UNSIGNED
  }

  /**
   * The value of the number token at `p`, exactly: an integer in range is read as an integer, and
   * anything else as a float, unless the bytes after the token make the C library read on: a digit
   * after a leading zero, or a point after an integer out of range.
   */
  lemma NumberTokenValue(s: Text, p: nat)
    requires p <= |s| && NumberAt(s, p)
    ensures p < NumberEnd(s, p) <= |s|
    ensures NumberValue(s, p, NumberEnd(s, p)) ==
      var next := At(s, NumberEnd(s, p));
      if IsDigit(next) then Err(InvalidArgument)
      else if Plain(s, p) && InRange(s, p) then
        Ok(if s[p] == MINUS then Integer(-(Magnitude(s, p) as int)) else Unsigned(Magnitude(s, p)))
      else if Plain(s, p) && next == DOT then Err(InvalidArgument)
      else Ok(Float(s[p..NumberEnd(s, p)]))
  {
    hide DigitsValue;
    var i := IntStart(s, p);
    var j := IntEnd(s, i);
    IntDigits(s, i);
    LibraryEnds(s, p);
    if j != DigitsEnd(s, i) {
      assert FracEnd(s, j) == j && ExpEnd(s, j) == j;
    }
  }

  /** The C library's digits are those of the integer part, unless a zero stands before them. */
  lemma LibraryDigits(s: Text, i: nat)
    requires i < |s| && IsDigit(s[i])
    ensures IntEnd(s, i) <= DigitsEnd(s, i)
    ensures IntEnd(s, i) < DigitsEnd(s, i) <==> IsDigit(At(s, IntEnd(s, i)))
  {
    DigitsEndNext(s, i);
  }

  /** Neither a fraction nor an exponent ends before a digit. */
  lemma NoDigitBehind(s: Text, j: nat)
    requires j <= |s| && !IsDigit(At(s, j))
    ensures !IsDigit(At(s, ExpEnd(s, FracEnd(s, j))))
  {
    hide DigitsEnd;
  }

  /** `strtod` reads an exponent like the scanner, but takes a point without digits behind it. */
  lemma LibraryParts(s: Text, p: nat)
    requires p <= |s|
    ensures
      var j := DigitsEnd(s, IntStart(s, p));
      StrtodEnd(s, p) == ExpEnd(s, if At(s, j) == DOT then DigitsEnd(s, j + 1) else j)
  {
    hide DigitsEnd;
  }

  lemma FractionOrNone(s: Text, j: nat)
    requires j <= |s|
    ensures At(s, j) == DOT && IsDigit(At(s, j + 1)) ==> FracEnd(s, j) == DigitsEnd(s, j + 1) > j
    ensures At(s, j) == DOT && !IsDigit(At(s, j + 1)) ==>
      FracEnd(s, j) == ExpEnd(s, j) == j && DigitsEnd(s, j + 1) == j + 1
    ensures At(s, j) != DOT ==> FracEnd(s, j) == j
    ensures IsDigit(At(s, j)) ==> FracEnd(s, j) == ExpEnd(s, j) == j
  {
  }

  /** Where the library functions stop, compared with the scanner. */
  lemma LibraryEnds(s: Text, p: nat)
    requires p <= |s| && NumberAt(s, p)
    ensures
      var i := IntStart(s, p);
      var j, e := IntEnd(s, i), NumberEnd(s, p);
      && j <= DigitsEnd(s, i) && (j < DigitsEnd(s, i) <==> IsDigit(At(s, e)))
      && (j < DigitsEnd(s, i) ==> e == j && StrtodEnd(s, p) >= DigitsEnd(s, i))
      && (j == DigitsEnd(s, i) ==> (StrtodEnd(s, p) == e <==> !(e == j && At(s, e) == DOT)))
  {
    var i := IntStart(s, p);
    var j := IntEnd(s, i);
    LibraryDigits(s, i);
    LibraryParts(s, p);
    FractionOrNone(s, j);
    hide DigitsEnd, IntEnd, FracEnd, ExpEnd, StrtodEnd, IntStart;
    if j == DigitsEnd(s, i) {
      NoDigitBehind(s, j);
    }
  }
}
