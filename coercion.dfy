/** Cell values and the coercion rules of lib/engine.ts: how a value is read
    as a number (`canNum`, `toNum`, built on JavaScript's `Number`), how it
    is rendered as text (`toStr`, built on `String`), and what each binary
    and unary operator makes of its operands (evaluateBinaryOp and the
    unary case of evaluateAst). Failures the evaluator raises are the
    `Fault` markers, carried in an `Outcome` instead of being thrown. */
module Coercion {
  import opened Wrappers
  import opened Text
  import Parsing

  /** CellValue: null, a number, a string or a boolean. */
  datatype Value = Null | Num(n: real) | Str(s: string) | Bool(b: bool)

  /** The markers a thrown evaluation error carries: `__cycle`, `__ref`,
      `__div0`, or none of them, with the error's message. */
  datatype Fault = Cycle | BadRef | Div0 | Other(msg: string)

  /** A value, or the fault that aborted its evaluation. */
  datatype Outcome<+T> = Val(value: T) | Fail(fault: Fault) {
    predicate IsFailure() { Fail? }

    function PropagateFailure<U>(): Outcome<U>
      requires Fail?
    {
      Fail(fault)
    }

    function Extract(): T
      requires Val?
    {
      value
    }
  }

  // ---------------------------------------------------------------------------
  // Number(s)

  /** s without its leading white space. */
  function TrimStart(s: string): (t: string)
    ensures |t| <= |s| && t == s[|s| - |t|..]
    ensures t == [] || !IsWhitespace(t[0])
  {
    if s != [] && IsWhitespace(s[0]) then TrimStart(s[1..]) else s
  }

  /** s without its trailing white space. */
  function TrimEnd(s: string): (t: string)
    ensures |t| <= |s| && t == s[..|t|]
    ensures t == [] || !IsWhitespace(t[|t| - 1])
  {
    if s != [] && IsWhitespace(s[|s| - 1]) then TrimEnd(s[..|s| - 1]) else s
  }

  /** `trim()`: s without white space at either end. */
  function Trim(s: string): string
  {
    TrimEnd(TrimStart(s))
  }

  predicate HasDigit(v: string)
  {
    exists k :: 0 <= k < |v| && IsDigit(v[k])
  }

  /** `Number(s)`, None standing for NaN: the trimmed text is empty (0) or
      an optional sign followed by decimal digits with at most one '.',
      with at least one digit. */
  function StrToNum(s: string): (r: Option<real>)
    ensures Trim(s) == "" ==> r == Some(0.0)
    ensures r.Some? && Trim(s) != "" ==> HasDigit(Trim(s))
  {
    var t := Trim(s);
    if t == "" then Some(0.0)
    else
      var body := if t[0] == '-' || t[0] == '+' then t[1..] else t;
      if IsDecimalText(body) && HasDigit(body) then
        assert forall k :: 0 <= k < |body| ==> body[k] == t[k + |t| - |body|];
        Some(if t[0] == '-' then -DecimalValue(body) else DecimalValue(body))
      else None
  }

  // ---------------------------------------------------------------------------
  // String(n)

  /** The first k decimal digits of a fraction 0 <= f < 1. */
  function FracDigits(f: real, k: nat): (d: string)
    requires 0.0 <= f < 1.0
    ensures |d| == k && AllDigits(d)
    decreases k
  {
    if k == 0 then []
    else
      var x := f * 10.0;
      var digit := x.Floor;
      [DigitChar(digit)] + FracDigits(x - digit as real, k - 1)
  }

  /** d without its trailing zeros. */
  function StripZeros(d: string): (t: string)
    ensures |t| <= |d| && t == d[..|t|]
    ensures t == [] || t[|t| - 1] != '0'
  {
    if d != [] && d[|d| - 1] == '0' then StripZeros(d[..|d| - 1]) else d
  }

  /** `String(x)` for x >= 0: the integer part, then up to twenty fraction
      digits without trailing zeros. */
  function MagnitudeText(x: real): (t: string)
    requires x >= 0.0
    ensures |t| > 0 && IsDigit(t[0])
  {
    var ip := x.Floor;
    NatToStringDigits(ip);
    var fd := StripZeros(FracDigits(x - ip as real, 20));
    NatToString(ip) + (if fd == [] then "" else "." + fd)
  }

  /** `String(x)` for a number: a minus sign exactly for a negative
      number, then digits. */
  function NumToString(x: real): (t: string)
    ensures |t| > 0 && (t[0] == '-' <==> x < 0.0)
    ensures x < 0.0 ==> |t| > 1 && IsDigit(t[1])
  {
    if x < 0.0 then "-" + MagnitudeText(-x) else MagnitudeText(x)
  }

  /** The text of a natural number has no fraction part. */
  lemma NatMagnitude(m: nat)
    ensures MagnitudeText(m as real) == NatToString(m)
  {
    var x := m as real;
    assert x.Floor == m;
    assert x - m as real == 0.0;
    FracZeros(20);
    StripAllZeros(20);
  }

  /** The text of an integer is its sign and its decimal digits. */
  lemma IntegerText(i: int)
    ensures NumToString(i as real) == (if i < 0 then "-" else "") + NatToString(if i < 0 then -i else i)
  {
    var m: nat := if i < 0 then -i else i;
    NatMagnitude(m);
    if i < 0 {
      assert -(i as real) == m as real;
      assert NumToString(i as real) == "-" + MagnitudeText(m as real);
    } else {
      assert NumToString(i as real) == MagnitudeText(m as real);
    }
  }

  lemma {:induction false} FracZeros(k: nat)
    ensures FracDigits(0.0, k) == seq(k, _ => '0')
  {
    if k > 0 {
      FracZeros(k - 1);
      assert (0.0 * 10.0).Floor == 0;
    }
  }

  lemma {:induction false} StripAllZeros(k: nat)
    ensures StripZeros(seq(k, _ => '0')) == []
  {
    if k > 0 {
      assert seq(k, _ => '0')[..k - 1] == seq(k - 1, _ => '0');
      StripAllZeros(k - 1);
    }
  }

  /** Reading back the text of a natural number gives the number. */
  lemma NatTextValue(n: nat)
    ensures IsDecimalText(NatToString(n)) && HasDigit(NatToString(n))
    ensures DecimalValue(NatToString(n)) == n as real
  {
    var v := NatToString(n);
    NatToStringDigits(n);
    assert IsDigit(v[0]);
    assert '.' !in v;
    assert IndexOf(v, '.') == |v|;
    assert v[..|v|] == v;
  }

  /** A digit string has no white space to trim. */
  lemma TrimDigits(v: string)
    requires |v| > 0 && (forall k :: 0 <= k < |v| ==> IsDigit(v[k]) || (k == 0 && v[k] == '-'))
    ensures Trim(v) == v
  {
    assert TrimStart(v) == v;
  }

  /** Signed digit text reads back as its value. */
  lemma SignedTextValue(v: string, neg: bool)
    requires IsDigitString(v) && IsDecimalText(v) && HasDigit(v)
    ensures var t := (if neg then "-" else "") + v;
            StrToNum(t) == Some(if neg then -DecimalValue(v) else DecimalValue(v))
  {
    if neg {
      NegativeTextValue(v);
    } else {
      assert "" + v == v;
      UnsignedTextValue(v);
    }
  }

  lemma UnsignedTextValue(v: string)
    requires IsDigitString(v) && IsDecimalText(v) && HasDigit(v)
    ensures StrToNum(v) == Some(DecimalValue(v))
  {
    TrimDigits(v);
    assert IsDigit(v[0]);
  }

  lemma NegativeTextValue(v: string)
    requires IsDigitString(v) && IsDecimalText(v) && HasDigit(v)
    ensures StrToNum("-" + v) == Some(-DecimalValue(v))
  {
    var t := "-" + v;
    SignTail(v);
    TrimDigits(t);
  }

  lemma SignTail(v: string)
    requires IsDigitString(v)
    ensures ("-" + v)[0] == '-' && ("-" + v)[1..] == v
    ensures forall k :: 0 <= k < |"-" + v| ==> IsDigit(("-" + v)[k]) || (k == 0 && ("-" + v)[k] == '-')
  {
  }

  /** Round trip: `Number(String(i)) == i` for every integer i. */
  lemma IntegerRoundTrip(i: int)
    ensures StrToNum(NumToString(i as real)) == Some(i as real)
  {
    IntegerText(i);
    var m: nat := if i < 0 then -i else i;
    NatTextValue(m);
    NatToStringDigits(m);
    SignedTextValue(NatToString(m), i < 0);
  }

  // ---------------------------------------------------------------------------
  // canNum, toNum, toStr

  /** canNum (lib/engine.ts:274-280): null is not numeric; numbers and
      booleans are; a string is when `Number` reads it. */
  predicate CanNum(v: Value)
    ensures v.Str? && Trim(v.s) == "" ==> CanNum(v)
    ensures v.Str? && CanNum(v) && Trim(v.s) != "" ==> HasDigit(Trim(v.s))
  {
    match v
    case Null => false
    case Num(_) => true
    case Bool(_) => true
    case Str(s) => StrToNum(s).Some?
  }

  /** toNum (lib/engine.ts:281-287): null and unreadable strings are 0,
      booleans 1 and 0. */
  function ToNum(v: Value): (x: real)
    ensures v.Str? && CanNum(v) ==> StrToNum(v.s) == Some(x)
    ensures !CanNum(v) ==> x == 0.0
  {
    match v
    case Null => 0.0
    case Num(n) => n
    case Bool(b) => if b then 1.0 else 0.0
    case Str(s) => match StrToNum(s) case Some(n) => n case None => 0.0
  }

  /** A word that starts with a letter and has no white space at its ends
      is not a number. */
  lemma WordNotNumber(w: string)
    requires |w| > 0 && IsLetter(w[0]) && !IsWhitespace(w[|w| - 1])
    ensures StrToNum(w).None?
  {
    assert TrimStart(w) == w;
    assert TrimEnd(w) == w;
    assert !IsDecimalText(w) by {
      assert !IsDigit(w[0]) && w[0] != '.';
    }
  }

  /** toStr (lib/engine.ts:288): null is the empty string, an integer's
      text reads back as the integer, and a boolean's text is not a
      number. */
  function ToStr(v: Value): (t: string)
    ensures v.Null? ==> t == ""
    ensures v.Num? && v.n == v.n.Floor as real ==> StrToNum(t) == Some(v.n)
    ensures v.Bool? ==> StrToNum(t).None?
  {
    match v
    case Null => ""
    case Num(n) => IntegerRoundTrip(n.Floor); NumToString(n)
    case Bool(b) => WordNotNumber("true"); WordNotNumber("false"); if b then "true" else "false"
    case Str(s) => s
  }

  // ---------------------------------------------------------------------------
  // String order

  /** Lexicographic order on code units, standing for `localeCompare`:
      negative, zero or positive. */
  function Compare(a: string, b: string): (c: int)
    ensures -1 <= c <= 1
  {
    if a == [] && b == [] then 0
    else if a == [] then -1
    else if b == [] then 1
    else if a[0] < b[0] then -1
    else if a[0] > b[0] then 1
    else Compare(a[1..], b[1..])
  }

  /** Swapping the operands flips the order. */
  lemma {:induction false} CompareAntisymmetric(a: string, b: string)
    ensures Compare(a, b) == -Compare(b, a)
  {
    if a != [] && b != [] && a[0] == b[0] {
      CompareAntisymmetric(a[1..], b[1..]);
    }
  }

  /** Two strings compare equal exactly when they are equal. */
  lemma {:induction false} CompareZero(a: string, b: string)
    ensures Compare(a, b) == 0 <==> a == b
  {
    if a != [] && b != [] && a[0] == b[0] {
      CompareZero(a[1..], b[1..]);
      assert a == [a[0]] + a[1..] && b == [b[0]] + b[1..];
    }
  }

  // ---------------------------------------------------------------------------
  // Operators

  /** a to the power n, n a natural number. */
  function IntPow(a: real, n: nat): (p: real)
    ensures a != 0.0 ==> p != 0.0
  {
    if n == 0 then 1.0 else a * IntPow(a, n - 1)
  }

  /** `Math.pow` for integer exponents (the rest is not modelled and gives
      0): x^0 is 1 for every x, a non-zero base never gives 0, and a
      negative exponent gives the reciprocal of the positive power. */
  function Power(a: real, e: real): (p: real)
    ensures e == 0.0 ==> p == 1.0
    ensures a != 0.0 && e == e.Floor as real ==> p != 0.0
    ensures a != 0.0 && e == e.Floor as real && e < 0.0 ==> p * IntPow(a, -e.Floor) == 1.0
  {
    if e != e.Floor as real then 0.0
    else if e >= 0.0 then IntPow(a, e.Floor)
    else if a == 0.0 then 0.0
    else 1.0 / IntPow(a, -e.Floor)
  }

  /** The relational operators of evaluateBinaryOp (lib/engine.ts:310-331):
      numbers compare as numbers when both operands are numeric, and
      otherwise the operands' text is compared. */
  predicate Comparison(op: Parsing.BinOp, l: Value, r: Value)
    requires op.Lt? || op.Le? || op.Gt? || op.Ge? || op.Eq? || op.Ne?
    ensures l == r ==> (Comparison(op, l, r) <==> op.Le? || op.Ge? || op.Eq?)
  {
    CompareZero(ToStr(l), ToStr(r));
    var both := CanNum(l) && CanNum(r);
    match op
    case Lt => if both then ToNum(l) < ToNum(r) else Compare(ToStr(l), ToStr(r)) < 0
    case Le => if both then ToNum(l) <= ToNum(r) else Compare(ToStr(l), ToStr(r)) <= 0
    case Gt => if both then ToNum(l) > ToNum(r) else Compare(ToStr(l), ToStr(r)) > 0
    case Ge => if both then ToNum(l) >= ToNum(r) else Compare(ToStr(l), ToStr(r)) >= 0
    case Eq => if both then ToNum(l) == ToNum(r) else ToStr(l) == ToStr(r)
    case Ne => if both then ToNum(l) != ToNum(r) else ToStr(l) != ToStr(r)
  }

  /** evaluateBinaryOp (lib/engine.ts:289-331) on the operands' values:
      only division by zero fails, and a relational operator always yields
      a boolean. */
  function BinaryOp(op: Parsing.BinOp, l: Value, r: Value): (res: Outcome<Value>)
    ensures res.Fail? <==> op == Parsing.Div && ToNum(r) == 0.0
    ensures res.Fail? ==> res.fault == Div0
    ensures (op.Lt? || op.Le? || op.Gt? || op.Ge? || op.Eq? || op.Ne?) ==> res == Val(Bool(Comparison(op, l, r)))
  {
    match op
    case Add =>
      if !(CanNum(l) && CanNum(r)) then Val(Str(ToStr(l) + ToStr(r))) else Val(Num(ToNum(l) + ToNum(r)))
    case Sub => Val(Num(ToNum(l) - ToNum(r)))
    case Mul => Val(Num(ToNum(l) * ToNum(r)))
    case Div => if ToNum(r) == 0.0 then Fail(Div0) else Val(Num(ToNum(l) / ToNum(r)))
    case Pow => Val(Num(Power(ToNum(l), ToNum(r))))
    case _ => Val(Bool(Comparison(op, l, r)))
  }

  /** `+` adds exactly when both operands are numeric, and otherwise joins
      their text. */
  lemma AddNumericIff(l: Value, r: Value)
    ensures BinaryOp(Parsing.Add, l, r).Val?
    ensures BinaryOp(Parsing.Add, l, r).value.Num? <==> CanNum(l) && CanNum(r)
    ensures !(CanNum(l) && CanNum(r)) ==> BinaryOp(Parsing.Add, l, r).value.s == ToStr(l) + ToStr(r)
  {
  }

  /** `+` on numbers commutes; string concatenation does not need to. */
  lemma AddCommutesOnNumbers(l: Value, r: Value)
    requires CanNum(l) && CanNum(r)
    ensures BinaryOp(Parsing.Add, l, r) == BinaryOp(Parsing.Add, r, l)
  {
  }

  /** `<` and `>` are converses, and so are `<=` and `>=`, for every pair of
      values, numeric or not. */
  lemma ComparisonConverse(l: Value, r: Value)
    ensures Comparison(Parsing.Lt, l, r) == Comparison(Parsing.Gt, r, l)
    ensures Comparison(Parsing.Le, l, r) == Comparison(Parsing.Ge, r, l)
  {
    CompareAntisymmetric(ToStr(l), ToStr(r));
  }

  /** Exactly one of `<`, `=` and `>` holds. */
  lemma Trichotomy(l: Value, r: Value)
    ensures var lt, eq, gt := Comparison(Parsing.Lt, l, r), Comparison(Parsing.Eq, l, r), Comparison(Parsing.Gt, l, r);
            (lt || eq || gt) && !(lt && eq) && !(lt && gt) && !(eq && gt)
  {
    CompareZero(ToStr(l), ToStr(r));
  }

  /** `<=` is `<` or `=`, `>=` is `>` or `=`, and `<>` is the negation of
      `=`. */
  lemma LeIsLtOrEq(l: Value, r: Value)
    ensures Comparison(Parsing.Le, l, r) == (Comparison(Parsing.Lt, l, r) || Comparison(Parsing.Eq, l, r))
    ensures Comparison(Parsing.Ge, l, r) == (Comparison(Parsing.Gt, l, r) || Comparison(Parsing.Eq, l, r))
    ensures Comparison(Parsing.Ne, l, r) == !Comparison(Parsing.Eq, l, r)
  {
    CompareZero(ToStr(l), ToStr(r));
  }

  /** The unary minus case of evaluateAst (lib/engine.ts:170-176): the
      negation of toNum on every value, so null and unreadable strings
      give 0 and true gives -1. */
  function UnaryMinus(v: Value): (r: Value)
    ensures r.Num? && r.n == -ToNum(v)
  {
    match v
    case Null => Num(0.0)
    case Num(n) => Num(-n)
    case Bool(b) => Num(if b then -1.0 else 0.0)
    case Str(s) => match StrToNum(s) case None => Num(0.0) case Some(n) => Num(-n)
  }
}
