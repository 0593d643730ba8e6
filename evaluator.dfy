/** The computation inside `computeAndSendResult`: take the operation word and
    the two operands of an instruction, compute in the integer or the floating
    family, and render the reply line. */
module Evaluator {
  import opened Wrappers
  import opened CLib

  /** The range of a 32-bit C `int`. */
  const IntMin: int := -0x8000_0000
  const IntMax: int := 0x7FFF_FFFF

  predicate InInt(v: int) {
    IntMin <= v <= IntMax
  }

  /** `char operation[10]` holds a word of at most nine characters and its NUL. */
  const OperationCapacity: nat := 9

  /** The reply for float family 0.0: `"%8.8g\n"` pads "0" to width 8. */
  const FloatZeroReply: seq<char> := "       0\n"

  /** The C cast `(int)x`: the integer part of `x`, truncated toward zero. */
  function Trunc(x: real): (t: int)
    ensures 0.0 <= x ==> 0 <= t && t as real <= x < t as real + 1.0
    ensures x < 0.0 ==> t <= 0 && t as real - 1.0 < x <= t as real
  {
    if x >= 0.0 then x.Floor else -((-x).Floor)
  }

  /** C's `/` on `int`, which rounds toward zero (Dafny's `/` is Euclidean). */
  function CDiv(a: int, b: int): int
    requires b != 0
  {
    var q := Abs(a) / Abs(b);
    if (a < 0) == (b < 0) then q else -q
  }

  /** The quotient C computes leaves a remainder smaller than the divisor and
      with the dividend's sign: it is rounded toward zero. */
  lemma CDivRoundsTowardZero(a: int, b: int)
    requires b != 0
    ensures Abs(a - CDiv(a, b) * b) < Abs(b)
    ensures 0 <= a ==> 0 <= a - CDiv(a, b) * b
    ensures a <= 0 ==> a - CDiv(a, b) * b <= 0
    ensures Abs(CDiv(a, b)) == Abs(a) / Abs(b)
  {
  }

  datatype FloatOp = FAdd | FSub | FMul | FDiv

  /** The value `computeAndSendResult` replies with: an `int` for the integer
      family, a float operation on the two operands, or a float family 0.0
      when the word starts with 'f' but names no float operation. */
  datatype Value = IntValue(n: int) | FloatValue(op: FloatOp, x: real, y: real) | FloatZero

  /** Inputs on which the C code has undefined behaviour; here each is an
      explicit error instead. */
  datatype EvalError =
    | NoOperation       // `%s` matched nothing: `operation` is never written
    | OperationTooLong  // the word overflows `operation[10]`
    | OperandsMissing   // `%lf` did not assign both operands
    | CastOverflow      // `(int)` of a double outside the `int` range
    | ArithmeticOverflow
    | DivisionByZero

  /** The four float operations, looked up by name. */
  function FloatOpNamed(op: seq<char>): (f: Option<FloatOp>)
    ensures f.Some? ==> op != [] && op[0] == 'f'
  {
    if op == "fadd" then Some(FAdd)
    else if op == "fsub" then Some(FSub)
    else if op == "fmul" then Some(FMul)
    else if op == "fdiv" then Some(FDiv)
    else None
  }

  predicate IsIntOp(op: seq<char>) {
    op == "add" || op == "sub" || op == "mul" || op == "div"
  }

  /** An `int` result, or an overflow. */
  function Checked(v: int): Result<int, EvalError> {
    if InInt(v) then Ok(v) else Err(ArithmeticOverflow)
  }

  /** The integer branch on two `int` operands; a word it does not know leaves
      `integer_result` at its initial 0. */
  function IntArith(op: seq<char>, a: int, b: int): (r: Result<int, EvalError>)
    ensures r.Ok? ==> InInt(r.value)
    ensures r.Err? ==> r.error == ArithmeticOverflow || r.error == DivisionByZero
    ensures r == Err(DivisionByZero) <==> op == "div" && b == 0
    ensures !IsIntOp(op) ==> r == Ok(0)
  {
    if op == "add" then Checked(a + b)
    else if op == "sub" then Checked(a - b)
    else if op == "mul" then Checked(a * b)
    else if op == "div" then (if b == 0 then Err(DivisionByZero) else Checked(CDiv(a, b)))
    else Ok(0)
  }

  /** The dispatch of `computeAndSendResult` on the operation word and the two
      operands as doubles. The family of the reply follows the first letter of
      the word alone. */
  function Compute(op: seq<char>, x: real, y: real): (r: Result<Value, EvalError>)
    requires op != []
    ensures r.Ok? ==> (r.value.IntValue? <==> op[0] != 'f')
    ensures r.Ok? && r.value.IntValue? ==> InInt(r.value.n)
    ensures r.Err? ==> r.error == CastOverflow || r.error == ArithmeticOverflow || r.error == DivisionByZero
    ensures FloatOpNamed(op).Some? ==> r == Ok(FloatValue(FloatOpNamed(op).value, x, y))
    ensures FloatOpNamed(op).None? ==> (r == Err(CastOverflow) <==> !(InInt(Trunc(x)) && InInt(Trunc(y))))
  {
    match FloatOpNamed(op)
    case Some(f) => Ok(FloatValue(f, x, y))
    case None =>
      var a, b := Trunc(x), Trunc(y);
      if !InInt(a) || !InInt(b) then Err(CastOverflow)
      else match IntArith(op, a, b)
        case Err(e) => Err(e)
        case Ok(v) => if op[0] == 'f' then Ok(FloatZero) else Ok(IntValue(v))
  }

  /** `snprintf(response, 50, "%d\n", n)`. */
  function FormatInt(n: int): seq<char> {
    Decimal(n) + "\n"
  }

  /** The reply line; the float conversion `"%8.8g\n"` of an IEEE result is
      supplied by the caller. */
  function Reply(v: Value, formatFloat: (FloatOp, real, real) -> seq<char>): seq<char> {
    match v
    case IntValue(n) => FormatInt(n)
    case FloatValue(op, x, y) => formatFloat(op, x, y)
    case FloatZero => FloatZeroReply
  }

  /** What the code relies on and this model does not compute: `sscanf`'s
      `%lf` conversions of the two operands (None when they are not both
      assigned) and the IEEE arithmetic and `"%8.8g\n"` text of a float
      operation. */
  datatype Externals = Externals(
    scanOperands: seq<char> -> Option<(real, real)>,
    formatFloat: (FloatOp, real, real) -> seq<char>)

  /** `computeAndSendResult` without its final send: the reply line for an
      instruction, or the undefined behaviour the instruction would trigger. */
  function Respond(instruction: seq<char>, ext: Externals): (r: Result<seq<char>, EvalError>)
    ensures r == Err(NoOperation) <==> FirstWord(instruction) == []
    ensures r == Err(OperationTooLong) <==> |FirstWord(instruction)| > OperationCapacity
    ensures r.Ok? ==> ext.scanOperands(instruction).Some?
  {
    var op := FirstWord(instruction);
    if op == [] then Err(NoOperation)
    else if |op| > OperationCapacity then Err(OperationTooLong)
    else
      var operands := ext.scanOperands(instruction);
      if operands.None? then Err(OperandsMissing)
      else
        var c := Compute(op, operands.value.0, operands.value.1);
        if c.Err? then Err(c.error) else Ok(Reply(c.value, ext.formatFloat))
  }

  // ---------------------------------------------------------------------------
  // Properties

  /** `add`, `sub`, `mul` and `div` compute on the operands truncated toward
      zero, with C's rounding for `div`; overflow and a zero divisor are errors. */
  lemma IntegerOperations(op: seq<char>, x: real, y: real)
    requires IsIntOp(op)
    requires InInt(Trunc(x)) && InInt(Trunc(y))
    ensures op == "add" ==> Compute(op, x, y) == MapInt(Checked(Trunc(x) + Trunc(y)))
    ensures op == "sub" ==> Compute(op, x, y) == MapInt(Checked(Trunc(x) - Trunc(y)))
    ensures op == "mul" ==> Compute(op, x, y) == MapInt(Checked(Trunc(x) * Trunc(y)))
    ensures op == "div" && Trunc(y) == 0 ==> Compute(op, x, y) == Err(DivisionByZero)
    ensures op == "div" && Trunc(y) != 0 ==>
      Compute(op, x, y) == MapInt(Checked(CDiv(Trunc(x), Trunc(y))))
  {
    assert FloatOpNamed(op) == None;
    assert op[0] != 'f';
  }

  function MapInt(r: Result<int, EvalError>): Result<Value, EvalError> {
    match r
    case Ok(v) => Ok(IntValue(v))
    case Err(e) => Err(e)
  }

  /** A word that names no operation and does not start with 'f' leaves the
      result at 0, so the reply is "0\n". */
  lemma UnknownOperationRepliesZero(op: seq<char>, x: real, y: real, formatFloat: (FloatOp, real, real) -> seq<char>)
    requires op != [] && op[0] != 'f' && !IsIntOp(op)
    requires InInt(Trunc(x)) && InInt(Trunc(y))
    ensures Compute(op, x, y) == Ok(IntValue(0))
    ensures Reply(IntValue(0), formatFloat) == "0\n"
  {
    assert FloatOpNamed(op) == None;
    assert Digits(0) == "0";
  }

  /** A word that starts with 'f' but names no float operation selects the
      float format anyway and prints 0.0 with it. */
  lemma UnknownFloatOperationRepliesZero(op: seq<char>, x: real, y: real)
    requires op != [] && op[0] == 'f' && FloatOpNamed(op) == None
    requires InInt(Trunc(x)) && InInt(Trunc(y))
    ensures Compute(op, x, y) == Ok(FloatZero)
  {
    assert !IsIntOp(op);
  }

  /** The `%d` reply reads back, through `atoi`, as the value it renders, and
      ends in a newline. */
  lemma FormatIntRoundTrip(n: int)
    ensures Atoi(FormatInt(n)) == n
    ensures FormatInt(n)[|FormatInt(n)| - 1] == '\n'
  {
    AtoiOfDecimal(n, "\n");
  }

  /** Every `int` reply fits the 50-byte `response` buffer with room to spare:
      at most a sign, ten digits and the newline. */
  lemma FormatIntFits(n: int)
    requires InInt(n)
    ensures |FormatInt(n)| <= 12 < 50
  {
    assert Pow10(10) == 10000000000 by {
      assert Pow10(2) == 100;
      assert Pow10(4) == 10 * (10 * Pow10(2));
      assert Pow10(6) == 10 * (10 * Pow10(4));
      assert Pow10(8) == 10 * (10 * Pow10(6));
      assert Pow10(10) == 10 * (10 * Pow10(8));
    }
    DigitsLength(Abs(n), 10);
  }

  /** `"add 7.9 3.2"` adds the truncated operands 7 and 3. */
  lemma AddExample(formatFloat: (FloatOp, real, real) -> seq<char>)
    ensures Compute("add", 7.9, 3.2) == Ok(IntValue(10))
    ensures Reply(IntValue(10), formatFloat) == "10\n"
  {
    assert Trunc(7.9) == 7 && Trunc(3.2) == 3;
    assert Digits(10) == Digits(1) + ['0'];
  }

  /** `"mul 7 3"` replies "21\n". */
  lemma MulExample(formatFloat: (FloatOp, real, real) -> seq<char>)
    ensures Compute("mul", 7.0, 3.0) == Ok(IntValue(21))
    ensures Reply(IntValue(21), formatFloat) == "21\n"
  {
    assert Trunc(7.0) == 7 && Trunc(3.0) == 3;
    assert Digits(21) == Digits(2) + ['1'];
  }

  /** `div` rounds toward zero: -7 / 2 is -3. */
  lemma DivExample()
    ensures Compute("div", -7.0, 2.0) == Ok(IntValue(-3))
  {
    assert Trunc(-7.0) == -7 && Trunc(2.0) == 2;
    assert CDiv(-7, 2) == -3;
  }

  /** The two integer divisions C leaves undefined are errors here. */
  lemma DivErrors()
    ensures Compute("div", 1.0, 0.0) == Err(DivisionByZero)
    ensures Compute("div", IntMin as real, -1.0) == Err(ArithmeticOverflow)
  {
    assert Trunc(1.0) == 1 && Trunc(0.0) == 0;
    assert Trunc(IntMin as real) == IntMin && Trunc(-1.0) == -1;
    assert CDiv(IntMin, -1) == IntMax + 1;
  }

  /** The operation word of "mul 7 3" is "mul". */
  lemma MulWord()
    ensures FirstWord("mul 7 3") == "mul"
  {
    var w, rest := "mul", " 7 3";
    assert w + rest == "mul 7 3";
    assert !IsSpace(w[0]) && !IsSpace(w[1]) && !IsSpace(w[2]);
    FirstWordOf(w, rest);
  }

  /** An instruction whose word is accepted and does not start with 'f', with
      both operands scanned: the reply is the `"%d\n"` text of the integer
      result, which `atoi` reads back, and an undefined result is the error
      `Compute` gives. Which integer that is, IntegerOperations and
      UnknownOperationRepliesZero state. */
  lemma RespondIntegerFamily(i: seq<char>, ext: Externals, x: real, y: real)
    requires var op := FirstWord(i); op != [] && |op| <= OperationCapacity && op[0] != 'f'
    requires ext.scanOperands(i) == Some((x, y))
    ensures var c := Compute(FirstWord(i), x, y);
      (c.Ok? ==> c.value.IntValue? && Respond(i, ext) == Ok(FormatInt(c.value.n)) &&
                 Atoi(Respond(i, ext).value) == c.value.n) &&
      (c.Err? ==> Respond(i, ext) == Err(c.error))
  {
    var c := Compute(FirstWord(i), x, y);
    if c.Ok? {
      FormatIntRoundTrip(c.value.n);
    }
  }

  /** A float operation, with both operands scanned, replies with the float
      text of that operation on the scanned operands, not truncated. */
  lemma RespondFloatOperation(i: seq<char>, ext: Externals, x: real, y: real)
    requires |FirstWord(i)| <= OperationCapacity && FloatOpNamed(FirstWord(i)).Some?
    requires ext.scanOperands(i) == Some((x, y))
    ensures Respond(i, ext) == Ok(ext.formatFloat(FloatOpNamed(FirstWord(i)).value, x, y))
  {
    var op := FirstWord(i);
    assert op != [];
    assert Compute(op, x, y) == Ok(FloatValue(FloatOpNamed(op).value, x, y));
  }

  /** Any other word starting with 'f', with both operands scanned, still
      casts them to `int`: it replies with the text of 0.0 when both truncate
      into `int` range, and is undefined behaviour otherwise. */
  lemma RespondUnknownFloatWord(i: seq<char>, ext: Externals, x: real, y: real)
    requires var op := FirstWord(i); op != [] && |op| <= OperationCapacity && op[0] == 'f'
    requires FloatOpNamed(FirstWord(i)).None?
    requires ext.scanOperands(i) == Some((x, y))
    ensures Respond(i, ext) ==
      if InInt(Trunc(x)) && InInt(Trunc(y)) then Ok(FloatZeroReply) else Err(CastOverflow)
  {
    var op := FirstWord(i);
    if InInt(Trunc(x)) && InInt(Trunc(y)) {
      UnknownFloatOperationRepliesZero(op, x, y);
      assert Compute(op, x, y) == Ok(FloatZero);
    } else {
      assert Compute(op, x, y) == Err(CastOverflow);
    }
  }

  /** An unknown word starting with 'f' still casts its operands: 1e10 does
      not fit an `int`. */
  lemma UnknownFloatWordCastExample()
    ensures Compute("foo", 10000000000.0, 1.0) == Err(CastOverflow)
  {
    assert FloatOpNamed("foo") == None;
    assert Trunc(10000000000.0) == 10000000000;
  }

  /** An instruction whose operands are not both scanned has no reply. */
  lemma RespondNeedsOperands(i: seq<char>, ext: Externals)
    requires var op := FirstWord(i); op != [] && |op| <= OperationCapacity
    requires ext.scanOperands(i).None?
    ensures Respond(i, ext) == Err(OperandsMissing)
  {
  }

  /** The whole instruction "mul 7 3": the operation word is "mul", and with
      the operands 7 and 3 the reply is "21\n". */
  lemma RespondMulExample(ext: Externals)
    requires ext.scanOperands("mul 7 3") == Some((7.0, 3.0))
    ensures Respond("mul 7 3", ext) == Ok("21\n")
  {
    MulWord();
    MulExample(ext.formatFloat);
  }
}
