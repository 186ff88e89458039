/**
 * The calculator's commands. Each command is a transition of the stack of
 * polynomials, given here as a function of the stack before it (`After`,
 * `AfterArg`) and as the method that performs it on a `PolyStack`. Queries
 * leave the stack alone and return the line they print. The command table
 * records, per command, how many polynomials it needs and which arguments
 * it accepts.
 */
module Operations {
  import opened PolyBase
  import opened PolySum
  import opened PolySumFacts
  import PolyProduct
  import PolyProductFacts
  import opened PolySubst
  import opened PolyDegree
  import opened PolyText
  import opened Decimal
  import opened PolyStacks
  import PolyLoops
  import Numbers

  const UINT_MAX: int := 4294967295
  const OPER_WITHOUT_ARG_AMOUNT: nat := 12
  const OPER_WITH_ARG_AMOUNT: nat := 3

  /** Commands without an argument; `execute` of the table entries. */
  datatype Command = ZERO | IS_COEFF | IS_ZERO | CLONE | ADD | MUL | NEG | SUB | IS_EQ | DEG | PRINT | POP

  /** Commands with one numeric argument. */
  datatype ArgCommand = DEG_BY | AT | COMPOSE

  /** The C conversion of a `long` to `unsigned`: modulo 2^32. */
  function ToUnsigned(v: int): nat {
    v % (UINT_MAX + 1)
  }

  /** `printf("%d\n", i)` */
  function Line(i: int): string {
    IntToString(i) + "\n"
  }

  /** A C `bool` printed with `%d`. */
  function BoolToInt(b: bool): int {
    if b then 1 else 0
  }

  predicate AllValid(items: seq<Poly>) {
    forall i :: 0 <= i < |items| ==> Valid(items[i])
  }

  // ---------------------------------------------------------------------
  // What each command does to the stack
  // ---------------------------------------------------------------------

  /** How many polynomials on the top a command looks at. */
  function Need(cmd: Command): nat {
    match cmd
    case ZERO => 0
    case ADD | MUL | SUB | IS_EQ => 2
    case _ => 1
  }

  /** How many polynomials a command takes off the top, and how many it puts back. */
  function Consumed(cmd: Command): nat {
    match cmd
    case ADD | MUL | SUB => 2
    case NEG | POP => 1
    case _ => 0
  }

  function Produced(cmd: Command): nat {
    match cmd
    case ZERO | CLONE | ADD | MUL | SUB | NEG => 1
    case _ => 0
  }

  /** The stack after a command without an argument; the top is the last element. */
  function After(cmd: Command, items: seq<Poly>): seq<Poly>
    requires |items| >= Need(cmd)
  {
    var n := |items|;
    match cmd
    case ZERO => items + [Zero()]
    case CLONE => items + [items[n - 1]]
    case ADD => items[..n - 2] + [Add(items[n - 1], items[n - 2])]
    case MUL => items[..n - 2] + [PolyProduct.Mul(items[n - 1], items[n - 2])]
    case SUB => items[..n - 2] + [Sub(items[n - 1], items[n - 2])]
    case NEG => items[..n - 1] + [Neg(items[n - 1])]
    case POP => items[..n - 1]
    case _ => items
  }

  /** What a command without an argument prints. */
  function Output(cmd: Command, items: seq<Poly>): string
    requires |items| >= Need(cmd)
  {
    var n := |items|;
    match cmd
    case IS_COEFF => Line(BoolToInt(IsCoeff(items[n - 1])))
    case IS_ZERO => Line(BoolToInt(IsZero(items[n - 1])))
    case IS_EQ => Line(BoolToInt(items[n - 1] == items[n - 2]))
    case DEG => Line(Deg(items[n - 1]))
    case PRINT => PolyToString(items[n - 1]) + "\n"
    case _ => ""
  }

  /** The `k` polynomials directly below the top, nearest first. */
  function Below(items: seq<Poly>, k: nat): (x: seq<Poly>)
    requires |items| >= k + 1
    ensures |x| == k
  {
    seq(k, j requires 0 <= j < k => items[|items| - 2 - j])
  }

  /** How many polynomials a command with argument `a` looks at. */
  function ArgNeed(cmd: ArgCommand, a: int): nat {
    match cmd
    case COMPOSE => ToUnsigned(a) + 1
    case _ => 1
  }

  /** The stack after a command with argument `a`. */
  function AfterArg(cmd: ArgCommand, a: int, items: seq<Poly>): seq<Poly>
    requires |items| >= ArgNeed(cmd, a)
  {
    var n := |items|;
    match cmd
    case DEG_BY => items
    case AT => items[..n - 1] + [At(items[n - 1], a)]
    case COMPOSE =>
      var count := ToUnsigned(a);
      items[..n - 1 - count] + [Compose(items[n - 1], Below(items, count))]
  }

  /** What a command with argument `a` prints. */
  function ArgOutput(cmd: ArgCommand, a: int, items: seq<Poly>): string
    requires |items| >= ArgNeed(cmd, a)
    requires cmd == DEG_BY ==> WellFormed(items[|items| - 1])
  {
    if cmd == DEG_BY then Line(DegBy(items[|items| - 1], ToUnsigned(a))) else ""
  }

  // ---------------------------------------------------------------------
  // Properties of the transitions
  // ---------------------------------------------------------------------

  /**
   * A command takes `Consumed` polynomials off the top, puts `Produced`
   * back, and leaves everything below as it was.
   */
  lemma AfterKeepsBelow(cmd: Command, items: seq<Poly>)
    requires |items| >= Need(cmd)
    ensures Consumed(cmd) <= |items|
    ensures |After(cmd, items)| == |items| - Consumed(cmd) + Produced(cmd)
    ensures After(cmd, items)[..|items| - Consumed(cmd)] == items[..|items| - Consumed(cmd)]
  {
  }

  /** The same for the commands with an argument: COMPOSE k takes k + 1 and puts one back. */
  lemma AfterArgKeepsBelow(cmd: ArgCommand, a: int, items: seq<Poly>)
    requires |items| >= ArgNeed(cmd, a)
    ensures var taken := if cmd == DEG_BY then 0 else ArgNeed(cmd, a);
      |AfterArg(cmd, a, items)| == |items| - taken + (if cmd == DEG_BY then 0 else 1) &&
      AfterArg(cmd, a, items)[..|items| - taken] == items[..|items| - taken]
  {
  }

  /** A stack of canonical polynomials stays canonical under every command. */
  lemma AfterKeepsValid(cmd: Command, items: seq<Poly>)
    requires |items| >= Need(cmd) && AllValid(items)
    ensures AllValid(After(cmd, items))
  {
    var n := |items|;
    match cmd
    case ADD =>
      ValidCoeffsValid(items[n - 1]);
      ValidCoeffsValid(items[n - 2]);
      AddValid(items[n - 1], items[n - 2]);
    case MUL =>
      ValidCoeffsValid(items[n - 1]);
      ValidCoeffsValid(items[n - 2]);
      PolyProductFacts.MulValid(items[n - 1], items[n - 2]);
    case SUB =>
      SubValid(items[n - 1], items[n - 2]);
    case NEG =>
      NegValid(items[n - 1]);
    case _ =>
  }

  lemma AfterArgKeepsValid(cmd: ArgCommand, a: int, items: seq<Poly>)
    requires |items| >= ArgNeed(cmd, a) && AllValid(items)
    ensures AllValid(AfterArg(cmd, a, items))
  {
    var n := |items|;
    match cmd
    case AT =>
      AtValid(items[n - 1], a);
    case COMPOSE =>
      var x := Below(items, ToUnsigned(a));
      assert forall i :: 0 <= i < |x| ==> Valid(x[i]) by {
        forall i | 0 <= i < |x|
          ensures Valid(x[i])
        {
          assert x[i] == items[n - 2 - i];
        }
      }
      ComposeValid(items[n - 1], x);
    case DEG_BY =>
  }

  /** SUB leaves the top minus the polynomial below it, as values. */
  lemma SubIsTopMinusNext(items: seq<Poly>, xs: seq<int>)
    requires |items| >= 2
    ensures var r := After(SUB, items);
      Eval(r[|r| - 1], xs) == Eval(items[|items| - 1], xs) - Eval(items[|items| - 2], xs)
  {
    SubEval(items[|items| - 1], items[|items| - 2], xs);
  }

  // ---------------------------------------------------------------------
  // The executors
  // ---------------------------------------------------------------------

  datatype ArithOp = AddOp | MulOp | SubOp

  function CommandOf(op: ArithOp): Command {
    match op
    case AddOp => ADD
    case MulOp => MUL
    case SubOp => SUB
  }

  /**
   * Execute2ArgArithmeticOper: applies `op` to the top and the polynomial
   * below it, pops both and pushes the result.
   */
  method Execute2ArgArithmeticOper(op: ArithOp, s: PolyStack)
    requires |s.items| >= 2
    modifies s
    ensures s.items == After(CommandOf(op), old(s.items))
  {
    var top := s.Top();
    var top2 := s.NextAfterTop();
    var opRes: Poly;
    match op {
      case AddOp => opRes := PolyLoops.PolyAdd(top, top2);
      case MulOp => opRes := PolyLoops.PolyMul(top, top2);
      case SubOp => opRes := PolyLoops.PolySub(top, top2);
    }
    s.Pop();
    s.Pop();
    s.Push(opRes);
  }

  method IsCoeffExecute(s: PolyStack) returns (line: string)
    requires |s.items| >= 1
    ensures line == Output(IS_COEFF, s.items)
  {
    var top := s.Top();
    line := Line(BoolToInt(IsCoeff(top)));
  }

  method IsZeroExecute(s: PolyStack) returns (line: string)
    requires |s.items| >= 1
    ensures line == Output(IS_ZERO, s.items)
  {
    var top := s.Top();
    line := Line(BoolToInt(IsZero(top)));
  }

  method CloneExecute(s: PolyStack)
    requires |s.items| >= 1
    modifies s
    ensures s.items == After(CLONE, old(s.items))
  {
    var top := s.Top();
    var p2 := PolyLoops.PolyClone(top);
    s.Push(p2);
  }

  method AddExecute(s: PolyStack)
    requires |s.items| >= 2
    modifies s
    ensures s.items == After(ADD, old(s.items))
  {
    Execute2ArgArithmeticOper(AddOp, s);
  }

  method MulExecute(s: PolyStack)
    requires |s.items| >= 2
    modifies s
    ensures s.items == After(MUL, old(s.items))
  {
    Execute2ArgArithmeticOper(MulOp, s);
  }

  method NegExecute(s: PolyStack)
    requires |s.items| >= 1
    modifies s
    ensures s.items == After(NEG, old(s.items))
  {
    var top := s.Top();
    var neg := Neg(top);
    s.Pop();
    s.Push(neg);
  }

  /** SubExecute: the top minus the polynomial below it. */
  method SubExecute(s: PolyStack)
    requires |s.items| >= 2
    modifies s
    ensures s.items == After(SUB, old(s.items))
  {
    Execute2ArgArithmeticOper(SubOp, s);
  }

  method IsEqExecute(s: PolyStack) returns (line: string)
    requires |s.items| >= 2 && WellFormed(s.Top()) && WellFormed(s.NextAfterTop())
    ensures line == Output(IS_EQ, s.items)
  {
    var top := s.Top();
    var top2 := s.NextAfterTop();
    var eq := PolyLoops.PolyIsEq(top, top2);
    line := Line(BoolToInt(eq));
  }

  method DegExecute(s: PolyStack) returns (line: string)
    requires |s.items| >= 1
    ensures line == Output(DEG, s.items)
  {
    var top := s.Top();
    var d := PolyDeg(top);
    line := Line(d);
  }

  method PopExecute(s: PolyStack)
    requires |s.items| >= 1
    modifies s
    ensures s.items == After(POP, old(s.items))
  {
    s.Pop();
  }

  method ZeroExecute(s: PolyStack)
    modifies s
    ensures s.items == After(ZERO, old(s.items))
  {
    var p := Zero();
    s.Push(p);
  }

  method PrintExecute(s: PolyStack) returns (line: string)
    requires |s.items| >= 1
    ensures line == Output(PRINT, s.items)
  {
    var top := s.Top();
    line := PolyToString(top) + "\n";
  }

  /** The value of a command's argument, as NumberToLong gives it. */
  function ArgValue(arg: Numbers.Number): int
    reads arg, arg.repr
  {
    Numbers.ToLong(arg.isNegative, arg.repr.chars)
  }

  /** DegByExecute: the degree in the variable whose index is the argument cast to `unsigned`. */
  method DegByExecute(s: PolyStack, arg: Numbers.Number) returns (line: string)
    requires |s.items| >= 1 && WellFormed(s.Top())
    ensures line == ArgOutput(DEG_BY, ArgValue(arg), s.items)
  {
    var top := s.Top();
    var v := Numbers.NumberToLong(arg);
    var d := PolyDegBy(top, ToUnsigned(v));
    line := Line(d);
  }

  method AtExecute(s: PolyStack, arg: Numbers.Number)
    requires |s.items| >= 1
    modifies s
    ensures s.items == AfterArg(AT, ArgValue(arg), old(s.items))
  {
    var top := s.Top();
    var v := Numbers.NumberToLong(arg);
    var at := PolyLoops.PolyAt(top, v);
    s.Pop();
    s.Push(at);
  }

  /**
   * ComposeExecute: pops p, then pops `count` more polynomials into x (x[0]
   * the one directly below p), and pushes the composition.
   */
  method ComposeExecute(s: PolyStack, arg: Numbers.Number)
    requires |s.items| >= ArgNeed(COMPOSE, ArgValue(arg))
    modifies s
    ensures s.items == AfterArg(COMPOSE, ArgValue(arg), old(s.items))
  {
    ghost var items := s.items;
    var topTmp := s.Top();
    var top := PolyLoops.PolyClone(topTmp);
    s.Pop();
    var v := Numbers.NumberToLong(arg);
    var count := ToUnsigned(v);
    var x := new Poly[count];
    var i := 0;
    while i < count
      invariant 0 <= i <= count
      invariant s.items == items[..|items| - 1 - i]
      invariant forall j :: 0 <= j < i ==> x[j] == items[|items| - 2 - j]
      modifies s, x
    {
      var tmp := s.Top();
      x[i] := PolyLoops.PolyClone(tmp);
      s.Pop();
      i := i + 1;
    }
    assert x[..] == Below(items, count);
    var composed := Compose(top, x[..]);
    s.Push(composed);
  }

  // ---------------------------------------------------------------------
  // The command table
  // ---------------------------------------------------------------------

  /** The two functions that compute a command's required stack size from its argument. */
  datatype StackSizeRule = ConstantRequiredStackSize | ArgDependentRequiredStackSize

  datatype Operation = Operation(name: string, requiredStackSize: int, execute: Command)

  datatype OperationWithArg = OperationWithArg(
    name: string,
    requiredStackSize: StackSizeRule,
    execute: ArgCommand,
    argErrorType: string,
    argMinValue: int,
    argMaxValue: int)

  /** The required stack size a rule gives for an argument of value `a`. */
  function RequiredStackSize(rule: StackSizeRule, a: int): int {
    match rule
    case ConstantRequiredStackSize => 1
    case ArgDependentRequiredStackSize => a + 1
  }

  /** ConstantRequiredStackSize / ArgDependentRequiredStackSize on a Number. */
  method RequiredStackSizeOf(rule: StackSizeRule, arg: Numbers.Number) returns (size: int)
    ensures size == RequiredStackSize(rule, ArgValue(arg))
  {
    match rule {
      case ConstantRequiredStackSize =>
        size := 1;
      case ArgDependentRequiredStackSize =>
        var v := Numbers.NumberToLong(arg);
        size := v + 1;
    }
  }

  function StandardOperations(): seq<Operation> {
    [ Operation("ZERO", 0, ZERO),
      Operation("IS_COEFF", 1, IS_COEFF),
      Operation("IS_ZERO", 1, IS_ZERO),
      Operation("CLONE", 1, CLONE),
      Operation("ADD", 2, ADD),
      Operation("MUL", 2, MUL),
      Operation("NEG", 1, NEG),
      Operation("SUB", 2, SUB),
      Operation("IS_EQ", 2, IS_EQ),
      Operation("DEG", 1, DEG),
      Operation("PRINT", 1, PRINT),
      Operation("POP", 1, POP) ]
  }

  function StandardOperationsWithArg(): seq<OperationWithArg> {
    [ OperationWithArg("DEG_BY", ConstantRequiredStackSize, DEG_BY, "WRONG VARIABLE", 0, UINT_MAX),
      OperationWithArg("AT", ConstantRequiredStackSize, AT, "WRONG VALUE", Numbers.LONG_MIN, Numbers.LONG_MAX),
      OperationWithArg("COMPOSE", ArgDependentRequiredStackSize, COMPOSE, "WRONG COUNT", 0, UINT_MAX) ]
  }

  /** InitStandardOperations: fills both tables entry by entry. */
  method InitStandardOperations(operation: array<Operation>, opWithArg: array<OperationWithArg>)
    requires operation.Length >= OPER_WITHOUT_ARG_AMOUNT && opWithArg.Length >= OPER_WITH_ARG_AMOUNT
    modifies operation, opWithArg
    ensures operation[..OPER_WITHOUT_ARG_AMOUNT] == StandardOperations()
    ensures opWithArg[..OPER_WITH_ARG_AMOUNT] == StandardOperationsWithArg()
    ensures operation[OPER_WITHOUT_ARG_AMOUNT..] == old(operation[OPER_WITHOUT_ARG_AMOUNT..])
    ensures opWithArg[OPER_WITH_ARG_AMOUNT..] == old(opWithArg[OPER_WITH_ARG_AMOUNT..])
  {
    var ops := StandardOperations();
    var opsWithArg := StandardOperationsWithArg();
    for i := 0 to OPER_WITHOUT_ARG_AMOUNT
      modifies operation
      invariant operation[..i] == ops[..i]
      invariant operation[OPER_WITHOUT_ARG_AMOUNT..] == old(operation[OPER_WITHOUT_ARG_AMOUNT..])
    {
      operation[i] := ops[i];
    }
    for i := 0 to OPER_WITH_ARG_AMOUNT
      modifies opWithArg
      invariant opWithArg[..i] == opsWithArg[..i]
      invariant opWithArg[OPER_WITH_ARG_AMOUNT..] == old(opWithArg[OPER_WITH_ARG_AMOUNT..])
    {
      opWithArg[i] := opsWithArg[i];
    }
  }

  /** Every entry of the table asks for exactly the polynomials its executor looks at. */
  lemma TableMatchesExecutors(i: nat)
    requires i < OPER_WITHOUT_ARG_AMOUNT
    ensures StandardOperations()[i].requiredStackSize == Need(StandardOperations()[i].execute)
  {
  }

  /**
   * Within the accepted argument range, the required stack size of a
   * command with an argument is what its executor looks at; in particular
   * the `unsigned` cast of COMPOSE's count loses nothing.
   */
  lemma ArgTableMatchesExecutors(i: nat, a: int)
    requires i < OPER_WITH_ARG_AMOUNT
    requires StandardOperationsWithArg()[i].argMinValue <= a <= StandardOperationsWithArg()[i].argMaxValue
    ensures var e := StandardOperationsWithArg()[i];
      RequiredStackSize(e.requiredStackSize, a) == ArgNeed(e.execute, a)
  {
  }

  /** No two commands share a name, so looking a command up by name is unambiguous. */
  lemma NamesDistinct()
    ensures var names := seq(OPER_WITHOUT_ARG_AMOUNT, i requires 0 <= i < OPER_WITHOUT_ARG_AMOUNT => StandardOperations()[i].name)
      + seq(OPER_WITH_ARG_AMOUNT, i requires 0 <= i < OPER_WITH_ARG_AMOUNT => StandardOperationsWithArg()[i].name);
      forall i, j :: 0 <= i < j < |names| ==> names[i] != names[j]
  {
  }

  // ---------------------------------------------------------------------
  // Running a command from the table
  // ---------------------------------------------------------------------

  /**
   * The call through an entry's `execute`: performs the command and returns
   * what it prints. With the stack size the table asks for, the executor's
   * precondition holds, and a canonical stack stays canonical.
   */
  method Run(cmd: Command, s: PolyStack) returns (line: string)
    requires |s.items| >= Need(cmd) && AllValid(s.items)
    modifies s
    ensures s.items == After(cmd, old(s.items))
    ensures line == Output(cmd, old(s.items))
    ensures AllValid(s.items)
  {
    AfterKeepsValid(cmd, s.items);
    line := "";
    match cmd {
      case ZERO => ZeroExecute(s);
      case IS_COEFF => line := IsCoeffExecute(s);
      case IS_ZERO => line := IsZeroExecute(s);
      case CLONE => CloneExecute(s);
      case ADD => AddExecute(s);
      case MUL => MulExecute(s);
      case NEG => NegExecute(s);
      case SUB => SubExecute(s);
      case IS_EQ =>
        ValidIsWellFormed(s.Top());
        ValidIsWellFormed(s.NextAfterTop());
        line := IsEqExecute(s);
      case DEG => line := DegExecute(s);
      case PRINT => line := PrintExecute(s);
      case POP => PopExecute(s);
    }
  }

  method RunWithArg(cmd: ArgCommand, s: PolyStack, arg: Numbers.Number) returns (line: string)
    requires |s.items| >= ArgNeed(cmd, ArgValue(arg)) && AllValid(s.items)
    modifies s
    ensures s.items == AfterArg(cmd, ArgValue(arg), old(s.items))
    ensures (cmd == DEG_BY ==> WellFormed(old(s.Top()))) && line == ArgOutput(cmd, ArgValue(arg), old(s.items))
    ensures AllValid(s.items)
  {
    ValidIsWellFormed(s.Top());
    AfterArgKeepsValid(cmd, ArgValue(arg), s.items);
    line := "";
    match cmd {
      case DEG_BY => line := DegByExecute(s, arg);
      case AT => AtExecute(s, arg);
      case COMPOSE => ComposeExecute(s, arg);
    }
  }
}
