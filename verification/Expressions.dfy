/** stack.c: infix to postfix by the shunting yard, postfix evaluation, bracket checking.

    `double` is modelled by exact numbers. */
module Expressions {
  import opened ArrayStacks

  datatype Token = Num(digits: string) | Op(c: char) | Open | Close

  predicate IsDigit(c: char) { '0' <= c <= '9' }

  /** `is_operator`. */
  predicate IsOperator(c: char) { c == '+' || c == '-' || c == '*' || c == '/' || c == '^' }

  /** `precedence`. */
  function Precedence(c: char): nat {
    if c == '+' || c == '-' then 1 else if c == '*' || c == '/' then 2 else if c == '^' then 3 else 0
  }

  /** How many digits a string starts with. */
  function Digits(s: string): (n: nat)
    ensures n <= |s| && (forall i :: 0 <= i < n ==> IsDigit(s[i])) && (n < |s| ==> !IsDigit(s[n]))
  {
    if s != [] && IsDigit(s[0]) then 1 + Digits(s[1..]) else 0
  }

  /** The tokens of a string: maximal digit runs, operators and parentheses; anything else,
      spaces included, only separates. */
  function Lex(s: string): seq<Token>
    decreases |s|
  {
    if s == [] then []
    else if IsDigit(s[0]) then [Num(s[..Digits(s)])] + Lex(s[Digits(s)..])
    else if s[0] == '(' then [Open] + Lex(s[1..])
    else if s[0] == ')' then [Close] + Lex(s[1..])
    else if IsOperator(s[0]) then [Op(s[0])] + Lex(s[1..])
    else Lex(s[1..])
  }

  function Text(t: Token): string {
    match t
    case Num(d) => d
    case Op(c) => [c]
    case Open => "("
    case Close => ")"
  }

  /** Every token followed by one space. */
  function Emit(ts: seq<Token>): string {
    if ts == [] then [] else Emit(ts[..|ts| - 1]) + Text(ts[|ts| - 1]) + " "
  }

  function Trim(s: string): string {
    if s != [] && s[|s| - 1] == ' ' then s[..|s| - 1] else s
  }

  function Popped(c: char): Token {
    if c == '(' then Open else Op(c)
  }

  function Drain(ops: string): seq<Token> {
    if ops == [] then [] else [Popped(ops[|ops| - 1])] + Drain(ops[..|ops| - 1])
  }

  /** The shunting yard on tokens, well-formed or not; `ops` has its top last. */
  function Shunt(ts: seq<Token>, ops: string, out: seq<Token>): seq<Token>
    decreases |ts|, |ops|
  {
    if ts == [] then out + Drain(ops)
    else match ts[0]
      case Num(_) => Shunt(ts[1..], ops, out + [ts[0]])
      case Open => Shunt(ts[1..], ops + "(", out)
      case Close =>
        if ops == [] then Shunt(ts[1..], ops, out)
        else if ops[|ops| - 1] == '(' then Shunt(ts[1..], ops[..|ops| - 1], out)
        else Shunt(ts, ops[..|ops| - 1], out + [Popped(ops[|ops| - 1])])
      case Op(c) =>
        if ops != [] && ops[|ops| - 1] != '(' && Precedence(ops[|ops| - 1]) >= Precedence(c)
        then Shunt(ts, ops[..|ops| - 1], out + [Popped(ops[|ops| - 1])])
        else Shunt(ts[1..], ops + [c], out)
  }

  /** The postfix machine; missing operands and a missing result read as 0. */
  function Machine(ts: seq<Token>, stack: seq<real>): real {
    if ts == [] then if stack == [] then 0.0 else stack[|stack| - 1]
    else match ts[0]
      case Num(d) => Machine(ts[1..], stack + [NumValue(d)])
      case Op(c) =>
        var b := if |stack| > 0 then stack[|stack| - 1] else 0.0;
        var a := if |stack| > 1 then stack[|stack| - 2] else 0.0;
        Machine(ts[1..], (if |stack| > 1 then stack[..|stack| - 2] else []) + [Calc(c, a, b)])
      case _ => Machine(ts[1..], stack)
  }

  function NumValue(d: string): real {
    if d == [] then 0.0 else NumValue(d[..|d| - 1]) * 10.0 + (d[|d| - 1] as int - '0' as int) as real
  }

  function Calc(c: char, a: real, b: real): real {
    if c == '+' then a + b else if c == '-' then a - b else if c == '*' then a * b
    else if c == '/' then (if b != 0.0 then a / b else 0.0) else 0.0
  }

  // ----- Expression trees

  /** An expression over + - * / ^ with its parentheses.  `Bin` groups to the left. */
  datatype Expr = Lit(digits: string) | Paren(inner: Expr) | Bin(op: char, left: Expr, right: Expr)

  /** How tightly an expression holds together: sums least, then products, then powers. */
  function Level(e: Expr): nat {
    if !e.Bin? then 4 else if e.op == '+' || e.op == '-' then 1 else if e.op == '*' || e.op == '/' then 2 else 3
  }

  /** Numbers have digits, and an operand that binds less tightly, or as tightly on the right, is in
      parentheses. */
  predicate WellFormed(e: Expr) {
    match e
    case Lit(d) => d != [] && forall i :: 0 <= i < |d| ==> IsDigit(d[i])
    case Paren(f) => WellFormed(f)
    case Bin(op, l, r) =>
      op in {'+', '-', '*', '/', '^'} && WellFormed(l) && WellFormed(r) && Level(l) >= Level(e) && Level(r) > Level(e)
  }

  /** The operations; a quotient by 0 is 0, and so is every power. */
  function Applied(op: char, a: real, b: real): real {
    match op
    case '+' => a + b
    case '-' => a - b
    case '*' => a * b
    case '/' => if b == 0.0 then 0.0 else a / b
    case _ => 0.0
  }

  function Value(e: Expr): real {
    match e
    case Lit(d) => NumValue(d)
    case Paren(f) => Value(f)
    case Bin(op, l, r) => Applied(op, Value(l), Value(r))
  }

  function Infix(e: Expr): seq<Token> {
    match e
    case Lit(d) => [Num(d)]
    case Paren(f) => [Open] + Infix(f) + [Close]
    case Bin(op, l, r) => Infix(l) + [Op(op)] + Infix(r)
  }

  function Postfix(e: Expr): seq<Token> {
    match e
    case Lit(d) => [Num(d)]
    case Paren(f) => Postfix(f)
    case Bin(op, l, r) => Postfix(l) + Postfix(r) + [Op(op)]
  }

  // ----- Meaning is preserved

  /** What may follow an expression whose loosest operator has this precedence. */
  predicate Ends(rest: seq<Token>, precedence: nat) {
    rest == [] || rest[0].Close? || (rest[0].Op? && Precedence(rest[0].c) <= precedence)
  }

  predicate Waits(ops: string, precedence: nat) {
    ops == [] || ops[|ops| - 1] == '(' || Precedence(ops[|ops| - 1]) < precedence
  }

  lemma ShuntNum(d: string, rest: seq<Token>, ops: string, out: seq<Token>)
    ensures Shunt([Num(d)] + rest, ops, out) == Shunt(rest, ops, out + [Num(d)])
  {
    assert ([Num(d)] + rest)[1..] == rest;
  }

  lemma ShuntOpen(rest: seq<Token>, ops: string, out: seq<Token>)
    ensures Shunt([Open] + rest, ops, out) == Shunt(rest, ops + "(", out)
  {
    assert ([Open] + rest)[1..] == rest;
  }

  lemma ShuntClose(rest: seq<Token>, ops: string, out: seq<Token>)
    ensures Shunt([Close] + rest, ops + "(", out) == Shunt(rest, ops, out)
  {
    var ops1 := ops + "(";
    assert ([Close] + rest)[1..] == rest && ops1[..|ops1| - 1] == ops && ops1[|ops1| - 1] == '(';
  }

  lemma ShuntPush(op: char, rest: seq<Token>, ops: string, out: seq<Token>)
    requires Waits(ops, Precedence(op))
    ensures Shunt([Op(op)] + rest, ops, out) == Shunt(rest, ops + [op], out)
  {
    assert ([Op(op)] + rest)[1..] == rest;
  }

  /** Reading an expression amounts to writing its postfix form. */
  lemma {:induction false} ShuntExpr(e: Expr, rest: seq<Token>, ops: string, out: seq<Token>)
    requires WellFormed(e) && Waits(ops, Level(e)) && Ends(rest, Level(e))
    ensures Shunt(Infix(e) + rest, ops, out) == Shunt(rest, ops, out + Postfix(e))
  {
    hide Shunt;
    if e.Bin? { assert Precedence(e.op) == Level(e); }
    match e
    case Lit(d) => ShuntNum(d, rest, ops, out);
    case Paren(f) =>
      assert Infix(e) + rest == [Open] + (Infix(f) + ([Close] + rest));
      ShuntOpen(Infix(f) + ([Close] + rest), ops, out);
      ShuntExpr(f, [Close] + rest, ops + "(", out);
      ShuntClose(rest, ops, out + Postfix(f));
    case Bin(op, l, r) =>
      assert Infix(e) + rest == Infix(l) + ([Op(op)] + (Infix(r) + rest));
      ShuntExpr(l, [Op(op)] + (Infix(r) + rest), ops, out);
      ShuntPush(op, Infix(r) + rest, ops, out + Postfix(l));
      ShuntExpr(r, rest, ops + [op], out + Postfix(l));
      ShuntPops(rest, ops, op, out + Postfix(l) + Postfix(r));
      assert out + Postfix(l) + Postfix(r) + [Op(op)] == out + Postfix(e);
  }

  lemma ShuntPops(rest: seq<Token>, ops: string, op: char, out: seq<Token>)
    requires Ends(rest, Precedence(op)) && op != '('
    ensures Shunt(rest, ops + [op], out) == Shunt(rest, ops, out + [Op(op)])
  {
    var ops1 := ops + [op];
    assert ops1[..|ops1| - 1] == ops && ops1[|ops1| - 1] == op;
    if rest == [] {
      assert out + Drain(ops1) == out + [Op(op)] + Drain(ops);
    }
  }

  lemma {:induction false} MachineExpr(e: Expr, rest: seq<Token>, stack: seq<real>)
    ensures Machine(Postfix(e) + rest, stack) == Machine(rest, stack + [Value(e)])
  {
    hide Applied, Calc;
    match e
    case Lit(d) => assert (Postfix(e) + rest)[1..] == rest;
    case Paren(f) => MachineExpr(f, rest, stack);
    case Bin(op, l, r) =>
      var s1 := stack + [Value(l)];
      var s2 := s1 + [Value(r)];
      assert Postfix(e) + rest == Postfix(l) + (Postfix(r) + ([Op(op)] + rest));
      MachineExpr(l, Postfix(r) + ([Op(op)] + rest), stack);
      MachineExpr(r, [Op(op)] + rest, s1);
      MachineOp(op, rest, stack, Value(l), Value(r));
  }

  /** What the program computes is the operation. */
  lemma CalcApplies(op: char, a: real, b: real)
    ensures Calc(op, a, b) == Applied(op, a, b)
  {
  }

  lemma MachineOp(op: char, rest: seq<Token>, stack: seq<real>, a: real, b: real)
    ensures Machine([Op(op)] + rest, stack + [a] + [b]) == Machine(rest, stack + [Applied(op, a, b)])
  {
    CalcApplies(op, a, b);
    hide Calc, Applied;
    var s := stack + [a] + [b];
    assert ([Op(op)] + rest)[1..] == rest && s[..|s| - 2] == stack;
  }

  /** A token the postfix text can carry. */
  predicate Plain(t: Token) {
    match t
    case Num(d) => d != [] && forall i :: 0 <= i < |d| ==> IsDigit(d[i])
    case Op(c) => IsOperator(c)
    case _ => true
  }

  ghost predicate AllPlain(ts: seq<Token>) {
    forall i :: 0 <= i < |ts| ==> Plain(ts[i])
  }

  lemma {:induction false} DigitsOf(d: string, rest: string)
    requires (forall i :: 0 <= i < |d| ==> IsDigit(d[i])) && (rest == [] || !IsDigit(rest[0]))
    ensures Digits(d + rest) == |d|
  {
    if d != [] {
      assert (d + rest)[1..] == d[1..] + rest;
      DigitsOf(d[1..], rest);
    }
  }

  lemma LexToken(t: Token, rest: string)
    requires Plain(t)
    ensures Lex(Text(t) + " " + rest) == [t] + Lex(rest)
  {
    var s := Text(t) + " " + rest;
    var after := " " + rest;
    assert Lex(after) == Lex(rest) by { assert after[1..] == rest; }
    assert s == Text(t) + after;
    if t.Num? {
      DigitsOf(t.digits, after);
      assert s[..|t.digits|] == t.digits && s[|t.digits|..] == after;
    } else {
      assert s[1..] == after;
    }
  }

  lemma {:induction false} LexEmit(ts: seq<Token>, rest: string)
    requires AllPlain(ts)
    ensures Lex(Emit(ts) + rest) == ts + Lex(rest)
  {
    if ts == [] {
      assert Emit(ts) + rest == rest;
    } else {
      var init, t := ts[..|ts| - 1], ts[|ts| - 1];
      assert Emit(ts) + rest == Emit(init) + (Text(t) + " " + rest);
      LexEmit(init, Text(t) + " " + rest);
      LexToken(t, rest);
      assert ts == init + [t];
    }
  }

  lemma {:induction false} LexTrailingSpace(s: string)
    ensures Lex(s + " ") == Lex(s)
    decreases |s|
  {
    if s != [] {
      if IsDigit(s[0]) {
        var n := Digits(s);
        DigitsOf(s[..n], s[n..] + " ");
        assert s + " " == s[..n] + (s[n..] + " ");
        assert (s + " ")[..n] == s[..n] && (s + " ")[n..] == s[n..] + " ";
        LexTrailingSpace(s[n..]);
      } else {
        assert (s + " ")[1..] == s[1..] + " ";
        LexTrailingSpace(s[1..]);
      }
    }
  }

  /** Reading the postfix text back gives the tokens that were written. */
  lemma RoundTrip(ts: seq<Token>)
    requires AllPlain(ts)
    ensures Lex(Trim(Emit(ts))) == ts
  {
    LexEmit(ts, []);
    assert Emit(ts) + [] == Emit(ts);
    if ts != [] {
      assert Emit(ts) == Trim(Emit(ts)) + " ";
      LexTrailingSpace(Trim(Emit(ts)));
    }
  }

  lemma {:induction false} PostfixPlain(e: Expr)
    requires WellFormed(e)
    ensures AllPlain(Postfix(e))
  {
    match e
    case Lit(d) =>
    case Paren(f) => PostfixPlain(f);
    case Bin(op, l, r) => PostfixPlain(l); PostfixPlain(r);
  }

  /** The text `infix_to_postfix` writes. */
  function PostfixText(infix: string): string {
    Trim(Emit(Shunt(Lex(infix), [], [])))
  }

  /** Meaning is preserved: for every spelling of a well-formed expression, evaluating the postfix
      text gives the value of the expression. */
  lemma CompileCorrect(e: Expr, infix: string)
    requires WellFormed(e) && Lex(infix) == Infix(e)
    ensures Shunt(Lex(infix), [], []) == Postfix(e) && PostfixText(infix) == Trim(Emit(Postfix(e)))
    ensures Machine(Lex(PostfixText(infix)), []) == Value(e)
  {
    hide Shunt, Machine, Lex, Infix, Postfix, Value, WellFormed, Emit, Trim;
    ShuntExpr(e, [], [], []);
    assert Infix(e) + [] == Infix(e) && [] + Postfix(e) == Postfix(e);
    ShuntDone(Postfix(e));
    PostfixPlain(e);
    RoundTrip(Postfix(e));
    MachineExpr(e, [], []);
    assert Postfix(e) + [] == Postfix(e);
    MachineDone(Value(e));
  }

  lemma ShuntDone(out: seq<Token>)
    ensures Shunt([], [], out) == out
  {
  }

  lemma MachineDone(x: real)
    ensures Machine([], [] + [x]) == x
  {
  }

  // ----- What fits a buffer of `size` bytes

  /** How a conversion ends: it returns true, it returns false, or it repeats a loop round for ever. */
  datatype Outcome = Converted | Refused | Spins

  const SIZE_MAX := 0xffff_ffff_ffff_ffff

  /** `result_size - k` as a size_t, which wraps around below 0. */
  function Limit(size: nat, k: nat): int {
    if size >= k then size - k else size - k + SIZE_MAX + 1
  }

  /** The buffers outside which the conversion writes nothing, given all it has to write: two bytes or more, or one byte
      if a number comes first, which is refused, or nothing at all. */
  predicate Contained(final: seq<Token>, size: nat) {
    size >= 2 || (size == 1 && (final == [] || final[0].Num?))
  }

  /** The last token of the output can be written: the closing space of a number may be dropped, an
      operator needs room for itself, its space and the NUL. */
  predicate LastFits(out: seq<Token>, size: nat)
    requires out != []
  {
    |Emit(out)| < size || (|Emit(out)| == size && out[|out| - 1].Num?)
  }

  /** The first token that cannot be written decides. */
  function Verdict(out: seq<Token>, size: nat): Outcome {
    if out == [] then Converted
    else if Verdict(out[..|out| - 1], size) != Converted then Verdict(out[..|out| - 1], size)
    else if LastFits(out, size) then Converted
    else if out[|out| - 1].Num? then Refused else Spins
  }

  /** What the buffer holds: all of it, or all but the last closing space. */
  function Fitted(out: seq<Token>, size: nat): string
    requires size > 0
  {
    if |Emit(out)| < size then Emit(out) else Emit(out)[..size - 1]
  }

  lemma EmitAdd(out: seq<Token>, t: Token)
    ensures Emit(out + [t]) == Emit(out) + Text(t) + " "
  {
    var ts := out + [t];
    assert ts[..|ts| - 1] == out;
  }

  /** Everything can be written exactly if the last token can. */
  lemma VerdictIff(out: seq<Token>, size: nat)
    requires out != []
    ensures Verdict(out, size) == Converted <==> LastFits(out, size)
  {
    var init := out[..|out| - 1];
    assert out == init + [out[|out| - 1]];
    EmitAdd(init, out[|out| - 1]);
    if init != [] { VerdictIff(init, size); }
  }

  /** Where the first token that cannot be written stands. */
  ghost predicate Misfit(out: seq<Token>, size: nat, k: nat) {
    && k < |out| && !LastFits(out[..k + 1], size)
    && forall j: nat :: 0 < j <= k ==> LastFits(out[..j], size)
  }

  lemma {:induction false} VerdictMisfit(out: seq<Token>, size: nat, k: nat)
    requires Misfit(out, size, k)
    ensures Verdict(out, size) == if out[k].Num? then Refused else Spins
  {
    var before := out[..k];
    if before != [] {
      assert LastFits(out[..k], size);
      VerdictIff(before, size);
    }
    assert out[..k + 1][..k] == before;
    VerdictExtends(out[..k + 1], out, size);
  }

  lemma {:induction false} MisfitExists(out: seq<Token>, size: nat) returns (k: nat)
    requires Verdict(out, size) != Converted
    ensures Misfit(out, size, k)
  {
    var init := out[..|out| - 1];
    if Verdict(init, size) != Converted {
      k := MisfitExists(init, size);
      assert init[..k + 1] == out[..k + 1];
      forall j: nat | 0 < j <= k ensures LastFits(out[..j], size) {
        assert LastFits(init[..j], size) && init[..j] == out[..j];
      }
    } else {
      k := |out| - 1;
      assert out[..k + 1] == out;
      forall j: nat | 0 < j <= k ensures LastFits(out[..j], size) {
        VerdictOfPrefix(init, out[..j], size);
        VerdictIff(out[..j], size);
      }
    }
  }

  lemma {:induction false} VerdictExtends(out: seq<Token>, more: seq<Token>, size: nat)
    requires out <= more && Verdict(out, size) != Converted
    ensures Verdict(more, size) == Verdict(out, size)
    decreases |more|
  {
    if |out| < |more| {
      assert out <= more[..|more| - 1];
      VerdictExtends(out, more[..|more| - 1], size);
    } else {
      assert out == more;
    }
  }

  lemma VerdictOfPrefix(more: seq<Token>, out: seq<Token>, size: nat)
    requires out <= more && Verdict(more, size) == Converted
    ensures Verdict(out, size) == Converted
  {
    if Verdict(out, size) != Converted { VerdictExtends(out, more, size); }
  }

  /** An operator is written, or its loop spins. */
  lemma AddPopped(out: seq<Token>, c: char, size: nat)
    requires size >= 2 && Verdict(out, size) == Converted
    ensures |Fitted(out, size)| < size - 2 ==>
              Verdict(out + [Popped(c)], size) == Converted
              && Fitted(out + [Popped(c)], size) == Fitted(out, size) + [c] + " "
    ensures |Fitted(out, size)| >= size - 2 ==> Verdict(out + [Popped(c)], size) == Spins
  {
    EmitPopped(out, c);
    assert (out + [Popped(c)])[..|out|] == out;
  }

  /** A number is written, with its space if there is room for that too, or the conversion fails. */
  lemma AddNum(out: seq<Token>, d: string, size: nat)
    requires size >= 1 && d != [] && Verdict(out, size) == Converted
    ensures |Fitted(out, size)| + |d| <= size - 1 ==>
              Verdict(out + [Num(d)], size) == Converted
              && Fitted(out + [Num(d)], size)
                 == Fitted(out, size) + d + if |Fitted(out, size)| + |d| < size - 1 then " " else ""
    ensures |Fitted(out, size)| + |d| > size - 1 ==> Verdict(out + [Num(d)], size) == Refused
  {
    EmitAdd(out, Num(d));
    assert (out + [Num(d)])[..|out|] == out;
  }

  ghost predicate NumsPlain(ts: seq<Token>) {
    forall i :: 0 <= i < |ts| && ts[i].Num? ==> Plain(ts[i])
  }

  lemma {:induction false} LexNums(s: string)
    ensures NumsPlain(Lex(s))
    decreases |s|
  {
    if s != [] { LexNums(if IsDigit(s[0]) then s[Digits(s)..] else s[1..]); }
  }

  lemma {:induction false} DrainNums(ops: string)
    ensures NumsPlain(Drain(ops))
  {
    if ops != [] { DrainNums(ops[..|ops| - 1]); }
  }

  /** The output so far is kept, and its numbers are the numbers of the input. */
  lemma {:induction false} ShuntKeeps(ts: seq<Token>, ops: string, out: seq<Token>)
    ensures out <= Shunt(ts, ops, out)
    ensures NumsPlain(ts) && NumsPlain(out) ==> NumsPlain(Shunt(ts, ops, out))
    decreases |ts|, |ops|
  {
    if ts == [] {
      DrainNums(ops);
    } else {
      var popped := if ops == [] then out else out + [Popped(ops[|ops| - 1])];
      match ts[0]
      case Num(_) => ShuntKeeps(ts[1..], ops, out + [ts[0]]);
      case Open => ShuntKeeps(ts[1..], ops + "(", out);
      case Close =>
        if ops == [] { ShuntKeeps(ts[1..], ops, out); }
        else if ops[|ops| - 1] == '(' { ShuntKeeps(ts[1..], ops[..|ops| - 1], out); }
        else { ShuntKeeps(ts, ops[..|ops| - 1], popped); }
      case Op(c) =>
        if ops != [] && ops[|ops| - 1] != '(' && Precedence(ops[|ops| - 1]) >= Precedence(c) {
          ShuntKeeps(ts, ops[..|ops| - 1], popped);
        } else {
          ShuntKeeps(ts[1..], ops + [c], out);
        }
    }
  }

  /** Dropping the last closing space loses nothing, since it would have been trimmed. */
  lemma FittedTrim(out: seq<Token>, size: nat)
    requires size > 0 && NumsPlain(out) && Verdict(out, size) == Converted
    ensures Trim(Fitted(out, size)) == Trim(Emit(out))
  {
    if out != [] && |Emit(out)| >= size {
      hide Verdict, Emit, Trim;
      VerdictIff(out, size);
      var init, t, text := out[..|out| - 1], out[|out| - 1], Emit(out);
      assert Plain(t) && Fitted(out, size) == text[..|text| - 1];
      EmitLast(out);
      TrimNumber(Emit(init), t.digits, text);
    }
  }

  lemma EmitLast(out: seq<Token>)
    requires out != []
    ensures Emit(out) == Emit(out[..|out| - 1]) + Text(out[|out| - 1]) + " "
  {
  }

  lemma TrimNumber(e: string, d: string, text: string)
    requires d != [] && IsDigit(d[|d| - 1]) && text == e + d + " "
    ensures Trim(text) == Trim(text[..|text| - 1])
  {
    var last := |e| + |d| - 1;
    assert text[..|text| - 1] == e + d && text[last] == d[|d| - 1];
  }

  // ----- Two bytes of output per input character

  function Length(ts: seq<Token>): nat {
    if ts == [] then 0 else Length(ts[1..]) + |Text(ts[0])| + 1
  }

  lemma {:induction false} LexLength(s: string)
    ensures Length(Lex(s)) <= 2 * |s|
    decreases |s|
  {
    if s != [] { LexLength(if IsDigit(s[0]) then s[Digits(s)..] else s[1..]); }
  }

  lemma {:induction false} DrainLength(out: seq<Token>, ops: string)
    ensures |Emit(out + Drain(ops))| == |Emit(out)| + 2 * |ops|
    decreases |ops|
  {
    hide Emit;
    if ops == [] {
      assert out + Drain(ops) == out;
    } else {
      var c := ops[|ops| - 1];
      EmitAdd(out, Popped(c));
      assert |Text(Popped(c))| == 1;
      assert out + Drain(ops) == out + [Popped(c)] + Drain(ops[..|ops| - 1]);
      DrainLength(out + [Popped(c)], ops[..|ops| - 1]);
    }
  }

  lemma {:induction false} ShuntLength(ts: seq<Token>, ops: string, out: seq<Token>)
    ensures |Emit(Shunt(ts, ops, out))| <= |Emit(out)| + 2 * |ops| + Length(ts)
    decreases |ts|, |ops|
  {
    hide Emit;
    if ts == [] {
      DrainLength(out, ops);
    } else {
      if ops != [] { EmitAdd(out, Popped(ops[|ops| - 1])); }
      EmitAdd(out, ts[0]);
      match ts[0]
      case Num(_) => ShuntLength(ts[1..], ops, out + [ts[0]]);
      case Open => ShuntLength(ts[1..], ops + "(", out);
      case Close =>
        if ops == [] { ShuntLength(ts[1..], ops, out); }
        else if ops[|ops| - 1] == '(' { ShuntLength(ts[1..], ops[..|ops| - 1], out); }
        else { ShuntLength(ts, ops[..|ops| - 1], out + [Popped(ops[|ops| - 1])]); }
      case Op(c) =>
        if ops != [] && ops[|ops| - 1] != '(' && Precedence(ops[|ops| - 1]) >= Precedence(c) {
          ShuntLength(ts, ops[..|ops| - 1], out + [Popped(ops[|ops| - 1])]);
        } else {
          ShuntLength(ts[1..], ops + [c], out);
        }
    }
  }

  /** With more than two bytes of buffer per input character every conversion succeeds. */
  lemma AmpleBuffer(infix: string, size: nat)
    requires size > 2 * |infix|
    ensures Verdict(Shunt(Lex(infix), [], []), size) == Converted
  {
    LexLength(infix);
    ShuntLength(Lex(infix), [], []);
    var out := Shunt(Lex(infix), [], []);
    if out != [] { VerdictIff(out, size); }
  }

  // ----- The programs

  lemma EmitPopped(out: seq<Token>, c: char)
    ensures Emit(out + [Popped(c)]) == Emit(out) + [c] + " "
  {
    EmitAdd(out, Popped(c));
  }

  /** The output so far is in the buffer. */
  ghost predicate Written(result: array<char>, pos: nat, out: seq<Token>)
    reads result
  {
    && result.Length >= 1 && (result.Length == 1 ==> out == []) && Verdict(out, result.Length) == Converted
    && pos == |Fitted(out, result.Length)| < result.Length && result[..pos] == Fitted(out, result.Length)
  }

  /** An operator is written into buffers of two bytes or more only. */
  lemma OperatorFits(result: array<char>, pos: nat, out: seq<Token>, c: char, final: seq<Token>)
    requires Written(result, pos, out) && Contained(final, result.Length) && out + [Popped(c)] <= final
    ensures result.Length >= 2
  {
    assert (out + [Popped(c)])[|out|] == Popped(c) == final[|out|];
  }

  /** One guarded round of a popping loop: the top operator and a space go out, or nothing changes. */
  method WriteTop(st: ArrayStack<char>, result: array<char>, pos: nat, ghost out: seq<Token>)
    returns (end: nat, written: bool, ghost out': seq<Token>)
    requires st.Valid() && st.Contents() != [] && st.data != result && Written(result, pos, out) && result.Length >= 2
    modifies st`top, result
    ensures st.Valid() && out' == out + [Popped(old(st.Contents())[|old(st.Contents())| - 1])]
    ensures written ==> Written(result, end, out')
    ensures written ==> st.Contents() == old(st.Contents())[..|old(st.Contents())| - 1]
    ensures !written ==> Verdict(out', result.Length) == Spins && st.Contents() == old(st.Contents())
    ensures !written ==> end == pos && result[..] == old(result[..])
  {
    hide Verdict, Fitted;
    ghost var ops := st.Contents();
    out' := out + [Popped(ops[|ops| - 1])];
    AddPopped(out, ops[|ops| - 1], result.Length);
    end, written := pos, pos < Limit(result.Length, 2);
    if written {
      var c := st.Pop();
      assert ops[..|ops| - 1] == st.Contents() && c == ops[|ops| - 1];
      result[pos] := c;
      result[pos + 1] := ' ';
      end := pos + 2;
      assert result[..end] == old(result[..pos]) + [c] + " ";
    }
  }

  /** The loop of the ')' branch; `spins` if it meets an operator that it can neither write nor pop. */
  method PopToOpen(st: ArrayStack<char>, result: array<char>, pos: nat, ghost rest: seq<Token>, ghost out: seq<Token>)
    returns (end: nat, spins: bool, ghost out': seq<Token>)
    requires st.Valid() && st.data != result && Written(result, pos, out)
    requires Contained(Shunt([Close] + rest, st.Contents(), out), result.Length)
    modifies st`top, result
    ensures st.Valid() && (!spins ==> Written(result, end, out'))
    ensures !spins ==> Shunt([Close] + rest, old(st.Contents()), out) == Shunt(rest, st.Contents(), out')
    ensures spins ==> Verdict(out', result.Length) == Spins && out' <= Shunt([Close] + rest, old(st.Contents()), out)
  {
    hide Verdict, Fitted, Written, Shunt;
    end, out', spins := pos, out, false;
    var open := false;
    while !st.IsEmpty() && !open
      invariant st.Valid() && Written(result, end, out') && !spins
      invariant Shunt([Close] + rest, old(st.Contents()), out)
             == if open then Shunt(rest, st.Contents(), out') else Shunt([Close] + rest, st.Contents(), out')
      decreases !open, |st.Contents()|
    {
      var top := st.Peek();
      if top == '(' {
        top := st.Pop();
        open := true;
        ShuntClose(rest, st.Contents(), out');
      } else {
        var written;
        CloseFits(rest, st.Contents(), out');
        OperatorFits(result, end, out', top, Shunt([Close] + rest, old(st.Contents()), out));
        end, written, out' := WriteTop(st, result, end, out');
        if !written { return end, true, out'; }
      }
    }
    if !open { ShuntUnopened(rest, out'); }
  }

  /** A closing parenthesis on an empty stack is dropped. */
  lemma ShuntUnopened(rest: seq<Token>, out: seq<Token>)
    ensures Shunt([Close] + rest, [], out) == Shunt(rest, [], out)
  {
    assert ([Close] + rest)[1..] == rest;
  }

  /** In front of a closing parenthesis the top operator is the next output. */
  lemma CloseFits(rest: seq<Token>, ops: string, out: seq<Token>)
    requires ops != [] && ops[|ops| - 1] != '('
    ensures Shunt([Close] + rest, ops, out) == Shunt([Close] + rest, ops[..|ops| - 1], out + [Popped(ops[|ops| - 1])])
    ensures out + [Popped(ops[|ops| - 1])] <= Shunt([Close] + rest, ops, out)
  {
    ShuntKeeps([Close] + rest, ops[..|ops| - 1], out + [Popped(ops[|ops| - 1])]);
  }

  lemma OpFits(c: char, rest: seq<Token>, ops: string, out: seq<Token>)
    requires ops != [] && ops[|ops| - 1] != '(' && Precedence(ops[|ops| - 1]) >= Precedence(c)
    ensures Shunt([Op(c)] + rest, ops, out) == Shunt([Op(c)] + rest, ops[..|ops| - 1], out + [Popped(ops[|ops| - 1])])
    ensures out + [Popped(ops[|ops| - 1])] <= Shunt([Op(c)] + rest, ops, out)
  {
    ShuntKeeps([Op(c)] + rest, ops[..|ops| - 1], out + [Popped(ops[|ops| - 1])]);
  }

  lemma DrainFits(ops: string, out: seq<Token>)
    requires ops != []
    ensures Shunt([], ops, out) == Shunt([], ops[..|ops| - 1], out + [Popped(ops[|ops| - 1])])
    ensures out + [Popped(ops[|ops| - 1])] <= Shunt([], ops, out)
  {
    hide Shunt, Drain, Popped;
    var top, below := Popped(ops[|ops| - 1]), ops[..|ops| - 1];
    ShuntDrains(ops, out);
    ShuntDrains(below, out + [top]);
    DrainTop(ops);
    Inserted(out, top, Drain(below));
  }

  lemma DrainTop(ops: string)
    requires ops != []
    ensures Drain(ops) == [Popped(ops[|ops| - 1])] + Drain(ops[..|ops| - 1])
  {
  }

  lemma Inserted(out: seq<Token>, top: Token, rest: seq<Token>)
    ensures out + ([top] + rest) == out + [top] + rest && out + [top] <= out + [top] + rest
  {
  }

  lemma ShuntDrains(ops: string, out: seq<Token>)
    ensures Shunt([], ops, out) == out + Drain(ops)
  {
  }

  /** The loop of the operator branch; `spins` as above. */
  method PopTighter(st: ArrayStack<char>, result: array<char>, pos: nat, c: char, ghost rest: seq<Token>, ghost out: seq<Token>)
    returns (end: nat, spins: bool, ghost out': seq<Token>)
    requires st.Valid() && st.data != result && Written(result, pos, out)
    requires Contained(Shunt([Op(c)] + rest, st.Contents(), out), result.Length)
    modifies st`top, result
    ensures st.Valid() && (!spins ==> Written(result, end, out'))
    ensures !spins ==> Shunt([Op(c)] + rest, old(st.Contents()), out) == Shunt(rest, st.Contents() + [c], out')
    ensures spins ==> Verdict(out', result.Length) == Spins && out' <= Shunt([Op(c)] + rest, old(st.Contents()), out)
  {
    hide Verdict, Fitted, Written, Shunt;
    end, out', spins := pos, out, false;
    while !st.IsEmpty()
      invariant st.Valid() && Written(result, end, out') && !spins
      invariant Shunt([Op(c)] + rest, old(st.Contents()), out) == Shunt([Op(c)] + rest, st.Contents(), out')
      decreases |st.Contents()|
    {
      var top := st.Peek();
      if top == '(' { break; }
      if Precedence(top) < Precedence(c) { break; }
      var written;
      OpFits(c, rest, st.Contents(), out');
      OperatorFits(result, end, out', top, Shunt([Op(c)] + rest, old(st.Contents()), out));
      end, written, out' := WriteTop(st, result, end, out');
      if !written { return end, true, out'; }
    }
    ShuntPush(c, rest, st.Contents(), out');
  }

  lemma ShuntEnd(out: seq<Token>)
    ensures Shunt([], [], out) == out
  {
  }

  /** The loop after the last character; `spins` as above. */
  method PopAll(st: ArrayStack<char>, result: array<char>, pos: nat, ghost out: seq<Token>)
    returns (end: nat, spins: bool, ghost out': seq<Token>)
    requires st.Valid() && st.data != result && Written(result, pos, out)
    requires Contained(Shunt([], st.Contents(), out), result.Length)
    modifies st`top, result
    ensures !spins ==> Written(result, end, out') && out' == Shunt([], old(st.Contents()), out)
    ensures spins ==> Verdict(out', result.Length) == Spins && out' <= Shunt([], old(st.Contents()), out)
  {
    hide Verdict, Fitted, Written, Shunt;
    end, out', spins := pos, out, false;
    while !st.IsEmpty()
      invariant st.Valid() && Written(result, end, out') && !spins
      invariant Shunt([], old(st.Contents()), out) == Shunt([], st.Contents(), out')
      decreases |st.Contents()|
    {
      var written;
      var top := st.Peek();
      DrainFits(st.Contents(), out');
      OperatorFits(result, end, out', top, Shunt([], old(st.Contents()), out));
      end, written, out' := WriteTop(st, result, end, out');
      if !written { return end, true, out'; }
    }
    ShuntEnd(out');
  }

  lemma DigitRun(s: string, i: nat)
    requires i <= |s|
    ensures forall k :: i <= k < i + Digits(s[i..]) ==> IsDigit(s[k])
    ensures i + Digits(s[i..]) < |s| ==> !IsDigit(s[i + Digits(s[i..])])
  {
    forall k | i <= k < i + Digits(s[i..]) ensures IsDigit(s[k]) { assert s[k] == s[i..][k - i]; }
  }

  /** The digit loop: the run starting at i, and a space if that fits too; false if a digit does not fit. */
  method CopyNumber(infix: string, i: nat, result: array<char>, pos: nat) returns (j: nat, end: nat, ok: bool)
    requires i < |infix| && IsDigit(infix[i]) && pos < result.Length
    modifies result
    ensures ok <==> pos + Digits(infix[i..]) <= result.Length - 1
    ensures ok ==> j == i + Digits(infix[i..]) && end < result.Length
    ensures ok ==> result[..end] == old(result[..pos]) + infix[i..j] + if pos + (j - i) < result.Length - 1 then " " else ""
  {
    hide Digits;
    ghost var n := Digits(infix[i..]);
    DigitRun(infix, i);
    j, end := i, pos;
    while j < |infix| && IsDigit(infix[j])
      invariant i <= j <= i + n && end == pos + (j - i) < result.Length
      invariant result[..end] == old(result[..pos]) + infix[i..j]
    {
      if end >= result.Length - 1 { return j, end, false; }
      result[end] := infix[j];
      j, end := j + 1, end + 1;
    }
    if end < result.Length - 1 {
      result[end] := ' ';
      end := end + 1;
    }
    ok := true;
  }

  // ----- The whole conversion

  lemma LexDigits(s: string)
    requires s != [] && IsDigit(s[0])
    ensures Digits(s) > 0 && Lex(s) == [Num(s[..Digits(s)])] + Lex(s[Digits(s)..])
  {
  }

  lemma LexOther(s: string)
    requires s != [] && !IsDigit(s[0])
    ensures Lex(s) == (if s[0] == '(' then [Open] else if s[0] == ')' then [Close]
                       else if IsOperator(s[0]) then [Op(s[0])] else []) + Lex(s[1..])
  {
  }

  /** The number at i has gone out. */
  method PutNumber(infix: string, i: nat, result: array<char>, pos: nat, ghost ops: string, ghost out: seq<Token>)
    returns (j: nat, end: nat, ok: bool, ghost out': seq<Token>)
    requires i < |infix| && IsDigit(infix[i]) && Written(result, pos, out)
    modifies result
    ensures ok ==> i < j <= |infix| && Written(result, end, out')
    ensures ok ==> Shunt(Lex(infix[i..]), ops, out) == Shunt(Lex(infix[j..]), ops, out')
    ensures !ok ==> Verdict(out', result.Length) == Refused && out' <= Shunt(Lex(infix[i..]), ops, out)
  {
    hide Shunt, Lex, Digits, Verdict, Fitted;
    ghost var s := infix[i..];
    LexDigits(s);
    ghost var d := s[..Digits(s)];
    AddNum(out, d, result.Length);
    out' := out + [Num(d)];
    assert s[Digits(s)..] == infix[i + Digits(s)..];
    ShuntNum(d, Lex(s[Digits(s)..]), ops, out);
    ShuntKeeps(Lex(s[Digits(s)..]), ops, out');
    j, end, ok := CopyNumber(infix, i, result, pos);
    assert ok ==> infix[i..j] == d;
  }

  /** `infix_to_postfix`, for the buffers outside which it writes nothing.  It returns true with the whole postfix text,
      closed by NUL, or false, or repeats a round of a popping loop for ever, here `Spins`, as the first
      output token that cannot be written decides. */
  method InfixToPostfix(infix: string, result: array<char>) returns (outcome: Outcome, length: nat)
    requires Contained(Shunt(Lex(infix), [], []), result.Length)
    modifies result
    ensures outcome == Verdict(Shunt(Lex(infix), [], []), result.Length)
    ensures outcome == Converted ==> length < result.Length && result[length] == '\0'
    ensures outcome == Converted ==> result[..length] == PostfixText(infix)
  {
    hide Shunt, Lex, Emit, Digits, Verdict, Fitted;
    ghost var final := Shunt(Lex(infix), [], []);
    var st := new ArrayStack<char>(32, '\0');
    var i, pos: nat := 0, 0;
    ghost var out: seq<Token> := [];
    NothingWritten(result.Length);
    assert infix[0..] == infix;
    while i < |infix|
      invariant 0 <= i <= |infix| && st.Valid() && fresh(st) && fresh(st.data)
      invariant Written(result, pos, out)
      invariant final == Shunt(Lex(infix[i..]), st.Contents(), out)
    {
      ghost var s := infix[i..];
      assert s[0] == infix[i] && s[1..] == infix[i + 1..];
      if IsDigit(infix[i]) {
        var ok;
        i, pos, ok, out := PutNumber(infix, i, result, pos, st.Contents(), out);
        if !ok { VerdictExtends(out, final, result.Length); return Refused, pos; }
      } else {
        LexOther(s);
        if infix[i] == '(' {
          ShuntOpen(Lex(s[1..]), st.Contents(), out);
          st.Push('(');
        } else if infix[i] == ')' {
          var spins;
          pos, spins, out := PopToOpen(st, result, pos, Lex(s[1..]), out);
          if spins { VerdictExtends(out, final, result.Length); return Spins, pos; }
        } else if IsOperator(infix[i]) {
          var spins;
          pos, spins, out := PopTighter(st, result, pos, infix[i], Lex(s[1..]), out);
          if spins { VerdictExtends(out, final, result.Length); return Spins, pos; }
          st.Push(infix[i]);
        } else {
          assert Lex(s) == Lex(s[1..]);
        }
        i := i + 1;
      }
    }
    LexNothing(infix);
    var spins;
    pos, spins, out := PopAll(st, result, pos, out);
    if spins { VerdictExtends(out, final, result.Length); return Spins, pos; }
    LexNums(infix);
    ShuntKeeps(Lex(infix), [], []);
    FittedTrim(out, result.Length);
    if pos > 0 && result[pos - 1] == ' ' { pos := pos - 1; }
    result[pos] := '\0';
    return Converted, pos;
  }

  lemma NothingWritten(size: nat)
    requires size > 0
    ensures Verdict([], size) == Converted && Fitted([], size) == []
  {
  }

  lemma LexNothing(s: string)
    ensures Lex(s[|s|..]) == []
  {
  }

  // ----- Evaluation

  lemma NumValueStep(d: string, c: char)
    ensures NumValue(d + [c]) == NumValue(d) * 10.0 + (c as int - '0' as int) as real
  {
    var e := d + [c];
    assert e[..|e| - 1] == d;
  }

  /** The digit loop of `eval_postfix`. */
  method ReadNumber(expr: string, i: nat) returns (j: nat, val: real)
    requires i < |expr| && IsDigit(expr[i])
    ensures j == i + Digits(expr[i..]) && i < j && val == NumValue(expr[i..j])
  {
    hide Digits, NumValue;
    ghost var n := Digits(expr[i..]);
    DigitRun(expr, i);
    j, val := i, 0.0;
    NoDigits();
    assert expr[i..i] == [];
    while j < |expr| && IsDigit(expr[j])
      invariant i <= j <= i + n && val == NumValue(expr[i..j])
    {
      NumValueStep(expr[i..j], expr[j]);
      assert expr[i..j + 1] == expr[i..j] + [expr[j]];
      val := val * 10.0 + (expr[j] as int - '0' as int) as real;
      j := j + 1;
    }
  }

  lemma NoDigits()
    ensures NumValue([]) == 0.0
  {
  }

  /** The operator branch of `eval_postfix`. */
  method Reduce(st: ArrayStack<real>, c: char)
    requires st.Valid() && st.nil == 0.0
    modifies st, st.data
    ensures st.Valid() && (st.data == old(st.data) || fresh(st.data))
    ensures forall rest :: Machine([Op(c)] + rest, old(st.Contents())) == Machine(rest, st.Contents())
    ensures var s := old(st.Contents());
      var b, a := if |s| > 0 then s[|s| - 1] else 0.0, if |s| > 1 then s[|s| - 2] else 0.0;
      st.Contents() == (if |s| > 1 then s[..|s| - 2] else []) + [Applied(c, a, b)]
  {
    hide Calc, Applied;
    ghost var before := st.Contents();
    var b := st.Pop();
    ghost var mid := st.Contents();
    var a := st.Pop();
    assert |before| > 1 ==> before == st.Contents() + [a, b];
    CalcApplies(c, a, b);
    st.Push(Calc(c, a, b));
    forall rest ensures Machine([Op(c)] + rest, before) == Machine(rest, st.Contents()) {
      assert ([Op(c)] + rest)[1..] == rest;
    }
  }

  lemma MachineNum(d: string, rest: seq<Token>, stack: seq<real>)
    ensures Machine([Num(d)] + rest, stack) == Machine(rest, stack + [NumValue(d)])
  {
    assert ([Num(d)] + rest)[1..] == rest;
  }

  lemma MachineSkip(t: Token, rest: seq<Token>, stack: seq<real>)
    requires t.Open? || t.Close?
    ensures Machine([t] + rest, stack) == Machine(rest, stack)
  {
    assert ([t] + rest)[1..] == rest;
  }

  /** `eval_postfix` runs the postfix machine on whatever text it is given. */
  method EvalPostfix(expr: string) returns (r: real)
    ensures r == Machine(Lex(expr), [])
  {
    hide Machine, Lex, Digits, NumValue, Calc;
    var st := new ArrayStack<real>(32, 0.0);
    var i: nat := 0;
    assert expr[0..] == expr;
    while i < |expr|
      invariant i <= |expr| && st.Valid() && fresh(st) && fresh(st.data) && st.nil == 0.0
      invariant Machine(Lex(expr), []) == Machine(Lex(expr[i..]), st.Contents())
    {
      ghost var s := expr[i..];
      assert s[0] == expr[i] && s[1..] == expr[i + 1..];
      if IsDigit(expr[i]) {
        LexDigits(s);
        var j, val := ReadNumber(expr, i);
        assert s[..Digits(s)] == expr[i..j] && s[Digits(s)..] == expr[j..];
        MachineNum(expr[i..j], Lex(expr[j..]), st.Contents());
        st.Push(val);
        i := j;
      } else {
        LexOther(s);
        if IsOperator(expr[i]) {
          Reduce(st, expr[i]);
        } else if expr[i] == '(' {
          MachineSkip(Open, Lex(s[1..]), st.Contents());
        } else if expr[i] == ')' {
          MachineSkip(Close, Lex(s[1..]), st.Contents());
        } else {
          assert Lex(s) == Lex(s[1..]);
        }
        i := i + 1;
      }
    }
    LexNothing(expr);
    MachineEnd(st.Contents());
    r := st.Pop();
  }

  lemma MachineEnd(stack: seq<real>)
    ensures Machine([], stack) == if stack == [] then 0.0 else stack[|stack| - 1]
  {
  }

  /** The postfix form begins with a number. */
  lemma {:induction false} NumberFirst(e: Expr)
    ensures Postfix(e) != [] && Postfix(e)[0].Num?
  {
    match e
    case Lit(_) =>
    case Bin(_, l, _) => NumberFirst(l);
    case Paren(inner) => NumberFirst(inner);
  }

  /** What `main` does with each expression: convert into a buffer, and evaluate the text if that succeeded.
      The result is then the value of the expression. */
  method Compute(infix: string, size: nat, ghost e: Expr) returns (outcome: Outcome, r: real)
    requires WellFormed(e) && Lex(infix) == Infix(e) && size >= 1
    ensures outcome == Verdict(Postfix(e), size)
    ensures size > 2 * |infix| ==> outcome == Converted
    ensures outcome == Converted ==> r == Value(e)
  {
    CompileCorrect(e, infix);
    NumberFirst(e);
    assert Contained(Postfix(e), size);
    hide *;
    var result := new char[size];
    var length;
    outcome, length := InfixToPostfix(infix, result);
    if size > 2 * |infix| { AmpleBuffer(infix, size); }
    r := 0.0;
    if outcome == Converted { r := EvalPostfix(result[..length]); }
  }
}
