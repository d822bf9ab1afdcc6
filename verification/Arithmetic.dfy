/** stack.c: what the conversion and the evaluation are for, over the grammar of arithmetic.

    A sum is a chain of products, a product a chain of powers, a power a chain of numbers and parenthesised sums, all
    grouped to the left. */
module Arithmetic {
  import opened Expressions

  datatype Sum = Term(first: Product) | Plus(left: Sum, right: Product) | Minus(left: Sum, right: Product)

  datatype Product = Single(only: Power) | Times(left: Product, right: Power) | Over(left: Product, right: Power)

  datatype Power = Base(base: Atom) | Raise(left: Power, right: Atom)

  /** A number is written with any number of leading zeros. */
  datatype Atom = Number(zeros: nat, n: nat) | Group(inner: Sum)

  // ----- Numbers

  /** The decimal numeral of n. */
  function Decimal(n: nat): string {
    (if n < 10 then "" else Decimal(n / 10)) + ["0123456789"[n % 10]]
  }

  function Numeral(zeros: nat, n: nat): string {
    seq(zeros, _ => '0') + Decimal(n)
  }

  predicate DecimalDigit(c: char) {
    c in "0123456789"
  }

  lemma DigitValue(k: nat)
    requires k < 10
    ensures var c := "0123456789"[k]; IsDigit(c) && DecimalDigit(c) && c as int - '0' as int == k
  {
  }

  /** The number read from a numeral of n is n, with or without leading zeros. */
  lemma {:induction false} ReadsNumeral(zeros: nat, n: nat)
    ensures NumValue(Numeral(zeros, n)) == n as real
    ensures Numeral(zeros, n) != [] && forall i :: 0 <= i < |Numeral(zeros, n)| ==> IsDigit(Numeral(zeros, n)[i])
    decreases n
  {
    var before, c := if n < 10 then seq(zeros, _ => '0') else Numeral(zeros, n / 10), "0123456789"[n % 10];
    NumeralSplits(zeros, n);
    DigitValue(n % 10);
    hide Numeral, NumValue;
    if n < 10 { ReadsZeros(zeros); } else { ReadsNumeral(zeros, n / 10); }
    NumValueStep(before, c);
    TensAndOnes(n);
  }

  lemma NumeralSplits(zeros: nat, n: nat)
    ensures Numeral(zeros, n)
         == (if n < 10 then seq(zeros, _ => '0') else Numeral(zeros, n / 10)) + ["0123456789"[n % 10]]
  {
  }

  lemma TensAndOnes(n: nat)
    ensures (if n < 10 then 0.0 else (n / 10) as real) * 10.0 + (n % 10) as real == n as real
  {
    assert n == 10 * (n / 10) + n % 10;
  }

  lemma {:induction false} ReadsZeros(zeros: nat)
    ensures NumValue(seq(zeros, _ => '0')) == 0.0
  {
    if zeros > 0 {
      ReadsZeros(zeros - 1);
      NumValueStep(seq(zeros - 1, _ => '0'), '0');
      assert seq(zeros, _ => '0') == seq(zeros - 1, _ => '0') + ['0'];
    }
  }

  /** Another digit at the end of a numeral makes another numeral. */
  lemma NumeralAppend(zeros: nat, n: nat, k: nat)
    requires k < 10
    ensures Numeral(zeros, n) + ["0123456789"[k]]
         == if n == 0 then Numeral(zeros + 1, k) else Numeral(zeros, 10 * n + k)
  {
    if n == 0 {
      assert Decimal(0) == "0" && Decimal(k) == ["0123456789"[k]];
      assert seq(zeros + 1, _ => '0') == seq(zeros, _ => '0') + "0";
    } else {
      TenTimes(n, k);
      assert Decimal(10 * n + k) == Decimal(n) + ["0123456789"[k]];
    }
  }

  lemma TenTimes(n: nat, k: nat)
    requires k < 10
    ensures (10 * n + k) / 10 == n && (10 * n + k) % 10 == k
  {
  }

  lemma DigitOf(c: char) returns (k: nat)
    requires c in "0123456789"
    ensures k < 10 && "0123456789"[k] == c && Numeral(0, k) == [c]
  {
    k :| k < 10 && "0123456789"[k] == c;
    assert Decimal(k) == [c];
  }

  /** Every run of digits is a numeral. */
  lemma {:induction false} EveryDigitRun(d: string) returns (zeros: nat, n: nat)
    requires d != "" && forall i :: 0 <= i < |d| ==> d[i] in "0123456789"
    ensures d == Numeral(zeros, n)
  {
    hide Numeral, Decimal;
    var init, c := d[..|d| - 1], d[|d| - 1];
    var k := DigitOf(c);
    assert d == init + [c];
    if init == "" {
      zeros, n := 0, k;
    } else {
      zeros, n := EveryDigitRun(init);
      NumeralAppend(zeros, n, k);
      if n == 0 { zeros, n := zeros + 1, k; } else { n := 10 * n + k; }
    }
  }

  // ----- Value, spelling and postfix form

  function SumValue(s: Sum): real {
    match s
    case Term(p) => ProductValue(p)
    case Plus(l, r) => SumValue(l) + ProductValue(r)
    case Minus(l, r) => SumValue(l) - ProductValue(r)
  }

  /** A quotient by 0 is 0. */
  function ProductValue(p: Product): real {
    match p
    case Single(f) => PowerValue(f)
    case Times(l, r) => ProductValue(l) * PowerValue(r)
    case Over(l, r) => if PowerValue(r) == 0.0 then 0.0 else ProductValue(l) / PowerValue(r)
  }

  /** The evaluator knows no powers and gives 0. */
  function PowerValue(p: Power): real {
    match p
    case Base(a) => AtomValue(a)
    case Raise(_, _) => 0.0
  }

  function AtomValue(a: Atom): real {
    match a
    case Number(_, n) => n as real
    case Group(s) => SumValue(s)
  }

  /** The pieces of the infix spelling, in order. */
  function SumPieces(s: Sum): seq<string> {
    match s
    case Term(p) => ProductPieces(p)
    case Plus(l, r) => SumPieces(l) + ["+"] + ProductPieces(r)
    case Minus(l, r) => SumPieces(l) + ["-"] + ProductPieces(r)
  }

  function ProductPieces(p: Product): seq<string> {
    match p
    case Single(f) => PowerPieces(f)
    case Times(l, r) => ProductPieces(l) + ["*"] + PowerPieces(r)
    case Over(l, r) => ProductPieces(l) + ["/"] + PowerPieces(r)
  }

  function PowerPieces(p: Power): seq<string> {
    match p
    case Base(a) => AtomPieces(a)
    case Raise(l, r) => PowerPieces(l) + ["^"] + AtomPieces(r)
  }

  function AtomPieces(a: Atom): seq<string> {
    match a
    case Number(zeros, n) => [Numeral(zeros, n)]
    case Group(s) => ["("] + SumPieces(s) + [")"]
  }

  predicate Foreign(c: char) {
    c !in "0123456789+-*/^()"
  }

  /** The text consists of the pieces, with spaces and any other foreign characters before, between and after them. */
  predicate Spells(text: string, pieces: seq<string>)
    decreases |text|
  {
    if text == "" then pieces == []
    else
      || (Foreign(text[0]) && Spells(text[1..], pieces))
      || (pieces != [] && pieces[0] != "" && pieces[0] <= text && Spells(text[|pieces[0]|..], pieces[1..]))
  }

  /** The postfix form, operands first, everything separated by single spaces. */
  function SumPostfix(s: Sum): string {
    match s
    case Term(p) => ProductPostfix(p)
    case Plus(l, r) => SumPostfix(l) + " " + ProductPostfix(r) + " +"
    case Minus(l, r) => SumPostfix(l) + " " + ProductPostfix(r) + " -"
  }

  function ProductPostfix(p: Product): string {
    match p
    case Single(f) => PowerPostfix(f)
    case Times(l, r) => ProductPostfix(l) + " " + PowerPostfix(r) + " *"
    case Over(l, r) => ProductPostfix(l) + " " + PowerPostfix(r) + " /"
  }

  function PowerPostfix(p: Power): string {
    match p
    case Base(a) => AtomPostfix(a)
    case Raise(l, r) => PowerPostfix(l) + " " + AtomPostfix(r) + " ^"
  }

  function AtomPostfix(a: Atom): string {
    match a
    case Number(zeros, n) => Numeral(zeros, n)
    case Group(s) => SumPostfix(s)
  }

  // ----- As expression trees

  function SumExpr(s: Sum): Expr {
    match s
    case Term(p) => ProductExpr(p)
    case Plus(l, r) => Bin('+', SumExpr(l), ProductExpr(r))
    case Minus(l, r) => Bin('-', SumExpr(l), ProductExpr(r))
  }

  function ProductExpr(p: Product): Expr {
    match p
    case Single(f) => PowerExpr(f)
    case Times(l, r) => Bin('*', ProductExpr(l), PowerExpr(r))
    case Over(l, r) => Bin('/', ProductExpr(l), PowerExpr(r))
  }

  function PowerExpr(p: Power): Expr {
    match p
    case Base(a) => AtomExpr(a)
    case Raise(l, r) => Bin('^', PowerExpr(l), AtomExpr(r))
  }

  function AtomExpr(a: Atom): Expr {
    match a
    case Number(zeros, n) => Lit(Numeral(zeros, n))
    case Group(s) => Paren(SumExpr(s))
  }

  /** A tree, and what the grammar says about it. */
  datatype Reading = Reading(e: Expr, value: real, pieces: seq<string>, postfix: string)

  ghost predicate Fits(x: Reading) {
    WellFormed(x.e) && Value(x.e) == x.value && Texts(Infix(x.e)) == x.pieces && Emit(Postfix(x.e)) == x.postfix + " "
  }

  function OfSum(s: Sum): Reading {
    Reading(SumExpr(s), SumValue(s), SumPieces(s), SumPostfix(s))
  }

  function OfProduct(p: Product): Reading {
    Reading(ProductExpr(p), ProductValue(p), ProductPieces(p), ProductPostfix(p))
  }

  function OfPower(p: Power): Reading {
    Reading(PowerExpr(p), PowerValue(p), PowerPieces(p), PowerPostfix(p))
  }

  function OfAtom(a: Atom): Reading {
    Reading(AtomExpr(a), AtomValue(a), AtomPieces(a), AtomPostfix(a))
  }

  function Texts(ts: seq<Token>): seq<string> {
    if ts == [] then [] else [Text(ts[0])] + Texts(ts[1..])
  }

  lemma {:induction false} TextsConcat(a: seq<Token>, b: seq<Token>)
    ensures Texts(a + b) == Texts(a) + Texts(b)
  {
    if a == [] {
      assert a + b == b;
    } else {
      TextsConcat(a[1..], b);
      assert (a + b)[1..] == a[1..] + b;
    }
  }

  lemma EmitNone(a: seq<Token>)
    ensures a + [] == a && Emit([]) == ""
  {
  }

  lemma {:induction false} EmitConcat(a: seq<Token>, b: seq<Token>)
    ensures Emit(a + b) == Emit(a) + Emit(b)
  {
    hide Emit;
    if b == [] {
      EmitNone(a);
    } else {
      var init, t := b[..|b| - 1], b[|b| - 1];
      EmitConcat(a, init);
      calc {
        Emit(a + b);
        { assert a + b == a + init + [t]; EmitAdd(a + init, t); }
        Emit(a + init) + Text(t) + " ";
        { Associates(Emit(a), Emit(init), Text(t), " "); }
        Emit(a) + (Emit(init) + Text(t) + " ");
        { assert b == init + [t]; EmitAdd(init, t); }
        Emit(a) + Emit(b);
      }
    }
  }

  lemma Associates(a: string, b: string, c: string, d: string)
    ensures a + b + c + d == a + (b + c + d)
  {
  }

  lemma {:induction false} BinFits(op: char, l: Reading, r: Reading, sp: string)
    requires sp == [' ', op] && Fits(l) && Fits(r) && op in {'+', '-', '*', '/', '^'}
    requires Level(l.e) >= Level(Bin(op, l.e, r.e)) && Level(r.e) > Level(Bin(op, l.e, r.e))
    ensures var e := Bin(op, l.e, r.e);
      Fits(Reading(e, Applied(op, l.value, r.value), l.pieces + [sp[1..]] + r.pieces, l.postfix + " " + r.postfix + sp))
  {
    hide Texts, Emit, Applied, Level;
    TextsConcat(Infix(l.e) + [Op(op)], Infix(r.e));
    TextsConcat(Infix(l.e), [Op(op)]);
    OneText(Op(op));
    EmitConcat(Postfix(l.e), Postfix(r.e));
    EmitAdd(Postfix(l.e) + Postfix(r.e), Op(op));
    assert sp[1..] == [op];
    assert l.postfix + " " + (r.postfix + " ") + [op] + " " == l.postfix + " " + r.postfix + sp + " ";
  }

  lemma {:induction false} TimesApplies(l: Product, r: Power)
    ensures ProductValue(Times(l, r)) == Applied('*', ProductValue(l), PowerValue(r))
  {
    hide PowerValue;
  }

  lemma {:induction false} OverApplies(l: Product, r: Power)
    ensures ProductValue(Over(l, r)) == Applied('/', ProductValue(l), PowerValue(r))
  {
    hide PowerValue;
  }

  lemma OneText(t: Token)
    ensures Texts([t]) == [Text(t)] && Emit([t]) == Text(t) + " "
  {
    assert [t][1..] == [] && [t][..0] == [];
  }

  lemma {:induction false} SumFits(s: Sum)
    ensures Fits(OfSum(s)) && Level(SumExpr(s)) >= 1
  {
    hide Fits, Value;
    match s
    case Term(p) => ProductFits(p);
    case Plus(l, r) =>
      SumFits(l);
      ProductFits(r);
      assert " +"[1..] == "+";
      BinFits('+', OfSum(l), OfProduct(r), " +");
    case Minus(l, r) =>
      SumFits(l);
      ProductFits(r);
      assert " -"[1..] == "-";
      BinFits('-', OfSum(l), OfProduct(r), " -");
  }

  lemma {:induction false} ProductFits(p: Product)
    ensures Fits(OfProduct(p)) && Level(ProductExpr(p)) >= 2
  {
    hide Fits, Value, Applied;
    match p
    case Single(f) => PowerFits(f);
    case Times(l, r) =>
      ProductFits(l);
      PowerFits(r);
      assert " *"[1..] == "*";
      BinFits('*', OfProduct(l), OfPower(r), " *");
      TimesApplies(l, r);
    case Over(l, r) =>
      ProductFits(l);
      PowerFits(r);
      assert " /"[1..] == "/";
      BinFits('/', OfProduct(l), OfPower(r), " /");
      OverApplies(l, r);
  }

  lemma {:induction false} PowerFits(p: Power)
    ensures Fits(OfPower(p)) && Level(PowerExpr(p)) >= 3
  {
    hide Fits;
    match p
    case Base(a) => AtomFits(a);
    case Raise(l, r) =>
      PowerFits(l);
      AtomFits(r);
      assert " ^"[1..] == "^";
      BinFits('^', OfPower(l), OfAtom(r), " ^");
  }

  lemma {:induction false} AtomFits(a: Atom)
    ensures Fits(OfAtom(a)) && Level(AtomExpr(a)) == 4
  {
    hide Texts, Emit;
    match a
    case Number(zeros, n) =>
      ReadsNumeral(zeros, n);
      OneText(Num(Numeral(zeros, n)));
    case Group(s) =>
      SumFits(s);
      var ts := Infix(SumExpr(s));
      TextsConcat([Open] + ts, [Close]);
      TextsConcat([Open], ts);
      OneText(Open);
      OneText(Close);
  }

  // ----- Reading a spelling

  /** Two numbers never stand side by side. */
  ghost predicate Separated(ts: seq<Token>) {
    forall i: nat :: i + 1 < |ts| ==> !(ts[i].Num? && At(ts, i + 1).Num?)
  }

  function At(ts: seq<Token>, i: nat): Token {
    if i < |ts| then ts[i] else Open
  }

  lemma {:induction false} InfixSeparated(e: Expr)
    requires WellFormed(e)
    ensures AllPlain(Infix(e)) && Separated(Infix(e)) && Infix(e) != []
  {
    match e
    case Lit(d) =>
    case Paren(f) =>
      InfixSeparated(f);
      var ts := Infix(f);
      forall i: nat | i + 1 < |Infix(e)| ensures !(Infix(e)[i].Num? && At(Infix(e), i + 1).Num?) {
        if 0 < i < |ts| { assert Infix(e)[i] == ts[i - 1] && At(Infix(e), i + 1) == At(ts, i); }
      }
    case Bin(op, l, r) =>
      InfixSeparated(l);
      InfixSeparated(r);
      var a, b := Infix(l), Infix(r);
      forall i: nat | i + 1 < |Infix(e)| ensures !(Infix(e)[i].Num? && At(Infix(e), i + 1).Num?) {
        if i + 1 < |a| { assert Infix(e)[i] == a[i] && At(Infix(e), i + 1) == At(a, i + 1); }
        else if i > |a| { assert Infix(e)[i] == b[i - |a| - 1] && At(Infix(e), i + 1) == At(b, i - |a|); }
      }
  }

  /** A spelling that does not begin with a number does not begin with a digit. */
  lemma NoDigitFirst(text: string, ts: seq<Token>)
    requires Spells(text, Texts(ts)) && AllPlain(ts) && (ts != [] ==> !ts[0].Num?)
    ensures text == "" || !IsDigit(text[0])
  {
    if text != "" && ts != [] { assert Texts(ts)[0] == Text(ts[0]) && Plain(ts[0]); }
  }

  lemma FirstPiece(text: string, t: Token, rest: string)
    requires Plain(t) && text == Text(t) + rest && (t.Num? ==> rest == "" || !IsDigit(rest[0]))
    ensures Lex(text) == [t] + Lex(rest)
  {
    if t.Num? {
      DigitsOf(t.digits, rest);
      assert text[..|t.digits|] == t.digits && text[|t.digits|..] == rest;
    } else {
      assert text[1..] == rest;
    }
  }

  lemma LexEmpty()
    ensures Lex("") == []
  {
  }

  /** Every spelling is read as the tokens that it spells. */
  lemma {:induction false} LexSpelling(text: string, ts: seq<Token>)
    requires Spells(text, Texts(ts)) && AllPlain(ts) && Separated(ts)
    ensures Lex(text) == ts
    decreases |text|
  {
    hide Lex, Foreign, Text;
    LexEmpty();
    if text != "" {
      if Foreign(text[0]) && Spells(text[1..], Texts(ts)) {
        LexSpelling(text[1..], ts);
        Skipped(text);
      } else {
        var t, rest := ts[0], text[|Text(ts[0])|..];
        assert text == Text(t) + rest && Texts(ts)[1..] == Texts(ts[1..]);
        LexSpelling(rest, ts[1..]);
        if t.Num? {
          assert |ts| > 1 ==> !At(ts, 1).Num?;
          NoDigitFirst(rest, ts[1..]);
        }
        FirstPiece(text, t, rest);
      }
    }
  }

  lemma Skipped(text: string)
    requires text != "" && Foreign(text[0])
    ensures Lex(text) == Lex(text[1..])
  {
    DigitIff(text[0]);
    assert "0123456789+-*/^()" == "0123456789" + "+-*/^()";
  }

  lemma DigitIff(c: char)
    ensures IsDigit(c) <==> DecimalDigit(c)
  {
    if IsDigit(c) {
      var k := c as int - '0' as int;
      DigitValue(k);
      assert c == "0123456789"[k];
    }
  }

  // ----- The programs

  /** For every sum and every spelling of it, the text written is its postfix form, and reading that gives its value. */
  lemma Correct(s: Sum, text: string)
    requires Spells(text, SumPieces(s))
    ensures PostfixText(text) == SumPostfix(s) && Machine(Lex(SumPostfix(s)), []) == SumValue(s)
    ensures Lex(text) == Infix(SumExpr(s)) && WellFormed(SumExpr(s))
  {
    SumFits(s);
    var e := SumExpr(s);
    InfixSeparated(e);
    LexSpelling(text, Infix(e));
    CompileCorrect(e, text);
    assert Trim(SumPostfix(s) + " ") == SumPostfix(s);
  }

  /** Whether the text fits: a number may come without the space after it, an operator may not. */
  predicate Room(postfix: string, size: nat) {
    |postfix| + 1 < size || (|postfix| + 1 == size && postfix != "" && DecimalDigit(postfix[|postfix| - 1]))
  }

  lemma Fitting(s: Sum, text: string, size: nat)
    requires Spells(text, SumPieces(s)) && size >= 1
    ensures Contained(Shunt(Lex(text), [], []), size)
    ensures Verdict(Shunt(Lex(text), [], []), size) == Converted <==> Room(SumPostfix(s), size)
    ensures size > 2 * |text| ==> Verdict(Shunt(Lex(text), [], []), size) == Converted
  {
    Correct(s, text);
    SumFits(s);
    var e := SumExpr(s);
    CompileCorrect(e, text);
    NumberFirst(e);
    PostfixPlain(e);
    hide Verdict, Emit, Postfix, Shunt, Lex, SumPostfix, SumExpr, Infix, Value, WellFormed, AllPlain, Room, Contained;
    TokensFit(Postfix(e), SumPostfix(s), size);
    if size > 2 * |text| { AmpleBuffer(text, size); }
  }

  lemma TokensFit(out: seq<Token>, text: string, size: nat)
    requires AllPlain(out) && out != [] && out[0].Num? && Emit(out) == text + " " && size >= 1
    ensures Contained(out, size) && (Verdict(out, size) == Converted <==> Room(text, size))
  {
    var init, last := out[..|out| - 1], out[|out| - 1];
    assert out == init + [last] && Plain(last);
    hide Verdict, Emit, AllPlain, Plain, DecimalDigit;
    EndsIn(init, last, text);
    VerdictIff(out, size);
  }

  /** The last token and the last character. */
  lemma EndsIn(init: seq<Token>, t: Token, text: string)
    requires Plain(t) && Emit(init + [t]) == text + " "
    ensures text != "" && (t.Num? <==> DecimalDigit(text[|text| - 1]))
  {
    hide *;
    EmitAdd(init, t);
    LastChar(t);
    SameEnd(Emit(init), Text(t), text);
  }

  lemma SameEnd(before: string, last: string, text: string)
    requires last != "" && before + last + " " == text + " "
    ensures text != "" && text[|text| - 1] == last[|last| - 1]
  {
    assert text == (text + " ")[..|text|];
  }

  lemma LastChar(t: Token)
    requires Plain(t)
    ensures Text(t) != "" && (t.Num? <==> DecimalDigit(Text(t)[|Text(t)| - 1]))
  {
    DigitIff(Text(t)[|Text(t)| - 1]);
  }

  /** Convert a spelling into a buffer of at least one byte, and evaluate the text if that succeeded. */
  method Calculate(text: string, size: nat, ghost s: Sum) returns (outcome: Outcome, postfix: string, r: real)
    requires Spells(text, SumPieces(s)) && size >= 1
    ensures size > 2 * |text| ==> outcome == Converted
    ensures outcome == Converted <==> Room(SumPostfix(s), size)
    ensures outcome == Converted ==> postfix == SumPostfix(s) && r == SumValue(s)
  {
    Correct(s, text);
    Fitting(s, text, size);
    hide *;
    var buffer := new char[size];
    var length;
    outcome, length := InfixToPostfix(text, buffer);
    postfix, r := "", 0.0;
    if outcome == Converted {
      postfix := buffer[..length];
      r := EvalPostfix(postfix);
    }
  }
}
