/** stack.c: `infix_to_postfix` as a step machine with its size guards, for every size of the buffer.

    One step is one round of the scanning loop or of a popping loop, so a popping loop that never ends is a state
    that a step does not change. */
module Conversion {
  import opened Expressions

  /** Where the program is: scanning, in the ')' loop, in the operator loop, in the final loop, or back. */
  datatype State =
    | Scanning(rest: string, ops: string, text: string)
    | Closing(rest: string, ops: string, text: string)
    | Tightening(c: char, rest: string, ops: string, text: string)
    | Draining(ops: string, text: string)
    | ReturnedTrue(text: string)
    | ReturnedFalse

  function Top(ops: string): char
    requires ops != []
  {
    ops[|ops| - 1]
  }

  function Below(ops: string): string
    requires ops != []
  {
    ops[..|ops| - 1]
  }

  function Scan(s: State, size: nat): State
    requires s.Scanning?
  {
    var rest, ops, text := s.rest, s.ops, s.text;
    if rest == [] then Draining(ops, text)
    else if IsDigit(rest[0]) then
      var n := Digits(rest);
      if |text| + n > Limit(size, 1) then ReturnedFalse
      else Scanning(rest[n..], ops, text + rest[..n] + if |text| + n < Limit(size, 1) then " " else "")
    else if rest[0] == '(' then Scanning(rest[1..], ops + "(", text)
    else if rest[0] == ')' then Closing(rest[1..], ops, text)
    else if IsOperator(rest[0]) then Tightening(rest[0], rest[1..], ops, text)
    else Scanning(rest[1..], ops, text)
  }

  function Step(s: State, size: nat): State {
    match s
    case Scanning(_, _, _) => Scan(s, size)
    case Closing(rest, ops, text) =>
      if ops == [] then Scanning(rest, ops, text)
      else if Top(ops) == '(' then Scanning(rest, Below(ops), text)
      else if |text| < Limit(size, 2) then Closing(rest, Below(ops), text + [Top(ops)] + " ")
      else s
    case Tightening(c, rest, ops, text) =>
      if ops == [] || Top(ops) == '(' || Precedence(Top(ops)) < Precedence(c) then Scanning(rest, ops + [c], text)
      else if |text| < Limit(size, 2) then Tightening(c, rest, Below(ops), text + [Top(ops)] + " ")
      else s
    case Draining(ops, text) =>
      if ops == [] then ReturnedTrue(Trim(text))
      else if |text| < Limit(size, 2) then Draining(Below(ops), text + [Top(ops)] + " ")
      else s
    case _ => s
  }

  function RunFrom(s: State, size: nat, k: nat): State
    decreases k
  {
    if k == 0 then s else RunFrom(Step(s, size), size, k - 1)
  }

  /** The state after k steps. */
  function Run(infix: string, size: nat, k: nat): State {
    RunFrom(Scanning(infix, [], []), size, k)
  }

  predicate Returned(s: State) {
    s.ReturnedTrue? || s.ReturnedFalse?
  }

  /** The program repeats itself without end. */
  predicate Stuck(s: State, size: nat) {
    Step(s, size) == s && !Returned(s)
  }

  lemma {:induction false} StaysPut(s: State, size: nat, k: nat)
    requires Step(s, size) == s
    ensures RunFrom(s, size, k) == s
  {
    if k > 0 { StaysPut(s, size, k - 1); }
  }

  lemma {:induction false} RunAdds(s: State, size: nat, j: nat, k: nat)
    ensures RunFrom(s, size, j + k) == RunFrom(RunFrom(s, size, j), size, k)
    decreases j
  {
    if j > 0 { RunAdds(Step(s, size), size, j - 1, k); }
  }

  /** Whatever fixed state a run reaches, it is the only one. */
  lemma OneEnd(s: State, size: nat, j: nat, k: nat)
    requires Step(RunFrom(s, size, j), size) == RunFrom(s, size, j)
    requires Step(RunFrom(s, size, k), size) == RunFrom(s, size, k)
    ensures RunFrom(s, size, j) == RunFrom(s, size, k)
  {
    RunAdds(s, size, j, k);
    RunAdds(s, size, k, j);
    StaysPut(RunFrom(s, size, j), size, k);
    StaysPut(RunFrom(s, size, k), size, j);
    assert j + k == k + j;
  }

  // ----- The machine follows the token-level shunting yard

  function Pending(s: State): seq<Token> {
    match s
    case Scanning(rest, _, _) => Lex(rest)
    case Closing(rest, _, _) => [Close] + Lex(rest)
    case Tightening(c, rest, _, _) => [Op(c)] + Lex(rest)
    case _ => []
  }

  function Stack(s: State): string {
    if Returned(s) then [] else s.ops
  }

  function Output(s: State): string {
    if s.ReturnedFalse? then [] else s.text
  }

  /** All the output there will be, once `out` has been written. */
  function Final(s: State, out: seq<Token>): seq<Token> {
    Shunt(Pending(s), Stack(s), out)
  }

  ghost predicate Wrote(s: State, out: seq<Token>, size: nat) {
    && size >= 1 && !Returned(s) && Verdict(out, size) == Converted && Output(s) == Fitted(out, size)
    && NumsPlain(Final(s, out)) && Contained(Final(s, out), size) && (size == 1 ==> out == [])
  }

  function Rounds(s: State): nat {
    match s
    case Scanning(rest, _, _) => 2 * |rest| + 1
    case Closing(rest, _, _) => 2 * |rest| + 2
    case Tightening(_, rest, _, _) => 2 * |rest| + 2
    case _ => 0
  }

  ghost predicate EndsAs(s: State, final: seq<Token>, size: nat) {
    match Verdict(final, size)
    case Converted => s == ReturnedTrue(Trim(Emit(final)))
    case Refused => s == ReturnedFalse
    case Spins => Stuck(s, size)
  }

  /** The state is about to write its top operator. */
  predicate Popping(s: State) {
    !Returned(s) && s.ops != []
    && (s.Draining? || (s.Closing? && Top(s.ops) != '(')
        || (s.Tightening? && Top(s.ops) != '(' && Precedence(Top(s.ops)) >= Precedence(s.c)))
  }

  /** The state is about to write a number. */
  predicate Numbering(s: State) {
    s.Scanning? && s.rest != [] && IsDigit(s.rest[0])
  }

  /** The state is about to write the closing NUL. */
  predicate Ending(s: State) {
    s.Draining? && s.ops == []
  }

  /** Any other step writes nothing, and changes nothing of the final output. */
  lemma QuietStep(s: State, out: seq<Token>, size: nat)
    requires !Returned(s) && !Popping(s) && !Numbering(s) && !Ending(s)
    ensures !Returned(Step(s, size)) && Output(Step(s, size)) == Output(s) && Final(Step(s, size), out) == Final(s, out)
    ensures Rounds(Step(s, size)) < Rounds(s)
  {
    hide Shunt, Lex;
    match s
    case Scanning(rest, ops, _) =>
      if rest == [] {
        LexNothing(rest);
        assert rest[|rest|..] == rest;
      } else {
        LexOther(rest);
        if rest[0] == '(' { ShuntOpen(Lex(rest[1..]), ops, out); }
        else if rest[0] != ')' && !IsOperator(rest[0]) { assert Lex(rest) == Lex(rest[1..]); }
      }
    case Closing(rest, ops, _) =>
      if ops == [] { ShuntUnopened(Lex(rest), out); }
      else {
        assert ops == Below(ops) + "(";
        ShuntClose(Lex(rest), Below(ops), out);
      }
    case Tightening(c, rest, ops, _) => ShuntPush(c, Lex(rest), ops, out);
    case Draining(_, _) =>
  }

  /** The state writes its number next, or cannot. */
  lemma NumberStep(s: State, out: seq<Token>, size: nat) returns (out': seq<Token>)
    requires Wrote(s, out, size) && Numbering(s)
    ensures Step(s, size) == ReturnedFalse ==> Verdict(Final(s, out), size) == Refused
    ensures Step(s, size) != ReturnedFalse ==>
              Wrote(Step(s, size), out', size) && Final(Step(s, size), out') == Final(s, out)
              && Rounds(Step(s, size)) < Rounds(s)
  {
    hide Shunt, Lex, Verdict, Fitted;
    var rest, ops := s.rest, s.ops;
    LexDigits(rest);
    var d, after := rest[..Digits(rest)], rest[Digits(rest)..];
    AddNum(out, d, size);
    ShuntNum(d, Lex(after), ops, out);
    out' := out + [Num(d)];
    ShuntKeeps(Lex(after), ops, out');
    if Step(s, size) == ReturnedFalse { VerdictExtends(out', Final(s, out), size); }
  }

  /** The operator about to be written is the next token of the output. */
  lemma PopsNext(s: State, out: seq<Token>)
    requires Popping(s)
    ensures out + [Popped(Top(s.ops))] <= Final(s, out)
    ensures Final(s, out) == Shunt(Pending(s), Below(s.ops), out + [Popped(Top(s.ops))])
  {
    hide Shunt, Lex, Precedence, Popped;
    match s
    case Closing(rest, ops, _) => CloseFits(Lex(rest), ops, out);
    case Tightening(c, rest, ops, _) => OpFits(c, Lex(rest), ops, out);
    case Draining(ops, _) => DrainFits(ops, out);
  }

  /** The state writes its top operator next, or cannot. */
  lemma PopStep(s: State, out: seq<Token>, size: nat)
    requires Wrote(s, out, size) && Popping(s)
    ensures var out' := out + [Popped(Top(s.ops))];
      if Step(s, size) == s then Verdict(Final(s, out), size) == Spins
      else Wrote(Step(s, size), out', size) && Final(Step(s, size), out') == Final(s, out)
           && Rounds(Step(s, size)) == Rounds(s) && |Stack(Step(s, size))| < |s.ops|
  {
    hide Shunt, Lex, Verdict, Fitted, NumsPlain, Precedence, Trim, Emit;
    var out' := out + [Popped(Top(s.ops))];
    PopsNext(s, out);
    assert out'[|out|] == Popped(Top(s.ops)) == Final(s, out)[|out|];
    AddPopped(out, Top(s.ops), size);
    if Step(s, size) == s { VerdictExtends(out', Final(s, out), size); }
  }

  lemma {:induction false} Reaches(s: State, out: seq<Token>, size: nat) returns (k: nat)
    requires Wrote(s, out, size)
    ensures EndsAs(RunFrom(s, size, k), Final(s, out), size)
    decreases Rounds(s), |Stack(s)|
  {
    hide Shunt, Lex, Verdict, Fitted, Wrote, Final;
    var s' := Step(s, size);
    if Numbering(s) {
      var out' := NumberStep(s, out, size);
      if s' == ReturnedFalse {
        k := 1;
        assert RunFrom(s, size, 1) == RunFrom(s', size, 0);
      } else {
        k := Reaches(s', out', size); k := k + 1;
      }
    } else if Ending(s) {
      DrainedEnds(s, out, size);
      k := 1;
      assert RunFrom(s, size, 1) == RunFrom(s', size, 0);
    } else if Popping(s) {
      PopStep(s, out, size);
      if s' == s { k := 0; } else { k := Reaches(s', out + [Popped(Top(s.ops))], size); k := k + 1; }
    } else {
      StillGoing(s, out, size);
      QuietStep(s, out, size);
      WroteOn(s, s', out, size);
      k := Reaches(s', out, size); k := k + 1;
    }
  }

  lemma WroteOn(s: State, s': State, out: seq<Token>, size: nat)
    requires Wrote(s, out, size) && !Returned(s') && Output(s') == Output(s) && Final(s', out) == Final(s, out)
    ensures Wrote(s', out, size)
  {
  }

  lemma StillGoing(s: State, out: seq<Token>, size: nat)
    requires Wrote(s, out, size)
    ensures !Returned(s)
  {
  }

  lemma DrainedEnds(s: State, out: seq<Token>, size: nat)
    requires Wrote(s, out, size) && Ending(s)
    ensures Verdict(Final(s, out), size) == Converted && Step(s, size) == ReturnedTrue(Trim(Emit(Final(s, out))))
  {
    hide Verdict, Fitted;
    ShuntEnd(out);
    FittedTrim(out, size);
  }

  // ----- What becomes of a conversion

  function Tokens(infix: string): seq<Token> {
    Shunt(Lex(infix), [], [])
  }

  lemma Begins(infix: string, size: nat)
    requires Contained(Tokens(infix), size)
    ensures Wrote(Scanning(infix, [], []), [], size) && Final(Scanning(infix, [], []), []) == Tokens(infix)
  {
    hide Shunt, Lex;
    NothingWritten(size);
    LexNums(infix);
    ShuntKeeps(Lex(infix), [], []);
  }

  /** The run ends as the first token that cannot be written decides. */
  lemma RunEnds(infix: string, size: nat) returns (k: nat)
    requires Contained(Tokens(infix), size)
    ensures EndsAs(Run(infix, size, k), Tokens(infix), size)
  {
    hide Wrote, Final, Tokens;
    Begins(infix, size);
    k := Reaches(Scanning(infix, [], []), [], size);
  }

  /** It returns true exactly if the output with all its spaces is shorter than the buffer, or as long and
      ends with a number, whose space is then dropped; and the text is then the whole postfix text. */
  lemma ReturnsTrueIff(infix: string, size: nat)
    requires Contained(Tokens(infix), size)
    ensures var out := Tokens(infix);
      (exists k :: Run(infix, size, k).ReturnedTrue?)
      <==> |Emit(out)| < size || (out != [] && |Emit(out)| == size && out[|out| - 1].Num?)
    ensures forall k :: Run(infix, size, k).ReturnedTrue? ==> Run(infix, size, k).text == PostfixText(infix)
  {
    var out := Tokens(infix);
    if out != [] { VerdictIff(out, size); }
    UniqueEnd(infix, size);
  }

  /** It returns false exactly if the first token that cannot be written is a number. */
  lemma ReturnsFalseIff(infix: string, size: nat)
    requires Contained(Tokens(infix), size)
    ensures (exists k :: Run(infix, size, k).ReturnedFalse?)
            <==> exists j: nat :: Misfit(Tokens(infix), size, j) && Tokens(infix)[j].Num?
  {
    UniqueEnd(infix, size);
    MisfitDecides(Tokens(infix), size);
  }

  /** It never returns exactly if the first token that cannot be written is an operator, and then it is
      stuck in one state. */
  lemma NeverReturnsIff(infix: string, size: nat)
    requires Contained(Tokens(infix), size)
    ensures (forall k :: !Returned(Run(infix, size, k)))
            <==> exists j: nat :: Misfit(Tokens(infix), size, j) && !Tokens(infix)[j].Num?
    ensures (forall k :: !Returned(Run(infix, size, k))) <==> exists k :: Stuck(Run(infix, size, k), size)
  {
    UniqueEnd(infix, size);
    MisfitDecides(Tokens(infix), size);
  }

  lemma MisfitDecides(out: seq<Token>, size: nat)
    ensures Verdict(out, size) == Refused <==> exists j: nat :: Misfit(out, size, j) && out[j].Num?
    ensures Verdict(out, size) == Spins <==> exists j: nat :: Misfit(out, size, j) && !out[j].Num?
  {
    hide Verdict, Misfit;
    forall j: nat | Misfit(out, size, j) ensures j < |out| && Verdict(out, size) == if out[j].Num? then Refused else Spins {
      MisfitInside(out, size, j);
      VerdictMisfit(out, size, j);
    }
    if Verdict(out, size) != Converted {
      var j := MisfitExists(out, size);
    }
  }

  lemma MisfitInside(out: seq<Token>, size: nat, j: nat)
    requires Misfit(out, size, j)
    ensures j < |out|
  {
  }

  lemma ReturnedStays(s: State, size: nat)
    requires Returned(s)
    ensures Step(s, size) == s
  {
  }

  lemma UniqueEnd(infix: string, size: nat)
    requires Contained(Tokens(infix), size)
    ensures Verdict(Tokens(infix), size) == Converted <==> exists k :: Run(infix, size, k).ReturnedTrue?
    ensures Verdict(Tokens(infix), size) == Refused <==> exists k :: Run(infix, size, k).ReturnedFalse?
    ensures Verdict(Tokens(infix), size) == Spins <==> exists k :: Stuck(Run(infix, size, k), size)
    ensures Verdict(Tokens(infix), size) == Spins <==> forall k :: !Returned(Run(infix, size, k))
    ensures forall k :: Run(infix, size, k).ReturnedTrue? ==> Run(infix, size, k).text == PostfixText(infix)
  {
    hide Verdict, Tokens, RunFrom, Contained, Step;
    assert Trim(Emit(Tokens(infix))) == PostfixText(infix) by { TextOf(infix); }
    var n := RunEnds(infix, size);
    var end := Run(infix, size, n);
    forall s: State | Returned(s) ensures Step(s, size) == s { ReturnedStays(s, size); }
    assert Step(end, size) == end;
    forall k: nat | Step(Run(infix, size, k), size) == Run(infix, size, k) ensures Run(infix, size, k) == end {
      OneEnd(Scanning(infix, [], []), size, k, n);
    }
  }

  lemma TextOf(infix: string)
    ensures Trim(Emit(Tokens(infix))) == PostfixText(infix)
  {
  }

  // ----- Where it writes

  /** One past the last index of the buffer that the next step writes; 0 if it writes nothing. */
  function WritesTo(s: State, size: nat): nat {
    if Numbering(s) then
      var end := |s.text| + Digits(s.rest);
      if end < Limit(size, 1) then end + 1
      else if end == Limit(size, 1) then end
      else if |s.text| < Limit(size, 1) then Limit(size, 1) else 0
    else if Popping(s) then if |s.text| < Limit(size, 2) then |s.text| + 2 else 0
    else if Ending(s) then |Trim(s.text)| + 1
    else 0
  }

  ghost predicate Inside(s: State, size: nat) {
    forall k: nat :: WritesTo(RunFrom(s, size, k), size) <= size
  }

  lemma InsideStep(s: State, size: nat)
    ensures Inside(s, size) <==> WritesTo(s, size) <= size && Inside(Step(s, size), size)
  {
    hide WritesTo, Step;
    assert RunFrom(s, size, 0) == s;
    forall k: nat ensures RunFrom(s, size, k + 1) == RunFrom(Step(s, size), size, k) {}
    if Inside(s, size) {
      forall k: nat ensures WritesTo(RunFrom(Step(s, size), size, k), size) <= size {
        var next := k + 1;
        assert WritesTo(RunFrom(s, size, next), size) <= size;
      }
    }
    if WritesTo(s, size) <= size && Inside(Step(s, size), size) {
      forall k: nat ensures WritesTo(RunFrom(s, size, k), size) <= size {
        if k > 0 {
          var before := k - 1;
          assert WritesTo(RunFrom(Step(s, size), size, before), size) <= size;
        }
      }
    }
  }

  lemma {:induction false} LargeInside(s: State, size: nat, k: nat)
    requires size >= 2 && |Output(s)| < size
    ensures WritesTo(RunFrom(s, size, k), size) <= size
    decreases k
  {
    if k > 0 { LargeInside(Step(s, size), size, k - 1); }
  }

  lemma ReturnedInside(s: State, size: nat)
    requires Returned(s)
    ensures Inside(s, size)
  {
    forall k: nat ensures RunFrom(s, size, k) == s { StaysPut(s, size, k); }
  }

  /** In a buffer of one byte or none, what is written first decides. */
  lemma {:induction false} SmallInside(s: State, size: nat)
    requires size <= 1 && !Returned(s) && s.text == []
    ensures Inside(s, size) <==> Contained(Final(s, []), size)
    decreases Rounds(s)
  {
    hide Shunt, Lex, Inside, Final, RunFrom;
    InsideStep(s, size);
    if Numbering(s) {
      NumberFirstOut(s);
      ReturnedInside(ReturnedFalse, size);
    } else if Popping(s) {
      PopsNext(s, []);
      assert ([] + [Popped(Top(s.ops))])[0] == Final(s, [])[0];
    } else if Ending(s) {
      NothingOut(s);
      ReturnedInside(ReturnedTrue([]), size);
    } else {
      QuietStep(s, [], size);
      SmallInside(Step(s, size), size);
    }
  }

  lemma NumberFirstOut(s: State)
    requires Numbering(s)
    ensures Digits(s.rest) > 0 && Final(s, []) != [] && Final(s, [])[0].Num?
  {
    hide Shunt, Lex;
    LexDigits(s.rest);
    var d, after := s.rest[..Digits(s.rest)], s.rest[Digits(s.rest)..];
    ShuntNum(d, Lex(after), s.ops, []);
    ShuntKeeps(Lex(after), s.ops, [] + [Num(d)]);
    assert ([] + [Num(d)])[0] == Num(d);
  }

  lemma NothingOut(s: State)
    requires Ending(s)
    ensures Final(s, []) == []
  {
  }

  /** Every write stays inside the buffer exactly if it has two bytes or more, or one byte and the output is empty or
      begins with a number. */
  lemma WritesInsideIff(infix: string, size: nat)
    ensures (forall k: nat :: WritesTo(Run(infix, size, k), size) <= size) <==> Contained(Tokens(infix), size)
  {
    var s := Scanning(infix, [], []);
    if size >= 2 {
      forall k: nat ensures WritesTo(Run(infix, size, k), size) <= size { LargeInside(s, size, k); }
    } else {
      SmallInside(s, size);
      assert Final(s, []) == Tokens(infix);
      assert forall k: nat :: Run(infix, size, k) == RunFrom(s, size, k);
    }
  }

  /** "1+2" and a buffer of six bytes, twice the length of the input: the final loop spins on "+". */
  lemma ExampleSpins()
    ensures Stuck(Run("1+2", 6, 5), 6) && forall k :: !Returned(Run("1+2", 6, k))
  {
    var infix := "1+2";
    assert Digits(infix) == 1 && infix[1..] == "+2" by { assert infix[1..][0] == '+'; }
    var s1 := Scanning("+2", "", "1 ");
    assert Step(Scanning(infix, [], []), 6) == s1;
    var s2 := Tightening('+', "2", "", "1 ");
    assert Step(s1, 6) == s2 by { assert "+2"[1..] == "2"; }
    var s3 := Scanning("2", "+", "1 ");
    assert Step(s2, 6) == s3 by { assert "" + ['+'] == "+"; }
    assert Digits("2") == 1 by { assert "2"[1..] == ""; }
    var s4 := Scanning("", "+", "1 2 ");
    assert Step(s3, 6) == s4 by { assert "2"[1..] == "" && "2"[..1] == "2" && "1 " + "2" + " " == "1 2 "; }
    var s5 := Draining("+", "1 2 ");
    assert Step(s4, 6) == s5 && Stuck(s5, 6);
    assert RunFrom(s5, 6, 0) == s5;
    assert RunFrom(s4, 6, 1) == s5;
    assert RunFrom(s3, 6, 2) == s5;
    assert RunFrom(s2, 6, 3) == s5;
    assert RunFrom(s1, 6, 4) == s5;
    assert Run(infix, 6, 5) == s5;
    UniqueEnd(infix, 6);
  }

  /** With more than two bytes of buffer per input character it always returns true. */
  lemma AmpleReturnsTrue(infix: string, size: nat)
    requires size > 2 * |infix|
    ensures exists k :: Run(infix, size, k) == ReturnedTrue(PostfixText(infix))
  {
    AmpleBuffer(infix, size);
    UniqueEnd(infix, size);
    var k :| Run(infix, size, k).ReturnedTrue?;
    assert Run(infix, size, k) == ReturnedTrue(PostfixText(infix));
  }
}
