/** `check_brackets` of stack.c against the grammar of balanced brackets. */
module Brackets {
  import opened ArrayStacks

  /** A balanced text: nothing, a character that is no bracket and then a balanced text, or a pair of brackets around a
      balanced text and then another one. */
  datatype Nest =
    | Nothing
    | Other(c: char, after: Nest)
    | Round(inner: Nest, after: Nest)
    | Square(inner: Nest, after: Nest)
    | Curly(inner: Nest, after: Nest)

  predicate Proper(d: Nest) {
    match d
    case Nothing => true
    case Other(c, after) => c !in "()[]{}" && Proper(after)
    case Round(inner, after) => Proper(inner) && Proper(after)
    case Square(inner, after) => Proper(inner) && Proper(after)
    case Curly(inner, after) => Proper(inner) && Proper(after)
  }

  function Flat(d: Nest): string {
    match d
    case Nothing => ""
    case Other(c, after) => [c] + Flat(after)
    case Round(inner, after) => "(" + Flat(inner) + ")" + Flat(after)
    case Square(inner, after) => "[" + Flat(inner) + "]" + Flat(after)
    case Curly(inner, after) => "{" + Flat(inner) + "}" + Flat(after)
  }

  ghost predicate Balanced(s: string) {
    exists d :: Proper(d) && Flat(d) == s
  }

  // ----- The scan

  predicate IsOpen(c: char) { c == '(' || c == '[' || c == '{' }

  predicate IsClose(c: char) { c == ')' || c == ']' || c == '}' }

  function CloseOf(c: char): char {
    if c == '(' then ')' else if c == '[' then ']' else '}'
  }

  /** The pair that opens with o. */
  function Pair(o: char, inner: Nest, after: Nest): Nest {
    if o == '(' then Round(inner, after) else if o == '[' then Square(inner, after) else Curly(inner, after)
  }

  lemma {:induction false} PairIs(o: char, inner: Nest, after: Nest)
    requires IsOpen(o)
    ensures Flat(Pair(o, inner, after)) == [o] + Flat(inner) + [CloseOf(o)] + Flat(after)
    ensures Proper(Pair(o, inner, after)) <==> Proper(inner) && Proper(after)
  {
  }

  lemma NoBracket(c: char)
    ensures c !in "()[]{}" <==> !IsOpen(c) && !IsClose(c)
  {
  }

  /** The scan with a stack of open brackets, top last. */
  predicate Scan(s: string, stack: string)
    decreases |s|
  {
    if s == [] then stack == []
    else if IsOpen(s[0]) then Scan(s[1..], stack + [s[0]])
    else if IsClose(s[0]) then
      stack != [] && IsOpen(stack[|stack| - 1]) && CloseOf(stack[|stack| - 1]) == s[0] && Scan(s[1..], stack[..|stack| - 1])
    else Scan(s[1..], stack)
  }

  /** A bracket and its partner pass over the stack. */
  lemma ScanPartner(o: char, rest: string, stack: string)
    requires IsOpen(o)
    ensures Scan([CloseOf(o)] + rest, stack + [o]) == Scan(rest, stack)
  {
    assert ([CloseOf(o)] + rest)[1..] == rest && (stack + [o])[..|stack|] == stack;
  }

  lemma ScanFirst(c: char, rest: string, stack: string)
    ensures IsOpen(c) ==> Scan([c] + rest, stack) == Scan(rest, stack + [c])
    ensures !IsOpen(c) && !IsClose(c) ==> Scan([c] + rest, stack) == Scan(rest, stack)
  {
    assert ([c] + rest)[1..] == rest;
  }

  lemma {:induction false} ScanFlat(d: Nest, rest: string, stack: string)
    requires Proper(d)
    ensures Scan(Flat(d) + rest, stack) == Scan(rest, stack)
    decreases d, 1
  {
    hide Scan, CloseOf;
    match d
    case Nothing => assert Flat(d) + rest == rest;
    case Other(c, after) =>
      NoBracket(c);
      hide IsOpen, IsClose;
      assert Flat(d) + rest == [c] + (Flat(after) + rest);
      ScanFirst(c, Flat(after) + rest, stack);
      ScanFlat(after, rest, stack);
    case Round(inner, after) => ScanPair('(', inner, after, rest, stack);
    case Square(inner, after) => ScanPair('[', inner, after, rest, stack);
    case Curly(inner, after) => ScanPair('{', inner, after, rest, stack);
  }

  lemma Regroup(a: string, b: string, c: string, d: string, e: string)
    ensures a + b + c + d + e == a + (b + (c + (d + e)))
  {
  }

  lemma {:induction false} ScanPair(o: char, inner: Nest, after: Nest, rest: string, stack: string)
    requires IsOpen(o) && Proper(inner) && Proper(after)
    ensures Scan(Flat(Pair(o, inner, after)) + rest, stack) == Scan(rest, stack)
    decreases Pair(o, inner, after), 0
  {
    PairIs(o, inner, after);
    hide Scan, IsOpen, IsClose, CloseOf, Flat, Proper;
    var tail := [CloseOf(o)] + (Flat(after) + rest);
    Regroup([o], Flat(inner), [CloseOf(o)], Flat(after), rest);
    ScanFirst(o, Flat(inner) + tail, stack);
    ScanFlat(inner, tail, stack + [o]);
    ScanPartner(o, Flat(after) + rest, stack);
    ScanFlat(after, rest, stack);
  }

  /** What an accepting scan has read: a balanced text, then the closing bracket of the top of the
      stack and so on down. */
  ghost predicate Closes(s: string, stack: string, d: Nest, rest: string) {
    && Proper(d)
    && if stack == [] then s == Flat(d)
       else s == Flat(d) + [CloseOf(stack[|stack| - 1])] + rest && Scan(rest, stack[..|stack| - 1])
  }

  lemma ClosesPair(s: string, stack: string, inner: Nest, rest1: string, after: Nest, rest: string)
    requires s != [] && IsOpen(s[0])
    requires Closes(s[1..], stack + [s[0]], inner, rest1) && Closes(rest1, stack, after, rest)
    ensures Closes(s, stack, Pair(s[0], inner, after), rest)
  {
    PairIs(s[0], inner, after);
    hide Scan, CloseOf, IsOpen, Flat, Pair;
    var o := [s[0]];
    var text := Flat(after);
    InPieces(o, Flat(inner), [CloseOf(s[0])], text, if stack == [] then [] else [CloseOf(stack[|stack| - 1])],
      if stack == [] then [] else rest);
    assert s == o + s[1..];
    assert stack == [] ==> text + [] + [] == text && Flat(Pair(s[0], inner, after)) + [] + [] == Flat(Pair(s[0], inner, after));
    ShortStack(stack, s[0]);
  }

  lemma ShortStack(stack: string, o: char)
    ensures (stack + [o])[..|stack|] == stack
  {
  }

  lemma InPieces(o: string, i: string, c: string, a: string, t: string, r: string)
    ensures o + (i + c + (a + t + r)) == (o + i + c + a) + t + r
  {
  }

  lemma ClosesOther(s: string, stack: string, after: Nest, rest: string)
    requires s != [] && !IsOpen(s[0]) && !IsClose(s[0]) && Closes(s[1..], stack, after, rest)
    ensures Closes(s, stack, Other(s[0], after), rest)
  {
    NoBracket(s[0]);
    hide Scan, CloseOf, IsOpen, IsClose;
    assert s == [s[0]] + s[1..];
  }

  lemma ClosesTop(s: string, stack: string)
    requires s != [] && Scan(s, stack) && !IsOpen(s[0]) && IsClose(s[0])
    ensures Closes(s, stack, Nothing, s[1..])
  {
    hide IsOpen, IsClose, CloseOf;
    assert s == [] + [s[0]] + s[1..];
  }

  lemma ClosesInner(s: string, stack: string, o: char, d: Nest, rest: string)
    requires Closes(s, stack + [o], d, rest)
    ensures Scan(rest, stack) && |rest| < |s|
  {
    hide Scan;
    assert (stack + [o])[..|stack|] == stack;
  }

  lemma ScanStep(s: string, stack: string)
    requires s != [] && Scan(s, stack)
    ensures IsOpen(s[0]) ==> Scan(s[1..], stack + [s[0]])
    ensures !IsOpen(s[0]) && !IsClose(s[0]) ==> Scan(s[1..], stack)
  {
  }

  lemma {:induction false} ScanCloses(s: string, stack: string) returns (d: Nest, rest: string)
    requires Scan(s, stack) && forall i :: 0 <= i < |stack| ==> IsOpen(stack[i])
    ensures Closes(s, stack, d, rest) && |rest| <= |s|
    decreases |s|
  {
    if s == [] {
      d, rest := Nothing, [];
    } else {
      hide *;
      ScanStep(s, stack);
      if IsOpen(s[0]) {
        var inner, rest1 := ScanCloses(s[1..], stack + [s[0]]);
        ClosesInner(s[1..], stack, s[0], inner, rest1);
        var after, rest2 := ScanCloses(rest1, stack);
        d, rest := Pair(s[0], inner, after), rest2;
        ClosesPair(s, stack, inner, rest1, after, rest);
      } else if IsClose(s[0]) {
        d, rest := Nothing, s[1..];
        ClosesTop(s, stack);
      } else {
        var after;
        after, rest := ScanCloses(s[1..], stack);
        d := Other(s[0], after);
        ClosesOther(s, stack, after, rest);
      }
    }
  }

  lemma ScanIffBalanced(s: string)
    ensures Scan(s, []) <==> Balanced(s)
  {
    if Scan(s, []) {
      var d, rest := ScanCloses(s, []);
    }
    if Balanced(s) {
      var d :| Proper(d) && Flat(d) == s;
      ScanFlat(d, [], []);
      assert Flat(d) + [] == s;
    }
  }

  /** `check_brackets`. */
  method CheckBrackets(s: string) returns (ok: bool)
    ensures ok <==> Balanced(s)
  {
    var st := new ArrayStack<char>(64, '\0');
    ok := true;
    var i := 0;
    assert s[0..] == s;
    while i < |s| && ok
      invariant 0 <= i <= |s| && st.Valid() && fresh(st) && fresh(st.data)
      invariant forall k :: 0 <= k < |st.Contents()| ==> IsOpen(st.Contents()[k])
      invariant Scan(s, []) == (ok && Scan(s[i..], st.Contents()))
    {
      assert s[i..][1..] == s[i + 1..];
      if IsOpen(s[i]) {
        st.Push(s[i]);
      } else if IsClose(s[i]) {
        if st.IsEmpty() {
          ok := false;
          break;
        }
        ghost var before := st.Contents();
        var top := st.Pop();
        assert before[..|before| - 1] == st.Contents() && before[|before| - 1] == top;
        if (s[i] == ')' && top != '(') || (s[i] == ']' && top != '[') || (s[i] == '}' && top != '{') {
          ok := false;
        }
      }
      i := i + 1;
    }
    if !st.IsEmpty() { ok := false; }
    ScanIffBalanced(s);
  }
}
