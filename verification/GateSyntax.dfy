/** Which forms the gate compiler accepts: heads, numbers and kinds of arguments
    (src/expr/compiler.rs:17-60, 111-270). */
module GateSyntax {
  import opened Common
  import opened Parser
  import opened Gate
  import opened GateCompiler

  function Call(head: string, args: seq<RawSexpr>): RawSexpr {
    List([Sym(head)] + args)
  }

  // ----- numbers and names -----

  predicate Digits(text: string) {
    text != "" && forall c <- text :: '0' <= c <= '9'
  }

  /** A decimal numeral, with leading zeros and one leading plus allowed. */
  predicate IsNumeral(text: string) {
    Digits(text) || (text != "" && text[0] == '+' && Digits(text[1..]))
  }

  /** The text is read as n wherever n fits and as nothing wherever it does not. */
  ghost predicate ReadsAs(text: string, n: nat) {
    forall max: nat :: ParseUnsigned(text, max) == if n <= max then Some(n) else None
  }

  lemma DigitsAgree(text: string)
    ensures Digits(text) <==> text != "" && AllDigits(text)
    ensures Digits(text) ==> text[0] != '+'
  {
    if text != "" && AllDigits(text) {
      forall c <- text ensures '0' <= c <= '9' {
        var i :| 0 <= i < |text| && text[i] == c;
        assert IsDigit(text[i]);
      }
    }
    if Digits(text) {
      forall i | 0 <= i < |text| ensures IsDigit(text[i]) {
        assert text[i] in text;
      }
      assert text[0] in text;
    }
  }

  lemma DigitsRead(text: string)
    requires Digits(text)
    ensures AllDigits(text)
    ensures ReadsAs(text, DigitsValue(text))
    ensures ReadsAs("+" + text, DigitsValue(text))
  {
    DigitsAgree(text);
    assert ("+" + text)[1..] == text;
  }

  lemma OnlyDigitsRead(text: string, max: nat)
    requires ParseUnsigned(text, max).Some?
    ensures IsNumeral(text)
  {
    DigitsAgree(text);
    if |text| > 1 {
      DigitsAgree(text[1..]);
    }
  }

  /** Numerals, and only they, are read as a number. */
  lemma NumeralsOnly(text: string)
    ensures IsNumeral(text) <==> exists n: nat :: ReadsAs(text, n)
    ensures !IsNumeral(text) <==> forall max: nat :: ParseUnsigned(text, max).None?
  {
    if IsNumeral(text) {
      var digits := if Digits(text) then text else text[1..];
      assert digits != text ==> text == "+" + digits;
      DigitsRead(digits);
      assert ReadsAs(text, DigitsValue(digits)) && ParseUnsigned(text, DigitsValue(digits)).Some?;
    } else {
      forall max: nat ensures ParseUnsigned(text, max).None? {
        if ParseUnsigned(text, max).Some? {
          OnlyDigitsRead(text, max);
        }
      }
      forall n: nat ensures !ReadsAs(text, n) {
        assert ParseUnsigned(text, n).None?;
      }
    }
  }

  /** The number read, digit by digit: a last digit d makes 10 n + d, and a plus in front changes nothing. */
  lemma NumeralValue(text: string, n: nat, d: nat)
    requires d <= 9
    ensures ReadsAs(['0' + d as char], d)
    ensures Digits(text) && ReadsAs(text, n) ==> ReadsAs(text + ['0' + d as char], 10 * n + d)
    ensures Digits(text) && ReadsAs(text, n) ==> ReadsAs("+" + text, n)
  {
    var last := ['0' + d as char];
    assert last[..0] == [];
    DigitsRead(last);
    assert DigitsValue(last[..0]) == 0;
    if Digits(text) && ReadsAs(text, n) {
      DigitsRead(text);
      assert ParseUnsigned(text, n) == Some(n);
      assert n == DigitsValue(text);
      DigitsRead(text + last);
      assert (text + last)[..|text|] == text;
    }
  }

  /** A word for a puzzle or round is its number, if it is a numeral that fits 32 bits, and else its slug. */
  predicate IsIdOf(text: string, id: nat) {
    ParseUnsigned(text, 0xFFFF_FFFF) == Some(id)
  }

  lemma WordMeaning(text: string, id: nat)
    ensures ParsePuzzleRef(Sym(text)) == Success(PuzzleId(id)) <==> IsIdOf(text, id)
    ensures (forall n: nat :: !IsIdOf(text, n)) <==> ParsePuzzleRef(Sym(text)) == Success(PuzzleSlug(text))
    ensures ParseRoundRef(Sym(text)) == Success(RoundId(id)) <==> IsIdOf(text, id)
    ensures (forall n: nat :: !IsIdOf(text, n)) <==> ParseRoundRef(Sym(text)) == Success(RoundSlug(text))
  {
    assert ParseUnsigned(text, U32_MAX).Some? ==> IsIdOf(text, ParseUnsigned(text, U32_MAX).value);
  }

  // ----- sets and values -----

  predicate AllWords(args: seq<RawSexpr>) {
    forall i :: 0 <= i < |args| ==> args[i].Sym?
  }

  lemma AllWordsFront(args: seq<RawSexpr>)
    requires args != []
    ensures AllWords(args) <==> args[0].Sym? && AllWords(args[1..])
  {
    if args[0].Sym? && AllWords(args[1..]) {
      forall i | 0 <= i < |args| ensures args[i].Sym? {
        if i > 0 { assert args[1..][i - 1].Sym?; }
      }
    }
  }

  lemma {:induction false} WordsParse(args: seq<RawSexpr>)
    ensures ParsePuzzleRefs(args).Success? <==> AllWords(args)
  {
    if args != [] {
      WordsParse(args[1..]);
      AllWordsFront(args);
    }
  }

  lemma {:induction false} WordParsed(args: seq<RawSexpr>, i: nat)
    requires ParsePuzzleRefs(args).Success? && i < |args|
    ensures |ParsePuzzleRefs(args).value| == |args|
    ensures ParsePuzzleRef(args[i]) == Success(ParsePuzzleRefs(args).value[i])
  {
    if |args| > 1 {
      WordParsed(args[1..], if i > 0 then i - 1 else 0);
    }
  }

  predicate IsNumber(e: RawSexpr, max: nat) {
    e.Sym? && ParseUnsigned(e.text, max).Some?
  }

  function NumberOf(e: RawSexpr, max: nat): nat
    requires IsNumber(e, max)
  {
    ParseUnsigned(e.text, max).value
  }

  /** Any number of words. */
  lemma PuzzlesForm(args: seq<RawSexpr>)
    ensures CompileSet(Call("puzzles", args)).Success? <==> AllWords(args)
    ensures AllWords(args) ==> CompileSet(Call("puzzles", args)) == Success(Puzzles(ParsePuzzleRefs(args).value))
  {
    WordsParse(args);
    assert ([Sym("puzzles")] + args)[1..] == args;
  }

  /** Two numerals that fit 32 bits. */
  lemma RangeForm(args: seq<RawSexpr>)
    ensures CompileSet(Call("puzzle-range", args)).Success? <==>
      |args| == 2 && IsNumber(args[0], 0xFFFF_FFFF) && IsNumber(args[1], 0xFFFF_FFFF)
    ensures |args| == 2 && IsNumber(args[0], 0xFFFF_FFFF) && IsNumber(args[1], 0xFFFF_FFFF) ==>
      CompileSet(Call("puzzle-range", args)) ==
        Success(PuzzleRange(NumberOf(args[0], 0xFFFF_FFFF), NumberOf(args[1], 0xFFFF_FFFF)))
  {
  }

  /** One word. */
  lemma RoundForm(args: seq<RawSexpr>)
    ensures CompileSet(Call("round", args)).Success? <==> |args| == 1 && args[0].Sym?
    ensures |args| == 1 && args[0].Sym? ==>
      CompileSet(Call("round", args)) == Success(Round(ParseRoundRef(args[0]).value))
  {
  }

  /** A numeral that fits 64 bits, or a count of one set. */
  lemma ValueForms(text: string, args: seq<RawSexpr>)
    ensures CompileValue(Sym(text)).Success? <==> IsNumber(Sym(text), 0xFFFF_FFFF_FFFF_FFFF)
    ensures IsNumber(Sym(text), 0xFFFF_FFFF_FFFF_FFFF) ==>
      CompileValue(Sym(text)) == Success(Number(NumberOf(Sym(text), 0xFFFF_FFFF_FFFF_FFFF)))
    ensures CompileValue(Call("solved-count", args)).Success? <==> |args| == 1 && CompileSet(args[0]).Success?
    ensures |args| == 1 && CompileSet(args[0]).Success? ==>
      CompileValue(Call("solved-count", args)) == Success(SolvedCount(CompileSet(args[0]).value))
  {
  }

  /** There are no other sets and no other values. */
  lemma NoOtherSets(text: string, args: seq<RawSexpr>, inner: seq<RawSexpr>)
    ensures CompileSet(Sym(text)) == Failure(ExpectedSetExpr)
    ensures text != "puzzles" && text != "puzzle-range" && text != "round" ==>
      CompileSet(Call(text, args)) == Failure(ExpectedSetExpr)
    ensures text != "solved-count" ==> CompileValue(Call(text, args)) == Failure(ExpectedValueExpr)
    ensures CompileSet(List([])).Failure? && CompileValue(List([])).Failure?
    ensures CompileSet(List([List(inner)] + args)) == Failure(ExpectedAtom)
    ensures CompileValue(List([List(inner)] + args)) == Failure(ExpectedAtom)
  {
  }

  // ----- gates -----

  lemma ConstantForms(args: seq<RawSexpr>)
    ensures Compile(Call("true", args)).Success? <==> args == []
    ensures Compile(Call("false", args)).Success? <==> args == []
    ensures Compile(Call("game-started", args)).Success? <==> args == []
    ensures Compile(Call("true", [])) == Success(True)
    ensures Compile(Call("false", [])) == Success(False)
    ensures Compile(Call("game-started", [])) == Success(GameStarted)
  {
  }

  lemma SolvedForm(args: seq<RawSexpr>)
    ensures Compile(Call("solved", args)).Success? <==> |args| == 1 && args[0].Sym?
    ensures |args| == 1 && args[0].Sym? ==>
      Compile(Call("solved", args)) == Success(Solved(ParsePuzzleRef(args[0]).value))
  {
  }

  lemma AllSolvedForm(args: seq<RawSexpr>)
    ensures Compile(Call("all-solved", args)).Success? <==> |args| == 1 && CompileSet(args[0]).Success?
    ensures |args| == 1 && CompileSet(args[0]).Success? ==>
      Compile(Call("all-solved", args)) == Success(AllSolved(CompileSet(args[0]).value))
  {
  }

  lemma AnySolvedForm(args: seq<RawSexpr>)
    ensures Compile(Call("any-solved", args)).Success? <==> |args| == 1 && CompileSet(args[0]).Success?
    ensures |args| == 1 && CompileSet(args[0]).Success? ==>
      Compile(Call("any-solved", args)) == Success(AnySolved(CompileSet(args[0]).value))
  {
  }

  /** A letter, then letters, digits, underscores and hyphens; at most 64 characters. */
  predicate IsTriggerKey(key: string) {
    && 1 <= |key| <= 64
    && ('a' <= key[0] <= 'z' || 'A' <= key[0] <= 'Z')
    && forall c <- key :: 'a' <= c <= 'z' || 'A' <= c <= 'Z' || '0' <= c <= '9' || c == '_' || c == '-'
  }

  lemma TriggeredForm(args: seq<RawSexpr>)
    ensures Compile(Call("triggered", args)).Success? <==>
      |args| == 2 && args[0].Sym? && args[1].Sym? && IsTriggerKey(args[1].text)
    ensures |args| == 2 && args[0].Sym? && args[1].Sym? && IsTriggerKey(args[1].text) ==>
      Compile(Call("triggered", args)) == Success(Triggered(ParsePuzzleRef(args[0]).value, args[1].text))
  {
    if |args| == 2 && args[1].Sym? { KeyIsKey(args[1].text); }
  }

  lemma KeyIsKey(key: string)
    ensures ValidTriggerKey(key) <==> IsTriggerKey(key)
  {
    if ValidTriggerKey(key) {
      forall c <- key
        ensures 'a' <= c <= 'z' || 'A' <= c <= 'Z' || '0' <= c <= '9' || c == '_' || c == '-'
      {
        var i :| 0 <= i < |key| && key[i] == c;
      }
    }
    if IsTriggerKey(key) {
      forall i | 0 < i < |key|
        ensures IsLetter(key[i]) || IsDigit(key[i]) || key[i] == '_' || key[i] == '-'
      {
        assert key[i] in key;
      }
    }
  }

  /** Two values, and the comparison named by the head. */
  lemma ComparisonForm(args: seq<RawSexpr>, head: string, op: CmpOp)
    requires (head, op) in {("gt", Gt), ("ge", Ge), ("lt", Lt), ("le", Le), ("eq", Eq), ("ne", Ne)}
    ensures Compile(Call(head, args)).Success? <==>
      |args| == 2 && CompileValue(args[0]).Success? && CompileValue(args[1]).Success?
    ensures |args| == 2 && CompileValue(args[0]).Success? && CompileValue(args[1]).Success? ==>
      Compile(Call(head, args)) == Success(Cmp(op, CompileValue(args[0]).value, CompileValue(args[1]).value))
  {
    ComparisonName(head, op);
    ComparisonHead(args, head);
    ComparisonLeaf(args, head, op);
  }

  lemma ComparisonName(head: string, op: CmpOp)
    requires (head, op) in {("gt", Gt), ("ge", Ge), ("lt", Lt), ("le", Le), ("eq", Eq), ("ne", Ne)}
    ensures |head| == 2 && head != "or" && OpToCmp(head) == Some(op)
  {
  }

  lemma ComparisonLeaf(args: seq<RawSexpr>, head: string, op: CmpOp)
    requires |head| == 2 && OpToCmp(head) == Some(op)
    ensures CompileLeaf(head, [Sym(head)] + args) ==
      if |args| != 2 then Failure(BadForm("comparison expects 2 args"))
      else if CompileValue(args[0]).Failure? then Failure(CompileValue(args[0]).error)
      else if CompileValue(args[1]).Failure? then Failure(CompileValue(args[1]).error)
      else Success(Cmp(op, CompileValue(args[0]).value, CompileValue(args[1]).value))
  {
  }

  lemma ComparisonHead(args: seq<RawSexpr>, head: string)
    requires |head| == 2 && head != "or"
    ensures Compile(Call(head, args)) == CompileLeaf(head, [Sym(head)] + args)
  {
  }

  /** Connectives take any number of gates, a negation one. */
  lemma ConnectiveForms(args: seq<RawSexpr>)
    ensures Compile(Call("and", args)).Success? <==> forall e <- args :: Compile(e).Success?
    ensures Compile(Call("or", args)).Success? <==> forall e <- args :: Compile(e).Success?
    ensures Compile(Call("not", args)).Success? <==> |args| == 1 && Compile(args[0]).Success?
  {
    assert ([Sym("and")] + args)[1..] == args && ([Sym("or")] + args)[1..] == args;
    AllCompile(args);
  }

  lemma {:induction false} AllCompile(es: seq<RawSexpr>)
    ensures CompileAll(es).Success? <==> forall e <- es :: Compile(e).Success?
  {
    if es != [] {
      AllCompile(es[1..]);
      assert es == [es[0]] + es[1..] && es[0] in es;
    }
  }

  const HEADS: set<string> := {
    "true", "false", "and", "or", "not", "solved", "all-solved", "any-solved", "game-started", "triggered",
    "gt", "ge", "lt", "le", "eq", "ne"
  }

  /** Anything else is an error: a bare word, an empty list, a list in front, an unknown head. */
  lemma OtherForms(text: string, args: seq<RawSexpr>, inner: seq<RawSexpr>)
    ensures Compile(Sym(text)).Failure? && Compile(List([])).Failure?
    ensures Compile(List([List(inner)] + args)) == Failure(ExpectedAtom)
    ensures text !in HEADS ==> Compile(Call(text, args)) == Failure(UnknownOp(text))
  {
    if text !in HEADS { UnknownHead(text, args); }
  }

  lemma UnknownHead(text: string, args: seq<RawSexpr>)
    requires text !in HEADS
    ensures Compile(Call(text, args)) == Failure(UnknownOp(text))
  {
    assert text != "gt" && text != "ge" && text != "lt" && text != "le" && text != "eq" && text != "ne";
    assert OpToCmp(text).None?;
  }
}
