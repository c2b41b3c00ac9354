/** The lexer of the lex.hpp snapshot. Against the lisp_lex.hpp lexer it
  * adds words containing '?', numbers with a leading '-', the discarding
  * of every earlier lexeme at an unmatched ')', and an end-of-input check
  * that replaces the whole result by one ERROR lexeme when a '(' is left
  * open. The lexemes are collected in a member vector. */
module Lex {
  import opened Scanning

  /** Characters that continue a word once it has started. */
  predicate IsWordChar(c: char) {
    !IsSkip(c) && (IsAlpha(c) || IsDigit(c) || c == '-' || c == '?')
  }

  /** getChar at position p of s. */
  function CharAt(s: string, p: nat): char {
    if p < |s| then s[p] else EofChar
  }

  /** One round of the lexing loop at position p, with `depth` parentheses
    * open and `acc` collected so far: the next position, depth and
    * collection. Every round moves forward; after a '-' at position 0 the
    * position can pass the end by one. */
  function Step(s: string, p: nat, depth: nat, acc: seq<Lexeme>): (r: (nat, nat, seq<Lexeme>))
    requires p < |s|
    ensures p < r.0 <= |s| + 1
  {
    var c := s[p];
    if IsSkip(c) then (p + 1, depth, acc)
    else if IsDigit(c) then
      var q := RunEnd(s, p, IsNumChar);
      (q, depth, acc + [NumberLexeme(s[p..q])])
    else if IsAlpha(c) then
      var q := RunEnd(s, p, IsWordChar);
      (q, depth, acc + [Lexeme(Symbol, s[p..q])])
    else if c == '-' && p + 1 < |s| && IsDigit(s[p + 1]) then
      var q := RunEnd(s, p + 1, IsNumChar);
      (q, depth, acc + [NegativeLexeme(s[p + 1..q])])
    else if c == '-' then
      // advance then reverse: back on the '-' except at position 0
      var pos := if p >= 1 then p else p + 1;
      (pos + 1, depth, acc + [Lexeme(Symbol, [CharAt(s, pos)])])
    else
      var lx := SpecialLexeme(c, depth);
      (p + 1, SpecialDepth(c, depth), (if lx.token == Error then [] else acc) + [lx])
  }

  /** Lexing from position p to the end: the final collection and depth. */
  function LexFrom(s: string, p: nat, depth: nat, acc: seq<Lexeme>): (seq<Lexeme>, nat)
    requires p <= |s| + 1
    decreases |s| + 1 - p
  {
    if p >= |s| then (acc, depth)
    else
      var (p', depth', acc') := Step(s, p, depth, acc);
      LexFrom(s, p', depth', acc')
  }

  /** The numeric lexeme for a '-' followed by a run of digits and dots. */
  function NegativeLexeme(text: string): (lx: Lexeme)
    ensures lx.strVal == "-" + text
    ensures lx.token == RealNum <==> '.' in text
    ensures lx.token == Number || lx.token == RealNum
  {
    var n := NumberLexeme(text);
    Lexeme(n.token, "-" + n.strVal)
  }

  /** The lexemes of a whole input, after the end-of-input check. */
  function Lexemes(s: string): seq<Lexeme> {
    var (ts, depth) := LexFrom(s, 0, 0, []);
    if depth != 0 then [Lexeme(Error, MismatchedText)] else ts
  }

  // ---------------------------------------------------------------------
  // Shape of the result
  // ---------------------------------------------------------------------

  predicate NoErrors(ts: seq<Lexeme>) {
    forall i :: 0 <= i < |ts| ==> ts[i].token != Error
  }

  /** The lexemes after a leading ERROR, if there is one. */
  function Body(ts: seq<Lexeme>): seq<Lexeme> {
    if |ts| > 0 && ts[0].token == Error then ts[1..] else ts
  }

  /** An optional leading ERROR, then error-free lexemes, well nested from
    * depth zero and ending at depth d. */
  predicate Shaped(ts: seq<Lexeme>, d: int) {
    NoErrors(Body(ts)) && WellNested(Body(ts), 0) && EndDepth(Body(ts), 0) == d
  }

  lemma ShapedSnoc(acc: seq<Lexeme>, d: nat, lx: Lexeme)
    requires Shaped(acc, d) && lx.token != Error && d + Delta(lx) >= 0
    ensures Shaped(acc + [lx], d + Delta(lx))
  {
    if |acc| > 0 && acc[0].token == Error {
      assert (acc + [lx])[1..] == acc[1..] + [lx];
    }
    assert Body(acc + [lx]) == Body(acc) + [lx];
    WellNestedSnoc(Body(acc), lx, 0);
  }

  /** One round keeps the shape of what has been collected. */
  lemma StepShaped(s: string, p: nat, depth: nat, acc: seq<Lexeme>)
    requires p < |s| && Shaped(acc, depth)
    ensures Shaped(Step(s, p, depth, acc).2, Step(s, p, depth, acc).1)
  {
    var c := s[p];
    if IsSkip(c) {
    } else if IsDigit(c) {
      ShapedSnoc(acc, depth, NumberLexeme(s[p..RunEnd(s, p, IsNumChar)]));
    } else if IsAlpha(c) {
      ShapedSnoc(acc, depth, Lexeme(Symbol, s[p..RunEnd(s, p, IsWordChar)]));
    } else if c == '-' && p + 1 < |s| && IsDigit(s[p + 1]) {
      ShapedSnoc(acc, depth, NegativeLexeme(s[p + 1..RunEnd(s, p + 1, IsNumChar)]));
    } else if c == '-' {
      var pos := if p >= 1 then p else p + 1;
      ShapedSnoc(acc, depth, Lexeme(Symbol, [CharAt(s, pos)]));
    } else {
      var lx := SpecialLexeme(c, depth);
      if lx.token == Error {
        assert Body([lx]) == [];
      } else {
        ShapedSnoc(acc, depth, lx);
      }
    }
  }

  /** Lexing keeps the shape of what has been collected. */
  lemma {:induction false} LexFromShaped(s: string, p: nat, depth: nat, acc: seq<Lexeme>)
    requires p <= |s| + 1 && Shaped(acc, depth)
    ensures Shaped(LexFrom(s, p, depth, acc).0, LexFrom(s, p, depth, acc).1)
    decreases |s| + 1 - p
  {
    if p < |s| {
      StepShaped(s, p, depth, acc);
      var (p', depth', acc') := Step(s, p, depth, acc);
      LexFromShaped(s, p', depth', acc');
    }
  }

  /** The result holds ERROR at most at its head, and everything after that
    * head is balanced: every RPAREN closes an earlier LPAREN and none is
    * left open. */
  lemma LexemesShape(s: string)
    ensures forall i :: 0 < i < |Lexemes(s)| ==> Lexemes(s)[i].token != Error
    ensures WellNested(Body(Lexemes(s)), 0) && EndDepth(Body(Lexemes(s)), 0) == 0
  {
    assert Body([]) == [];
    LexFromShaped(s, 0, 0, []);
    var ts := Lexemes(s);
    assert Body([Lexeme(Error, MismatchedText)]) == [];
    forall i | 0 < i < |ts|
      ensures ts[i].token != Error
    {
      if ts[0].token == Error {
        assert ts[i] == Body(ts)[i - 1];
      } else {
        assert ts[i] == Body(ts)[i];
      }
    }
  }

  /** A lexeme whose text holds no skipped character; the ERROR text is
    * the one exception allowed. */
  predicate Blankless(lx: Lexeme) {
    lx.token == Error || forall i :: 0 <= i < |lx.strVal| ==> !IsSkip(lx.strVal[i])
  }

  lemma StepBlankless(s: string, p: nat, depth: nat, acc: seq<Lexeme>)
    requires p < |s| && (p == 0 && s[0] == '-' && 1 < |s| ==> !IsSkip(s[1]))
    requires forall i :: 0 <= i < |acc| ==> Blankless(acc[i])
    ensures forall i :: 0 <= i < |Step(s, p, depth, acc).2| ==> Blankless(Step(s, p, depth, acc).2[i])
  {
    var c := s[p];
    if IsDigit(c) {
      var q := RunEnd(s, p, IsNumChar);
      assert forall i :: 0 <= i < |s[p..q]| ==> IsNumChar(s[p..q][i]);
    } else if IsAlpha(c) {
      var q := RunEnd(s, p, IsWordChar);
      assert forall i :: 0 <= i < |s[p..q]| ==> IsWordChar(s[p..q][i]);
    } else if c == '-' && p + 1 < |s| && IsDigit(s[p + 1]) {
      var q := RunEnd(s, p + 1, IsNumChar);
      var text := "-" + s[p + 1..q];
      forall i | 0 <= i < |text| ensures !IsSkip(text[i]) {
        if i > 0 {
          assert text[i] == s[p + 1..q][i - 1];
        }
      }
    }
  }

  lemma {:induction false} LexFromBlankless(s: string, p: nat, depth: nat, acc: seq<Lexeme>)
    requires p <= |s| + 1 && (p == 0 && 1 < |s| && s[0] == '-' ==> !IsSkip(s[1]))
    requires forall i :: 0 <= i < |acc| ==> Blankless(acc[i])
    ensures forall i :: 0 <= i < |LexFrom(s, p, depth, acc).0| ==> Blankless(LexFrom(s, p, depth, acc).0[i])
    decreases |s| + 1 - p
  {
    if p < |s| {
      StepBlankless(s, p, depth, acc);
      var (p', depth', acc') := Step(s, p, depth, acc);
      LexFromBlankless(s, p', depth', acc');
    }
  }

  /** Blanks only separate lexemes, unless the input starts with a '-'
    * followed by a blank, which is then read as a symbol (see
    * LeadingDashQuirk). */
  lemma LexemesBlankless(s: string)
    requires 1 < |s| && s[0] == '-' ==> !IsSkip(s[1])
    ensures forall i :: 0 <= i < |Lexemes(s)| ==> Blankless(Lexemes(s)[i])
  {
    LexFromBlankless(s, 0, 0, []);
  }

  /** A '-' at position 0 that is not followed by a digit is lost, and the
    * character after it is read as a one-character symbol, even a blank;
    * elsewhere such a '-' is a symbol of its own. */
  lemma LeadingDashQuirk()
    ensures Lexemes("-x") == [Lexeme(Symbol, "x")]
    ensures Lexemes("- 1") == [Lexeme(Symbol, " "), Lexeme(Number, "1")]
    ensures Lexemes("(- x)") ==
      [Lexeme(LParen, "("), Lexeme(Symbol, "-"), Lexeme(Symbol, "x"), Lexeme(RParen, ")")]
  {
    assert CharAt("-x", 1) == 'x';
    assert Step("-x", 0, 0, []).2 == [Lexeme(Symbol, "x")];
    assert Step("-x", 0, 0, []) == (2, 0, [Lexeme(Symbol, "x")]);
    assert CharAt("- 1", 1) == ' ';
    assert Step("- 1", 0, 0, []).2 == [Lexeme(Symbol, " ")];
    assert Step("- 1", 0, 0, []) == (2, 0, [Lexeme(Symbol, " ")]);
    assert RunEnd("- 1", 2, IsNumChar) == 3;
    assert "- 1"[2..3] == "1";
    assert Step("- 1", 2, 0, [Lexeme(Symbol, " ")]).2 == [Lexeme(Symbol, " "), Lexeme(Number, "1")];
    assert Step("- 1", 2, 0, [Lexeme(Symbol, " ")]) == (3, 0, [Lexeme(Symbol, " "), Lexeme(Number, "1")]);
    var s := "(- x)";
    assert Step(s, 0, 0, []).2 == [Lexeme(LParen, "(")];
    assert Step(s, 0, 0, []) == (1, 1, [Lexeme(LParen, "(")]);
    assert CharAt(s, 1) == '-';
    assert Step(s, 1, 1, [Lexeme(LParen, "(")]).2 == [Lexeme(LParen, "("), Lexeme(Symbol, "-")];
    assert Step(s, 1, 1, [Lexeme(LParen, "(")]) == (2, 1, [Lexeme(LParen, "("), Lexeme(Symbol, "-")]);
    assert RunEnd(s, 3, IsWordChar) == 4;
    assert s[3..4] == "x";
    assert Step(s, 3, 1, [Lexeme(LParen, "("), Lexeme(Symbol, "-")]).2 == [Lexeme(LParen, "("), Lexeme(Symbol, "-"), Lexeme(Symbol, "x")];
    assert Step(s, 3, 1, [Lexeme(LParen, "("), Lexeme(Symbol, "-")]) == (4, 1, [Lexeme(LParen, "("), Lexeme(Symbol, "-"), Lexeme(Symbol, "x")]);
  }

  /** A negative number, and the discarding at an unmatched ')'. */
  lemma LexemeExamples()
    ensures Lexemes("(-25)") == [Lexeme(LParen, "("), Lexeme(Number, "-25"), Lexeme(RParen, ")")]
    ensures Lexemes("a)b") == [Lexeme(Error, MismatchedText), Lexeme(Symbol, "b")]
    ensures Lexemes("((") == [Lexeme(Error, MismatchedText)]
  {
    var s := "(-25)";
    assert Step(s, 0, 0, []).2 == [Lexeme(LParen, "(")];
    assert Step(s, 0, 0, []) == (1, 1, [Lexeme(LParen, "(")]);
    assert RunEnd(s, 2, IsNumChar) == 4;
    assert s[2..4] == "25";
    assert "-" + "25" == "-25";
    assert Step(s, 1, 1, [Lexeme(LParen, "(")]).2 == [Lexeme(LParen, "("), Lexeme(Number, "-25")];
    assert Step(s, 1, 1, [Lexeme(LParen, "(")]) == (4, 1, [Lexeme(LParen, "("), Lexeme(Number, "-25")]);
    var t := "a)b";
    assert RunEnd(t, 0, IsWordChar) == 1;
    assert t[0..1] == "a";
    assert Step(t, 0, 0, []).2 == [Lexeme(Symbol, "a")];
    assert Step(t, 0, 0, []) == (1, 0, [Lexeme(Symbol, "a")]);
    assert Step(t, 1, 0, [Lexeme(Symbol, "a")]).2 == [Lexeme(Error, MismatchedText)];
    assert Step(t, 1, 0, [Lexeme(Symbol, "a")]) == (2, 0, [Lexeme(Error, MismatchedText)]);
    assert RunEnd(t, 2, IsWordChar) == 3;
    assert t[2..3] == "b";
    assert Step(t, 2, 0, [Lexeme(Error, MismatchedText)]).2 == [Lexeme(Error, MismatchedText), Lexeme(Symbol, "b")];
    assert Step(t, 2, 0, [Lexeme(Error, MismatchedText)]) == (3, 0, [Lexeme(Error, MismatchedText), Lexeme(Symbol, "b")]);
    assert Step("((", 0, 0, []).2 == [Lexeme(LParen, "(")];
    assert Step("((", 0, 0, []) == (1, 1, [Lexeme(LParen, "(")]);
    assert Step("((", 1, 1, [Lexeme(LParen, "(")]).2 == [Lexeme(LParen, "("), Lexeme(LParen, "(")];
    assert Step("((", 1, 1, [Lexeme(LParen, "(")]) == (2, 2, [Lexeme(LParen, "("), Lexeme(LParen, "(")]);
  }

  // ---------------------------------------------------------------------
  // The lexer
  // ---------------------------------------------------------------------

  class Lexer {
    const buffer: Buffer
    const parStack: Stack<char>
    var tokens: seq<Lexeme>

    constructor ()
      ensures fresh(buffer) && fresh(parStack) && tokens == []
    {
      buffer := new Buffer();
      parStack := new Stack<char>();
      tokens := [];
    }

    /** Reads the maximal run of digits and dots under the cursor. */
    method ExtractNumber() returns (lx: Lexeme)
      modifies buffer
      ensures buffer.buffer == old(buffer.buffer)
      ensures old(buffer.inPos) <= |buffer.buffer| ==>
        buffer.inPos == RunEnd(buffer.buffer, old(buffer.inPos), IsNumChar) &&
        lx == NumberLexeme(buffer.buffer[old(buffer.inPos)..buffer.inPos])
    {
      var isReal := false;
      var number := "";
      ghost var start := buffer.inPos;
      while IsNumChar(buffer.GetChar())
        invariant buffer.buffer == old(buffer.buffer)
        invariant start <= |buffer.buffer| ==>
          start <= buffer.inPos <= RunEnd(buffer.buffer, start, IsNumChar) &&
          number == buffer.buffer[start..buffer.inPos] && (isReal <==> '.' in number)
        invariant start > |buffer.buffer| ==> buffer.inPos == start
        decreases |buffer.buffer| - buffer.inPos
      {
        var c := buffer.GetChar();
        RunContinues(buffer.buffer, start, buffer.inPos, IsNumChar);
        SliceSnoc(buffer.buffer, start, buffer.inPos);
        DotSnoc(number, c);
        number := number + [c];
        if c == '.' {
          isReal := true;
        }
        var _ := buffer.Advance();
      }
      if start <= |buffer.buffer| {
        RunStops(buffer.buffer, start, buffer.inPos, IsNumChar);
      }
      lx := Lexeme(if isReal then RealNum else Number, number);
    }

    /** Reads the maximal run of letters, digits, '-' and '?' under the
      * cursor. */
    method ExtractWord() returns (lx: Lexeme)
      modifies buffer
      ensures buffer.buffer == old(buffer.buffer)
      ensures old(buffer.inPos) <= |buffer.buffer| ==>
        buffer.inPos == RunEnd(buffer.buffer, old(buffer.inPos), IsWordChar) &&
        lx == Lexeme(Symbol, buffer.buffer[old(buffer.inPos)..buffer.inPos])
    {
      var word := "";
      ghost var start := buffer.inPos;
      while IsWordChar(buffer.GetChar())
        invariant buffer.buffer == old(buffer.buffer)
        invariant start <= |buffer.buffer| ==>
          start <= buffer.inPos <= RunEnd(buffer.buffer, start, IsWordChar) &&
          word == buffer.buffer[start..buffer.inPos]
        invariant start > |buffer.buffer| ==> buffer.inPos == start
        decreases |buffer.buffer| - buffer.inPos
      {
        var c := buffer.GetChar();
        RunContinues(buffer.buffer, start, buffer.inPos, IsWordChar);
        SliceSnoc(buffer.buffer, start, buffer.inPos);
        word := word + [c];
        var _ := buffer.Advance();
      }
      if start <= |buffer.buffer| {
        RunStops(buffer.buffer, start, buffer.inPos, IsWordChar);
      }
      lx := Lexeme(Symbol, word);
    }

    /** The lexeme for a character that starts neither a number nor a word.
      * A '-' before a digit reads a negative number and leaves the cursor
      * after it; any other '-' is stepped over and back with reverse. An
      * unmatched ')' discards the lexemes collected so far. */
    method CheckSpecials() returns (lx: Lexeme)
      requires buffer.inPos < |buffer.buffer|
      requires forall i :: 0 <= i < |parStack.items| ==> parStack.items[i] == '('
      modifies this, buffer, parStack
      ensures buffer.buffer == old(buffer.buffer)
      ensures forall i :: 0 <= i < |parStack.items| ==> parStack.items[i] == '('
      ensures var s, p, c := buffer.buffer, old(buffer.inPos), buffer.buffer[old(buffer.inPos)];
        if c == '-' && p + 1 < |s| && IsDigit(s[p + 1]) then
          buffer.inPos == RunEnd(s, p + 1, IsNumChar) && lx == NegativeLexeme(s[p + 1..buffer.inPos]) &&
          parStack.items == old(parStack.items) && tokens == old(tokens)
        else if c == '-' then
          buffer.inPos == (if p >= 1 then p else p + 1) && lx == Lexeme(Symbol, [CharAt(s, buffer.inPos)]) &&
          parStack.items == old(parStack.items) && tokens == old(tokens)
        else
          buffer.inPos == p && lx == SpecialLexeme(c, old(|parStack.items|)) &&
          |parStack.items| == SpecialDepth(c, old(|parStack.items|)) &&
          tokens == if lx.token == Error then [] else old(tokens)
    {
      var c := buffer.GetChar();
      if c == '(' {
        parStack.Push(c);
        return Lexeme(LParen, "(");
      } else if c == ')' {
        if parStack.Empty() || parStack.Top() != '(' {
          tokens := [];
          return Lexeme(Error, MismatchedText);
        } else {
          var _ := parStack.Pop();
        }
        return Lexeme(RParen, ")");
      } else if c == '-' {
        var _ := buffer.Advance();
        if IsDigit(buffer.GetChar()) {
          var number := ExtractNumber();
          return Lexeme(number.token, "-" + number.strVal);
        }
        var _ := buffer.Reverse();
      }
      return Lexeme(Symbol, [buffer.GetChar()]);
    }

    /** One round of the loop of lex: skips a blank or appends the lexeme
      * that starts under the cursor. */
    method LexStep()
      requires buffer.inPos < |buffer.buffer|
      requires forall i :: 0 <= i < |parStack.items| ==> parStack.items[i] == '('
      modifies this, buffer, parStack
      ensures buffer.buffer == old(buffer.buffer)
      ensures forall i :: 0 <= i < |parStack.items| ==> parStack.items[i] == '('
      ensures (buffer.inPos, |parStack.items|, tokens) ==
        Step(buffer.buffer, old(buffer.inPos), old(|parStack.items|), old(tokens))
    {
      var c := buffer.GetChar();
      if IsSkip(c) {
        var _ := buffer.Advance();
      } else if IsDigit(c) {
        var lx := ExtractNumber();
        tokens := tokens + [lx];
      } else if IsAlpha(c) {
        var lx := ExtractWord();
        tokens := tokens + [lx];
      } else {
        LexSpecial();
      }
    }

    /** The round of lex on a character that starts neither a number nor a
      * word. */
    method LexSpecial()
      requires buffer.inPos < |buffer.buffer|
      requires var c := buffer.buffer[buffer.inPos]; !IsSkip(c) && !IsDigit(c) && !IsAlpha(c)
      requires forall i :: 0 <= i < |parStack.items| ==> parStack.items[i] == '('
      modifies this, buffer, parStack
      ensures buffer.buffer == old(buffer.buffer)
      ensures forall i :: 0 <= i < |parStack.items| ==> parStack.items[i] == '('
      ensures (buffer.inPos, |parStack.items|, tokens) ==
        Step(buffer.buffer, old(buffer.inPos), old(|parStack.items|), old(tokens))
    {
      var lx := CheckSpecials();
      tokens := tokens + [lx];
      if lx.token != Number && lx.token != RealNum {
        var _ := buffer.Advance();
      }
    }

    /** Lexes a whole input into the member vector and returns a copy. */
    method Lex(input: string) returns (result: seq<Lexeme>)
      modifies this, buffer, parStack
      ensures result == tokens == Lexemes(input)
    {
      tokens := [];
      parStack.Clear();
      buffer.Init(input);
      while !buffer.IsEOF()
        invariant buffer.buffer == input && buffer.inPos <= |input| + 1
        invariant forall i :: 0 <= i < |parStack.items| ==> parStack.items[i] == '('
        invariant LexFrom(input, buffer.inPos, |parStack.items|, tokens) == LexFrom(input, 0, 0, [])
        decreases |input| + 1 - buffer.inPos
      {
        LexStep();
      }
      if !parStack.Empty() {
        tokens := [Lexeme(Error, MismatchedText)];
      }
      result := tokens;
    }
  }
}
