/** The lexer of the lisp_lex.hpp snapshot: a cursor over the input and a
  * stack of open parentheses, producing LPAREN, RPAREN, SYMBOL, NUMBER,
  * REALNUM and ERROR lexemes. An unmatched ')' yields an ERROR lexeme and
  * lexing goes on. */
module LispLex {
  import opened Scanning

  /** Characters that continue a word once it has started. */
  predicate IsWordChar(c: char) {
    !IsSkip(c) && (IsAlpha(c) || IsDigit(c) || c == '-')
  }

  /** The lexemes of s from position p on, with `depth` parentheses open. */
  function LexFrom(s: string, p: nat, depth: nat): seq<Lexeme>
    requires p <= |s|
    decreases |s| - p
  {
    if p == |s| then []
    else
      var c := s[p];
      if IsSkip(c) then LexFrom(s, p + 1, depth)
      else if IsDigit(c) then
        var q := RunEnd(s, p, IsNumChar);
        [NumberLexeme(s[p..q])] + LexFrom(s, q, depth)
      else if IsAlpha(c) then
        var q := RunEnd(s, p, IsWordChar);
        [Lexeme(Symbol, s[p..q])] + LexFrom(s, q, depth)
      else [SpecialLexeme(c, depth)] + LexFrom(s, p + 1, SpecialDepth(c, depth))
  }

  /** The lexemes of a whole input. */
  function Lexemes(s: string): seq<Lexeme> {
    LexFrom(s, 0, 0)
  }

  /** The shape every lexeme of this lexer has. */
  predicate WellFormed(lx: Lexeme) {
    match lx.token
    case LParen => lx.strVal == "("
    case RParen => lx.strVal == ")"
    case Number =>
      |lx.strVal| > 0 && forall i :: 0 <= i < |lx.strVal| ==> IsDigit(lx.strVal[i])
    case RealNum =>
      |lx.strVal| > 0 && IsDigit(lx.strVal[0]) && '.' in lx.strVal &&
      forall i :: 0 <= i < |lx.strVal| ==> IsNumChar(lx.strVal[i])
    case Symbol =>
      |lx.strVal| > 0 && !IsSkip(lx.strVal[0]) &&
      (|lx.strVal| == 1 || (IsAlpha(lx.strVal[0]) && forall i :: 0 <= i < |lx.strVal| ==> IsWordChar(lx.strVal[i])))
    case Error => lx.strVal == MismatchedText
  }

  /** Every lexeme is well formed: in particular no lexeme contains a
    * skipped character, so whitespace only separates lexemes. */
  lemma {:induction false} LexemesWellFormed(s: string, p: nat, depth: nat)
    requires p <= |s|
    ensures forall i :: 0 <= i < |LexFrom(s, p, depth)| ==> WellFormed(LexFrom(s, p, depth)[i])
    decreases |s| - p
  {
    if p < |s| {
      var c := s[p];
      if IsSkip(c) {
        LexemesWellFormed(s, p + 1, depth);
      } else if IsDigit(c) {
        var q := RunEnd(s, p, IsNumChar);
        LexemesWellFormed(s, q, depth);
        var text := s[p..q];
        assert forall i :: 0 <= i < |text| ==> IsNumChar(text[i]);
        if '.' !in text {
          forall i | 0 <= i < |text| ensures IsDigit(text[i]) {
            assert text[i] != '.';
          }
        }
      } else if IsAlpha(c) {
        var q := RunEnd(s, p, IsWordChar);
        LexemesWellFormed(s, q, depth);
        assert forall i :: 0 <= i < |s[p..q]| ==> IsWordChar(s[p..q][i]);
      } else {
        LexemesWellFormed(s, p + 1, SpecialDepth(c, depth));
      }
    }
  }

  /** Every RPAREN lexeme closes an earlier LPAREN: a ')' that would not is
    * reported as an ERROR lexeme instead. */
  lemma {:induction false} LexemesWellNested(s: string, p: nat, depth: nat)
    requires p <= |s|
    ensures WellNested(LexFrom(s, p, depth), depth)
    decreases |s| - p
  {
    if p < |s| {
      var c := s[p];
      if IsSkip(c) {
        LexemesWellNested(s, p + 1, depth);
      } else if IsDigit(c) {
        var q := RunEnd(s, p, IsNumChar);
        LexemesWellNested(s, q, depth);
        ConsNested(NumberLexeme(s[p..q]), LexFrom(s, q, depth), depth);
      } else if IsAlpha(c) {
        var q := RunEnd(s, p, IsWordChar);
        LexemesWellNested(s, q, depth);
        ConsNested(Lexeme(Symbol, s[p..q]), LexFrom(s, q, depth), depth);
      } else {
        LexemesWellNested(s, p + 1, SpecialDepth(c, depth));
        ConsNested(SpecialLexeme(c, depth), LexFrom(s, p + 1, SpecialDepth(c, depth)), depth);
      }
    }
  }

  /** The lexer: its buffer and its parenthesis stack. */
  class Lexer {
    const buffer: Buffer
    const parStack: Stack<char>

    constructor ()
      ensures fresh(buffer) && fresh(parStack)
    {
      buffer := new Buffer();
      parStack := new Stack<char>();
    }

    /** Reads the maximal run of digits and dots under the cursor. */
    method ExtractNumber() returns (lx: Lexeme)
      modifies buffer
      ensures buffer.buffer == old(buffer.buffer)
      ensures old(buffer.inPos) <= |buffer.buffer| ==>
        buffer.inPos == RunEnd(buffer.buffer, old(buffer.inPos), IsNumChar) &&
        lx == NumberLexeme(buffer.buffer[old(buffer.inPos)..buffer.inPos])
    {
      var isReal := false;
      var number := "";
      ghost var start := buffer.inPos;
      while IsNumChar(buffer.GetChar())
        invariant buffer.buffer == old(buffer.buffer)
        invariant start <= |buffer.buffer| ==>
          start <= buffer.inPos <= RunEnd(buffer.buffer, start, IsNumChar) &&
          number == buffer.buffer[start..buffer.inPos] && (isReal <==> '.' in number)
        invariant start > |buffer.buffer| ==> buffer.inPos == start
        decreases |buffer.buffer| - buffer.inPos
      {
        var c := buffer.GetChar();
        RunContinues(buffer.buffer, start, buffer.inPos, IsNumChar);
        SliceSnoc(buffer.buffer, start, buffer.inPos);
        DotSnoc(number, c);
        number := number + [c];
        if c == '.' {
          isReal := true;
        }
        var _ := buffer.Advance();
      }
      if start <= |buffer.buffer| {
        RunStops(buffer.buffer, start, buffer.inPos, IsNumChar);
      }
      lx := Lexeme(if isReal then RealNum else Number, number);
    }

    /** Reads the maximal run of letters, digits and '-' under the cursor. */
    method ExtractWord() returns (lx: Lexeme)
      modifies buffer
      ensures buffer.buffer == old(buffer.buffer)
      ensures old(buffer.inPos) <= |buffer.buffer| ==>
        buffer.inPos == RunEnd(buffer.buffer, old(buffer.inPos), IsWordChar) &&
        lx == Lexeme(Symbol, buffer.buffer[old(buffer.inPos)..buffer.inPos])
    {
      var word := "";
      ghost var start := buffer.inPos;
      while IsWordChar(buffer.GetChar())
        invariant buffer.buffer == old(buffer.buffer)
        invariant start <= |buffer.buffer| ==>
          start <= buffer.inPos <= RunEnd(buffer.buffer, start, IsWordChar) &&
          word == buffer.buffer[start..buffer.inPos]
        invariant start > |buffer.buffer| ==> buffer.inPos == start
        decreases |buffer.buffer| - buffer.inPos
      {
        var c := buffer.GetChar();
        RunContinues(buffer.buffer, start, buffer.inPos, IsWordChar);
        SliceSnoc(buffer.buffer, start, buffer.inPos);
        word := word + [c];
        var _ := buffer.Advance();
      }
      if start <= |buffer.buffer| {
        RunStops(buffer.buffer, start, buffer.inPos, IsWordChar);
      }
      lx := Lexeme(Symbol, word);
    }

    /** The lexeme for a parenthesis or any other single character; the
      * stack holds only '(' so its top is never anything else. */
    method CheckSpecials() returns (lx: Lexeme)
      requires forall i :: 0 <= i < |parStack.items| ==> parStack.items[i] == '('
      modifies parStack
      ensures forall i :: 0 <= i < |parStack.items| ==> parStack.items[i] == '('
      ensures lx == SpecialLexeme(buffer.GetChar(), old(|parStack.items|))
      ensures |parStack.items| == SpecialDepth(buffer.GetChar(), old(|parStack.items|))
    {
      var c := buffer.GetChar();
      if c == '(' {
        parStack.Push(c);
        return Lexeme(LParen, "(");
      } else if c == ')' {
        if parStack.Empty() || parStack.Top() != '(' {
          return Lexeme(Error, MismatchedText);
        } else {
          var _ := parStack.Pop();
        }
        return Lexeme(RParen, ")");
      }
      return Lexeme(Symbol, [c]);
    }

    /** Lexes a whole input. */
    method Lex(input: string) returns (tokens: seq<Lexeme>)
      modifies buffer, parStack
      ensures tokens == Lexemes(input)
    {
      tokens := [];
      parStack.Clear();
      buffer.Init(input);
      while !buffer.IsEOF()
        invariant buffer.buffer == input && buffer.inPos <= |input|
        invariant forall i :: 0 <= i < |parStack.items| ==> parStack.items[i] == '('
        invariant Lexemes(input) == tokens + LexFrom(input, buffer.inPos, |parStack.items|)
        decreases |input| - buffer.inPos
      {
        ghost var p, d := buffer.inPos, |parStack.items|;
        var c := buffer.GetChar();
        if IsSkip(c) {
          var _ := buffer.Advance();
          assert LexFrom(input, p, d) == LexFrom(input, buffer.inPos, d);
        } else if IsDigit(c) {
          var lx := ExtractNumber();
          assert LexFrom(input, p, d) == [lx] + LexFrom(input, buffer.inPos, d);
          AppendAssoc(tokens, lx, LexFrom(input, buffer.inPos, d));
          tokens := tokens + [lx];
        } else if IsAlpha(c) {
          var lx := ExtractWord();
          assert LexFrom(input, p, d) == [lx] + LexFrom(input, buffer.inPos, d);
          AppendAssoc(tokens, lx, LexFrom(input, buffer.inPos, d));
          tokens := tokens + [lx];
        } else {
          var lx := CheckSpecials();
          var _ := buffer.Advance();
          assert LexFrom(input, p, d) == [lx] + LexFrom(input, buffer.inPos, |parStack.items|);
          AppendAssoc(tokens, lx, LexFrom(input, buffer.inPos, |parStack.items|));
          tokens := tokens + [lx];
        }
      }
    }
  }
}
