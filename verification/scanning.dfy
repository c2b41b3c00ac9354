/** What both lexer snapshots share: the end-of-input character, the
  * character classes of the C locale, the token kinds, the parenthesis
  * stack and the character buffer with its cursor. */
module Scanning {

  /** What getChar reports once the cursor is past the end. */
  const EofChar: char := '$'

  /** The characters the lexers skip between tokens. */
  predicate IsSkip(c: char) {
    c == ' ' || c == '\t' || c == '\r' || c == '\n'
  }

  /** isdigit in the C locale. */
  predicate IsDigit(c: char) {
    '0' <= c <= '9'
  }

  /** isalpha in the C locale. */
  predicate IsAlpha(c: char) {
    'a' <= c <= 'z' || 'A' <= c <= 'Z'
  }

  /** Characters that continue a number once it has started. */
  predicate IsNumChar(c: char) {
    !IsSkip(c) && (IsDigit(c) || c == '.')
  }

  datatype Token = LParen | RParen | Symbol | Number | RealNum | Error

  datatype Lexeme = Lexeme(token: Token, strVal: string)

  const MismatchedText: string := "Mismatched Parentheses"

  /** The end of the maximal run of characters satisfying f that starts at
    * p; a run starting on such a character is never empty. */
  function RunEnd(s: string, p: nat, f: char -> bool): (q: nat)
    requires p <= |s|
    ensures p <= q <= |s|
    ensures forall i :: p <= i < q ==> f(s[i])
    ensures q < |s| ==> !f(s[q])
    ensures p < |s| && f(s[p]) ==> q > p
    decreases |s| - p
  {
    if p == |s| || !f(s[p]) then p else RunEnd(s, p + 1, f)
  }

  /** A position inside a run, on a character satisfying f, is not its
    * end. */
  lemma RunContinues(s: string, start: nat, p: nat, f: char -> bool)
    requires start <= p < |s| && p <= RunEnd(s, start, f) && f(s[p])
    ensures p < RunEnd(s, start, f)
  {
  }

  /** A position inside a run, at the end of s or on a character failing f,
    * is its end. */
  lemma RunStops(s: string, start: nat, p: nat, f: char -> bool)
    requires start <= p <= |s| && p <= RunEnd(s, start, f) && (p == |s| || !f(s[p]))
    ensures p == RunEnd(s, start, f)
  {
  }

  /** Extending a slice by the character after it. */
  lemma SliceSnoc(s: string, start: nat, p: nat)
    requires start <= p < |s|
    ensures s[start..p] + [s[p]] == s[start..p + 1]
  {
  }

  /** A dot occurs in x + [c] exactly when it occurs in x or is c. */
  lemma DotSnoc(x: string, c: char)
    ensures ('.' in x + [c]) <==> ('.' in x || c == '.')
  {
    assert (x + [c])[|x|] == c;
    if '.' in x {
      var k :| 0 <= k < |x| && x[k] == '.';
      assert (x + [c])[k] == '.';
    }
  }

  /** The lexeme for a run of digits and dots: REALNUM iff a dot occurs. */
  function NumberLexeme(text: string): (lx: Lexeme)
    ensures lx.strVal == text
    ensures lx.token == RealNum <==> '.' in text
    ensures lx.token == Number || lx.token == RealNum
  {
    Lexeme(if '.' in text then RealNum else Number, text)
  }

  /** The lexeme for a character that starts neither a number nor a word:
    * a ')' with no '(' open is an error. */
  function SpecialLexeme(c: char, depth: nat): Lexeme {
    if c == '(' then Lexeme(LParen, "(")
    else if c == ')' then
      if depth == 0 then Lexeme(Error, MismatchedText) else Lexeme(RParen, ")")
    else Lexeme(Symbol, [c])
  }

  /** The number of open parentheses after such a character. */
  function SpecialDepth(c: char, depth: nat): nat {
    if c == '(' then depth + 1
    else if c == ')' && depth > 0 then depth - 1
    else depth
  }

  /** Regrouping one appended lexeme. */
  lemma AppendAssoc(a: seq<Lexeme>, x: Lexeme, b: seq<Lexeme>)
    ensures a + ([x] + b) == (a + [x]) + b
  {
  }

  // ---------------------------------------------------------------------
  // Parenthesis nesting of a token sequence
  // ---------------------------------------------------------------------

  function Delta(lx: Lexeme): int {
    if lx.token == LParen then 1 else if lx.token == RParen then -1 else 0
  }

  /** Starting at depth d, no RPAREN ever takes the depth below zero: every
    * RPAREN closes an earlier LPAREN (or one of d already open). */
  predicate WellNested(ts: seq<Lexeme>, d: int) {
    ts == [] || (d + Delta(ts[0]) >= 0 && WellNested(ts[1..], d + Delta(ts[0])))
  }

  /** The depth after the whole sequence, starting at depth d. */
  function EndDepth(ts: seq<Lexeme>, d: int): int {
    if ts == [] then d else EndDepth(ts[1..], d + Delta(ts[0]))
  }

  /** Nesting of a sequence given its first token. */
  lemma ConsNested(t: Lexeme, rest: seq<Lexeme>, d: int)
    ensures WellNested([t] + rest, d) == (d + Delta(t) >= 0 && WellNested(rest, d + Delta(t)))
    ensures EndDepth([t] + rest, d) == EndDepth(rest, d + Delta(t))
  {
    assert ([t] + rest)[1..] == rest;
  }

  /** A well-nested sequence never ends below zero. */
  lemma {:induction false} WellNestedEndDepth(ts: seq<Lexeme>, d: int)
    requires d >= 0 && WellNested(ts, d)
    ensures EndDepth(ts, d) >= 0
    decreases |ts|
  {
    if ts != [] {
      WellNestedEndDepth(ts[1..], d + Delta(ts[0]));
    }
  }

  /** Appending one token keeps a sequence well nested exactly when the
    * token does not take the final depth below zero. */
  lemma {:induction false} WellNestedSnoc(ts: seq<Lexeme>, t: Lexeme, d: int)
    ensures WellNested(ts + [t], d) <==> WellNested(ts, d) && EndDepth(ts, d) + Delta(t) >= 0
    ensures EndDepth(ts + [t], d) == EndDepth(ts, d) + Delta(t)
    decreases |ts|
  {
    if ts == [] {
      assert [t][1..] == [];
    } else {
      assert (ts + [t])[1..] == ts[1..] + [t];
      WellNestedSnoc(ts[1..], t, d + Delta(ts[0]));
    }
  }

  // ---------------------------------------------------------------------
  // The parenthesis stack
  // ---------------------------------------------------------------------

  /** std::stack with a pop that returns the former top; the top is the
    * last element of `items`. */
  class Stack<T> {
    var items: seq<T>

    constructor ()
      ensures items == []
    {
      items := [];
    }

    predicate Empty()
      reads this
    {
      items == []
    }

    function Top(): T
      reads this
      requires items != []
    {
      items[|items| - 1]
    }

    method Push(x: T)
      modifies this
      ensures items == old(items) + [x]
    {
      items := items + [x];
    }

    /** Removes the top and returns it. */
    method Pop() returns (ret: T)
      requires items != []
      modifies this
      ensures ret == old(items)[|old(items)| - 1]
      ensures items == old(items)[..|old(items)| - 1]
    {
      ret := items[|items| - 1];
      items := items[..|items| - 1];
    }

    /** Pops until empty. */
    method Clear()
      modifies this
      ensures items == []
    {
      while !Empty()
        decreases |items|
      {
        var _ := Pop();
      }
    }
  }

  // ---------------------------------------------------------------------
  // The character buffer
  // ---------------------------------------------------------------------

  /** An input string and a cursor into it. The cursor never goes below
    * zero: init sets it to 0, advance increments it and reverse only
    * decrements it from 2 or more. */
  class Buffer {
    var buffer: string
    var inPos: nat

    constructor ()
      ensures buffer == "" && inPos == 0
    {
      buffer := "";
      inPos := 0;
    }

    method Init(str: string)
      modifies this
      ensures buffer == str && inPos == 0
    {
      buffer := str;
      inPos := 0;
    }

    /** The character under the cursor, or '$' past the end. */
    function GetChar(): (c: char)
      reads this
      ensures inPos < |buffer| ==> c == buffer[inPos]
      ensures IsEOF() ==> c == EofChar
    {
      if inPos < |buffer| then buffer[inPos] else EofChar
    }

    /** Moves the cursor by exactly one and returns the new current
      * character. */
    method Advance() returns (c: char)
      modifies this
      ensures buffer == old(buffer) && inPos == old(inPos) + 1
      ensures c == GetChar()
    {
      if inPos + 1 < |buffer| {
        inPos := inPos + 1;
        return buffer[inPos];
      }
      inPos := inPos + 1;
      return EofChar;
    }

    /** Steps back one character, but never onto position 0; returns the
      * character under the cursor (the string's terminating NUL at the
      * end). */
    method Reverse() returns (c: char)
      requires inPos <= |buffer|
      modifies this
      ensures buffer == old(buffer)
      ensures inPos == if old(inPos) >= 2 then old(inPos) - 1 else old(inPos)
      ensures c == if inPos < |buffer| then buffer[inPos] else '\0'
    {
      if inPos - 1 > 0 {
        inPos := inPos - 1;
      }
      c := if inPos < |buffer| then buffer[inPos] else '\0';
    }

    predicate IsEOF()
      reads this
    {
      inPos >= |buffer|
    }
  }

  /** Advance followed by reverse restores every cursor position from 1 on,
    * but moves the cursor from 0 to 1. */
  method AdvanceThenReverse(b: Buffer)
    requires b.inPos < |b.buffer|
    modifies b
    ensures b.buffer == old(b.buffer)
    ensures b.inPos == if old(b.inPos) == 0 then 1 else old(b.inPos)
  {
    var _ := b.Advance();
    var _ := b.Reverse();
  }
}
