/** The recursive-descent readers that turn a lexeme vector into a list of
  * objects, consuming the lexemes through an index passed by reference.
  * The mgclisp.cpp reader never quotes and reads REALNUM lexemes as
  * integers; the repl.hpp reader keeps reals and quotes a top-level input
  * that does not start with '('. */
module Parsing {
  import opened LispObjects
  import Scanning

  type Lexeme = Scanning.Lexeme

  /** Which of the two readers. */
  datatype Dialect = Mgclisp | Repl

  // ---------------------------------------------------------------------
  // Number conversion
  // ---------------------------------------------------------------------

  /** isspace in the C locale. */
  predicate IsSpace(c: char) {
    c == ' ' || c == '\t' || c == '\n' || c == '\U{000B}' || c == '\U{000C}' || c == '\r'
  }

  function DigitValue(c: char): nat
    requires Scanning.IsDigit(c)
  {
    (c - '0') as nat
  }

  /** The value of a string of decimal digits, most significant first. */
  function DigitsValue(d: string): nat
    requires forall i :: 0 <= i < |d| ==> Scanning.IsDigit(d[i])
  {
    if d == [] then 0 else DigitsValue(d[..|d| - 1]) * 10 + DigitValue(d[|d| - 1])
  }

  /** The fraction a string of decimal digits stands for after a point. */
  function FractionValue(d: string): real
    requires forall i :: 0 <= i < |d| ==> Scanning.IsDigit(d[i])
  {
    if d == [] then 0.0 else (DigitValue(d[0]) as real + FractionValue(d[1..])) / 10.0
  }

  /** Where the digits start: after leading white space and one sign. */
  function SignEnd(s: string): (p: nat)
    ensures p <= |s|
  {
    var w := Scanning.RunEnd(s, 0, IsSpace);
    if w < |s| && (s[w] == '+' || s[w] == '-') then w + 1 else w
  }

  predicate Negative(s: string) {
    var w := Scanning.RunEnd(s, 0, IsSpace);
    w < |s| && s[w] == '-'
  }

  /** atoi: optional white space, an optional sign, then the longest run of
    * digits; 0 when there are none. Overflow is not modelled. */
  function Atoi(s: string): int {
    var p := SignEnd(s);
    var q := Scanning.RunEnd(s, p, Scanning.IsDigit);
    var n: int := DigitsValue(s[p..q]);
    if Negative(s) then -n else n
  }

  /** stof on the texts the lexers produce: a sign, digits, and the digits
    * after the first point, as an exact decimal. */
  function DecimalValue(s: string): real {
    var p := SignEnd(s);
    var q := Scanning.RunEnd(s, p, Scanning.IsDigit);
    var whole := DigitsValue(s[p..q]) as real;
    var frac :=
      if q < |s| && s[q] == '.' then
        var r := Scanning.RunEnd(s, q + 1, Scanning.IsDigit);
        FractionValue(s[q + 1..r])
      else 0.0;
    if Negative(s) then -(whole + frac) else whole + frac
  }

  /** A floating value converted to int: truncated toward zero. */
  function Truncate(v: real): int {
    if v >= 0.0 then v.Floor else -((-v).Floor)
  }

  lemma {:induction false} DigitsOfNat(n: nat)
    ensures forall i :: 0 <= i < |NatToString(n)| ==> Scanning.IsDigit(NatToString(n)[i])
    ensures DigitsValue(NatToString(n)) == n
  {
    if n >= 10 {
      DigitsOfNat(n / 10);
      var s := NatToString(n);
      assert s[..|s| - 1] == NatToString(n / 10);
    }
  }

  /** atoi reads back what the printer writes for an integer. */
  lemma AtoiOfIntToString(v: int)
    ensures Atoi(IntToString(v)) == v
  {
    var n: nat := if v < 0 then -v else v;
    DigitsOfNat(n);
    var s := IntToString(v);
    var d := NatToString(n);
    assert Scanning.RunEnd(s, 0, IsSpace) == 0 by {
      assert !IsSpace(s[0]);
    }
    var p := if v < 0 then 1 else 0;
    assert SignEnd(s) == p;
    assert s[p..] == d;
    assert Scanning.RunEnd(s, p, Scanning.IsDigit) == |s| by {
      RunEndAll(s, p);
    }
    assert s[p..|s|] == d;
  }

  lemma {:induction false} RunEndAll(s: string, p: nat)
    requires p <= |s|
    requires forall i :: p <= i < |s| ==> Scanning.IsDigit(s[i])
    ensures Scanning.RunEnd(s, p, Scanning.IsDigit) == |s|
    decreases |s| - p
  {
    if p < |s| {
      RunEndAll(s, p + 1);
    }
  }

  // ---------------------------------------------------------------------
  // The readers, as functions
  // ---------------------------------------------------------------------

  /** The element a SYMBOL, NUMBER or REALNUM lexeme stands for. */
  function Atom(lx: Lexeme, dialect: Dialect): (obj: Object)
    requires lx.token == Scanning.Symbol || lx.token == Scanning.Number || lx.token == Scanning.RealNum
  {
    match lx.token
    case Symbol => MakeSymbolObject(lx.strVal)
    case Number => MakeIntObject(Atoi(lx.strVal))
    case RealNum =>
      if dialect == Mgclisp then MakeIntObject(Truncate(DecimalValue(lx.strVal)))
      else MakeRealObject(DecimalValue(lx.strVal))
  }

  /** What each kind of atom lexeme reads as. */
  lemma AtomValues(lx: Lexeme, dialect: Dialect)
    requires lx.token == Scanning.Symbol || lx.token == Scanning.Number || lx.token == Scanning.RealNum
    ensures lx.token == Scanning.Symbol ==> Atom(lx, dialect) == Symbol(lx.strVal)
    ensures lx.token == Scanning.Number ==> Atom(lx, dialect) == Int(Atoi(lx.strVal))
    ensures lx.token == Scanning.RealNum && dialect == Mgclisp ==> Atom(lx, dialect).Int?
    ensures lx.token == Scanning.RealNum && dialect == Repl ==>
      (Atom(lx, dialect).Int? || Atom(lx, dialect).Real?) && NumericValue(Atom(lx, dialect)) == DecimalValue(lx.strVal)
  {
  }

  lemma {:induction false} FractionBounds(d: string)
    requires forall i :: 0 <= i < |d| ==> Scanning.IsDigit(d[i])
    ensures 0.0 <= FractionValue(d) < 1.0
    decreases |d|
  {
    if d != [] {
      FractionBounds(d[1..]);
    }
  }

  /** The mgclisp.cpp reader converts a REALNUM lexeme with stof and then to
    * int, which keeps exactly the digits before the point: the same value
    * atoi gives. */
  lemma MgclispRealIsIntegerPart(t: string)
    requires |t| > 0 && Scanning.IsDigit(t[0])
    ensures Truncate(DecimalValue(t)) == Atoi(t)
  {
    assert Scanning.RunEnd(t, 0, IsSpace) == 0;
    assert SignEnd(t) == 0 && !Negative(t);
    var q := Scanning.RunEnd(t, 0, Scanning.IsDigit);
    var whole := DigitsValue(t[0..q]);
    if q < |t| && t[q] == '.' {
      FractionBounds(t[q + 1..Scanning.RunEnd(t, q + 1, Scanning.IsDigit)]);
    }
    assert whole as real <= DecimalValue(t) < whole as real + 1.0;
  }

  /** The reading loop from index i with `acc` read so far: the elements
    * read, the index where it stopped, and whether it ran out of lexemes
    * rather than meeting an RPAREN. */
  function ReadLoop(toks: seq<Lexeme>, i: nat, acc: seq<Object>, dialect: Dialect): (r: (seq<Object>, nat, bool))
    ensures r.1 >= i
    ensures r.2 <==> r.1 >= |toks|
    ensures !r.2 ==> toks[r.1].token == Scanning.RParen
    decreases |toks| - i
  {
    if i >= |toks| then (acc, i, true)
    else
      match toks[i].token
      case LParen =>
        var (sub, j, _) := ReadLoop(toks, i + 1, [], dialect);
        ReadLoop(toks, j + 1, acc + [ListObj(sub)], dialect)
      case RParen => (acc, i, false)
      case Error => ReadLoop(toks, i + 1, acc, dialect)
      case _ => ReadLoop(toks, i + 1, acc + [Atom(toks[i], dialect)], dialect)
  }

  /** parseToList from index i: the list read and the final index. */
  function Parse(toks: seq<Lexeme>, i: nat, dialect: Dialect): (seq<Object>, nat)
    requires i < |toks|
  {
    if toks[i].token == Scanning.LParen then
      var (items, j, _) := ReadLoop(toks, i + 1, [], dialect);
      (items, j)
    else
      var (items, j, ranOut) := ReadLoop(toks, i, [], dialect);
      if dialect == Repl && ranOut then ([Symbol("'"), ListObj(items)], j) else (items, j)
  }

  // ---------------------------------------------------------------------
  // Properties of the readers
  // ---------------------------------------------------------------------

  /** Objects the readers can produce from SYMBOL and NUMBER lexemes. */
  predicate IsDatum(obj: Object) {
    match obj
    case Symbol(_) => true
    case Int(_) => true
    case ListObj(xs) => AllData(xs)
    case _ => false
  }

  /** Every element is a datum. */
  predicate AllData(xs: seq<Object>) {
    xs == [] || (IsDatum(xs[0]) && AllData(xs[1..]))
  }

  const LParenLexeme := Scanning.Lexeme(Scanning.LParen, "(")
  const RParenLexeme := Scanning.Lexeme(Scanning.RParen, ")")

  /** The lexemes that stand for a datum: a SYMBOL lexeme holding a
    * symbol's text, a NUMBER lexeme holding an integer's decimal text, and
    * a list's lexemes between an LPAREN and an RPAREN; an object that is
    * not a datum has none. */
  function Serialize(obj: Object): seq<Lexeme>
  {
    match obj
    case Symbol(t) => [Scanning.Lexeme(Scanning.Symbol, t)]
    case Int(v) => [Scanning.Lexeme(Scanning.Number, IntToString(v))]
    case ListObj(xs) => [LParenLexeme] + SerializeAll(xs) + [RParenLexeme]
    case _ => []
  }

  function SerializeAll(xs: seq<Object>): seq<Lexeme>
  {
    if xs == [] then [] else Serialize(xs[0]) + SerializeAll(xs[1..])
  }

  /** One round of the reading loop on an atom. */
  lemma ReadLoopAtom(toks: seq<Lexeme>, i: nat, acc: seq<Object>, dialect: Dialect)
    requires i < |toks|
    requires toks[i].token == Scanning.Symbol || toks[i].token == Scanning.Number || toks[i].token == Scanning.RealNum
    ensures ReadLoop(toks, i, acc, dialect) == ReadLoop(toks, i + 1, acc + [Atom(toks[i], dialect)], dialect)
  {
  }

  /** One round of the reading loop on an LPAREN: a nested read, then on
    * past the RPAREN that ended it. */
  lemma ReadLoopOpen(toks: seq<Lexeme>, i: nat, acc: seq<Object>, dialect: Dialect)
    requires i < |toks| && toks[i].token == Scanning.LParen
    ensures var (sub, j, _) := ReadLoop(toks, i + 1, [], dialect);
      ReadLoop(toks, i, acc, dialect) == ReadLoop(toks, j + 1, acc + [ListObj(sub)], dialect)
  {
  }
  /** One round of the reading loop on an LPAREN, through the reader
    * called at that LPAREN. */
  lemma ReadLoopParse(toks: seq<Lexeme>, i: nat, acc: seq<Object>, dialect: Dialect)
    requires i < |toks| && toks[i].token == Scanning.LParen
    ensures ReadLoop(toks, i, acc, dialect) ==
      ReadLoop(toks, Parse(toks, i, dialect).1 + 1, acc + [ListObj(Parse(toks, i, dialect).0)], dialect)
  {
    ReadLoopOpen(toks, i, acc, dialect);
  }

  /** The reading loop steps over an ERROR lexeme. */
  lemma ReadLoopSkip(toks: seq<Lexeme>, i: nat, acc: seq<Object>, dialect: Dialect)
    requires i < |toks| && toks[i].token == Scanning.Error
    ensures ReadLoop(toks, i, acc, dialect) == ReadLoop(toks, i + 1, acc, dialect)
  {
  }

  /** The reading loop stops on an RPAREN. */
  lemma ReadLoopClose(toks: seq<Lexeme>, i: nat, acc: seq<Object>, dialect: Dialect)
    requires i < |toks| && toks[i].token == Scanning.RParen
    ensures ReadLoop(toks, i, acc, dialect) == (acc, i, false)
  {
  }

  /** An LPAREN whose nested read yields ys and stops on the RPAREN at
    * i + n - 1: the loop goes on after that RPAREN with ys read. */
  lemma ReadNested(toks: seq<Lexeme>, i: nat, acc: seq<Object>, dialect: Dialect, ys: seq<Object>, n: nat)
    requires i < |toks| && toks[i].token == Scanning.LParen
    requires ReadLoop(toks, i + 1, [], dialect) == (ys, i + n - 1, false)
    ensures ReadLoop(toks, i, acc, dialect) == ReadLoop(toks, i + n, acc + [ListObj(ys)], dialect)
  {
    ReadLoopOpen(toks, i, acc, dialect);
  }

  lemma ConsSplit(acc: seq<Object>, xs: seq<Object>)
    requires xs != []
    ensures (acc + [xs[0]]) + xs[1..] == acc + xs
  {
    assert xs == [xs[0]] + xs[1..];
  }

  /** `part` occurs in toks at index i. */
  predicate At(toks: seq<Lexeme>, i: nat, part: seq<Lexeme>)
    decreases |part|
  {
    if part == [] then i <= |toks|
    else i < |toks| && toks[i] == part[0] && At(toks, i + 1, part[1..])
  }

  lemma {:induction false} AtSplit(toks: seq<Lexeme>, i: nat, a: seq<Lexeme>, b: seq<Lexeme>)
    requires At(toks, i, a + b)
    ensures At(toks, i, a) && At(toks, i + |a|, b)
    decreases |a|
  {
    if a == [] {
      assert a + b == b;
      AtBound(toks, i, b);
    } else {
      assert (a + b)[1..] == a[1..] + b;
      AtSplit(toks, i + 1, a[1..], b);
    }
  }

  lemma {:induction false} AtSuffix(toks: seq<Lexeme>, i: nat)
    requires i <= |toks|
    ensures At(toks, i, toks[i..])
    decreases |toks| - i
  {
    if i < |toks| {
      assert toks[i..][1..] == toks[i + 1..];
      AtSuffix(toks, i + 1);
    }
  }

  lemma {:induction false} AtBound(toks: seq<Lexeme>, i: nat, part: seq<Lexeme>)
    requires At(toks, i, part)
    ensures i + |part| <= |toks|
    decreases |part|
  {
    if part != [] {
      AtBound(toks, i + 1, part[1..]);
    }
  }

  /** A serialized atom is read back as one element. */
  lemma ReadAtomBack(toks: seq<Lexeme>, i: nat, acc: seq<Object>, x: Object, dialect: Dialect)
    requires x.Symbol? || x.Int?
    requires At(toks, i, Serialize(x))
    ensures ReadLoop(toks, i, acc, dialect) == ReadLoop(toks, i + 1, acc + [x], dialect)
  {
    assert toks[i] == Serialize(x)[0] by {
      assert toks[i + 0] == toks[i];
    }
    if x.Int? {
      AtoiOfIntToString(x.intVal);
    }
    ReadLoopAtom(toks, i, acc, dialect);
  }

  /** How the lexemes of a list split: LPAREN, those of the elements,
    * RPAREN. */
  lemma ListLexemes(toks: seq<Lexeme>, i: nat, ys: seq<Object>)
    requires AllData(ys)
    requires At(toks, i, Serialize(ListObj(ys)))
    ensures toks[i] == LParenLexeme && At(toks, i + 1, SerializeAll(ys) + [RParenLexeme])
    ensures |Serialize(ListObj(ys))| == |SerializeAll(ys)| + 2
  {
    var sy := SerializeAll(ys);
    assert Serialize(ListObj(ys)) == [LParenLexeme] + (sy + [RParenLexeme]);
    AtSplit(toks, i, [LParenLexeme], sy + [RParenLexeme]);
  }

  /** How the lexemes of a nonempty sequence of data split: those of the
    * first, then those of the rest. */
  lemma ConsLexemes(toks: seq<Lexeme>, i: nat, xs: seq<Object>)
    requires xs != [] && AllData(xs)
    requires At(toks, i, SerializeAll(xs) + [RParenLexeme])
    ensures At(toks, i, Serialize(xs[0]))
    ensures At(toks, i + |Serialize(xs[0])|, SerializeAll(xs[1..]) + [RParenLexeme])
    ensures |SerializeAll(xs)| == |Serialize(xs[0])| + |SerializeAll(xs[1..])|
  {
    var sx := Serialize(xs[0]);
    var rest := SerializeAll(xs[1..]);
    assert SerializeAll(xs) + [RParenLexeme] == sx + (rest + [RParenLexeme]);
    AtSplit(toks, i, sx, rest + [RParenLexeme]);
  }

  /** The lexemes of no data, then an RPAREN. */
  lemma EmptyLexemes(toks: seq<Lexeme>, i: nat, xs: seq<Object>)
    requires xs == []
    requires At(toks, i, SerializeAll(xs) + [RParenLexeme])
    ensures i < |toks| && toks[i] == RParenLexeme && SerializeAll(xs) == []
  {
    assert SerializeAll(xs) + [RParenLexeme] == [RParenLexeme];
  }

  /** A serialized list is read back as one element, by a nested read that
    * ends on its RPAREN. */
  lemma {:induction false} ReadListBack(toks: seq<Lexeme>, i: nat, acc: seq<Object>, ys: seq<Object>, dialect: Dialect)
    requires AllData(ys)
    requires i < |toks| && toks[i] == LParenLexeme && At(toks, i + 1, SerializeAll(ys) + [RParenLexeme])
    ensures ReadLoop(toks, i, acc, dialect) == ReadLoop(toks, i + |SerializeAll(ys)| + 2, acc + [ListObj(ys)], dialect)
    decreases ys, 1
  {
    ReadLoopReadsBack(toks, i + 1, [], ys, dialect);
    assert [] + ys == ys;
    ReadNested(toks, i, acc, dialect, ys, |SerializeAll(ys)| + 2);
  }

  /** A serialized datum is read back as one element. */
  lemma {:induction false} ReadDatumBack(toks: seq<Lexeme>, i: nat, acc: seq<Object>, x: Object, dialect: Dialect)
    requires IsDatum(x)
    requires At(toks, i, Serialize(x))
    ensures ReadLoop(toks, i, acc, dialect) == ReadLoop(toks, i + |Serialize(x)|, acc + [x], dialect)
    decreases x, 2
  {
    if x.ListObj? {
      ListLexemes(toks, i, x.listVal);
      ReadListBack(toks, i, acc, x.listVal, dialect);
    } else {
      ReadAtomBack(toks, i, acc, x, dialect);
    }
  }

  /** The reading loop reads back the elements of a serialized sequence and
    * stops on the RPAREN that follows them, whatever it had read before. */
  lemma {:induction false} ReadLoopReadsBack(toks: seq<Lexeme>, i: nat, acc: seq<Object>, xs: seq<Object>, dialect: Dialect)
    requires AllData(xs)
    requires At(toks, i, SerializeAll(xs) + [RParenLexeme])
    ensures ReadLoop(toks, i, acc, dialect) == (acc + xs, i + |SerializeAll(xs)|, false)
    decreases xs, 0
  {
    if xs == [] {
      EmptyLexemes(toks, i, xs);
      ReadLoopClose(toks, i, acc, dialect);
      assert acc + xs == acc;
    } else {
      ConsLexemes(toks, i, xs);
      ReadDatumBack(toks, i, acc, xs[0], dialect);
      ReadLoopReadsBack(toks, i + |Serialize(xs[0])|, acc + [xs[0]], xs[1..], dialect);
      ConsSplit(acc, xs);
    }
  }

  /** Both readers read a serialized list back: the round trip from the
    * parsed representation through its lexemes. */
  lemma ParseSerialized(xs: seq<Object>, dialect: Dialect)
    requires AllData(xs)
    ensures Parse(Serialize(ListObj(xs)), 0, dialect) == (xs, |Serialize(ListObj(xs))| - 1)
  {
    var toks := Serialize(ListObj(xs));
    AtSuffix(toks, 0);
    assert toks[0..] == toks;
    ListLexemes(toks, 0, xs);
    ReadLoopReadsBack(toks, 1, [], xs, dialect);
    assert [] + xs == xs;
  }

  /** No real number: what the mgclisp reader produces. */
  predicate NoReal(obj: Object) {
    match obj
    case Real(_) => false
    case ListObj(xs) => forall k :: 0 <= k < |xs| ==> NoReal(xs[k])
    case _ => true
  }

  /** The mgclisp reader turns REALNUM lexemes into integers, so nothing it
    * reads holds a real. */
  lemma {:induction false} MgclispReadsNoReals(toks: seq<Lexeme>, i: nat, acc: seq<Object>)
    requires forall k :: 0 <= k < |acc| ==> NoReal(acc[k])
    ensures forall k :: 0 <= k < |ReadLoop(toks, i, acc, Mgclisp).0| ==> NoReal(ReadLoop(toks, i, acc, Mgclisp).0[k])
    decreases |toks| - i
  {
    if i < |toks| {
      match toks[i].token {
        case LParen =>
          MgclispReadsNoReals(toks, i + 1, []);
          var (sub, j, _) := ReadLoop(toks, i + 1, [], Mgclisp);
          assert NoReal(ListObj(sub));
          MgclispReadsNoReals(toks, j + 1, acc + [ListObj(sub)]);
        case RParen =>
        case Error =>
          MgclispReadsNoReals(toks, i + 1, acc);
        case _ =>
          MgclispReadsNoReals(toks, i + 1, acc + [Atom(toks[i], Mgclisp)]);
      }
    }
  }

  /** The top-level quote of the repl.hpp reader: an input that does not
    * start with '(' is quoted when it runs to the end, and not when an
    * RPAREN stops it; the mgclisp.cpp reader never quotes. */
  lemma ParseExamples()
    ensures Parse([Scanning.Lexeme(Scanning.Symbol, "x")], 0, Repl) == ([Symbol("'"), ListObj([Symbol("x")])], 1)
    ensures Parse([Scanning.Lexeme(Scanning.Symbol, "x")], 0, Mgclisp) == ([Symbol("x")], 1)
    ensures Parse([Scanning.Lexeme(Scanning.Symbol, "a"), RParenLexeme, Scanning.Lexeme(Scanning.Symbol, "b")], 0, Repl)
      == ([Symbol("a")], 1)
    ensures Parse([LParenLexeme, Scanning.Lexeme(Scanning.Error, Scanning.MismatchedText), RParenLexeme], 0, Repl)
      == ([], 2)
  {
    var t1 := [Scanning.Lexeme(Scanning.Symbol, "x")];
    ReadLoopAtom(t1, 0, [], Repl);
    ReadLoopAtom(t1, 0, [], Mgclisp);
    assert [] + [Symbol("x")] == [Symbol("x")];
    var t2 := [Scanning.Lexeme(Scanning.Symbol, "a"), RParenLexeme, Scanning.Lexeme(Scanning.Symbol, "b")];
    ReadLoopAtom(t2, 0, [], Repl);
    assert [] + [Symbol("a")] == [Symbol("a")];
    var t3 := [LParenLexeme, Scanning.Lexeme(Scanning.Error, Scanning.MismatchedText), RParenLexeme];
    assert ReadLoop(t3, 2, [], Repl) == ([], 2, false);
    assert ReadLoop(t3, 1, [], Repl) == ([], 2, false);
  }

  // ---------------------------------------------------------------------
  // The readers, as written
  // ---------------------------------------------------------------------

  /** Where the reading loop of a reader starts. */
  function LoopStart(toks: seq<Lexeme>, index: nat): nat
    requires index < |toks|
  {
    if toks[index].token == Scanning.LParen then index + 1 else index
  }

  /** A reader's result, from what its reading loop returned. */
  lemma ParseFromLoop(toks: seq<Lexeme>, index: nat, dialect: Dialect, items: seq<Object>, j: nat, ranOut: bool)
    requires index < |toks|
    requires ReadLoop(toks, LoopStart(toks, index), [], dialect) == (items, j, ranOut)
    ensures Parse(toks, index, dialect) ==
      if dialect == Repl && toks[index].token != Scanning.LParen && ranOut then ([Symbol("'"), ListObj(items)], j)
      else (items, j)
  {
  }

  /** The reading loop stops at the end of the lexemes. */
  lemma ReadLoopEnd(toks: seq<Lexeme>, i: nat, acc: seq<Object>, dialect: Dialect)
    requires i >= |toks|
    ensures ReadLoop(toks, i, acc, dialect) == (acc, i, true)
  {
  }

  /** parseToList of mgclisp.cpp. */
  method MgcParseToList(lexemes: seq<Lexeme>, index: nat) returns (result: seq<Object>, next: nat)
    requires index < |lexemes|
    ensures (result, next) == Parse(lexemes, index, Mgclisp)
    decreases |lexemes| - index
  {
    var i := index;
    result := [];
    if lexemes[i].token == Scanning.LParen {
      i := i + 1;
    }
    ghost var start := i;
    while i < |lexemes|
      invariant i > index || lexemes[index].token != Scanning.LParen
      invariant i >= index
      invariant start == LoopStart(lexemes, index)
      invariant ReadLoop(lexemes, i, result, Mgclisp) == ReadLoop(lexemes, start, [], Mgclisp)
      decreases |lexemes| - i
    {
      match lexemes[i].token {
        case LParen =>
          var sub, j := MgcParseToList(lexemes, i);
          ReadLoopParse(lexemes, i, result, Mgclisp);
          result := result + [MakeListObject(sub)];
          i := j;
        case RParen =>
          ReadLoopClose(lexemes, i, result, Mgclisp);
          ParseFromLoop(lexemes, index, Mgclisp, result, i, false);
          return result, i;
        case Error =>
          ReadLoopSkip(lexemes, i, result, Mgclisp);
        case _ =>
          var obj := Atom(lexemes[i], Mgclisp);
          ReadLoopAtom(lexemes, i, result, Mgclisp);
          result := result + [obj];
      }
      i := i + 1;
    }
    ReadLoopEnd(lexemes, i, result, Mgclisp);
    ParseFromLoop(lexemes, index, Mgclisp, result, i, true);
    next := i;
  }

  /** parseToList of repl.hpp. */
  method ReplParseToList(lexemes: seq<Lexeme>, index: nat) returns (result: seq<Object>, next: nat)
    requires index < |lexemes|
    ensures (result, next) == Parse(lexemes, index, Repl)
    decreases |lexemes| - index
  {
    var i := index;
    result := [];
    var shouldQuote := false;
    if lexemes[i].token == Scanning.LParen {
      i := i + 1;
    } else {
      shouldQuote := true;
    }
    ghost var start := i;
    while i < |lexemes|
      invariant i > index || lexemes[index].token != Scanning.LParen
      invariant i >= index
      invariant shouldQuote <==> lexemes[index].token != Scanning.LParen
      invariant start == LoopStart(lexemes, index)
      invariant ReadLoop(lexemes, i, result, Repl) == ReadLoop(lexemes, start, [], Repl)
      decreases |lexemes| - i
    {
      match lexemes[i].token {
        case LParen =>
          var sub, j := ReplParseToList(lexemes, i);
          ReadLoopParse(lexemes, i, result, Repl);
          result := result + [MakeListObject(sub)];
          i := j;
        case RParen =>
          ReadLoopClose(lexemes, i, result, Repl);
          ParseFromLoop(lexemes, index, Repl, result, i, false);
          return result, i;
        case Error =>
          ReadLoopSkip(lexemes, i, result, Repl);
        case _ =>
          var obj := Atom(lexemes[i], Repl);
          ReadLoopAtom(lexemes, i, result, Repl);
          result := result + [obj];
      }
      i := i + 1;
    }
    ReadLoopEnd(lexemes, i, result, Repl);
    ParseFromLoop(lexemes, index, Repl, result, i, true);
    if shouldQuote {
      result := [MakeSymbolObject("'"), MakeListObject(result)];
    }
    next := i;
  }
}
