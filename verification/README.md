# rlisp in Dafny

A model of the core of rlisp, a small Lisp interpreter written in C++. The
repository holds two overlapping snapshots of the interpreter.

- The first is `lisp_objects.hpp`, `lisp_lex.hpp`, `evalapply.hpp` and `mgclisp.cpp`.
- The second is `objects.hpp`, `list.hpp`, `buffer.hpp`, `lex.hpp` and `repl.hpp`.

The model covers the following parts.

- **Character scanning** (`scanning.dfy`, module `Scanning`). The character
  buffer with its cursor, which both snapshots share. The parenthesis stack.
  The character classes, token kinds and lexemes.
- **The lisp_lex.hpp lexer** (`lisp_lex.dfy`, module `LispLex`). A `Lexer`
  class whose methods move the buffer cursor and push and pop the stack. It is
  proved against a functional specification `LexFrom` of the whole lexeme
  sequence. Properties of that specification:
  - every lexeme has its documented shape;
  - an RPAREN always closes an earlier LPAREN.
- **The lex.hpp lexer** (`lex.dfy`, module `Lex`). It adds negative numbers and
  `?` in words. At an unmatched `)` it discards the lexemes collected so far.
  At the end of input it checks for open parentheses. Each round of its loop
  is specified by a step function `Step`. Properties proved:
  - the result has an ERROR at most at its head;
  - the rest of the result is balanced;
  - blanks only separate lexemes, except a blank right after a leading `-`.
- **The two readers** (`parse.dfy`, module `Parsing`). These are the
  `parseToList` of `mgclisp.cpp` and of `repl.hpp`. Both are loops over a
  lexeme vector that recurse on nested parentheses, each proved against the
  functional reader `Parse`. The main property is a round trip: both readers
  read back the lexemes of any list of symbols, integers and nested lists.
- **Objects and lists** (`lisp_objects.dfy`, module `LispObjects`).
  - The tagged object model and its constructors.
  - `toString` and `compareObject`, in both snapshots' versions.
  - The singly-linked `List` class with `head`, `tail` and `count`, and its
    iterator. The class keeps ghost `nodes`, `elems` and `Repr`, and every
    method is proved against the element sequence.
- **The stale tail** (`stale_tail.dfy`, module `StaleTail`). The
  `lisp_objects.hpp` list on an explicit store of cells, used to show the
  finding below.
- **Environments** (`bindings.dfy`, module `Bindings`). Lookup, define,
  addMissing and the call environment, as functions on sequences of bindings,
  with the scoping lemmas.
- **Primitives** (`primitives.dfy`, module `Primitives`). The native
  procedures, and the non-evaluating parts of `if` and `lambda`.
- **The evaluator** (`evaluator.dfy`, module `Evaluator`).
  - `EvalApply` is a class holding the global environment.
  - Environments are heap `List`s that closures refer to by reference. So a
    later `define` in a captured environment is seen by the closure's calls:
    this is how a recursive function finds itself.
  - Ghost state records every environment list the evaluator has made. The
    invariant keeps these lists well formed, separate from one another and
    made only of bindings, and every closure in them captured one of them.

Where the code departs from what a Lisp user would expect, the model follows the code:

- **Redefinition.** `define` appends, and lookup returns the first binding.
  So redefining a bound name has no visible effect
  (`Bindings.DefineThenLookup`); the later binding does not shadow the
  earlier one.
- **Lookup failure.** A failed lookup yields the error object `Not Found`,
  without the symbol's name.
- **List equality.** Lists compare equal when their common prefix is equal,
  not when they have equal length. So `()` equals every list under
  `lisp_objects.hpp`, and `(1)` equals `(1 2)` under both snapshots
  (`LispObjects.PrefixComparisonIsNotTransitive`).
- **Argument counts.** A lambda ignores extra arguments. Too few arguments, or
  a primitive given an operand with the wrong tag, is undefined behaviour in
  the code; no error object is produced.
- **Special forms.** Only `define`, `if` and `lambda` exist. There is no
  `quote`, `set`, `do`, `cond` or `let`.

## Model

| member | source | states |
|---|---|---|
| Scanning.RunEnd | lisp_lex.hpp:90-94 | the end of the maximal run of characters of a class: everything before it is in the class, the character at it is not, and the run is nonempty when its first character qualifies |
| Scanning.NumberLexeme | lisp_lex.hpp:95 | a run of digits and dots keeps its text and is REALNUM exactly when it contains a dot, NUMBER otherwise |
| Scanning.Stack.constructor | lisp_lex.hpp:11-12 | a new stack is empty |
| Scanning.Stack.Push | lisp_lex.hpp:11-12 | the pushed value becomes the new top over the old contents |
| Scanning.Stack.Pop | lisp_lex.hpp:13-16 | returns the former top and removes exactly it |
| Scanning.Stack.Clear | lisp_lex.hpp:18-20 | pops until the stack is empty |
| Scanning.Buffer.constructor | buffer.hpp:13-15 | a buffer starts empty at position 0 |
| Scanning.Buffer.Init | buffer.hpp:16-19 | stores the string and resets the cursor to 0 |
| Scanning.Buffer.GetChar | buffer.hpp:20-22 | the character under the cursor when in range, `$` once the cursor is at or past the end |
| Scanning.Buffer.Advance | buffer.hpp:23-30 | moves the cursor by exactly one, keeps the string, and returns the new current character or `$` |
| Scanning.Buffer.Reverse | buffer.hpp:31-36 | steps back one only from position 2 or more, so it never reaches 0; keeps the string |
| Scanning.AdvanceThenReverse | buffer.hpp:23-36 | advance then reverse restores every position from 1 on, but moves position 0 to 1 |
| LispLex.LexemesWellFormed | lisp_lex.hpp:75-123 | every lexeme has its shape: numbers are digits, reals digits and dots with a dot, words start with a letter and run over letters, digits and `-`, any other symbol is one non-blank character; no lexeme holds a blank |
| LispLex.LexemesWellNested | lisp_lex.hpp:105-117 | no RPAREN lexeme takes the nesting depth below zero: an unmatched `)` becomes an ERROR lexeme instead |
| LispLex.Lexer.constructor | lisp_lex.hpp:126-128 | a lexer owns a fresh buffer and a fresh stack |
| LispLex.Lexer.ExtractNumber | lisp_lex.hpp:87-96 | consumes exactly the maximal digit-and-dot run under the cursor and returns its NUMBER/REALNUM lexeme |
| LispLex.Lexer.ExtractWord | lisp_lex.hpp:97-104 | consumes exactly the maximal run of letters, digits and `-` and returns it as a SYMBOL |
| LispLex.Lexer.CheckSpecials | lisp_lex.hpp:105-124 | `(` gives LPAREN and is pushed, a matched `)` gives RPAREN and pops, an unmatched `)` gives ERROR, any other character a one-character SYMBOL; the stack holds only `(` |
| LispLex.Lexer.Lex | lisp_lex.hpp:129-147 | the lexemes returned are exactly `Lexemes(input)`, the specification that the two lemmas above are about |
| Lex.Step | lex.hpp:57-70 | every round of the lexing loop strictly advances the position, so lex terminates |
| Lex.NegativeLexeme | lex.hpp:126-131 | a `-` before a digit run gives a numeric lexeme whose text is `-` followed by the run, REALNUM iff the run has a dot |
| Lex.LexemesShape | lex.hpp:53-77 | an ERROR lexeme can only be first (an unmatched `)` discards what came before, an open `(` replaces everything); after it the lexemes are balanced |
| Lex.LexemesBlankless | lex.hpp:79-90 | no lexeme holds a blank, for every input except one starting with `-` followed by a blank |
| Lex.LeadingDashQuirk | lex.hpp:126-134 | a `-` at position 0 not followed by a digit is lost and the next character, even a blank, becomes a symbol, because reverse never returns to position 0; elsewhere `-` is a symbol |
| Lex.LexemeExamples | lex.hpp:112-131 | `(-25)` lexes to a negative number; `a)b` keeps only the ERROR and `b`; `((` gives the single ERROR lexeme |
| Lex.Lexer.constructor | lex.hpp:49-51 | a fresh buffer and stack and no lexemes |
| Lex.Lexer.ExtractNumber | lex.hpp:92-101 | consumes exactly the maximal digit-and-dot run and returns its NUMBER/REALNUM lexeme |
| Lex.Lexer.ExtractWord | lex.hpp:103-110 | consumes exactly the maximal run of letters, digits, `-` and `?` and returns it as a SYMBOL |
| Lex.Lexer.CheckSpecials | lex.hpp:112-141 | the parenthesis cases as above, except that an unmatched `)` also clears the collected lexemes; a `-` before a digit reads a negative number and leaves the cursor after it; another `-` is stepped over and back |
| Lex.Lexer.LexStep | lex.hpp:58-69 | one loop round changes position, depth and collected lexemes exactly as `Step` says |
| Lex.Lexer.LexSpecial | lex.hpp:65-69 | the round for any other character: the lexeme of checkSpecials is appended, and the cursor advances unless it was numeric |
| Lex.Lexer.Lex | lex.hpp:53-77 | the returned lexemes, also left in the member vector, are exactly `Lexemes(input)`, with the end-of-input check |
| Parsing.AtoiOfIntToString | repl.hpp:66-67 | atoi reads back the decimal text the printer writes for any integer |
| Parsing.AtomValues | repl.hpp:63-71 | SYMBOL reads as the symbol of its text, NUMBER as the Int of atoi; REALNUM as a number of its decimal value in repl.hpp and as an Int in mgclisp.cpp |
| Parsing.MgclispRealIsIntegerPart | mgclisp.cpp:27-29 | converting a REALNUM lexeme with stof and then to int gives exactly atoi of its text, its integer part |
| Parsing.ReadLoop | repl.hpp:56-73 | the reading loop never goes back; it reports running out exactly when it stopped past the last lexeme, and otherwise stopped on an RPAREN |
| Parsing.ReadLoopAtom | repl.hpp:63-71 | an atom lexeme appends one element and the loop moves on by one |
| Parsing.ReadLoopOpen | repl.hpp:58-60 | an LPAREN reads a nested list, appends it as one element and resumes after the lexeme where the nested read stopped |
| Parsing.ReadLoopParse | repl.hpp:58-60 | the same, in terms of the reader itself called at the LPAREN |
| Parsing.ReadLoopSkip | repl.hpp:57-72 | an ERROR lexeme contributes nothing |
| Parsing.ReadLoopClose | repl.hpp:61-62 | an RPAREN ends the loop with what was read so far |
| Parsing.ReadLoopEnd | repl.hpp:56 | the loop ends at the end of the lexemes, having run out |
| Parsing.ReadLoopReadsBack | repl.hpp:56-73 | the lexemes of a sequence of data followed by an RPAREN are read back as exactly that sequence, stopping on the RPAREN |
| Parsing.ParseSerialized | repl.hpp:51-81 | round trip: both readers return exactly the list whose lexemes they are given, stopping on its last lexeme |
| Parsing.MgclispReadsNoReals | mgclisp.cpp:27-29 | the mgclisp.cpp reader never produces a Real, however deeply nested |
| Parsing.ParseExamples | repl.hpp:74-80 | repl.hpp quotes a top-level atom but mgclisp.cpp does not; an RPAREN returns without quoting; an ERROR lexeme inside a list is dropped |
| Parsing.MgcParseToList | mgclisp.cpp:11-33 | returns the list and final index that the functional reader `Parse` gives, and so the round trip above |
| Parsing.ReplParseToList | repl.hpp:51-81 | returns the list and final index `Parse` gives, including the top-level quote, and so the round trip above |
| StaleTail.Append | lisp_objects.hpp:144-153 | append counts one more element and makes the new cell the tail |
| StaleTail.PushAsWritten | lisp_objects.hpp:154-159 | push makes the new cell the head but leaves a non-null tail where it was, even if the list is empty |
| StaleTail.PushChecked | list.hpp:120-129 | the list.hpp push makes the new cell head and tail of a list that was empty |
| StaleTail.PopFront | lisp_objects.hpp:212-219 | pop_front frees the head cell and counts one fewer but keeps the tail |
| StaleTail.PushAfterPopLosesAppend | lisp_objects.hpp:154-159 | after append 1, pop_front, push 2, append 3 the list counts two elements but only 2 is reachable from head |
| StaleTail.PushCheckedAfterPopKeepsAppend | list.hpp:120-129 | the same sequence with the list.hpp push reaches both 2 and 3 |
| LispObjects.GetObjectType | objects.hpp:102-104 | the tag names exactly the object's variant |
| LispObjects.MakeIntObject | objects.hpp:41-46 | an AS_INT object with the given value |
| LispObjects.MakeRealObject | objects.hpp:48-58 | AS_INT exactly when the value has no fractional part, AS_REAL otherwise; the numeric value is kept |
| LispObjects.MakeSymbolObject | objects.hpp:60-65 | an AS_SYMBOL object that prints as its text and equals the symbol of that text |
| LispObjects.MakeListObject | objects.hpp:67-72 | an AS_LIST object holding the elements unchanged, printing as `( `, each element and a space, then `)` |
| LispObjects.MakeFunctionObject | objects.hpp:74-79 | an AS_FUNCTION object holding the procedure, printing as `(func)`, not equal even to itself |
| LispObjects.MakeBindingObject | objects.hpp:81-86 | an AS_BINDING object that prints as its symbol and compares by its symbol alone |
| LispObjects.MakeErrorObject | objects.hpp:88-93 | an AS_ERROR object that prints as its message and is not equal even to itself |
| LispObjects.MakeBoolObject | objects.hpp:95-100 | an AS_BOOL object printing as `true` or `false` |
| LispObjects.MakeBinding | objects.hpp:112-114 | a binding of the given symbol to the given value |
| LispObjects.AllocFunction | objects.hpp:129-136 | a procedure record holding parameters, body, environment and type exactly as given |
| LispObjects.MakeFunction | lisp_objects.hpp:324-331 | a PRIMITIVE record for the given native procedure |
| LispObjects.NatToString | lisp_objects.hpp:266 | the decimal text of a natural number is a nonempty string of digits |
| LispObjects.CompareObjectAtoms | lisp_objects.hpp:280-307 | a symbol equals exactly the symbols of the same text; functions and errors equal nothing; bindings compare by their symbols |
| LispObjects.CompareObjectSymmetric | lisp_objects.hpp:280-307 | compareObject is symmetric |
| LispObjects.StrictImpliesCompare | list.hpp:258-289 | whatever the list.hpp comparison equates, the lisp_objects.hpp comparison equates too |
| LispObjects.CompareObjectReflexive | lisp_objects.hpp:280-307 | both comparisons are reflexive on objects in which no function or error takes part |
| LispObjects.ListEqualsItsExtensions | lisp_objects.hpp:289-300 | a list whose elements hold no function or error equals every extension of itself, and the empty list equals every list |
| LispObjects.PrefixComparisonIsNotTransitive | lisp_objects.hpp:289-300 | (1) equals (1 2) and (1 3), which differ; () equals (1) under lisp_objects.hpp but not under list.hpp |
| LispObjects.IndexOf | lisp_objects.hpp:174-180 | the least index whose element compares equal to x, or -1 when none does |
| LispObjects.AddMissingKeepsPrefix | lisp_objects.hpp:187-193 | addMissing keeps the existing elements in place and only adds elements of the argument |
| LispObjects.AddMissingFindsAll | lisp_objects.hpp:187-193 | afterwards find locates every argument element that equals itself |
| LispObjects.Node.constructor | lisp_objects.hpp:105-109 | a node holds the given object and link |
| LispObjects.List.constructor | lisp_objects.hpp:119-123 | a new list is empty |
| LispObjects.List.Empty | lisp_objects.hpp:138-140 | true exactly when there are no elements |
| LispObjects.List.Size | lisp_objects.hpp:141-143 | the number of elements |
| LispObjects.List.First | lisp_objects.hpp:168-170 | the head node, null exactly for the empty list |
| LispObjects.List.Append | lisp_objects.hpp:144-153 | the elements become the old ones followed by obj, the count grows by one and the tail holds obj |
| LispObjects.List.Push | list.hpp:120-129 | the elements become obj followed by the old ones; on an empty list head and tail are the new node |
| LispObjects.List.PopFront | lisp_objects.hpp:212-219 | returns the head element and removes exactly it; tail is not touched |
| LispObjects.List.DeleteNth | lisp_objects.hpp:194-211 | removes exactly element n and keeps the order of the rest |
| LispObjects.List.Unlink | lisp_objects.hpp:198-209 | bypasses node n and moves tail back when node n was the last |
| LispObjects.List.Clear | lisp_objects.hpp:247-251 | pops until the list is empty |
| LispObjects.List.GetNthNode | lisp_objects.hpp:181-186 | node n, holding element n, or null one past the end |
| LispObjects.List.Find | lisp_objects.hpp:174-180 | the least index of an element comparing equal to obj, and -1 exactly when there is none |
| LispObjects.List.AddIfMissing | lisp_objects.hpp:189-191 | obj is appended exactly when find does not locate it |
| LispObjects.List.AddMissing | lisp_objects.hpp:187-193 | appends, in order, each element of the argument not found, counting those appended earlier in the same call |
| LispObjects.List.Copy | lisp_objects.hpp:233-238 | a new list with the same elements in the same order |
| LispObjects.List.CopyOmitNth | lisp_objects.hpp:239-246 | a new list of all elements but index n, a full copy when n is out of range |
| LispObjects.List.Rest | lisp_objects.hpp:171-173 | a new list of all elements but the first |
| LispObjects.List.AsString | lisp_objects.hpp:226-232 | the printed form of the list object holding these elements |
| LispObjects.List.Begin | list.hpp:229-231 | an iterator on the head node |
| LispObjects.List.End | list.hpp:232-234 | an iterator on null |
| LispObjects.ListIterator.constructor | list.hpp:20-22 | an iterator on the given node |
| LispObjects.ListIterator.Increment | list.hpp:32-35 | moves to the next node |
| LispObjects.Elements | list.hpp:155 | iterating from begin to end visits exactly the elements, head to tail |
| Bindings.FirstIndex | evalapply.hpp:68-74 | the least index whose binding's symbol equals the key, or -1 when none does |
| Bindings.LookupFirst | evalapply.hpp:68-74 | envLookUp returns the value of that first binding, and the error object `Not Found` exactly when there is none |
| Bindings.LookupAppend | evalapply.hpp:68-74 | in a concatenation the front answers whenever it binds the key |
| Bindings.DefineThenLookup | evalapply.hpp:76-81 | after define, a name that was bound keeps its old value; an unbound name gets the defined value |
| Bindings.AddMissingLookup | evalapply.hpp:224-225 | for a symbol, lookup after addMissing answers as if the whole argument had been appended |
| Bindings.Zip | evalapply.hpp:175-185 | exactly one binding per parameter, pairing the i-th parameter with the i-th value |
| Bindings.ZipLookup | evalapply.hpp:175-185 | a parameter looks up to the value at its first position; a non-parameter is unbound |
| Bindings.CallEnvLookup | evalapply.hpp:222-227 | in a call, a symbol is looked up among the parameters, then in the captured environment, then in the caller's |
| Bindings.LaterDefineVisible | evalapply.hpp:222-226 | a name defined in the captured environment after the closure was made is seen by its body, unless a parameter hides it |
| Primitives.StrLessStrictTotal | evalapply.hpp:136 | string `<` is a strict total order |
| Primitives.PrimitiveLess | evalapply.hpp:127-139 | a Bool: numbers compared by value, anything else by printed text |
| Primitives.PrimitiveGreater | evalapply.hpp:140-152 | the result is a Bool |
| Primitives.LessGreater | evalapply.hpp:127-152 | `>` is `<` with its operands swapped; `<` is asymmetric, and total on differently printed non-numbers |
| Primitives.PrimitiveEquals | evalapply.hpp:153-157 | the result is a Bool |
| Primitives.EqualsProperties | evalapply.hpp:153-157 | eq is symmetric and false across tags and for functions and errors; exact on symbols and bools, by value on numbers of one tag, by symbol on bindings, and on lists over the elements both have |
| Primitives.PrimitiveCar | evalapply.hpp:167-169 | one of the arguments, the first |
| Primitives.PrimitiveCdr | evalapply.hpp:171-173 | a list one shorter than the arguments, or empty |
| Primitives.CarCdr | evalapply.hpp:167-173 | car followed by cdr gives back the argument vector |
| Primitives.FoldSkipsNonNumbers | evalapply.hpp:205-213 | non-numeric arguments take no part in the arithmetic fold |
| Primitives.ApplyMathPrimitive | evalapply.hpp:202-215 | when the first argument is a number, a number equal to the left fold of the operation over the numeric arguments after it, non-numbers skipped; otherwise undefined |
| Primitives.PrimitiveResult | evalapply.hpp:115-173 | car returns one of its arguments, the comparisons a Bool, arithmetic a number |
| Primitives.TakesPositive | evalapply.hpp:83-93 | the positive branch is taken unless the test is false or the symbol NIL |
| Primitives.LambdaMakesClosure | evalapply.hpp:95-113 | a closure exactly when the parameters are a list without `..` or with it first found second to last; otherwise `<error>`, or undefined when the parameters are not a list |
| Primitives.LambdaClosureShape | evalapply.hpp:103-112 | the closure is VARLAMBDA exactly when `..` occurs, its parameters are the list without it, and it keeps the body and the current environment |
| Primitives.MisplacedEllipsis | evalapply.hpp:104-110 | a `..` first found anywhere but second to last gives `<error>` |
| Evaluator.GlobalBindings | evalapply.hpp:47-56 | the start-up environment holds one binding per primitive, in table order |
| Evaluator.PrimitiveNamesDistinct | evalapply.hpp:47-56 | no two primitives share a name |
| Evaluator.GlobalLookup | evalapply.hpp:47-56 | at start-up each primitive's name looks up to that primitive |
| Evaluator.SpecialFormNames | evalapply.hpp:42-46 | the table names define, if and lambda, which are distinct |
| Evaluator.FindSpecialForm | evalapply.hpp:259-264 | the position of the special form of that name, or -1 exactly when there is none |
| Evaluator.EvalApply.constructor | evalapply.hpp:40-57 | the global environment holds the ten primitives in order, the evaluator keeps the given arithmetic, and the invariant holds |
| Evaluator.EvalApply.AppendBinding | evalapply.hpp:79 | the environment gains exactly one binding at its end; every other environment is unchanged |
| Evaluator.EvalApply.AddBinding | evalapply.hpp:61-63 | the global environment gains the binding at its end |
| Evaluator.EvalApply.AddPrimitive | evalapply.hpp:64-66 | the global environment gains the binding of the name to the primitive |
| Evaluator.EvalApply.NewEnv | evalapply.hpp:176 | a fresh, empty environment joins the evaluator's lists |
| Evaluator.EvalApply.AddMissingTo | evalapply.hpp:224-225 | the environment becomes its addMissing with the other; every other environment is unchanged |
| Evaluator.EvalApply.EnvLookUp | evalapply.hpp:68-74 | the result of `Lookup`: the first binding's value or `Not Found` |
| Evaluator.EvalApply.MakeNewEnvironment | evalapply.hpp:175-185 | a fresh environment holding exactly the parameters zipped with the values; extra values are ignored |
| Evaluator.EvalApply.CallEnvironment | evalapply.hpp:222-226 | the call environment is the zip, then addMissing of the captured environment as it is now, then of the caller's |
| Evaluator.EvalApply.Eval | evalapply.hpp:231-278 | numbers, functions, errors and the empty list evaluate to themselves, a symbol to its lookup, a bool or binding to `Error during eval`, a non-empty list to `ListOutcome`, and a flat call (atomic elements, head naming no special form) to `FlatOutcome` in the environment as it was; evaluating an atom changes no environment; `(define name value)` with a self-evaluating value leaves env as it was plus that one binding at its end; the invariant is kept |
| Evaluator.EvalApply.EvalList | evalapply.hpp:253-276 | `ListOutcome`: a head naming a special form gives that form's outcome on the rest; a list of self-evaluating elements headed by a function is applied to the rest as `ApplyOutcome` says, and otherwise evaluates to itself; a flat call gives `FlatOutcome`: the head's value applied to the other values as `ApplyOutcome` says when it is a function, else the list of the values; `(define name value)` with a self-evaluating value leaves env as it was plus that one binding at its end |
| Evaluator.EvalApply.EvalCombination | evalapply.hpp:266-275 | for self-evaluating elements: a function head is applied to the rest as `ApplyOutcome` says (a primitive's result, print's zero object, the VARLAMBDA error, undefined for a lambda short of arguments, FuelOut with no fuel); any other head gives the list unchanged; for atomic elements the same holds of their values (`FlatOutcome`), a symbol's value being its lookup in the environment |
| Evaluator.EvalApply.EvalElements | evalapply.hpp:266-270 | one value per element, in order; self-evaluating elements are kept; when every element is atomic the values are exactly their `AtomValue`s in the environment as it was |
| Evaluator.EvalApply.ApplySpecial | evalapply.hpp:187-200 | define yields its label, now bound at the end of the environment, to the value itself when that evaluates to itself; lambda yields specialLambda's closure; if, with parts that evaluate to themselves, yields the branch `TakesPositive` selects; more than three or too few arguments are undefined; a two-argument define with a self-evaluating value leaves the environment as it was plus that one binding |
| Evaluator.EvalApply.EvalArguments | evalapply.hpp:188-197 | one value per argument, in order, up to the three flags; an argument comes through as it was when num_args is zero or its flag is NO_EVAL; when every argument it evaluates is atomic, no environment changes |
| Evaluator.EvalApply.SpecialDefine | evalapply.hpp:76-81 | appends (label, value) at the end of the environment and returns the label |
| Evaluator.EvalApply.SpecialIf | evalapply.hpp:83-93 | evaluates the branch `TakesPositive` selects |
| Evaluator.EvalApply.Apply | evalapply.hpp:217-229 | `ApplyOutcome`: a primitive gives `PrimitiveResult` on the arguments; a VARLAMBDA gives `An error in apply occured`; a lambda with too few arguments is undefined; with enough arguments and fuel, a body that is a symbol gives its lookup in `CallEnv` of the parameters, the captured environment and the caller's, and a self-evaluating body gives itself |
| Evaluator.EvalApply.ApplyLambda | evalapply.hpp:222-226 | the body is evaluated in `CallEnv` of the parameters, the captured environment as it is at the call and the caller's environment: a symbol body gives its lookup there, a self-evaluating body itself |
| Evaluator.EvalApply.PrimitivePrint | evalapply.hpp:158-166 | writes a line and returns the zero-initialised object, the Int 0 |
| Evaluator.EvalPlusExample | evalapply.hpp:266-275 | `(+ 1 2)` on a fresh evaluator gives the + primitive's result on 1 and 2 |
| Evaluator.PlusOutcome | evalapply.hpp:266-275 | in the start-up environment, the flat call `(+ 1 2)` comes out as the + primitive's result on 1 and 2 |
| Evaluator.EvalDefineExample | evalapply.hpp:187-200 | on a fresh evaluator `(define x 5)` yields `x`, and evaluating `(x)` afterwards gives `(5)`: lookup finds the new binding |
| Evaluator.DefineX | evalapply.hpp:76-81 | `(define x 5)` yields `x`; the global environment becomes what it was plus the binding of `x` to 5 |
| Evaluator.ReadX | evalapply.hpp:68-74 | `(x)` in a global environment that is one without `x` plus the binding of `x` to 5 gives `(5)` |
| Evaluator.ReadXOutcome | evalapply.hpp:68-74 | the flat call `(x)`, once `x` is appended as 5 to an environment that did not bind it, comes out as `(5)` |
| Evaluator.TableUnbound | evalapply.hpp:47-56 | in an environment binding a table's names in order, a name the table lacks is unbound |
| Evaluator.XUnboundAtStart | evalapply.hpp:47-56 | no start-up binding binds `x` |
| Evaluator.EvalApply.EvalExpression | evalapply.hpp:280-282 | evaluates the list in the global environment: the empty list gives itself, any other list `ListOutcome` with the global environment, and a flat call `FlatOutcome` in the global environment as it was; a top-level `(define name value)` with a self-evaluating value leaves the global environment as it was plus that one binding |

## Findings

| source | as written | input that shows it | evidently intended | confidence | as-written member | corrected member |
|---|---|---|---|---|---|---|
| lisp_objects.hpp:154-159 | push sets `tail` only when it is null, and pop_front never resets `tail`, so after a list is emptied `tail` still points at a freed cell | append(1), pop_front(), push(2), append(3): count is 2 but only 2 is reachable from head, and 3 is linked to the freed cell | push sets `tail` whenever the list is empty, as list.hpp:120-129 does | high, not executed | StaleTail.PushAfterPopLosesAppend | LispObjects.List.Push |

The corrected behaviour is proved in two places. `StaleTail.PushChecked` and
`StaleTail.PushCheckedAfterPopKeepsAppend` run the same sequence on the
corrected push. `LispObjects.List.Push` is the push the rest of the model
uses; it keeps `head == tail` on an empty list and the `List` invariant.

## Left out

- Console I/O is not modelled: `REPL::start` (repl.hpp:25-49, mgclisp.cpp:40-50), `main`, `List::print` and the diagnostic `cout`s. The text `primitivePrint` writes is appended to the evaluator's `output` sequence instead.
- Floating point is not modelled. A `double` is a Dafny `real`.
  - The IEEE arithmetic of `+ - * /` is the parameter `arith` of the evaluator.
  - Numeric comparison is exact.
  - `stof` on the texts the lexers produce is an exact decimal.
  - `to_string(double)` is six decimals truncated, where the real function rounds.
- 32-bit integers are not modelled. Integers are unbounded, so `atoi` overflow and the out-of-range `double`-to-`int` conversion in `makeRealObject` are not captured.
- Memory management is not modelled: destructors, `destroyList`, `destroyObject` and the leaks in `operator=`. Lists are garbage-collected references, and a deleted node simply becomes unreachable.
- `List::operator=` and the `List` copy constructor are not modelled; `Copy` covers the same element copying.
- The member-function pointers of the procedure and special-form records are replaced by the enumerations `PrimOp` and `SpecialKind`.
- `addPrimitive` passes `numArgs` to `makeFunction`, which takes one argument (evalapply.hpp:65). The model ignores `numArgs`.
- The `Procedure` type of list.hpp:297-304 and `setTrace` (repl.hpp:41) are not part of this model.
- Undefined behaviour in the source is modelled in one of two ways.
  - In the evaluator it becomes the distinguished error object `Undefined`:
    - an argument read through a null node;
    - a flag index of 3 or more;
    - arithmetic starting from a non-number;
    - a lambda called with too few arguments;
    - lambda parameters that are not a list.
  - Elsewhere the member has a precondition instead (the entries below).
- Lists wrapped in objects are values (`seq<Object>`), because the code never changes a list after wrapping it. The sharing of a parameter list between a `lambda` form and its closure is therefore not observable.
- Evaluator.EvalApply.Eval: it may not terminate in the source. The model gives it `fuel`: every lambda call and every `print` spends one unit, and a call with no fuel left yields the error object `<out of fuel>`.
- Evaluator.EvalApply.Eval: a non-empty list's value is stated only as far as `ListOutcome` and `FlatOutcome` state it. No value is stated for an element that is itself a non-empty list, for `if` whose parts need evaluating, or for a lambda body that is a list. The environment after a define is stated in full only for a self-evaluating value. Eval has no functional counterpart.
- Evaluator.EvalApply.Apply: for a lambda called with enough arguments and fuel, the result is stated only for a body that is a symbol or evaluates to itself. Eval has no functional counterpart to state it by. The same holds for Evaluator.EvalApply.ApplyLambda.
- Evaluator.EvalApply.EvalList: the result of `if` is stated only when its parts evaluate to themselves, and that of a combination only when its elements are atomic (none is a non-empty list). For a lambda head, only the cases that do not evaluate the body are stated. Eval has no functional counterpart.
- Evaluator.EvalApply.EvalCombination: the result is stated only when no element is itself a non-empty list. For a lambda head with enough arguments and fuel, the body's value is not stated.
- Evaluator.EvalApply.EvalExpression: the result of a non-empty expression is stated only as far as `ListOutcome` and `FlatOutcome` state it; an element that is itself a non-empty list is not followed.
- Evaluator.EvalApply.ApplySpecial: the value define binds is stated only when it evaluates to itself. The whole new environment is stated only for two arguments, since a third argument is evaluated and may change environments. The result of `if` is stated only when its three parts evaluate to themselves.
- Evaluator.EvalApply.SpecialIf: the result is stated only when the selected branch evaluates to itself.
- Evaluator.EvalApply.EvalElements: the values are stated only for elements that evaluate to themselves, or when every element is atomic.
- Evaluator.EvalApply.EvalArguments: the values are stated only for arguments that are not evaluated or evaluate to themselves.
- Evaluator.EvalApply.PrimitivePrint: states that a line is written, not its text.
- Evaluator.EvalApply.EnvLookUp: requires an environment made only of bindings; any other entry is read through the wrong union member in the source.
- Scanning.Buffer.constructor: the source leaves the fields uninitialised; the model starts empty at position 0.
- Scanning.Stack.Pop: requires a non-empty stack; `top` of an empty `std::stack` is undefined.
- Scanning.Buffer.Reverse: requires the cursor to be at most at the end; reading further is undefined in the source.
- LispObjects.List.PopFront: requires a non-empty list; the source dereferences a null head otherwise.
- LispObjects.List.DeleteNth: requires `0 <= n < count`; the source walks past the end otherwise.
- LispObjects.List.GetNthNode: requires `n <= count`; the source dereferences null otherwise.
- LispObjects.AllocFunction: requires a LAMBDA or VARLAMBDA type, the only ones its callers pass.
- Primitives.PrimitiveCar: requires an argument; the empty case is `Undefined` in `PrimitiveResult`.
- Bindings.Zip: requires at least as many values as variables; with fewer, `makeNewEnvironment` reads through null.
- Parsing.MgcParseToList: requires `index` inside the lexeme vector, which the source reads unchecked. The same holds for Parsing.ReplParseToList.
- Parsing.Atoi: the value is not reduced to 32 bits.
- Primitives.PrimitiveGreater: its own contract states only that the result is a Bool; its meaning is stated by `LessGreater`.
- Primitives.PrimitiveEquals: its own contract states only that the result is a Bool. Its meaning is stated by `EqualsProperties`, which covers every pair of tags, and by the `compareObject` lemmas `CompareObjectAtoms`, `CompareObjectSymmetric` and `ListEqualsItsExtensions`.
- Characters: a Dafny `char` stands for one byte of a `std::string`, and `IsDigit` and `IsAlpha` are the ASCII classes of the C locale. A multi-byte UTF-8 character is several bytes in the source, so it may lex differently there than as the one `char` of the model.
