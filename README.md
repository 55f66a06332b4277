# Three small C programs, modelled and verified in Dafny

The repository holds three independent command-line programs. This project
models the core of each one and proves what its code promises.

- **Expression evaluator** (`main.c`). It reads arithmetic expressions line by line and rejects lines that are empty, blank or contain `{ } [ ]`. A line that passes is first normalised:
  - a typographic dash becomes `-`;
  - `**` becomes `^`;
  - a standalone `e` becomes `2.7182818`;
  - every `f` is dropped;
  - `-(` becomes `-1*(`.

  The line is then split into tokens. A sign inside `( … )` or at an operand position joins its number, and a run of digits, `.`, `e`, `E`, `+` and `-` is a single token. The tokens are converted to postfix by the shunting-yard algorithm, using a string stack of operators. The postfix is evaluated on a stack of doubles. The output is either the postfix and its value, or "Invalid Expression".
- **Polynomial calculator** (`C.c`). Each line is edited in place: `**` becomes `^`, then spaces are removed. The line is parsed into the coefficients of degrees 0..100. Two polynomials are added coefficient by coefficient and multiplied into degrees 0..200. Each result is printed from the highest degree down.
- **Actor-graph analyses** (`claude.c`). A graph is stored as adjacency lists, where a new edge is put at the head of its list. A breadth-first search on an array queue computes distances. Connected components are counted by a stack-based depth-first search started at each vertex not yet visited. The program also finds the vertex that reaches the most vertices within three edges. Finally it chooses, greedily, vertices until every vertex lies within three edges of a chosen one.

The model follows the code closely:
- state the C code changes in place becomes classes and arrays:
  - the two stacks and the queue are classes;
  - the polynomial buffers and the BFS/DFS arrays are `array`s;
- each loop becomes a `method` whose `ensures` ties the new state to a specification function. Examples are `Normalize`, `Tokenize`, `Convert`, `Evaluate`, `ReplaceStars`, `NoSpaces`, `Parse`, `PolyText`, `Add` and `Product`, and, for the graph loops, shortest distances (`ShortestDist`), reachability (`Reachable`) and `Within`;
- the properties the programs rely on are proved as lemmas about those functions.

A tokenizing or conversion failure prints the single line "Invalid Expression" (main.c:250-259). The `Postfix:` line is printed only once conversion has succeeded (`LineProcessing.Run`, `ShownExactly`).

Modules:
- `Common` (`common.dfy`) holds shared helpers: digits, the decimal text of a number, and `Option`;
- files named `expr_*` model `main.c`;
- files named `poly_*` model `C.c`;
- files named `graph_*` model `claude.c`.

## Model

| member | source | states |
|---|---|---|
| Common.NatTextValue | C.c:92 | The decimal text that `%d` prints for a natural number reads back as that number. |
| Normalizer.HasBracketFrom | main.c:223-226 | True exactly when a `{`, `}`, `[` or `]` occurs at or after the given position. |
| Normalizer.BlankSpan | main.c:227 | The length of the longest prefix made of blanks (space, tab, CR, LF), as `strspn` computes it. |
| Normalizer.IsInvalidLine | main.c:222-228 | A line is rejected exactly when it holds a bracket, is empty, or consists of blanks only. |
| Normalizer.PreprocessLine | main.c:51-92 | The scan through a scratch buffer produces `Normalize(line)`, the left-to-right application of the dash, `**`, `e`, `f` and `-(` rules. |
| Normalizer.PlainUnchanged | main.c:85-87 | A line containing none of the characters that trigger a rule is copied unchanged. |
| Normalizer.NormalizedHasNoF | main.c:74-77 | No `f` survives normalisation. |
| Normalizer.NormalizedLength | main.c:68-73 | The normalised line is at most nine times as long as the input, the worst case being `e` expanded to nine characters. |
| Normalizer.Unfold | main.c:55-88 | One pass of the loop: the rule that applies at `i` emits its text and the scan goes on after the characters that rule consumed. |
| Normalizer.CutFrom | main.c:55-88 | At a seam, a position that no rule's window crosses, the line normalises as the part before the seam followed by the part after it. |
| Normalizer.RuleInContext | main.c:55-88 | Whatever precedes a seam, the rule at the seam emits its text between the normalised prefix and the normalised rest. |
| Normalizer.PowerInContext | main.c:63-67 | `**` becomes `^` at any position not preceded by `*`, whatever surrounds it. |
| Normalizer.NegatedGroupInContext | main.c:78-83 | `-(` becomes `-1*(` at any position, whatever surrounds it. |
| Normalizer.DashInContext | main.c:56-62 | The three-byte en or em dash becomes `-` at any position, whatever surrounds it. |
| Normalizer.EulerInContext | main.c:68-73 | An `e` with no letter or digit on either side becomes `2.7182818` at any position. |
| Normalizer.SuffixInContext | main.c:74-77 | An `f` that no earlier rule consumed is dropped at any position. |
| Normalizer.CopyInContext | main.c:84-87 | A character no rule takes is copied as it is, at any position. |
| Normalizer.PowerExample | main.c:63-67 | `2 ** 3` becomes `2 ^ 3`. |
| Normalizer.NegatedGroupExample | main.c:78-83 | `2*-(1+2)` becomes `2*-1*(1+2)`. |
| Normalizer.EulerExample | main.c:68-73 | `2*e` becomes `2*2.7182818`. |
| Normalizer.SuffixExample | main.c:74-77 | `1.5f` becomes `1.5`. |
| Normalizer.DashExample | main.c:56-62 | The three-byte en dash becomes `-`. |
| Normalizer.MinusExample | main.c:84-87 | A minus not followed by `(` is copied: `7-2` is unchanged. |
| Lexer.SpaceEnd | main.c:100 | The first position at or after `i` that is not white space. |
| Lexer.RunEnd | main.c:141-146 | The end of the maximal run of digits, `.`, `e`, `E`, `+` and `-`. |
| Lexer.SignedEnd | main.c:124-130 | The end of a signed literal: digits and points, then an optionally signed exponent. |
| Lexer.Step | main.c:103-151 | One pass of the loop either fails or consumes at least one character and appends exactly one token, leaving earlier tokens intact. |
| Lexer.SkipSpaces | main.c:100 | Returns the first non-space position. |
| Lexer.ScanRun | main.c:109-113 | Returns the end of the numeric run. |
| Lexer.ScanSigned | main.c:124-130 | Returns the end of the signed literal that the two loops scan. |
| Lexer.ReadToken | main.c:103-151 | Reads one token exactly as `Step` specifies, including the -1 failure at an unknown character. |
| Lexer.TokenizeLine | main.c:95-155 | Returns -1 exactly when the line cannot be tokenized; otherwise the count is the number of tokens and the tokens are `Tokenize(line)`. |
| Lexer.LexAfterSpaces | main.c:100-101 | Skipping white space before a token does not change the tokens produced. |
| LexerFacts.StepOk | main.c:103-151 | Every token produced is non-empty and made of characters the lexer accepts. |
| LexerFacts.LexOk | main.c:98-155 | Successful lexing yields well-formed tokens, and every character scanned is white space or a lexer character. |
| LexerFacts.TokenizeOk | main.c:95-155 | Same as `LexOk`, for a whole line. |
| LexerFacts.LexTotal | main.c:149-151 | Lexing cannot fail when every character is white space or can start a token. |
| LexerFacts.TokenizeTotal | main.c:149-151 | The only failure is a character that cannot start a token. |
| LexerFacts.NumberAt | main.c:140-148 | At any position and after any tokens, a run of number characters starting with a digit or `.` is one token, even when it holds `-` or `+`, and reading goes on where the run stops. |
| LexerFacts.PunctAt | main.c:136-139 | At any position, each of `( ) + - * / ^` is a one-character token, except a sign where an operand is expected and a `(` that opens a grouped literal. |
| LexerFacts.SignSplitsAt | main.c:121-148 | Where no operand is expected (after a number or `)`), a sign and the numeric run after it are two tokens. |
| LexerFacts.SignJoinsAt | main.c:120-134 | Where an operand is expected (at the start, after an operator or after `(`), a sign, the digits and points after it and an optionally signed exponent part are one token, at any position. |
| LexerFacts.GroupedLiteralAt | main.c:103-118 | At any position and after any tokens, `(`, a sign and a numeric run are one token without the `(`; a `)` right after the run is skipped, and when there is none reading simply goes on. |
| LexerFacts.NumericRun | main.c:140-148 | After any tokens, a line that is one numeric run gives that run as its only new token. |
| LexerFacts.SignJoins | main.c:120-134 | After any tokens that expect an operand, a sign with a mantissa and an optional exponent part is one new token. |
| LexerFacts.SignSplits | main.c:121-148 | After tokens that do not expect an operand, a sign and a numeric run are two new tokens. |
| LexerFacts.GroupedLiteral | main.c:103-118 | After any tokens, `(`, a sign and a run, with or without the closing `)`, are one new token without the parentheses. |
| LexerFacts.RunExample | main.c:140-148 | `2-1` is one token. |
| LexerFacts.GroupedExample | main.c:103-118 | `(-1.0)` is the single token `-1.0`. |
| LexerFacts.UnaryExample | main.c:120-134 | `-3` is one token. |
| LexerFacts.SignAfterOperatorExample | main.c:120-139 | `2*-3` gives `2`, `*`, `-3`: after an operator the minus joins the number. |
| LexerFacts.SignAfterNumberExample | main.c:99-148 | `2 -3` gives `2`, `-`, `3`: after a number the minus is an operator, whatever blanks surround it. |
| LexerFacts.ExponentThenGroupExample | main.c:99-134 | `-1e+2 (+4` gives `-1e+2` and `+4`: the exponent's sign stays in the literal and a grouped literal may lack its `)`. |
| Tokens.Precedence | main.c:33-38 | Precedence is at most 3 and is positive exactly for the operators `+ - * / ^`. |
| Tokens.ScanMantissa | main.c:45-49 | Reads the sign, integer digits, point and fraction digits of a token; the literal spells back the prefix it consumed. |
| Tokens.ScanExponent | main.c:45-49 | An accepted exponent is `e` or `E`, an optional sign and at least one digit, and spells back the rest of the token. |
| Tokens.ScanLiteral | main.c:45-49 | A token read as a literal is well formed. |
| Tokens.ScanLiteralSpells | main.c:45-49 | A scanned literal spells back exactly the token, so no characters are left over (`*end == '\0'`). |
| Tokens.SpellScans | main.c:45-49 | Every well-formed literal's spelling scans back to the same literal. |
| Tokens.NumberScans | main.c:45-49 | The character-by-character number recogniser accepts exactly the tokens that scan as a literal. |
| Tokens.DigitNumber | main.c:45-49 | A single digit is a number with that value. |
| Tokens.NotNumbers | main.c:45-49 | Parentheses and operators are not numbers. |
| Stacks.DoubleStack.constructor | main.c:22 | A new value stack is empty. |
| Stacks.DoubleStack.Top | main.c:22-23 | The index of the top is -1 exactly when the stack is empty, and is the size minus one. |
| Stacks.DoubleStack.Push | main.c:24 | The value goes on top. |
| Stacks.DoubleStack.Pop | main.c:25 | On an empty stack, returns 0 and leaves the stack unchanged; otherwise removes and returns the top. |
| Stacks.StringStack.constructor | main.c:27 | A new operator stack is empty. |
| Stacks.StringStack.Peek | main.c:31 | Nothing on an empty stack, otherwise the top. |
| Stacks.StringStack.Push | main.c:29 | The string goes on top. |
| Stacks.StringStack.Pop | main.c:30 | Returns what `Peek` showed and removes it, if there was one. |
| Postfix.PopHigherOnto | main.c:174-177 | Moves operators of at least the given precedence from the stack to the output, as `PopHigher` specifies. |
| Postfix.UnwindOnto | main.c:167-172 | Succeeds exactly when `Unwind` succeeds, that is when a `(` is on the stack, and leaves `Unwind`'s stack and output. |
| Postfix.ShuntToken | main.c:163-181 | Handles one token as `Shunt` specifies, failing exactly where `Shunt` fails. |
| Postfix.ToPostfix | main.c:157-190 | Returns -1 exactly when conversion fails; otherwise the count is the length of the output and the output is `Convert(tokens)`. |
| PostfixFacts.NumbersAppend | main.c:163-164 | The numbers of a concatenation are the numbers of its parts, in order. |
| PostfixFacts.NumbersOfOperator | main.c:173-178 | Emitting an operator or a parenthesis adds no number. |
| PostfixFacts.PopHigherKeeps | main.c:174-177 | Popping higher operators keeps the stack well formed, keeps its open parentheses, keeps the numbers of the output, and emits only operators. |
| PostfixFacts.UnwindKeeps | main.c:167-172 | Unwinding succeeds exactly when an open parenthesis is on the stack, and then removes exactly one of them. |
| PostfixFacts.FlushKeeps | main.c:184-187 | The final flush succeeds exactly when no `(` is left, and emits only operators. |
| PostfixFacts.ShuntNumber | main.c:163-164 | A number goes straight to the output. |
| PostfixFacts.ShuntOperator | main.c:173-178 | An operator pops those of at least its precedence and is then pushed. |
| PostfixFacts.ShuntKeeps | main.c:162-181 | One token step succeeds exactly when the token is recognised and a `)` has an open `(`. It tracks the open count and appends the token's numbers to the output. |
| PostfixFacts.ConvertFromKeeps | main.c:162-187 | The conversion loop succeeds exactly when every token is recognised and the parentheses balance. |
| PostfixFacts.BalancedStep | main.c:165-172 | Balance is decided token by token from the running open count. |
| PostfixFacts.ConvertSucceeds | main.c:157-190 | Conversion succeeds exactly when every token is a number, a parenthesis or an operator, and the parentheses balance. |
| PostfixFacts.ConvertOutput | main.c:157-190 | The output holds numbers and operators only, with the input's numbers in their original order. |
| PostfixFacts.TwoOperands | main.c:173-178 | After `a op b` the output is `a b` and `op` waits on the stack. |
| PostfixFacts.ThreeOperands | main.c:173-178 | For `a o1 b o2 c`, `o1` is emitted first when its precedence is at least that of `o2`, so equal precedence, `^` included, groups to the left. Otherwise `o2` is emitted first. |
| PostfixFacts.ConvertExamples | main.c:157-190 | `3 + 4 * 2` gives `3 4 2 * +`, and `2 ^ 3 ^ 2` gives `2 3 ^ 2 ^`. |
| Evaluator.ReduceToken | main.c:196-214 | Handles one postfix token as `Reduce` specifies. It fails exactly on a stack underflow, on division by zero or on an unknown token. |
| Evaluator.EvaluatePostfix | main.c:192-220 | Returns 1 exactly when `Evaluate` yields a value, and then the result is that value. |
| Evaluator.EvalFromShape | main.c:196-219 | From any stack, evaluation succeeds only on a well-shaped sequence, and always does so when there is no `/`. |
| Evaluator.EvaluateShape | main.c:192-220 | Success implies that every operator meets two operands and exactly one value is left at the end. Conversely, such a sequence without `/` always evaluates. |
| Evaluator.EvaluateFailures | main.c:208-219 | Division by zero fails, and two numbers with no operator fail the final stack check. |
| Expressions.OpenStep | main.c:165-166 | `(` is pushed onto the operator stack. |
| Expressions.OperatorStep | main.c:173-178 | An operator directly after `(` is pushed without popping anything. |
| Expressions.CloseStep | main.c:167-172 | `)` emits the operator above its `(` and removes both. |
| Expressions.ConvertInfix | main.c:162-187 | Converting the fully parenthesised infix token sequence of any expression tree emits exactly its postfix, whatever surrounds it. |
| Expressions.EvaluatePostfixOf | main.c:196-215 | Evaluating a tree's postfix pushes the tree's value, or fails exactly when the tree divides by zero. |
| Expressions.ApplyStep | main.c:199-211 | An operator pops two values and pushes their combination; division by zero fails. |
| Expressions.Pipeline | main.c:157-220 | For every expression tree, conversion of its infix gives its postfix, and evaluation of that postfix gives the tree's value. |
| LineProcessing.ProcessLine | main.c:238-276 | Checks, normalises, tokenizes, converts and evaluates one line as `Run` specifies. |
| LineProcessing.ShownIsPostfix | main.c:255-275 | Whenever a postfix is shown, it is non-empty and holds only numbers and operators, with the line's numbers in order. Its result exists only for a well-shaped postfix, and always exists for a well-shaped one without `/`. |
| LineProcessing.ShownExactly | main.c:241-260 | A postfix is shown exactly when the line passes the validity check, tokenizes, every token is recognised, the parentheses balance, and the postfix is non-empty. |
| PolyEdit.NoSpaces | C.c:9-17 | Removing spaces never lengthens the text. |
| PolyEdit.RemoveSpaces | C.c:9-17 | The buffer, changed in place, ends up holding `NoSpaces` of the old string, terminated by NUL. |
| PolyEdit.NoSpacesHasNoNul | C.c:9-17 | Every character kept comes from the input, so no NUL appears early. |
| PolyEdit.NoSpacesAppend | C.c:9-17 | Removing spaces works piece by piece. |
| PolyEdit.NoSpacesSound | C.c:9-17 | No space is left, every other character keeps its count, and a text without spaces is unchanged. |
| PolyEdit.NoSpacesIdempotent | C.c:9-17 | Removing spaces twice is the same as once. |
| PolyEdit.ReplaceStars | C.c:19-30 | The rewrite never lengthens the text. |
| PolyEdit.Length | C.c:20 | `strlen`: the position of the terminating NUL. |
| PolyEdit.ShiftLeft | C.c:24-26 | Moves the characters after `from` one place left, terminator included, and leaves the prefix alone. |
| PolyEdit.ReplaceAt | C.c:22-27 | Replaces the pair at `i` by `^` and shortens the string by one. |
| PolyEdit.ReplaceDoubleStar | C.c:19-30 | The buffer, changed in place, ends up holding `ReplaceStars` of the old string, terminated by NUL. |
| PolyEdit.NoDoubleStarLeft | C.c:19-30 | No `**` is left after the rewrite. |
| PolyEdit.NoPairUnchanged | C.c:21-22 | A string without `**` is unchanged. |
| PolyEdit.ReplaceStarsIdempotent | C.c:19-30 | Rewriting twice is the same as once. |
| PolyEdit.ReplaceStarsCounts | C.c:23-27 | Each replacement shortens the text by one, adds one `^` and removes two `*`. |
| PolyEdit.ReplaceStarsKeeps | C.c:19-30 | Every character other than `*` and `^` keeps its count. |
| PolyEdit.ReplaceStarsExamples | C.c:21-29 | Pairs are taken left to right: `****` becomes `^^`, `***` becomes `^*`, and `x**2` becomes `x^2`. |
| PolyEdit.IsBlankLine | C.c:32-37 | True exactly when every character is white space. |
| PolyParse.Zeros | C.c:40 | The all-zero coefficient list. |
| PolyParse.ReadTerm | C.c:44-77 | One term is read without moving backwards or past the end. |
| PolyParse.Caret | C.c:61-74 | In parsable text, a `^` follows an `x`. |
| PolyParse.TermAdvances | C.c:43-82 | On parsable text each pass of the loop consumes at least one character and does not stop at a `^`, so the loop ends. |
| PolyParse.ParseFromStep | C.c:43-82 | Parsing is reading one term, adding it at its degree, and parsing the rest with the term's sign. |
| PolyParse.Parse | C.c:39-83 | Parsing yields exactly the coefficients of degrees 0..100. |
| PolyParse.ReadDigits | C.c:55-59 | Stops at the first non-digit and returns the decimal value of the digits read. |
| PolyParse.ReadTermAt | C.c:44-77 | Reads the term at `i` as `ReadTerm` specifies. |
| PolyParse.ReadUnsignedAt | C.c:55-77 | Reads the coefficient and the power as `ReadUnsigned` specifies. |
| PolyParse.ReadPowerAt | C.c:64-74 | Reads the power after `x`: 1 with no `^`, otherwise the digits after it. |
| PolyParse.ZeroFill | C.c:40 | `memset` leaves every coefficient 0. |
| PolyParse.AddInto | C.c:79-81 | Adds the signed coefficient at its degree when that is at most 100; otherwise the list is unchanged. |
| PolyParse.ParsePolynomial | C.c:39-83 | The coefficient array ends up as `Parse(line)`. |
| PolyPrint.WriteTerm | C.c:89-99 | Produces the text of one non-zero term, `TermText`. |
| PolyPrint.PrintPolynomial | C.c:85-105 | Produces `PolyText` of the coefficients followed by a newline. |
| PolyPrint.PrintExamples | C.c:89-99 | A leading negative term prints as ` - x^2`, a later +1x as ` + x`, the constant -1 as ` - 1`, and `7x^3` as is. |
| PolyFacts.CompactTermIs | C.c:89-99 | One printed term with its spaces removed is its compact form. |
| PolyFacts.CompactTermsAre | C.c:87-102 | Printed terms with their spaces removed are their compact forms. |
| PolyFacts.CompactTermParsable | C.c:89-99 | A compact term is parsable text. |
| PolyFacts.CompactTermsParsable | C.c:87-102 | Compact terms are parsable, and every term after the first starts with a sign. |
| PolyFacts.TermReads | C.c:44-77 | The parser reads a compact term back as its sign, magnitude and degree. |
| PolyFacts.ParseTerms | C.c:43-82 | Parsing the compact terms from a degree down to 0 rebuilds the coefficients. |
| PolyFacts.TermsStarFree | C.c:85-105 | The printed text of the terms holds no `*`. |
| PolyFacts.PrintedStarsUnchanged | C.c:19-30 | `replace_double_star` leaves any printed polynomial unchanged. |
| PolyFacts.RoundTrip | C.c:155-161 | The printed text of any polynomial, put through the program's per-line edits (`**` to `^`, then removing spaces), is parsable and parses back to the same coefficients of degrees 0..100. |
| PolyFacts.ZeroParses | C.c:39-83 | `0` parses to the zero polynomial. |
| PolyFacts.ZeroText | C.c:103 | The output is `0` exactly when every coefficient of degrees 0..100 is zero. |
| PolyFacts.PrintIgnoresHigh | C.c:87 | Coefficients above degree 100 never affect the output. |
| PolyFacts.Monomial | C.c:39-105 | A printed monomial parses back to that single coefficient. A degree above 100 is dropped. |
| PolyFacts.SignCarries | C.c:41-53 | The sign is not reset between terms: `-x3` parses as `-x - 3`. |
| PolyArith.AddPolynomials | C.c:107-111 | Degrees 0..100 of the result are the sums of the two inputs' coefficients; the rest of the buffer is untouched. |
| PolyArith.MultiplyPolynomials | C.c:113-121 | The result array is `Product`, every cross term summed at degree `i + j`. |
| PolyArith.RowSumDistributes | C.c:113-121 | Each partial row sum of the double loop splits over a sum of the second operand. |
| PolyArith.ProductDistributes | C.c:107-121 | Multiplying by a sum of two polynomials gives, degree by degree, the sum of the two products. |
| PolyArith.ProductByOne | C.c:113-121 | Multiplying by 1 gives the polynomial back, padded with zeros. |
| PolyArith.ProductLeading | C.c:113-121 | The leading coefficient of a product is the product of the leading coefficients, and the degrees add. |
| Graphs.Graph.constructor | claude.c:21-32 | A new graph has `n + 1` empty adjacency lists and is well formed. |
| Graphs.Graph.AddEdge | claude.c:43-47 | The target is put at the head of the source's list; the graph stays well formed when the target is a vertex. |
| Graphs.Range | claude.c:150-153 | The set of vertices `1..n` has `n` elements. |
| Graphs.ReachStep | claude.c:165-171 | A neighbour of a vertex within `k` edges is within `k + 1`. |
| Graphs.ReachableStep | claude.c:221-227 | A neighbour of a reachable vertex is reachable. |
| Graphs.ReachMono | claude.c:161-174 | The vertices within `j` edges are among those within `k >= j` edges. |
| Graphs.ReachInRange | claude.c:165-171 | From a vertex, only vertices `1..n` are reached. |
| Graphs.EdgeKeepsReach | claude.c:43-47 | Adding an edge never makes a vertex unreachable. |
| GraphQueue.Queue.constructor | claude.c:104-109 | A new queue is empty, with `rear` at -1. |
| GraphQueue.Queue.IsEmpty | claude.c:112-114 | True exactly when the queue holds nothing. |
| GraphQueue.Queue.Enqueue | claude.c:117-127 | On a full queue nothing changes; otherwise the value is appended. |
| GraphQueue.Queue.Dequeue | claude.c:130-142 | On an empty queue, returns -1. Otherwise it removes and returns the front, and resets both indices to -1 when the last item leaves. |
| Bfs.Fresh | claude.c:150-153 | Every vertex starts at distance `INF` and unvisited. |
| Bfs.Start | claude.c:146-159 | After initialisation only the start is visited, at distance 0 and queued, which establishes the search invariant. |
| Bfs.Mark | claude.c:167-170 | Visits a vertex one edge beyond the current one and queues it. |
| Bfs.Visit | claude.c:166-171 | Visiting a new neighbour keeps the inner-loop invariant and trades one unseen vertex for one queued one. |
| Bfs.Expand | claude.c:165-173 | Scanning every neighbour of the current vertex keeps the invariant. |
| Bfs.Round | claude.c:161-174 | One dequeue-and-expand keeps the outer invariant and shrinks the measure of queued plus unseen vertices. |
| Bfs.Bfs | claude.c:145-179 | Every vertex ends with its shortest distance from the start, or `INF` when it is unreachable. |
| Bfs.GetDistance | claude.c:182-187 | Returns -1 exactly when the target is unreachable, and otherwise its shortest distance. |
| Bfs.CountReachable | claude.c:244-256 | Counts exactly the vertices within `maxDist` edges of the start. |
| BfsFacts.DistanceUnique | claude.c:145-179 | A shortest distance is unique. |
| BfsFacts.StartOuter | claude.c:157-159 | The queue holding only the start satisfies the outer invariant. |
| BfsFacts.TakeFront | claude.c:161-162 | Dequeuing the front begins an inner loop over its neighbours. |
| BfsFacts.QueuedTail | claude.c:162 | The vertices left in the queue are still visited and numbered. |
| BfsFacts.PassSeen | claude.c:167 | Skipping a visited neighbour keeps the inner invariant. |
| BfsFacts.DiscoverFound | claude.c:167-171 | A newly visited neighbour has a path of the recorded length, and every visited vertex keeps its path. |
| BfsFacts.Finish | claude.c:165-173 | After its last neighbour the current vertex counts as expanded. |
| BfsFacts.WithinSeen | claude.c:161-174 | Once the queue is empty, every vertex within `k` edges is visited at distance at most `k`. |
| BfsFacts.BfsDone | claude.c:161-179 | When the search has drained, each recorded distance is the shortest one, and `INF` marks exactly the unreachable vertices. |
| BfsFacts.Drained | claude.c:161-179 | The outer invariant with an empty queue gives shortest distances everywhere. |
| BfsFacts.NearIffDist | claude.c:249 | A shortest distance is at most `m` exactly when the vertex is within `m` edges. |
| BfsFacts.Within | claude.c:244-256 | Exactly the vertices `1..i` within `m` edges of the start. |
| BfsFacts.WithinBounds | claude.c:244-256 | The count is at most `n`, and at least 1 when `m >= 0`, because the start counts itself. |
| Components.PushEdges | claude.c:221-227 | Pushes the unvisited neighbours in adjacency-list order. |
| Components.Search | claude.c:212-229 | After the depth-first search the visited marks are the earlier ones plus exactly the vertices reachable from the root. |
| Components.ClearVisited | claude.c:201-203 | Every vertex starts unvisited. |
| Components.Pass | claude.c:206-231 | One pass of the outer loop counts vertex `i` exactly when no lower-numbered vertex reaches it. |
| Components.CountComponents | claude.c:196-236 | The count is the number of vertices that no lower-numbered vertex reaches, that is, the roots the outer loop finds unvisited. |
| ComponentFacts.Roots | claude.c:206-232 | Exactly the vertices `1..i` that no lower vertex reaches. |
| ComponentFacts.RootsStep | claude.c:207-209 | Each vertex adds one to the count exactly when it is a new root. |
| ComponentFacts.RootsBounds | claude.c:196-236 | Vertex 1 is always counted, and there are at most `n` components. |
| ComponentFacts.NoEdgesAllRoots | claude.c:196-236 | A graph without edges has `n` components. |
| ComponentFacts.OneSourceOneRoot | claude.c:196-236 | If vertex 1 reaches every vertex there is exactly one component. |
| ComponentFacts.SkipMarked | claude.c:206-207 | A vertex already visited is not a new root. |
| ComponentFacts.StartMarked | claude.c:207-209 | A vertex still unvisited is a new root. |
| ComponentFacts.Searched | claude.c:206-231 | A completed search keeps the outer-loop invariant for the next vertex. |
| ComponentFacts.Unvisited | claude.c:221-227 | The neighbours pushed are neighbours, and include every unvisited one. |
| ComponentFacts.PopMarked | claude.c:215-217 | Popping a visited vertex keeps the search invariant. |
| ComponentFacts.PopFresh | claude.c:215-227 | Visiting a popped vertex and pushing its unvisited neighbours keeps the search invariant. |
| ComponentFacts.SearchDone | claude.c:212-229 | With the stack empty, the marked set is closed under edges and is the earlier set plus the root's reachable vertices. |
| Select.GainMembers | claude.c:295-302 | The gain of a candidate is exactly the uncovered vertices within three edges of it. |
| Select.GainStep | claude.c:295-302 | Each vertex adds one to the gain exactly when it is uncovered and near. |
| Select.NearSelf | claude.c:318-324 | A chosen vertex covers itself. |
| Select.BestPerson | claude.c:258-272 | Returns the first vertex whose count of vertices within three edges is the largest, together with that count. |
| Select.Clear | claude.c:281-284 | Nothing is covered or chosen at the start. |
| Select.NewCovered | claude.c:295-302 | Counts the uncovered vertices within three edges of the candidate. |
| Select.Candidate | claude.c:292-310 | Returns the first unchosen vertex with the largest positive gain and that gain, or -1 with 0 when no vertex adds anything. |
| Select.CoverFrom | claude.c:318-324 | Marks as covered exactly the vertices within three edges of the chosen vertex, keeping earlier marks. |
| Select.CoveredByStart | claude.c:281-284 | At the start, covered marks exactly what the (empty) choice reaches. |
| Select.ChooseCovers | claude.c:315-324 | After a choice, covered still marks exactly the vertices some chosen vertex reaches. |
| Select.ChooseGrows | claude.c:312-324 | A choice with positive gain covers strictly more vertices, so the loop ends. |
| Select.ChooseCounts | claude.c:315-316 | Each choice adds one to the number chosen. |
| Select.Saturated | claude.c:312 | When no unchosen vertex adds anything, every vertex is within three edges of a chosen one. |
| Select.GreedyCover | claude.c:275-337 | On exit every vertex lies within three edges of a chosen vertex, and the count is the number chosen, at most `n`. |

## Left out

- File input and the programs' `main` loops are not modelled: `fopen`, `fgets`, the newline stripping and the order in which lines are read. Each program's processing of one input is modelled. The polynomial program's per-line order (`replace_double_star`, then `remove_spaces`, then `parse_polynomial`, C.c:155-161) is followed by `RoundTrip`, which parses `NoSpaces(ReplaceStars(…))` of the printed text.
- Output formatting is represented only as text or values:
  - the `%.2f` rounding of results;
  - the headings printed by the polynomial program;
  - `printGraph`, the question 1 and 2 printing and `readGraphFromFile`.

  The graph file reader's parsing is left out.
- Floating point is not modelled:
  - expression values are exact reals;
  - `pow` is a parameter of the evaluator;
  - `strtod`'s rounding of the decimal text is not modelled, while which texts it accepts is.
- Fixed capacities are left out: `STACK_SIZE`, `MAX_TOKENS`, the `MAX_TOKEN_LEN` truncation of long tokens, and the `MAX_LINE` and 1024-byte buffers. All collections of the evaluator are unbounded sequences.
- The depth-first search stack of `countComponents` is a sequence. In the C code it has room for `n` entries, although a vertex can be pushed once per incoming edge. The model does not capture that overflow.
- BFS:
  - `createGraph` takes any number of vertices; `MAX_N` (1000) bounds only the BFS queue (claude.c:98), which keeps that capacity, so BFS requires `numVertices <= MaxN`;
  - the full-queue branch of `enqueue` is modelled but never taken by BFS, because each vertex is queued once.
- `dist[0]` and `visited[0]` are left uninitialised by the C code. The model says nothing about slot 0.
- `malloc`/`free` and the graph's linked-list nodes are not modelled. An adjacency list is a sequence whose head is the most recently added edge.
- PolyArith.AddPolynomials: 32-bit `int` overflow of the coefficient sums (C.c:109) is not modelled; integers are unbounded.
- PolyArith.MultiplyPolynomials: 32-bit `int` overflow of the products `a[i] * b[j]` and of their running sums (C.c:118) is not modelled.
- PolyParse.ReadDigits: 32-bit `int` overflow of `coef = coef * 10 + …` (C.c:56) and of `degree = degree * 10 + …` (C.c:67) is not modelled.
- PolyParse.ParsePolynomial: in the C code a degree that wraps around to a negative `int` passes `degree <= MAX_DEGREE` (C.c:79) and writes before the start of `coeff`. In the model, `ReadPowerAt` and `AddInto` read the exponent as an unbounded natural number, so every degree above 100 is dropped.
- PolyParse.ParsePolynomial requires `Parsable` text: only the characters `0-9 x ^ + -`, with every `^` directly after an `x`. On other text the C loop never advances past the offending character and does not terminate, so that behaviour is not modelled.
- The unreachable branch at C.c:93 (`abs == 1 && i == 0` after `abs != 1 || i == 0` failed) prints nothing in the model, as it cannot be taken.
- Select.GreedyCover: no claim that the chosen set is the smallest possible. The source calls the result minimal, but the greedy choice does not guarantee that; the proved promise is that it covers every vertex.
- LexerFacts: that the lexer reads a line's parts independently is stated rule by rule, at any position and after any tokens (`NumberAt`, `PunctAt`, `SignSplitsAt`, `SignJoinsAt`, `GroupedLiteralAt`), not as one lemma relating the tokens of `x + y` to those of `x` and of `y`.
- `scraper.py` is not part of this model.
