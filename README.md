# Kaleidoscope front end in Dafny

This project models the front end of the Kaleidoscope toy-language compiler.
It covers three parts, each feeding the next:

- **Lexer** (`gettok`). A forward-only cursor over the input characters. It
  keeps a one-character lookahead between calls. It skips whitespace and `#`
  comments, and returns identifiers, keywords, number lexemes, end of input,
  or a single other character.
- **Primary-expression parser.** Number, parenthesised, variable and call
  expressions, the dispatch between them, and the binary-operator
  precedence table with its lookup.
- **AST and code generation.** The code-generation decisions made for
  numbers, variables, binary operators, calls, prototypes and function
  definitions. LLVM is modelled by symbolic values and an abstract module.

Each part has the same shape:

- **A pure specification on values.** `Lexing.NextToken` gives one call of
  `gettok` on the characters not yet consumed. `Parsing.ExprP`,
  `Parsing.PrimaryP` and the others give a parse routine's result and where
  it leaves the token cursor. `CodeGeneration.Gen` and
  `CodeGeneration.Define` give a `codegen` call's result and its effect on
  the module, the variables in scope, the emitted instructions and the
  diagnostics.
- **A class holding the source's mutable state.** These are `Lexing.Lexer`,
  `Parsing.Parser` and `CodeGeneration.CodeGen`. Their methods follow the
  source's control flow: its loops, its early returns, the re-entry of
  `gettok` after a comment, and the `while(1)` argument loop. Each method's
  postcondition gives its result and its new state exactly, with one
  exception, the parser's precedence table. For `gettok`, the parse routines
  and `codegen`, that is what the specification function says. For the steps
  inside them (`getchar`, the whitespace, word, number and comment loops), it
  is their own contract: which characters are consumed and what token they
  make. `GetTokPrecedence` states its new table exactly. The parse routines
  that call it state only that the table keeps every entry and gains zero
  entries for ASCII characters. They do not say which characters were looked
  up.
- **Lemmas about the specification functions.** These state what the
  source promises: maximal lexemes, keyword recognition, comment skipping,
  sticky end of input, argument order, error messages, the operator set,
  the arity check, and the three outcomes of a function definition.

Characters are the integer codes `getchar` returns: the input is a sequence
of bytes and `EOF` is -1. Diagnostics written with `fprintf` are an appended
list of messages, kept in the `log` field.

Files:

- `options.dfy`: `Option`.
- `tokens.dfy`: header/lexer.hpp.
- `lexer.dfy`: source/lexer.cpp.
- `ast.dfy`: header/ast.hpp.
- `parser.dfy`: header/parser.hpp and source/parser.cpp.
- `codegen.dfy`: source/ast.cpp and header/codeGen.hpp.

Where the code and its documentation differ, the model follows the code:

- The `Token` enum in header/lexer.hpp stops at `tok_none`, while the lexer
  body assigns `tok_if` … `tok_in`. The model has all eleven kinds and gives
  the missing ones the codes -7 … -11.
- source/parser.cpp keeps the current token and the precedence table in
  globals, and its table is empty. header/parser.hpp keeps both in a
  `Parser` object whose constructor installs `<`, `+`, `-` and `*`. The model
  follows the header.

## Model

| member | source | states |
|---|---|---|
| Tokens.Code | header/lexer.hpp:5-17 | every token kind has a negative code, -1 … -6 as declared |
| Tokens.CodesDistinct | header/lexer.hpp:5-17 | two kinds have the same code exactly when they are the same kind |
| Tokens.Fresh | header/lexer.hpp:19-24 | a new `TokenResult` has an empty `identifierStr`, `numVal` 0 and `thisChar` `EOF` |
| Lexing.RunIsMaximal | source/lexer.cpp:13-14 | a scanned run holds only characters of its class, and the character after it is outside the class |
| Lexing.WordToken | source/lexer.cpp:16-30 | a word's kind is `tok_identifier` or a keyword kind |
| Lexing.KeywordsRoundTrip | source/lexer.cpp:16-30 | each of def/extern/if/then/else/for/in lexes to its own keyword kind |
| Lexing.WordTokenExact | source/lexer.cpp:16-30 | a word is a keyword kind exactly when it spells that keyword; it is `tok_identifier` exactly when it is none of the seven words |
| Lexing.NextToken | source/lexer.cpp:4-64 | a token other than end of input consumes at least one character; end of input is a fresh `tok_eof` that leaves nothing |
| Lexing.ScanWord | source/lexer.cpp:11-31 | the word is the non-empty maximal alphanumeric run at the head of the input, the rest starts right after it, and the token is that word's record with its keyword or `tok_identifier` kind |
| Lexing.ScanNumber | source/lexer.cpp:33-43 | the lexeme is the non-empty maximal run of digits and dots at the head of the input, the rest starts right after it, and the token is a `tok_number` carrying that lexeme |
| Lexing.CommentEnd | source/lexer.cpp:44-48 | a comment runs from its `#` over characters that are not `\n` or `\r`, and stops at the first such character or at end of input |
| Lexing.Tokenize | source/lexer.cpp:4-64 | repeated calls on a finite input end: at most one token per character, then exactly one `tok_eof`, with none before it |
| Lexing.SkipsWhitespace | source/lexer.cpp:7-9 | leading whitespace does not change the token or what is left after it |
| Lexing.WordTokenShape | source/lexer.cpp:11-31 | an identifier or keyword token's text matches `[A-Za-z][A-Za-z0-9]*`, is maximal, directly precedes the rest of the input, and gives the token's kind |
| Lexing.NumberTokenShape | source/lexer.cpp:33-43 | a number token's lexeme is non-empty, contains only digits and dots, is maximal, and directly precedes the rest of the input |
| Lexing.CommentSplit | source/lexer.cpp:44-48 | a comment ends right after its body, at the end-of-line character or at end of input |
| Lexing.AfterComment | source/lexer.cpp:44-57 | after a comment that ends before the end of input the lexer starts over; a comment that reaches end of input gives `tok_eof` |
| Lexing.CommentThenLine | source/lexer.cpp:44-52 | a comment followed by its end-of-line character gives the token after that character |
| Lexing.CommentSkipped | source/lexer.cpp:44-52 | a `#` comment up to and including its `\n` or `\r` is skipped, and the token is the one after it |
| Lexing.CommentToEndOfInput | source/lexer.cpp:44-57 | a comment that runs to end of input yields `tok_eof` |
| Lexing.EndOfInputIsSticky | source/lexer.cpp:53-57 | at end of input nothing is consumed, so the next call returns `tok_eof` again |
| Lexing.CharTokenShape | source/lexer.cpp:59-63 | a `tok_none` token carries the one character it consumed, which starts no other kind of token |
| Lexing.OtherCharacter | source/lexer.cpp:59-63 | a character that starts no other token comes back as itself, and exactly that character is consumed |
| Lexing.ThisCharOnlyOnNone | header/lexer.hpp:23 | on bytes, a token carries a real character exactly when it is `tok_none` |
| Lexing.RestIsSuffix | source/lexer.cpp:4-64 | what is left after a token is the input with a prefix removed |
| Lexing.NextTokenOnBytes | source/lexer.cpp:4-64 | on bytes, what is left is bytes again, and only `tok_none` carries a character |
| Lexing.Lexer.constructor | source/lexer.cpp:5 | the lookahead starts as a blank in front of the whole input |
| Lexing.Lexer.GetChar | source/lexer.cpp:9 | `getchar` returns the next input byte and moves past it, or returns `EOF` and stays at the end of the input |
| Lexing.Lexer.Advance | source/lexer.cpp:9 | `LastChar = getchar()` consumes exactly the pending character: the unconsumed characters lose their first one |
| Lexing.Lexer.SkipSpace | source/lexer.cpp:7-9 | consumes exactly the leading run of whitespace, so the lookahead is not whitespace and the next token is unchanged |
| Lexing.Lexer.LexWord | source/lexer.cpp:11-31 | reads the word at the lookahead exactly as `ScanWord` says |
| Lexing.Lexer.LexNumber | source/lexer.cpp:33-43 | reads the number at the lookahead exactly as `ScanNumber` says |
| Lexing.Lexer.SkipComment | source/lexer.cpp:44-48 | consumes the comment up to its end-of-line character or end of input |
| Lexing.Lexer.GetTok | source/lexer.cpp:4-64 | returns the token `NextToken` gives and leaves exactly the characters it leaves |
| Lexing.RepeatedEndOfInput | source/lexer.cpp:53-57 | two calls at end of input both return a fresh `tok_eof` and consume nothing |
| Ast.Prototype.GetName | header/ast.hpp:94 | the name the prototype was built with |
| Ast.Size | header/ast.hpp:34-81 | every expression tree has at least one node |
| Ast.ChildrenSmaller | header/ast.hpp:34-81 | every child of a node, call arguments included, is a strictly smaller tree, so the AST is finite |
| Parsing.InstalledTable | header/parser.hpp:21-28 | `<` is 10, `+` and `-` are 20, `*` is 40 and the highest, and every installed precedence is positive |
| Parsing.TokPrecedence | source/parser.cpp:100-107 | the precedence is -1 or positive; it is positive exactly for an installed operator and then equals the table entry; the `EOF` default gives -1 |
| Parsing.Parser.constructor | header/parser.hpp:21-28 | the table holds exactly the four installed operators |
| Parsing.Parser.GetTokPrecedence | source/parser.cpp:100-107 | returns the precedence `TokPrecedence` gives; a missing ASCII key is inserted with 0 and nothing else in the table changes |
| Parsing.NextState | source/parser.cpp:6-8 | the next token comes from the lexer, and a token other than end of input is consumed |
| Parsing.Parser.GetNextToken | source/parser.cpp:6-8 | the current token becomes the lexer's next token, which is also returned |
| Parsing.Parser.LogError | source/parser.cpp:11-14 | appends the message and returns null |
| Parsing.NumberP | source/parser.cpp:21-25 | always succeeds with a number node carrying the current token's value, and consumes exactly that token |
| Parsing.Parser.ParseNumberExpr | source/parser.cpp:21-25 | a number node with the current token's value; exactly that token is consumed, and the precedence table is unchanged |
| Parsing.ParenYieldsInner | source/parser.cpp:28-38 | a parenthesised expression is the inner expression itself; it fails with "expected ')'" when no `)` follows, and consumes the `)` on success |
| Parsing.ParenP | source/parser.cpp:28-38 | a parenthesised expression always consumes input |
| Parsing.Parser.ParseParenExpr | source/parser.cpp:28-38 | result, cursor and diagnostics as `ParenP` gives them; the precedence table keeps every entry and gains only zero entries for ASCII characters |
| Parsing.NameIsVariable | source/parser.cpp:43-49 | a name not followed by `(` is a variable of that name, and only the name is consumed |
| Parsing.NameWithParenIsCall | source/parser.cpp:51-73 | a name followed by `(` is a call of that name: `()` has no arguments, otherwise the arguments of the list, and the call fails when the list fails |
| Parsing.IdentifierP | source/parser.cpp:43-74 | an identifier expression consumes at least the identifier |
| Parsing.Parser.ParseIdentifierExpr | source/parser.cpp:43-74 | result, cursor and diagnostics as `IdentifierP` gives them; the precedence table keeps every entry and gains only zero entries for ASCII characters |
| Parsing.ArgsInOrder | source/parser.cpp:53-68 | arguments keep source order: the list parsed so far, followed by the expression at the cursor, is a prefix of the final list |
| Parsing.ArgsStopAtClose | source/parser.cpp:57-59 | a successful argument list stops at its closing `)` and leaves it as the current token |
| Parsing.ArgsFailures | source/parser.cpp:55-65 | a failing argument fails the list with its own diagnostic; a separator other than `)` or `,` fails with "Expected ')' or ',' in argument list" |
| Parsing.ArgsErrorIsKnown | source/parser.cpp:52-68 | a failing argument list reports one of the parser's three messages |
| Parsing.ArgsP | source/parser.cpp:53-68 | the argument loop never goes back in the input |
| Parsing.Parser.ParseArgList | source/parser.cpp:53-68 | result, cursor and diagnostics as `ArgsP` gives them; the precedence table keeps every entry and gains only zero entries for ASCII characters |
| Parsing.PrimaryDispatch | source/parser.cpp:80-93 | identifier, number and `(` go to their routines; every other token, the keywords included, fails with "unknown token when expecting an expression" and consumes nothing |
| Parsing.PrimaryP | source/parser.cpp:80-93 | a successful primary consumes at least one token |
| Parsing.PrimaryErrorIsKnown | source/parser.cpp:80-93 | a failing primary reports one of the parser's three messages |
| Parsing.Parser.ParsePrimary | source/parser.cpp:80-93 | result, cursor and diagnostics as `PrimaryP` gives them; the precedence table keeps every entry and gains only zero entries for ASCII characters |
| Parsing.ExprP | header/parser.hpp:57-60 | an expression is a primary followed by operators; a successful one consumes input |
| Parsing.ExprErrorIsKnown | header/parser.hpp:57-60 | a failing expression reports one of the parser's three messages |
| Parsing.Parser.ParseExpression | header/parser.hpp:57-60 | result, cursor and diagnostics as `ExprP` gives them; the precedence table keeps every entry and gains only zero entries for ASCII characters |
| Parsing.BinOpRhsP | header/parser.hpp:62-64 | the operator loop never goes back in the input |
| Parsing.OperandP | header/parser.hpp:62-64 | parsing an operator's right operand never goes back in the input |
| Parsing.BinOpErrorIsKnown | header/parser.hpp:62-64 | a failing operator loop reports one of the parser's three messages |
| Parsing.OperandErrorIsKnown | header/parser.hpp:62-64 | a failing right operand reports one of the parser's three messages |
| Parsing.Parser.ParseBinOpRHS | header/parser.hpp:62-64 | result, cursor and diagnostics as `BinOpRhsP` gives them; the precedence table keeps every entry and gains only zero entries for ASCII characters |
| Parsing.Parser.ParseOperand | header/parser.hpp:62-64 | result, cursor and diagnostics as `OperandP` gives them; the precedence table keeps every entry and gains only zero entries for ASCII characters |
| CodeGeneration.Gen | source/ast.cpp:8-63 | expression codegen never changes the module and only appends instructions and diagnostics; a failure has logged at least one diagnostic; a success has logged none and left the variables in scope as they were |
| CodeGeneration.BinaryOp | source/ast.cpp:26-40 | an operator instruction never touches the module or the variables in scope, and an unknown operator logs a diagnostic |
| CodeGeneration.GenArgs | source/ast.cpp:55-60 | generating arguments has the same effect on the state as generating an expression |
| CodeGeneration.NumberIsConstant | source/ast.cpp:8-10 | a number is the constant with its value and changes nothing |
| CodeGeneration.VariableLookup | source/ast.cpp:12-19 | the value is the one bound to the name, and there is one exactly when the name is bound to a value; otherwise "Unknown variable name" is logged and the name is left bound to null |
| CodeGeneration.BinaryOperands | source/ast.cpp:21-43 | both operands are generated, left first, before either is checked; either failing gives null; only `+ - * <` give a value, `<` a comparison converted to a double; any other operator logs "invalid binary operator" |
| CodeGeneration.CallChecks | source/ast.cpp:45-53 | a callee `getFunction` does not find (one not in the module, or the empty name) logs "Unknown function referenced" and a wrong argument count logs "Incorrect # arguments passed", both before any argument is generated |
| CodeGeneration.CallOfArguments | source/ast.cpp:55-62 | a checked call calls the callee with one value per argument, or fails when an argument fails |
| CodeGeneration.ArgumentsInOrder | source/ast.cpp:55-62 | argument values keep order: earlier values stay in front, one value per argument, and the value at each position is that argument's value in the state reached after the arguments before it |
| CodeGeneration.FirstFailureStops | source/ast.cpp:56-59 | when the arguments before position k generate and the one at k fails, the loop fails in the state right after it, so no later argument is generated |
| CodeGeneration.FailureHasFirstArgument | source/ast.cpp:56-59 | a failing argument loop has a first failing argument, and every argument before it generated |
| CodeGeneration.GenProto | source/ast.cpp:65-80 | the new function has one parameter per argument name, in order, and no body; a named prototype adds its name to the module and keeps every existing entry as it was; an unnamed one leaves the module unchanged; nothing else changes |
| CodeGeneration.PrototypeDeclares | source/ast.cpp:65-80 | a prototype whose name is not found declares a function of that name, an unnamed one gets no entry; its parameters are its argument names, in order, so its arity is their number |
| CodeGeneration.Bindings | source/ast.cpp:98-101 | every variable in scope is bound to an argument of the function being defined, at a position whose parameter name is that variable's name |
| CodeGeneration.BindingsExact | source/ast.cpp:98-101 | the variables in scope are exactly the parameter names, each bound to the argument at its first position |
| CodeGeneration.Define | source/ast.cpp:82-114 | a successful definition returns a function with a body and leaves it in the module under its name when it has one; an unnamed definition leaves the module as it was; a failure logs at least one diagnostic; the module gains at most that name and every other function in it is unchanged |
| CodeGeneration.RedefinitionRefused | source/ast.cpp:84-93 | a name whose module function has a body fails with "Function cannot be redefined." and nothing else changes |
| CodeGeneration.DefineOpens | source/ast.cpp:82-114 | an earlier declaration of the name is reused, otherwise the prototype is declared; the body is generated in a fresh entry block with exactly the parameters in scope |
| CodeGeneration.DefinitionSucceeds | source/ast.cpp:99-109 | a body that generates makes the module function of that name one with a body; the body sees exactly its parameters, and the block ends by returning the body's value |
| CodeGeneration.FailedBodyErased | source/ast.cpp:111-113 | a body that fails leaves no function of that name in the module, even one declared earlier; the rest of the module is unchanged |
| CodeGeneration.AnonymousDefinedAfresh | source/ast.cpp:72-73 | a function with an empty name is never found by `getFunction`: each definition of it declares a new function, is never refused, and leaves the module as it was, succeeding exactly when its body generates |
| CodeGeneration.CodeGen.constructor | header/codeGen.hpp:11-13 | the module, the variables in scope and the block start empty |
| CodeGeneration.CodeGen.LogErrorV | source/logError.cpp:11-15 | appends the message and returns null, as `LogError::LogErrorV`, which the codegen routines call, does; the `CodeGen` member of the same name (header/codeGen.hpp:15-18) behaves the same way |
| CodeGeneration.CodeGen.Codegen | source/ast.cpp:8-63 | result and new state as `Gen` gives them |
| CodeGeneration.CodeGen.GenVariable | source/ast.cpp:12-19 | result and new state as `Gen` gives them for a variable |
| CodeGeneration.CodeGen.GenBinary | source/ast.cpp:21-43 | result and new state as `Gen` gives them for a binary node |
| CodeGeneration.CodeGen.GenCall | source/ast.cpp:45-63 | result and new state as `Gen` gives them for a call |
| CodeGeneration.CodeGen.GenPrototype | source/ast.cpp:65-80 | result and new module as `GenProto` gives them |
| CodeGeneration.CodeGen.GenFunction | source/ast.cpp:82-114 | result and new state as `Define` gives them |

## Left out

- Input and output are not modelled. `getchar` reads from a sequence given to the lexer. The `fprintf` diagnostics are appended to a list.
- Floating point is not modelled. `strtod` becomes the `Strtod(lexeme)` value. `NumberIsConstant` keeps the lexeme instead of a double.
- LLVM is not modelled. Values are symbolic terms, the module is a map from names to parameter names and a has-body flag, and the insertion block is a list of instructions. Types, `verifyFunction` and the LLVM context are left out.
- `ParseBinOpRHS` has no body in the source, only a declaration and the grammar `expression ::= primary binoprhs`. The model closes the recursion with precedence climbing over `GetTokPrecedence`. No property of operator grouping is claimed.
- `ParsePrototype`, `ParseDefinition`, `ParseExtern` and `ParseTopLevelExpr` have no bodies in the source. They are not part of this model.
- The `codegen` of `if` and `for` nodes has no body in the source. `Gen` and `CodeGen.Codegen` require expressions without such nodes (`Lowerable`).
- The free function `getFunction` (header/ast.hpp:111) has no body in the source, and it is not part of this model. Calls resolve only through the module.
- source/main.cpp is a driver. It calls a parser constructor and a `Do` method that the parser header does not declare, and it is not part of this model.
- JIT execution and module handoff are not part of this model.
- Parsing.Parser.constructor: the C++ constructor leaves the current token's kind uninitialised. The model starts with `tok_none` and default fields.
- Parsing.Parser.ParseArgList: the argument loop is written inline in `ParseIdentifierExpr` in the source. The model makes it a method of its own, with the same steps.
- Parsing.Parser.ParseOperand: the right-operand step of the operator loop is a method of its own.
- CodeGeneration.GenProto: LLVM gives a prototype whose name is already in the module a generated name that no identifier can spell. The model leaves the existing module entry in place and does not record the new function.
- CodeGeneration.Bindings: LLVM renames a repeated parameter name. The model binds a repeated name only to its first argument and does not record the generated names of the later ones. Such a name (`x1` for a second `x`) is a valid identifier, so `def f(x x) x1` defines `f` in the source, while the model logs "Unknown variable name" and erases `f`.
- CodeGeneration.FailedBodyErased: erasing a function also discards its instructions. The model leaves the partial block in `block`.
- Lexing.Lexer: the input is bytes (0 … 255). Character classes are those of the C locale.
