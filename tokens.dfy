/**
 * Tokens produced by the lexer (header/lexer.hpp): the token kinds with their
 * integer codes and the `TokenResult` record with its default field values.
 */
module Tokens {

  /** Character codes as `getchar` returns them; `EOF` is the end-of-input code. */
  const EOF: int := -1

  /** Text of identifiers and number lexemes: a sequence of character codes. */
  type Text = seq<int>

  /**
   * Token kinds. The enum in the header stops at `tok_none`; the keyword kinds
   * `tok_if` .. `tok_in` are the ones the lexer body assigns.
   */
  datatype Token =
    | TokEof | TokDef | TokExtern | TokIdentifier | TokNumber | TokNone
    | TokIf | TokThen | TokElse | TokFor | TokIn

  /**
   * The integer value of each kind. The header fixes -1 .. -6; the keyword kinds
   * missing from it are numbered on from there.
   */
  function Code(t: Token): (c: int)
    ensures c < 0
  {
    match t
    case TokEof => -1
    case TokDef => -2
    case TokExtern => -3
    case TokIdentifier => -4
    case TokNumber => -5
    case TokNone => -6
    case TokIf => -7
    case TokThen => -8
    case TokElse => -9
    case TokFor => -10
    case TokIn => -11
  }

  /** No two kinds share a code, so a code identifies its kind. */
  lemma CodesDistinct(a: Token, b: Token)
    ensures Code(a) == Code(b) <==> a == b
  {
  }

  /**
   * The numeric payload of a token. `strtod` is not modelled: a number token
   * carries the lexeme whose decimal value it stands for; `Zero` is the
   * default initialiser `numVal = 0`.
   */
  datatype NumVal = Zero | Strtod(lexeme: Text)

  /** The lexer's result record: the kind and its three payload fields. */
  datatype TokenResult = TokenResult(token: Token, identifierStr: Text, numVal: NumVal, thisChar: int)

  /**
   * A `TokenResult` whose kind has been set and whose other fields still hold
   * their default initialisers.
   */
  function Fresh(t: Token): (tr: TokenResult)
    ensures tr.token == t
    ensures tr.identifierStr == []
    ensures tr.numVal == Zero
    ensures tr.thisChar == EOF
  {
    TokenResult(t, [], Zero, EOF)
  }

}
