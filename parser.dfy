/**
 * The primary-expression parser (header/parser.hpp, source/parser.cpp).
 *
 * `PState` is what the parser looks at: the current token and the characters
 * the lexer has not consumed yet. The functions `ExprP`, `PrimaryP`, ... say on
 * values what each parse routine returns and where it leaves the token
 * cursor; the class `Parser` holds the source's mutable state (the current
 * token, the precedence table, the diagnostics written so far) and its methods
 * are proved to do exactly what those functions say.
 */
module Parsing {
  import opened Options
  import opened Tokens
  import opened Lexing
  import opened Ast

  // The binary-operator precedence table installed by the constructor.

  /** `<` 10, `+` and `-` 20, `*` 40; 1 is the lowest precedence. */
  const Installed: map<int, int> := map['<' as int := 10, '+' as int := 20, '-' as int := 20, '*' as int := 40]

  /** The table's entries: the installed operators, and the zero entries that lookups of other characters insert. */
  ghost predicate TableAgrees(m: map<int, int>)
  {
    && Installed.Keys <= m.Keys
    && forall c :: c in m ==> m[c] == (if c in Installed then Installed[c] else 0)
  }

  /**
   * What parsing does to the precedence table: every entry stays as it was,
   * and the only entries added are the zero entries that `operator[]` inserts
   * for ASCII characters it looks up.
   */
  ghost predicate TableGrows(m: map<int, int>, m': map<int, int>)
  {
    && m.Keys <= m'.Keys
    && (forall c :: c in m ==> m'[c] == m[c])
    && (forall c :: c in m' && c !in m ==> IsAscii(c) && m'[c] == 0)
  }

  lemma InstalledTable()
    ensures Installed['<' as int] == 10
    ensures Installed['+' as int] == Installed['-' as int] == 20
    ensures Installed['*' as int] == 40
    ensures forall c :: c in Installed ==> 0 < Installed[c] <= Installed['*' as int]
  {
  }

  predicate IsAscii(c: int) { 0 <= c < 128 }

  /**
   * `GetTokPrecedence`: either -1, "not a binary operator", or the positive
   * table entry of an installed operator; a token that carries no character
   * is never an operator.
   */
  function TokPrecedence(tok: TokenResult): (p: int)
    ensures p == -1 || p > 0
    ensures p > 0 <==> tok.thisChar in Installed
    ensures tok.thisChar in Installed ==> p == Installed[tok.thisChar]
    ensures tok.thisChar == EOF ==> p == -1
  {
    if !IsAscii(tok.thisChar) then -1
    else
      var p := if tok.thisChar in Installed then Installed[tok.thisChar] else 0;
      if p <= 0 then -1 else p
  }

  // Diagnostics written by `LogError`.

  const MsgExpectedClose: string := "expected ')'"
  const MsgArgList: string := "Expected ')' or ',' in argument list"
  const MsgUnknownToken: string := "unknown token when expecting an expression"

  // The token cursor.

  /** The current token and the characters the lexer has not consumed. */
  datatype PState = PState(cur: TokenResult, rest: seq<int>)

  /**
   * The states a lexer can produce: an end-of-input token has nothing after
   * it, and only `tok_none` tokens carry a character.
   */
  ghost predicate WellFormed(st: PState)
  {
    && IsBytes(st.rest)
    && (st.cur.token == TokEof ==> st.rest == [])
    && (st.cur.thisChar != EOF ==> st.cur.token == TokNone)
  }

  /** How much input is left, counting a current token that is not end of input. */
  function Measure(st: PState): (n: nat)
  {
    |st.rest| + if st.cur.token == TokEof then 0 else 1
  }

  /** `getNextToken`: the lexer's next token becomes the current one. */
  function NextState(st: PState): (st': PState)
    requires WellFormed(st)
    ensures WellFormed(st')
    ensures Measure(st') <= Measure(st)
    ensures st.cur.token != TokEof ==> Measure(st') < Measure(st)
  {
    NextTokenOnBytes(st.rest);
    PState(NextToken(st.rest).0, NextToken(st.rest).1)
  }

  /** A parse routine's outcome: the node built, or the diagnostic it logged; and where it left the cursor. */
  datatype Parse<+T> = POk(value: T, st: PState) | PErr(msg: string, st: PState)

  /** `ParseNumberExpr`: a number node with the current token's value, after which that token is consumed. */
  function NumberP(st: PState): (r: Parse<Expr>)
    requires WellFormed(st)
    ensures r.POk? && r.value == Number(st.cur.numVal)
    ensures r.st == NextState(st) && WellFormed(r.st)
    ensures st.cur.token != TokEof ==> Measure(r.st) < Measure(st)
  {
    POk(Number(st.cur.numVal), NextState(st))
  }

  /** `ParseExpression`: `expression ::= primary binoprhs`. */
  function ExprP(st: PState): (r: Parse<Expr>)
    requires WellFormed(st)
    ensures WellFormed(r.st) && Measure(r.st) <= Measure(st)
    ensures r.POk? ==> Measure(r.st) < Measure(st)
    decreases Measure(st), 3
  {
    match PrimaryP(st)
    case PErr(m, s) => PErr(m, s)
    case POk(lhs, s) => BinOpRhsP(0, lhs, s)
  }

  /**
   * `ParseBinOpRHS`: precedence climbing. An operator whose precedence is below
   * `prec` ends the expression; otherwise it is eaten, its right operand is
   * parsed, and the two operands are folded into a binary node.
   */
  function BinOpRhsP(prec: int, lhs: Expr, st: PState): (r: Parse<Expr>)
    requires WellFormed(st) && prec >= 0
    ensures WellFormed(r.st) && Measure(r.st) <= Measure(st)
    decreases Measure(st), 0
  {
    var tokPrec := TokPrecedence(st.cur);
    if tokPrec < prec then POk(lhs, st)
    else
      match OperandP(tokPrec, NextState(st))
      case PErr(m, s) => PErr(m, s)
      case POk(rhs, s) => BinOpRhsP(prec, Binary(st.cur.thisChar, lhs, rhs), s)
  }

  /**
   * The right operand of an operator of precedence `tokPrec`: a primary, which
   * takes the operators after it that bind tighter than `tokPrec` for itself.
   */
  function OperandP(tokPrec: int, st: PState): (r: Parse<Expr>)
    requires WellFormed(st) && tokPrec >= 0
    ensures WellFormed(r.st) && Measure(r.st) <= Measure(st)
    decreases Measure(st), 5
  {
    match PrimaryP(st)
    case PErr(m, s) => PErr(m, s)
    case POk(rhs, s) =>
      if tokPrec < TokPrecedence(s.cur) then BinOpRhsP(tokPrec + 1, rhs, s) else POk(rhs, s)
  }

  /** `ParsePrimary`: dispatch on the current token. */
  function PrimaryP(st: PState): (r: Parse<Expr>)
    requires WellFormed(st)
    ensures WellFormed(r.st) && Measure(r.st) <= Measure(st)
    ensures r.POk? ==> Measure(r.st) < Measure(st)
    decreases Measure(st), 2
  {
    match st.cur.token
    case TokIdentifier => IdentifierP(st)
    case TokNumber => NumberP(st)
    case TokNone => if st.cur.thisChar == '(' as int then ParenP(st) else PErr(MsgUnknownToken, st)
    case _ => PErr(MsgUnknownToken, st)
  }

  /** `ParseParenExpr`: the `(` is eaten, an expression parsed, and a `)` must follow. */
  function ParenP(st: PState): (r: Parse<Expr>)
    requires WellFormed(st) && st.cur.token != TokEof
    ensures WellFormed(r.st) && Measure(r.st) < Measure(st)
    decreases Measure(st), 1
  {
    match ExprP(NextState(st))
    case PErr(m, s) => PErr(m, s)
    case POk(v, s) =>
      if s.cur.thisChar != ')' as int then PErr(MsgExpectedClose, s)
      else POk(v, NextState(s))
  }

  /** `ParseIdentifierExpr`: a variable reference, or a call when a `(` follows the name. */
  function IdentifierP(st: PState): (r: Parse<Expr>)
    requires WellFormed(st)
    ensures WellFormed(r.st) && Measure(r.st) <= Measure(st)
    ensures st.cur.token != TokEof ==> Measure(r.st) < Measure(st)
    decreases Measure(st), 1
  {
    var idName := st.cur.identifierStr;
    var s1 := NextState(st);
    if s1.cur.thisChar != '(' as int then POk(Variable(idName), s1)
    else
      var s2 := NextState(s1);
      if s2.cur.thisChar != ')' as int then
        match ArgsP(s2, [])
        case PErr(m, s) => PErr(m, s)
        case POk(args, s) => POk(Call(idName, args), NextState(s))
      else POk(Call(idName, []), NextState(s2))
  }

  /**
   * The argument loop of `ParseIdentifierExpr`: `acc` holds the arguments
   * parsed so far; an argument is followed by `)`, which ends the list and is
   * left as the current token, or by `,`, which is eaten.
   */
  function ArgsP(st: PState, acc: seq<Expr>): (r: Parse<seq<Expr>>)
    requires WellFormed(st)
    ensures WellFormed(r.st) && Measure(r.st) <= Measure(st)
    decreases Measure(st), 4
  {
    match ExprP(st)
    case PErr(m, s) => PErr(m, s)
    case POk(arg, s) =>
      if s.cur.thisChar == ')' as int then POk(acc + [arg], s)
      else if s.cur.thisChar != ',' as int then PErr(MsgArgList, s)
      else ArgsP(NextState(s), acc + [arg])
  }

  // Properties of the parse routines.

  /**
   * `ParsePrimary` dispatches on the token: a number is parsed as a number
   * node and consumes exactly that token; an identifier and `(` go to their
   * routines; every other token, the keywords included, is an error that
   * consumes nothing.
   */
  lemma PrimaryDispatch(st: PState)
    requires WellFormed(st)
    ensures st.cur.token == TokNumber ==> PrimaryP(st) == POk(Number(st.cur.numVal), NextState(st))
    ensures st.cur.token == TokIdentifier ==> PrimaryP(st) == IdentifierP(st)
    ensures st.cur.token == TokNone && st.cur.thisChar == '(' as int ==> PrimaryP(st) == ParenP(st)
    ensures !st.cur.token.TokNumber? && !st.cur.token.TokIdentifier?
            && !(st.cur.token == TokNone && st.cur.thisChar == '(' as int)
            ==> PrimaryP(st) == PErr(MsgUnknownToken, st)
  {
  }

  /**
   * A parenthesised expression yields the inner expression itself, with no
   * wrapper node, and consumes the closing `)`; when the token after the inner
   * expression is not `)` it fails with "expected ')'".
   */
  lemma ParenYieldsInner(st: PState)
    requires WellFormed(st) && st.cur.token != TokEof
    ensures var inner := ExprP(NextState(st));
      && (inner.PErr? ==> ParenP(st) == inner)
      && (inner.POk? && inner.st.cur.thisChar == ')' as int ==> ParenP(st) == POk(inner.value, NextState(inner.st)))
      && (inner.POk? && inner.st.cur.thisChar != ')' as int ==> ParenP(st) == PErr(MsgExpectedClose, inner.st))
  {
  }

  /** A name not followed by `(` is a variable reference, and only the name is consumed. */
  lemma NameIsVariable(st: PState)
    requires WellFormed(st) && NextState(st).cur.thisChar != '(' as int
    ensures IdentifierP(st) == POk(Variable(st.cur.identifierStr), NextState(st))
  {
  }

  /**
   * A name followed by `(` is a call named after it: `()` gives no arguments,
   * otherwise the arguments are those of the argument loop, and the call fails
   * when the loop fails.
   */
  lemma NameWithParenIsCall(st: PState)
    requires WellFormed(st) && NextState(st).cur.thisChar == '(' as int
    ensures var s2 := NextState(NextState(st));
      && (s2.cur.thisChar == ')' as int ==> IdentifierP(st) == POk(Call(st.cur.identifierStr, []), NextState(s2)))
      && (s2.cur.thisChar != ')' as int && ArgsP(s2, []).POk? ==>
            IdentifierP(st) == POk(Call(st.cur.identifierStr, ArgsP(s2, []).value), NextState(ArgsP(s2, []).st)))
      && (s2.cur.thisChar != ')' as int && ArgsP(s2, []).PErr? ==>
            IdentifierP(st) == PErr(ArgsP(s2, []).msg, ArgsP(s2, []).st))
  {
  }

  /**
   * The argument loop keeps source order: the arguments already parsed stay
   * in front, and the expression at the cursor comes next.
   */
  lemma {:induction false} ArgsInOrder(st: PState, acc: seq<Expr>)
    requires WellFormed(st) && ArgsP(st, acc).POk?
    ensures ExprP(st).POk? && acc + [ExprP(st).value] <= ArgsP(st, acc).value
    decreases Measure(st)
  {
    var e := ExprP(st);
    ArgsStep(st, acc);
    if e.st.cur.thisChar != ')' as int {
      ArgsInOrder(NextState(e.st), acc + [e.value]);
    }
  }

  /** A successful argument list stops at its closing `)`, which it does not consume. */
  lemma {:induction false} ArgsStopAtClose(st: PState, acc: seq<Expr>)
    requires WellFormed(st) && ArgsP(st, acc).POk?
    ensures ArgsP(st, acc).st.cur.thisChar == ')' as int
    decreases Measure(st)
  {
    var e := ExprP(st);
    ArgsStep(st, acc);
    if e.st.cur.thisChar != ')' as int {
      ArgsStopAtClose(NextState(e.st), acc + [e.value]);
    }
  }

  /**
   * An argument list fails exactly where one of its pieces fails: with the
   * argument's own diagnostic, or with "Expected ')' or ',' in argument list"
   * when an argument is followed by anything but `)` or `,`.
   */
  lemma ArgsFailures(st: PState, acc: seq<Expr>)
    requires WellFormed(st)
    ensures ExprP(st).PErr? ==> ArgsP(st, acc) == PErr(ExprP(st).msg, ExprP(st).st)
    ensures var e := ExprP(st);
      e.POk? && e.st.cur.thisChar != ')' as int && e.st.cur.thisChar != ',' as int
      ==> ArgsP(st, acc) == PErr(MsgArgList, e.st)
  {
  }

  /** The messages an expression parse can fail with. */
  lemma {:induction false} ExprErrorIsKnown(st: PState)
    requires WellFormed(st)
    ensures ExprP(st).PErr? ==> ExprP(st).msg in {MsgExpectedClose, MsgArgList, MsgUnknownToken}
    decreases Measure(st), 3
  {
    PrimaryErrorIsKnown(st);
    var p := PrimaryP(st);
    if p.POk? {
      BinOpErrorIsKnown(0, p.value, p.st);
    }
  }

  lemma {:induction false} PrimaryErrorIsKnown(st: PState)
    requires WellFormed(st)
    ensures PrimaryP(st).PErr? ==> PrimaryP(st).msg in {MsgExpectedClose, MsgArgList, MsgUnknownToken}
    decreases Measure(st), 2
  {
    match st.cur.token
    case TokIdentifier =>
      var s1 := NextState(st);
      if s1.cur.thisChar == '(' as int {
        var s2 := NextState(s1);
        if s2.cur.thisChar != ')' as int {
          ArgsErrorIsKnown(s2, []);
        }
      }
    case TokNone =>
      if st.cur.thisChar == '(' as int {
        ExprErrorIsKnown(NextState(st));
      }
    case _ =>
  }

  lemma {:induction false} BinOpErrorIsKnown(prec: int, lhs: Expr, st: PState)
    requires WellFormed(st) && prec >= 0
    ensures BinOpRhsP(prec, lhs, st).PErr? ==> BinOpRhsP(prec, lhs, st).msg in {MsgExpectedClose, MsgArgList, MsgUnknownToken}
    decreases Measure(st), 0
  {
    var tokPrec := TokPrecedence(st.cur);
    if tokPrec >= prec {
      OperandErrorIsKnown(tokPrec, NextState(st));
      var p := OperandP(tokPrec, NextState(st));
      if p.POk? {
        BinOpErrorIsKnown(prec, Binary(st.cur.thisChar, lhs, p.value), p.st);
      }
    }
  }

  lemma {:induction false} OperandErrorIsKnown(tokPrec: int, st: PState)
    requires WellFormed(st) && tokPrec >= 0
    ensures OperandP(tokPrec, st).PErr? ==> OperandP(tokPrec, st).msg in {MsgExpectedClose, MsgArgList, MsgUnknownToken}
    decreases Measure(st), 5
  {
    PrimaryErrorIsKnown(st);
    var p := PrimaryP(st);
    if p.PErr? {
      assert OperandP(tokPrec, st) == PErr(p.msg, p.st);
    } else if tokPrec < TokPrecedence(p.st.cur) {
      BinOpErrorIsKnown(tokPrec + 1, p.value, p.st);
      assert OperandP(tokPrec, st) == BinOpRhsP(tokPrec + 1, p.value, p.st);
    }
  }

  lemma {:induction false} ArgsErrorIsKnown(st: PState, acc: seq<Expr>)
    requires WellFormed(st)
    ensures ArgsP(st, acc).PErr? ==> ArgsP(st, acc).msg in {MsgExpectedClose, MsgArgList, MsgUnknownToken}
    decreases Measure(st), 4
  {
    ExprErrorIsKnown(st);
    var e := ExprP(st);
    if e.POk? && e.st.cur.thisChar == ',' as int {
      ArgsErrorIsKnown(NextState(e.st), acc + [e.value]);
    }
  }

  /** One turn of the argument loop, as the loop in `Parser.ParseIdentifierExpr` takes it. */
  lemma ArgsStep(st: PState, acc: seq<Expr>)
    requires WellFormed(st)
    ensures var e := ExprP(st);
      && (e.PErr? ==> ArgsP(st, acc) == PErr(e.msg, e.st))
      && (e.POk? && e.st.cur.thisChar == ')' as int ==> ArgsP(st, acc) == POk(acc + [e.value], e.st))
      && (e.POk? && e.st.cur.thisChar != ')' as int && e.st.cur.thisChar != ',' as int ==> ArgsP(st, acc) == PErr(MsgArgList, e.st))
      && (e.POk? && e.st.cur.thisChar == ',' as int ==> ArgsP(st, acc) == ArgsP(NextState(e.st), acc + [e.value]))
  {
  }

  /** Holds the result of a parse method against the routine's function: result, cursor and diagnostics. */
  ghost predicate Reflects<T>(p: Parse<T>, r: Option<T>, st: PState, log: seq<string>, log0: seq<string>)
  {
    && st == p.st
    && (p.POk? ==> r == Some(p.value) && log == log0)
    && (p.PErr? ==> r == None && log == log0 + [p.msg])
  }

  /**
   * The parser object: the current token, the precedence table, and the
   * diagnostics written so far, reading its tokens from `lexer`.
   */
  class Parser {
    const lexer: Lexer
    var curTok: TokenResult
    var binopPrecedence: map<int, int>
    var log: seq<string>

    ghost predicate Valid()
      reads this, lexer
    {
      lexer.Valid() && TableAgrees(binopPrecedence) && WellFormed(State())
    }

    ghost function State(): PState
      reads this`curTok, lexer
      requires lexer.Valid()
    {
      PState(curTok, lexer.Rest())
    }

    /**
     * `Parser()`: installs the standard binary operators. The C++ constructor
     * leaves the current token's kind indeterminate; here it starts as
     * `tok_none` with default fields.
     */
    constructor(lexer: Lexer)
      requires lexer.Valid()
      ensures Valid() && this.lexer == lexer && State() == PState(Fresh(TokNone), lexer.Rest())
      ensures binopPrecedence == Installed && log == []
    {
      this.lexer := lexer;
      curTok := Fresh(TokNone);
      log := [];
      binopPrecedence := map[];
      new;
      binopPrecedence := binopPrecedence['<' as int := 10];
      binopPrecedence := binopPrecedence['+' as int := 20];
      binopPrecedence := binopPrecedence['-' as int := 20];
      binopPrecedence := binopPrecedence['*' as int := 40];
    }

    /** `getNextToken`. */
    method GetNextToken() returns (t: TokenResult)
      requires Valid()
      modifies this`curTok, lexer
      ensures Valid() && State() == NextState(old(State())) && t == curTok
    {
      ghost var st0 := State();
      curTok := lexer.GetTok();
      t := curTok;
      assert State() == NextState(st0);
    }

    /** `LogError`: writes the diagnostic and returns null. */
    method LogError(msg: string) returns (r: Option<Expr>)
      modifies this`log
      ensures r == None && log == old(log) + [msg]
    {
      log := log + [msg];
      r := None;
    }

    /** `ParseNumberExpr`. */
    method ParseNumberExpr() returns (r: Option<Expr>)
      requires Valid()
      modifies this, lexer
      ensures Valid() && Reflects(NumberP(old(State())), r, State(), log, old(log))
      ensures binopPrecedence == old(binopPrecedence)
    {
      r := Some(Number(curTok.numVal));
      var _ := GetNextToken();
    }

    /** `ParseParenExpr`. */
    method ParseParenExpr() returns (r: Option<Expr>)
      requires Valid() && curTok.token != TokEof
      modifies this, lexer
      ensures Valid() && Reflects(ParenP(old(State())), r, State(), log, old(log))
      ensures TableGrows(old(binopPrecedence), binopPrecedence)
      decreases Measure(State()), 1
    {
      var _ := GetNextToken();
      var v := ParseExpression();
      if v.None? {
        return None;
      }
      if curTok.thisChar != ')' as int {
        r := LogError(MsgExpectedClose);
        return;
      }
      var _ := GetNextToken();
      r := v;
    }

    /** `ParseIdentifierExpr`. */
    method ParseIdentifierExpr() returns (r: Option<Expr>)
      requires Valid()
      modifies this, lexer
      ensures Valid() && Reflects(IdentifierP(old(State())), r, State(), log, old(log))
      ensures TableGrows(old(binopPrecedence), binopPrecedence)
      decreases Measure(State()), 1
    {
      ghost var s0 := State();
      var idName := curTok.identifierStr;
      var _ := GetNextToken();
      if curTok.thisChar != '(' as int {
        return Some(Variable(idName));
      }
      var _ := GetNextToken();
      assert Measure(State()) < Measure(s0);
      var args: seq<Expr> := [];
      if curTok.thisChar != ')' as int {
        var parsed := ParseArgList();
        if parsed.None? {
          return None;
        }
        args := parsed.value;
      }
      var _ := GetNextToken();
      r := Some(Call(idName, args));
    }

    /**
     * The `while(1)` loop of `ParseIdentifierExpr` that reads the arguments of
     * a call, up to and not including the closing `)`.
     */
    method ParseArgList() returns (r: Option<seq<Expr>>)
      requires Valid()
      modifies this, lexer
      ensures Valid() && Reflects(ArgsP(old(State()), []), r, State(), log, old(log))
      ensures TableGrows(old(binopPrecedence), binopPrecedence)
      decreases Measure(State()), 4
    {
      ghost var s0 := State();
      var args: seq<Expr> := [];
      while true
        invariant Valid() && log == old(log)
        invariant TableGrows(old(binopPrecedence), binopPrecedence)
        invariant Measure(State()) <= Measure(s0)
        invariant ArgsP(State(), args) == ArgsP(s0, [])
        decreases Measure(State())
      {
        ghost var sb := State();
        var arg := ParseExpression();
        ArgsStep(sb, args);
        if arg.None? {
          return None;
        }
        args := args + [arg.value];
        if curTok.thisChar == ')' as int {
          return Some(args);
        }
        if curTok.thisChar != ',' as int {
          var _ := LogError(MsgArgList);
          return None;
        }
        var _ := GetNextToken();
      }
    }

    /** `ParsePrimary`. */
    method ParsePrimary() returns (r: Option<Expr>)
      requires Valid()
      modifies this, lexer
      ensures Valid() && Reflects(PrimaryP(old(State())), r, State(), log, old(log))
      ensures TableGrows(old(binopPrecedence), binopPrecedence)
      decreases Measure(State()), 2
    {
      ghost var st0 := State();
      match curTok.token
      case TokIdentifier =>
        r := ParseIdentifierExpr();
      case TokNumber =>
        r := ParseNumberExpr();
      case TokNone =>
        if curTok.thisChar == '(' as int {
          r := ParseParenExpr();
        } else {
          r := LogError(MsgUnknownToken);
          assert State() == st0;
        }
      case _ =>
        r := LogError(MsgUnknownToken);
        assert State() == st0;
    }

    /**
     * `GetTokPrecedence`. Reading the table with `operator[]` inserts a zero
     * entry for an ASCII character that has none.
     */
    method GetTokPrecedence() returns (p: int)
      requires Valid()
      modifies this`binopPrecedence
      ensures Valid() && p == TokPrecedence(curTok)
      ensures binopPrecedence ==
        if IsAscii(curTok.thisChar) && curTok.thisChar !in old(binopPrecedence)
        then old(binopPrecedence)[curTok.thisChar := 0]
        else old(binopPrecedence)
    {
      if !IsAscii(curTok.thisChar) {
        return -1;
      }
      if curTok.thisChar !in binopPrecedence {
        binopPrecedence := binopPrecedence[curTok.thisChar := 0];
      }
      var tokPrec := binopPrecedence[curTok.thisChar];
      if tokPrec <= 0 {
        return -1;
      }
      return tokPrec;
    }

    /** `ParseExpression`: `expression ::= primary binoprhs`. */
    method ParseExpression() returns (r: Option<Expr>)
      requires Valid()
      modifies this, lexer
      ensures Valid() && Reflects(ExprP(old(State())), r, State(), log, old(log))
      ensures TableGrows(old(binopPrecedence), binopPrecedence)
      decreases Measure(State()), 3
    {
      var lhs := ParsePrimary();
      if lhs.None? {
        return None;
      }
      r := ParseBinOpRHS(0, lhs.value);
    }

    /** `ParseBinOpRHS`, as a loop that folds operators into the left operand. */
    method ParseBinOpRHS(exprPrec: int, lhs0: Expr) returns (r: Option<Expr>)
      requires Valid() && exprPrec >= 0
      modifies this, lexer
      ensures Valid() && Reflects(BinOpRhsP(exprPrec, lhs0, old(State())), r, State(), log, old(log))
      ensures TableGrows(old(binopPrecedence), binopPrecedence)
      decreases Measure(State()), 0
    {
      var lhs := lhs0;
      while true
        invariant Valid() && log == old(log)
        invariant TableGrows(old(binopPrecedence), binopPrecedence)
        invariant Measure(State()) <= Measure(old(State()))
        invariant BinOpRhsP(exprPrec, lhs, State()) == BinOpRhsP(exprPrec, lhs0, old(State()))
        decreases Measure(State())
      {
        var tokPrec := GetTokPrecedence();
        if tokPrec < exprPrec {
          return Some(lhs);
        }
        var binOp := curTok.thisChar;
        var _ := GetNextToken();
        var rhs := ParseOperand(tokPrec);
        if rhs.None? {
          return None;
        }
        lhs := Binary(binOp, lhs, rhs.value);
      }
    }

    /** The right operand of an operator of precedence `tokPrec`. */
    method ParseOperand(tokPrec: int) returns (r: Option<Expr>)
      requires Valid() && tokPrec >= 0
      modifies this, lexer
      ensures Valid() && Reflects(OperandP(tokPrec, old(State())), r, State(), log, old(log))
      ensures TableGrows(old(binopPrecedence), binopPrecedence)
      decreases Measure(State()), 5
    {
      r := ParsePrimary();
      if r.None? {
        return;
      }
      var nextPrec := GetTokPrecedence();
      if tokPrec < nextPrec {
        r := ParseBinOpRHS(tokPrec + 1, r.value);
      }
    }
  }

}
