/**
 * The lexer `gettok` (source/lexer.cpp).
 *
 * The function `NextToken` says, on values, what one call does to the
 * characters not yet consumed: it returns the token and the characters left
 * after it. The class `Lexer` is the source's stateful cursor: an input stream,
 * the read position of `getchar`, and the one-character lookahead `LastChar`
 * that survives between calls. Its abstract value `Rest()` is the pending
 * lookahead followed by the unread input, and `GetTok` is proved to move
 * `Rest()` exactly as `NextToken` says.
 */
module Lexing {
  import opened Tokens

  // Character classes of the C locale, on the codes `getchar` returns.

  predicate IsSpace(c: int) { c == ' ' as int || '\t' as int <= c <= '\r' as int }
  predicate IsUpper(c: int) { 'A' as int <= c <= 'Z' as int }
  predicate IsLower(c: int) { 'a' as int <= c <= 'z' as int }
  predicate IsAlpha(c: int) { IsUpper(c) || IsLower(c) }
  predicate IsDigit(c: int) { '0' as int <= c <= '9' as int }
  predicate IsAlnum(c: int) { IsAlpha(c) || IsDigit(c) }
  /** A character of a number lexeme `[0-9.]`. */
  predicate IsNumChar(c: int) { IsDigit(c) || c == '.' as int }
  /** A character that ends a `#` comment. */
  predicate IsEol(c: int) { c == '\n' as int || c == '\r' as int }

  /** What `getchar` can deliver before end of input: bytes. */
  predicate IsBytes(s: seq<int>) { forall i :: 0 <= i < |s| ==> 0 <= s[i] < 256 }

  /** The four character runs the lexer scans with a loop. */
  datatype CharClass = Blank | Alnum | NumChars | CommentBody

  predicate In(c: int, k: CharClass)
  {
    match k
    case Blank => IsSpace(c)
    case Alnum => IsAlnum(c)
    case NumChars => IsNumChar(c)
    case CommentBody => !IsEol(c)
  }

  /** The length of the longest prefix of `s` whose characters are all in class `k`. */
  function Run(s: seq<int>, k: CharClass): (n: nat)
    ensures n <= |s|
    ensures s != [] && In(s[0], k) ==> n >= 1
  {
    if s == [] || !In(s[0], k) then 0 else 1 + Run(s[1..], k)
  }

  /** `Run` is the maximal prefix: every character in it is in the class, the next one is not. */
  lemma {:induction false} RunIsMaximal(s: seq<int>, k: CharClass)
    ensures forall i :: 0 <= i < Run(s, k) ==> In(s[i], k)
    ensures Run(s, k) < |s| ==> !In(s[Run(s, k)], k)
    decreases |s|
  {
    if s != [] && In(s[0], k) {
      RunIsMaximal(s[1..], k);
    }
  }

  /** A run followed by a character outside the class (or by nothing) is exactly that run. */
  lemma {:induction false} RunOfConcat(a: seq<int>, b: seq<int>, k: CharClass)
    requires forall i :: 0 <= i < |a| ==> In(a[i], k)
    requires b == [] || !In(b[0], k)
    ensures Run(a + b, k) == |a|
    decreases |a|
  {
    if a == [] {
      assert a + b == b;
    } else {
      assert (a + b)[0] == a[0];
      assert (a + b)[1..] == a[1..] + b;
      RunOfConcat(a[1..], b, k);
    }
  }

  // The keyword table.

  const KwDef: Text := ['d' as int, 'e' as int, 'f' as int]
  const KwExtern: Text := ['e' as int, 'x' as int, 't' as int, 'e' as int, 'r' as int, 'n' as int]
  const KwIf: Text := ['i' as int, 'f' as int]
  const KwThen: Text := ['t' as int, 'h' as int, 'e' as int, 'n' as int]
  const KwElse: Text := ['e' as int, 'l' as int, 's' as int, 'e' as int]
  const KwFor: Text := ['f' as int, 'o' as int, 'r' as int]
  const KwIn: Text := ['i' as int, 'n' as int]

  /** The token kinds that come from a reserved word. */
  predicate IsKeyword(t: Token)
  {
    t.TokDef? || t.TokExtern? || t.TokIf? || t.TokThen? || t.TokElse? || t.TokFor? || t.TokIn?
  }

  /** The kind of an identifier-shaped word: its keyword, or `tok_identifier`. */
  function WordToken(w: Text): (t: Token)
    ensures t == TokIdentifier || IsKeyword(t)
  {
    if w == KwDef then TokDef
    else if w == KwExtern then TokExtern
    else if w == KwIf then TokIf
    else if w == KwThen then TokThen
    else if w == KwElse then TokElse
    else if w == KwFor then TokFor
    else if w == KwIn then TokIn
    else TokIdentifier
  }

  /** The reserved word of a keyword kind. */
  function Spelling(t: Token): (w: Text)
    requires IsKeyword(t)
  {
    match t
    case TokDef => KwDef
    case TokExtern => KwExtern
    case TokIf => KwIf
    case TokThen => KwThen
    case TokElse => KwElse
    case TokFor => KwFor
    case TokIn => KwIn
  }

  /** Each reserved word lexes to its own keyword kind. */
  lemma KeywordsRoundTrip(t: Token)
    requires IsKeyword(t)
    ensures WordToken(Spelling(t)) == t
  {
  }

  /**
   * A word becomes a keyword kind exactly when it is that keyword's spelling;
   * every other word is `tok_identifier`.
   */
  lemma WordTokenExact(w: Text)
    ensures IsKeyword(WordToken(w)) ==> Spelling(WordToken(w)) == w
    ensures WordToken(w) == TokIdentifier <==> w !in {KwDef, KwExtern, KwIf, KwThen, KwElse, KwFor, KwIn}
  {
  }

  // The records `gettok` returns.

  function WordResult(w: Text): (t: TokenResult)
  {
    Fresh(WordToken(w)).(identifierStr := w)
  }

  function NumberResult(lexeme: Text): (t: TokenResult)
  {
    Fresh(TokNumber).(numVal := Strtod(lexeme))
  }

  function CharResult(c: int): (t: TokenResult)
  {
    Fresh(TokNone).(thisChar := c)
  }

  /** `suffix` is what is left of `s` after dropping some prefix. */
  predicate IsSuffix(suffix: seq<int>, s: seq<int>)
  {
    |suffix| <= |s| && s[|s| - |suffix|..] == suffix
  }

  /**
   * One call of `gettok` on the characters not yet consumed: the token and the
   * characters left after it. Whitespace is skipped, `[A-Za-z][A-Za-z0-9]*` is a
   * word, `[0-9.]+` a number, `#` starts a comment that runs to the end of the
   * line and is followed by the next token, the empty stream is end of input,
   * and any other character is returned as itself.
   */
  function NextToken(s: seq<int>): (r: (TokenResult, seq<int>))
    ensures |r.1| <= |s|
    ensures r.0.token == TokEof ==> r == (Fresh(TokEof), [])
    ensures r.0.token != TokEof ==> |r.1| < |s|
    decreases |s|
  {
    if s == [] then (Fresh(TokEof), [])
    else if IsSpace(s[0]) then NextToken(s[1..])
    else if IsAlpha(s[0]) then ScanWord(s)
    else if IsNumChar(s[0]) then ScanNumber(s)
    else if s[0] == '#' as int then
      var n := CommentEnd(s);
      if n == |s| then (Fresh(TokEof), []) else NextToken(s[n..])
    else (CharResult(s[0]), s[1..])
  }

  /**
   * A word at the head of `s`: its maximal alphanumeric run, then what follows.
   * The token is the word's record and the characters left start right after it.
   */
  function ScanWord(s: seq<int>): (r: (TokenResult, seq<int>))
    requires s != [] && IsAlpha(s[0])
    ensures |r.1| < |s| && r.0.token != TokEof
    ensures var w := r.0.identifierStr;
      && 1 <= |w| && w + r.1 == s
      && (forall i :: 0 <= i < |w| ==> IsAlnum(w[i]))
      && (r.1 == [] || !IsAlnum(r.1[0]))
      && r.0 == WordResult(w)
  {
    var n := Run(s, Alnum);
    RunIsMaximal(s, Alnum);
    assert s[..n] + s[n..] == s;
    (WordResult(s[..n]), s[n..])
  }

  /**
   * A number at the head of `s`: its maximal run of digits and dots, then what
   * follows. The token carries that run as its lexeme.
   */
  function ScanNumber(s: seq<int>): (r: (TokenResult, seq<int>))
    requires s != [] && IsNumChar(s[0])
    ensures |r.1| < |s| && r.0.token == TokNumber && r.0.numVal.Strtod?
    ensures var lexeme := r.0.numVal.lexeme;
      && 1 <= |lexeme| && lexeme + r.1 == s
      && (forall i :: 0 <= i < |lexeme| ==> IsNumChar(lexeme[i]))
      && (r.1 == [] || !IsNumChar(r.1[0]))
      && r.0 == NumberResult(lexeme)
  {
    var n := Run(s, NumChars);
    RunIsMaximal(s, NumChars);
    assert s[..n] + s[n..] == s;
    (NumberResult(s[..n]), s[n..])
  }

  /** Where the `#` comment at the head of `s` stops: at its end-of-line character or at end of input. */
  function CommentEnd(s: seq<int>): (n: nat)
    requires s != [] && s[0] == '#' as int
    ensures 1 <= n <= |s|
    ensures forall i :: 1 <= i < n ==> !IsEol(s[i])
    ensures n < |s| ==> IsEol(s[n])
  {
    RunIsMaximal(s[1..], CommentBody);
    assert forall i :: 1 <= i <= |s| - 1 ==> s[1..][i - 1] == s[i];
    1 + Run(s[1..], CommentBody)
  }

  /** Tokenising a finite stream: every token up to and including the first end-of-input token. */
  function Tokenize(s: seq<int>): (ts: seq<TokenResult>)
    ensures 1 <= |ts| <= |s| + 1
    ensures ts[|ts| - 1].token == TokEof
    ensures forall i :: 0 <= i < |ts| - 1 ==> ts[i].token != TokEof
    decreases |s|
  {
    var (t, rest) := NextToken(s);
    if t.token == TokEof then [t] else [t] + Tokenize(rest)
  }

  // Properties of `NextToken`.

  /** Leading whitespace never changes the token: it is skipped before anything is classified. */
  lemma {:induction false} SkipsWhitespace(w: seq<int>, s: seq<int>)
    requires forall i :: 0 <= i < |w| ==> IsSpace(w[i])
    ensures NextToken(w + s) == NextToken(s)
    decreases |w|
  {
    if w != [] {
      assert (w + s)[0] == w[0];
      assert (w + s)[1..] == w[1..] + s;
      SkipsWhitespace(w[1..], s);
    } else {
      assert w + s == s;
    }
  }

  /** A suffix of a suffix is a suffix. */
  lemma SuffixOfDrop(x: seq<int>, s: seq<int>, k: nat)
    requires k <= |s| && IsSuffix(x, s[k..])
    ensures IsSuffix(x, s)
  {
    assert s[|s| - |x|..] == s[k..][|s[k..]| - |x|..];
  }

  /**
   * A comment that ends before the end of input is followed by the token after
   * it; one that runs to the end of input is end of input.
   */
  lemma AfterComment(t: seq<int>)
    requires t != [] && t[0] == '#' as int
    ensures CommentEnd(t) < |t| ==> NextToken(t) == NextToken(t[CommentEnd(t)..])
    ensures CommentEnd(t) == |t| ==> NextToken(t) == (Fresh(TokEof), [])
  {
    assert !IsSpace(t[0]) && !IsAlpha(t[0]) && !IsNumChar(t[0]);
  }

  /**
   * A `#` comment, up to and including the character that ends its line, is
   * skipped: the token is the one after it.
   */
  lemma CommentSkipped(body: seq<int>, eol: int, s: seq<int>)
    requires forall i :: 0 <= i < |body| ==> !IsEol(body[i])
    requires IsEol(eol)
    ensures NextToken(['#' as int] + body + [eol] + s) == NextToken(s)
  {
    var t := ['#' as int] + (body + ([eol] + s));
    assert ['#' as int] + body + [eol] + s == t;
    CommentThenLine(t, body, [eol] + s);
  }

  lemma CommentThenLine(t: seq<int>, body: seq<int>, u: seq<int>)
    requires t == ['#' as int] + (body + u)
    requires forall i :: 0 <= i < |body| ==> !IsEol(body[i])
    requires u != [] && IsEol(u[0])
    ensures NextToken(t) == NextToken(u[1..])
  {
    assert t[1..] == body + u;
    CommentSplit(t, body, u);
    AfterComment(t);
    assert IsSpace(u[0]);
  }

  /** A comment that runs to end of input yields the end-of-input token. */
  lemma CommentToEndOfInput(body: seq<int>)
    requires forall i :: 0 <= i < |body| ==> !IsEol(body[i])
    ensures NextToken(['#' as int] + body) == (Fresh(TokEof), [])
  {
    var t := ['#' as int] + body;
    assert t[1..] == body + [];
    CommentSplit(t, body, []);
    AfterComment(t);
  }

  /** End of input is `tok_eof`, consumes nothing, and so the next call returns it again. */
  lemma EndOfInputIsSticky(s: seq<int>)
    requires NextToken(s).0.token == TokEof
    ensures NextToken(s).1 == []
    ensures NextToken(NextToken(s).1) == NextToken(s)
  {
  }

  /**
   * A word token carries its text: `[A-Za-z][A-Za-z0-9]*`, maximal (the next
   * character is not alphanumeric), read immediately before the rest of the
   * stream, and its kind is the keyword it spells or `tok_identifier`.
   */
  lemma {:induction false} WordTokenShape(s: seq<int>)
    requires NextToken(s).0.token == TokIdentifier || IsKeyword(NextToken(s).0.token)
    ensures var (t, rest) := NextToken(s);
      && |t.identifierStr| >= 1 && IsAlpha(t.identifierStr[0])
      && (forall i :: 0 <= i < |t.identifierStr| ==> IsAlnum(t.identifierStr[i]))
      && (rest == [] || !IsAlnum(rest[0]))
      && IsSuffix(t.identifierStr + rest, s)
      && t.token == WordToken(t.identifierStr)
      && t.numVal == Zero && t.thisChar == EOF
    decreases |s|
  {
    if IsSpace(s[0]) {
      WordTokenShape(s[1..]);
      SuffixOfDrop(NextToken(s).0.identifierStr + NextToken(s).1, s, 1);
    } else if IsAlpha(s[0]) {
      var n := Run(s, Alnum);
      RunIsMaximal(s, Alnum);
      assert s[..n] + s[n..] == s;
    } else if IsNumChar(s[0]) {
    } else if s[0] == '#' as int {
      var n := CommentEnd(s);
      WordTokenShape(s[n..]);
      SuffixOfDrop(NextToken(s).0.identifierStr + NextToken(s).1, s, n);
    }
  }

  /**
   * A number token's lexeme is non-empty, made only of digits and dots (any
   * number of dots), maximal, and read immediately before the rest of the stream.
   */
  lemma {:induction false} NumberTokenShape(s: seq<int>)
    requires NextToken(s).0.token == TokNumber
    ensures var (t, rest) := NextToken(s);
      && t.numVal.Strtod?
      && |t.numVal.lexeme| >= 1
      && (forall i :: 0 <= i < |t.numVal.lexeme| ==> IsNumChar(t.numVal.lexeme[i]))
      && (rest == [] || !IsNumChar(rest[0]))
      && IsSuffix(t.numVal.lexeme + rest, s)
      && t.identifierStr == [] && t.thisChar == EOF
    decreases |s|
  {
    if IsSpace(s[0]) {
      NumberTokenShape(s[1..]);
      SuffixOfDrop(NextToken(s).0.numVal.lexeme + NextToken(s).1, s, 1);
    } else if IsAlpha(s[0]) {
    } else if IsNumChar(s[0]) {
      var n := Run(s, NumChars);
      RunIsMaximal(s, NumChars);
      assert s[..n] + s[n..] == s;
    } else if s[0] == '#' as int {
      var n := CommentEnd(s);
      NumberTokenShape(s[n..]);
      SuffixOfDrop(NextToken(s).0.numVal.lexeme + NextToken(s).1, s, n);
    }
  }

  /**
   * A `tok_none` token carries the one character it consumed, read immediately
   * before the rest of the stream, and that character starts no other kind of token.
   */
  lemma {:induction false} CharTokenShape(s: seq<int>)
    requires NextToken(s).0.token == TokNone
    ensures var (t, rest) := NextToken(s);
      && IsSuffix([t.thisChar] + rest, s)
      && !IsSpace(t.thisChar) && !IsAlpha(t.thisChar) && !IsNumChar(t.thisChar)
      && t.thisChar != '#' as int
      && t.identifierStr == [] && t.numVal == Zero
    decreases |s|
  {
    if IsSpace(s[0]) {
      CharTokenShape(s[1..]);
      SuffixOfDrop([NextToken(s).0.thisChar] + NextToken(s).1, s, 1);
    } else if IsAlpha(s[0]) || IsNumChar(s[0]) {
    } else if s[0] == '#' as int {
      var n := CommentEnd(s);
      CharTokenShape(s[n..]);
      SuffixOfDrop([NextToken(s).0.thisChar] + NextToken(s).1, s, n);
    } else {
      assert [s[0]] + s[1..] == s;
    }
  }

  /** Any character that starts no other token comes back as itself and is the only one consumed. */
  lemma OtherCharacter(c: int, s: seq<int>)
    requires !IsSpace(c) && !IsAlpha(c) && !IsNumChar(c) && c != '#' as int
    ensures NextToken([c] + s) == (CharResult(c), s)
  {
    assert ([c] + s)[1..] == s;
  }

  /**
   * On a byte stream only `tok_none` tokens carry a real character in
   * `thisChar`; every other token keeps the default `EOF`.
   */
  lemma {:induction false} ThisCharOnlyOnNone(s: seq<int>)
    requires IsBytes(s)
    ensures NextToken(s).0.thisChar != EOF <==> NextToken(s).0.token == TokNone
    decreases |s|
  {
    if s != [] {
      if IsSpace(s[0]) {
        ThisCharOnlyOnNone(s[1..]);
      } else if IsAlpha(s[0]) || IsNumChar(s[0]) {
      } else if s[0] == '#' as int {
        var n := CommentEnd(s);
        if n < |s| {
          ThisCharOnlyOnNone(s[n..]);
        }
      }
    }
  }

  /** The characters left after a token are what remains of the stream once a prefix is dropped. */
  lemma {:induction false} RestIsSuffix(s: seq<int>)
    ensures IsSuffix(NextToken(s).1, s)
    decreases |s|
  {
    if s == [] {
    } else if IsSpace(s[0]) {
      RestIsSuffix(s[1..]);
      SuffixOfDrop(NextToken(s).1, s, 1);
    } else if IsAlpha(s[0]) || IsNumChar(s[0]) {
    } else if s[0] == '#' as int {
      var n := CommentEnd(s);
      if n < |s| {
        RestIsSuffix(s[n..]);
        SuffixOfDrop(NextToken(s).1, s, n);
      }
    }
  }

  /** On a byte stream the rest is again bytes, and only `tok_none` carries a character. */
  lemma NextTokenOnBytes(s: seq<int>)
    requires IsBytes(s)
    ensures IsBytes(NextToken(s).1)
    ensures NextToken(s).0.thisChar != EOF <==> NextToken(s).0.token == TokNone
  {
    RestIsSuffix(s);
    ThisCharOnlyOnNone(s);
    var r := NextToken(s).1;
    forall i | 0 <= i < |r| ensures 0 <= r[i] < 256 {
      assert r[i] == s[|s| - |r| + i];
    }
  }

  /** Moving the first character of `r` to the end of `a` keeps the concatenation. */
  lemma MoveFront(a: seq<int>, r: seq<int>)
    requires r != []
    ensures a + r == (a + [r[0]]) + r[1..]
  {
    assert r == [r[0]] + r[1..];
  }

  /** A comment whose body is followed by an end-of-line character or by nothing ends right after the body. */
  lemma CommentSplit(s: seq<int>, body: seq<int>, rest: seq<int>)
    requires s != [] && s[0] == '#' as int && s[1..] == body + rest
    requires forall i :: 0 <= i < |body| ==> !IsEol(body[i])
    requires rest == [] || IsEol(rest[0])
    ensures CommentEnd(s) == 1 + |body| && s[CommentEnd(s)..] == rest
  {
    RunOfConcat(body, rest, CommentBody);
    assert s[1 + |body|..] == s[1..][|body|..];
  }

  /**
   * The lexer as the source has it: the input stream, the read position of
   * `getchar`, and the lookahead character kept between calls.
   */
  class Lexer {
    const input: seq<int>
    var pos: nat
    var lastChar: int

    ghost predicate Valid()
      reads this
    {
      && IsBytes(input)
      && pos <= |input|
      && (lastChar == EOF || 0 <= lastChar < 256)
      && (lastChar == EOF ==> pos == |input|)
    }

    /** The characters not yet consumed: the pending lookahead, then the unread input. */
    ghost function Rest(): (r: seq<int>)
      reads this
      requires Valid()
      ensures lastChar == EOF <==> r == []
      ensures r != [] ==> r[0] == lastChar
      ensures IsBytes(r)
    {
      (if lastChar == EOF then [] else [lastChar]) + input[pos..]
    }

    /** A fresh lexer: `LastChar` starts as a blank. */
    constructor(input: seq<int>)
      requires IsBytes(input)
      ensures Valid() && this.input == input
      ensures Rest() == [' ' as int] + input
    {
      this.input := input;
      pos := 0;
      lastChar := ' ' as int;
    }

    /** `getchar`: the next input byte, or `EOF` once the input is used up. */
    method GetChar() returns (c: int)
      requires pos <= |input|
      modifies this`pos
      ensures old(pos) < |input| ==> c == input[old(pos)] && pos == old(pos) + 1
      ensures old(pos) == |input| ==> c == EOF && pos == old(pos)
    {
      if pos < |input| {
        c := input[pos];
        pos := pos + 1;
      } else {
        c := EOF;
      }
    }

    /** `LastChar = getchar()`: the pending character is consumed and the next one becomes pending. */
    method Advance()
      requires Valid() && lastChar != EOF
      modifies this
      ensures Valid() && Rest() == old(Rest())[1..]
    {
      lastChar := GetChar();
    }

    /**
     * The whitespace loop of `gettok`: exactly the leading run of blanks is
     * consumed, which leaves the next token as it was.
     */
    method SkipSpace()
      requires Valid()
      modifies this
      ensures Valid() && !IsSpace(lastChar)
      ensures Rest() == old(Rest())[Run(old(Rest()), Blank)..]
      ensures NextToken(Rest()) == NextToken(old(Rest()))
    {
      ghost var s0 := Rest();
      ghost var blanks: seq<int> := [];
      while IsSpace(lastChar)
        invariant Valid() && s0 == blanks + Rest()
        invariant forall i :: 0 <= i < |blanks| ==> IsSpace(blanks[i])
        decreases |Rest()|
      {
        MoveFront(blanks, Rest());
        blanks := blanks + [lastChar];
        Advance();
      }
      RunOfConcat(blanks, Rest(), Blank);
      assert s0[|blanks|..] == Rest();
      SkipsWhitespace(blanks, Rest());
    }

    /** The identifier branch of `gettok`: appends alphanumeric characters while they last. */
    method LexWord() returns (tr: TokenResult)
      requires Valid() && IsAlpha(lastChar)
      modifies this
      ensures Valid() && (tr, Rest()) == ScanWord(old(Rest()))
    {
      ghost var s0 := Rest();
      var word: Text := [lastChar];
      Advance();
      while IsAlnum(lastChar)
        invariant Valid() && s0 == word + Rest()
        invariant forall i :: 0 <= i < |word| ==> IsAlnum(word[i])
        decreases |Rest()|
      {
        word := word + [lastChar];
        Advance();
      }
      RunOfConcat(word, Rest(), Alnum);
      assert s0[..|word|] == word && s0[|word|..] == Rest();
      tr := WordResult(word);
    }

    /** The number branch of `gettok`: a do-while over digits and dots. */
    method LexNumber() returns (tr: TokenResult)
      requires Valid() && IsNumChar(lastChar)
      modifies this
      ensures Valid() && (tr, Rest()) == ScanNumber(old(Rest()))
    {
      ghost var s0 := Rest();
      var numStr: Text := [lastChar];
      Advance();
      while IsNumChar(lastChar)
        invariant Valid() && s0 == numStr + Rest()
        invariant forall i :: 0 <= i < |numStr| ==> IsNumChar(numStr[i])
        decreases |Rest()|
      {
        numStr := numStr + [lastChar];
        Advance();
      }
      RunOfConcat(numStr, Rest(), NumChars);
      assert s0[..|numStr|] == numStr && s0[|numStr|..] == Rest();
      tr := NumberResult(numStr);
    }

    /** The comment branch of `gettok`: reads up to an end-of-line character or end of input. */
    method SkipComment()
      requires Valid() && lastChar == '#' as int
      modifies this
      ensures Valid() && Rest() == old(Rest())[CommentEnd(old(Rest()))..]
    {
      ghost var s0 := Rest();
      ghost var body: seq<int> := [];
      Advance();
      while lastChar != EOF && !IsEol(lastChar)
        invariant Valid() && s0[1..] == body + Rest()
        invariant forall i :: 0 <= i < |body| ==> !IsEol(body[i])
        decreases |Rest()|
      {
        MoveFront(body, Rest());
        body := body + [lastChar];
        Advance();
      }
      CommentSplit(s0, body, Rest());
    }

    /** `gettok`: the next token, moving the unconsumed characters exactly as `NextToken` says. */
    method GetTok() returns (tr: TokenResult)
      requires Valid()
      modifies this
      ensures Valid()
      ensures (tr, Rest()) == NextToken(old(Rest()))
      decreases |Rest()|
    {
      SkipSpace();
      ghost var s1 := Rest();
      assert NextToken(s1) == NextToken(old(Rest())) && |s1| <= |old(Rest())|;
      if IsAlpha(lastChar) {
        tr := LexWord();
        return;
      }
      if IsNumChar(lastChar) {
        tr := LexNumber();
        return;
      }
      if lastChar == '#' as int {
        SkipComment();
        AfterComment(s1);
        if lastChar != EOF {
          assert NextToken(s1) == NextToken(Rest()) && |Rest()| < |s1|;
          tr := GetTok();
          return;
        }
      }
      if lastChar == EOF {
        tr := Fresh(TokEof);
        return;
      }
      tr := CharResult(lastChar);
      Advance();
    }
  }

  /** At end of input `GetTok` keeps returning `tok_eof` and consumes nothing. */
  method RepeatedEndOfInput(lexer: Lexer) returns (t1: TokenResult, t2: TokenResult)
    requires lexer.Valid() && lexer.Rest() == []
    modifies lexer
    ensures t1 == Fresh(TokEof) && t2 == Fresh(TokEof)
    ensures lexer.Valid() && lexer.Rest() == []
  {
    t1 := lexer.GetTok();
    t2 := lexer.GetTok();
  }

}
