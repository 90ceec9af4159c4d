/**
 * The hand-written lexer of lex.c. The input is a C string: a text with
 * no NUL character, followed by the terminator that `Peek` returns at
 * index |text|. Tokens refer to the text by a half-open index range
 * [start, end), the way the C tokens point into the source string.
 */
module Lexer {

  datatype TokenType = SymbolToken | QuoteToken | LParenToken | RParenToken | NumberToken

  datatype Token = Token(kind: TokenType, start: int, end: int)

  /** A C string's content: no NUL before the terminator. */
  predicate CString(text: string)
  {
    forall i :: 0 <= i < |text| ==> text[i] != '\0'
  }

  /** isdigit in the C locale. */
  predicate IsDigit(c: char)
  {
    '0' <= c <= '9'
  }

  /** isspace in the C locale: space, tab, newline, vertical tab, form feed, carriage return. */
  predicate IsSpace(c: char)
  {
    c == ' ' || c == '\t' || c == '\n' || c == '\U{000B}' || c == '\U{000C}' || c == '\r'
  }

  /** The characters that may not start a symbol. */
  predicate BadSymbolStart(c: char)
  {
    IsDigit(c) || c == '(' || c == ')' || c == '\'' || c == '.'
  }

  /** The characters that end a symbol. */
  predicate StopsSymbol(c: char)
  {
    IsSpace(c) || c == '(' || c == ')' || c == '\'' || c == '.'
  }

  /** `*p` for p = text + i, including the terminator at i = |text|. */
  function Peek(text: string, i: int): char
    requires 0 <= i <= |text|
  {
    if i < |text| then text[i] else '\0'
  }

  /** The first index at or after i where a symbol stops, or |text|. */
  function SymbolEnd(text: string, i: int): (e: int)
    requires 0 <= i <= |text|
    ensures i <= e <= |text|
    ensures forall k :: i <= k < e ==> !StopsSymbol(text[k])
    ensures e < |text| ==> StopsSymbol(text[e])
    decreases |text| - i
  {
    if i == |text| || StopsSymbol(text[i]) then i else SymbolEnd(text, i + 1)
  }

  /** The first index at or after i that does not hold a digit, or |text|. */
  function DigitsEnd(text: string, i: int): (e: int)
    requires 0 <= i <= |text|
    ensures i <= e <= |text|
    ensures forall k :: i <= k < e ==> IsDigit(text[k])
    ensures e < |text| ==> !IsDigit(text[e])
    decreases |text| - i
  {
    if i == |text| || !IsDigit(text[i]) then i else DigitsEnd(text, i + 1)
  }

  /** What one rule produces: the tokens it pushes and the position it returns. */
  datatype Step = Step(tokens: seq<Token>, next: int)

  /** symbol_rule at position p; a bad first character is skipped with no token. */
  function SymbolStep(text: string, p: int): (st: Step)
    requires 0 <= p < |text|
    ensures p < st.next <= |text|
  {
    if BadSymbolStart(text[p]) then Step([], p + 1)
    else
      var e := SymbolEnd(text, p + 1);
      Step([Token(SymbolToken, p, e)], e)
  }

  /**
   * number_rule exactly as written: after "digits." with no digit next,
   * PARSE_ERROR returns one past the character after the radix point,
   * which is one past the terminator when the text ends in the radix point.
   */
  function NumberStepAsWritten(text: string, p: int): (st: Step)
    requires 0 <= p < |text| && IsDigit(text[p])
    ensures p < st.next <= |text| + 1
  {
    var e := DigitsEnd(text, p + 1);
    if Peek(text, e) != '.' then Step([Token(NumberToken, p, e)], e)
    else if e + 1 < |text| && IsDigit(text[e + 1]) then
      var f := DigitsEnd(text, e + 2);
      Step([Token(NumberToken, p, f)], f)
    else Step([], e + 2)
  }

  /** number_rule with the error exit stopped at the terminator instead of past it. */
  function NumberStep(text: string, p: int): (st: Step)
    requires 0 <= p < |text| && IsDigit(text[p])
    ensures p < st.next <= |text|
  {
    var raw := NumberStepAsWritten(text, p);
    if raw.next > |text| then Step(raw.tokens, |text|) else raw
  }

  /** One iteration of token_rule's loop body, with the corrected number rule. */
  function TokenStep(text: string, p: int): (st: Step)
    requires 0 <= p < |text|
    ensures p < st.next <= |text|
  {
    var c := text[p];
    if c == '(' then Step([Token(LParenToken, p, p + 1)], p + 1)
    else if c == ')' then Step([Token(RParenToken, p, p + 1)], p + 1)
    else if c == '\'' then Step([Token(QuoteToken, p, p + 1)], p + 1)
    else if IsDigit(c) then NumberStep(text, p)
    else if IsSpace(c) then Step([], p + 1)
    else SymbolStep(text, p)
  }

  /** One iteration of token_rule's loop body, with number_rule as written. */
  function TokenStepAsWritten(text: string, p: int): (st: Step)
    requires 0 <= p < |text|
    ensures p < st.next <= |text| + 1
  {
    if IsDigit(text[p]) then NumberStepAsWritten(text, p) else TokenStep(text, p)
  }

  /** A character sequence number_rule accepts: digits, optionally "." and more digits. */
  predicate NumberLexeme(text: string, start: int, end: int)
    requires 0 <= start <= end <= |text|
  {
    start < end && IsDigit(text[start]) &&
    ((forall k :: start <= k < end ==> IsDigit(text[k])) ||
     exists d :: start < d < end - 1 && text[d] == '.' &&
       (forall k :: start <= k < end && k != d ==> IsDigit(text[k])))
  }

  /** What each kind of token covers, and that symbols and numbers are as long as they can be. */
  predicate WellFormed(text: string, t: Token)
  {
    0 <= t.start < t.end <= |text| &&
    match t.kind
    case LParenToken => t.end == t.start + 1 && text[t.start] == '('
    case RParenToken => t.end == t.start + 1 && text[t.start] == ')'
    case QuoteToken => t.end == t.start + 1 && text[t.start] == '\''
    case SymbolToken =>
      !BadSymbolStart(text[t.start]) && !StopsSymbol(text[t.start]) &&
      (forall k :: t.start < k < t.end ==> !StopsSymbol(text[k])) &&
      (t.end < |text| ==> StopsSymbol(text[t.end]))
    case NumberToken =>
      NumberLexeme(text, t.start, t.end) && (t.end < |text| ==> !IsDigit(text[t.end])) &&
      ((forall k :: t.start <= k < t.end ==> IsDigit(text[k])) && t.end < |text| ==> text[t.end] != '.')
  }

  /** After the digits from p comes a '.' with no digit after it: number_rule's radix error. */
  predicate RadixWithoutDigit(text: string, p: int)
    requires 0 <= p <= |text|
  {
    var e := DigitsEnd(text, p);
    e < |text| && text[e] == '.' && (e + 1 == |text| || !IsDigit(text[e + 1]))
  }

  /** Tokens lie in [lo, hi), are well formed and are in increasing, non-overlapping order. */
  predicate Ordered(text: string, ts: seq<Token>, lo: int)
  {
    (forall i :: 0 <= i < |ts| ==> lo <= ts[i].start && WellFormed(text, ts[i])) &&
    (forall i :: 0 <= i < |ts| - 1 ==> ts[i].end <= ts[i + 1].start)
  }

  /**
   * One pass of token_rule: a paren or quote gives one token of its kind
   * covering that character, whitespace and '.' give none, a symbol start
   * gives one symbol token from p, a digit gives one number token from p
   * unless the radix error follows, and whatever it pushes is well formed
   * and ends by the position it returns.
   */
  lemma StepOrdered(text: string, p: int)
    requires 0 <= p < |text|
    ensures Ordered(text, TokenStep(text, p).tokens, p)
    ensures forall t :: t in TokenStep(text, p).tokens ==> t.end <= TokenStep(text, p).next
    ensures text[p] == '(' ==> TokenStep(text, p) == Step([Token(LParenToken, p, p + 1)], p + 1)
    ensures text[p] == ')' ==> TokenStep(text, p) == Step([Token(RParenToken, p, p + 1)], p + 1)
    ensures text[p] == '\'' ==> TokenStep(text, p) == Step([Token(QuoteToken, p, p + 1)], p + 1)
    ensures IsSpace(text[p]) ==> TokenStep(text, p) == Step([], p + 1)
    ensures text[p] == '.' ==> TokenStep(text, p) == Step([], p + 1)
    ensures !BadSymbolStart(text[p]) && !IsSpace(text[p]) ==>
              var st := TokenStep(text, p);
              |st.tokens| == 1 && st.tokens[0].kind == SymbolToken && st.tokens[0].start == p && st.tokens[0].end == st.next
    ensures IsDigit(text[p]) && !RadixWithoutDigit(text, p) ==>
              var st := TokenStep(text, p);
              |st.tokens| == 1 && st.tokens[0].kind == NumberToken && st.tokens[0].start == p && st.tokens[0].end == st.next
    ensures IsDigit(text[p]) && RadixWithoutDigit(text, p) ==> TokenStep(text, p).tokens == []
    ensures |TokenStep(text, p).tokens| <= 1
  {
    if IsDigit(text[p]) {
      NumberStepOrdered(text, p);
    }
  }

  /**
   * number_rule gives exactly one token, a maximal number lexeme from p to
   * where the rule stops, unless the radix error follows the digits; then
   * it gives none.
   */
  lemma NumberStepOrdered(text: string, p: int)
    requires 0 <= p < |text| && IsDigit(text[p])
    ensures Ordered(text, NumberStep(text, p).tokens, p)
    ensures forall t :: t in NumberStep(text, p).tokens ==> t.end <= NumberStep(text, p).next
    ensures !RadixWithoutDigit(text, p) ==>
              var st := NumberStep(text, p);
              |st.tokens| == 1 && st.tokens[0].kind == NumberToken && st.tokens[0].start == p && st.tokens[0].end == st.next
    ensures RadixWithoutDigit(text, p) ==> NumberStep(text, p).tokens == []
  {
    var e := DigitsEnd(text, p + 1);
    assert DigitsEnd(text, p) == e;
    if Peek(text, e) != '.' {
      assert NumberStep(text, p) == Step([Token(NumberToken, p, e)], e);
      assert WellFormed(text, Token(NumberToken, p, e));
    } else if e + 1 < |text| && IsDigit(text[e + 1]) {
      var f := DigitsEnd(text, e + 2);
      assert NumberStep(text, p) == Step([Token(NumberToken, p, f)], f);
      FractionWellFormed(text, p, e, f);
    } else {
      assert NumberStep(text, p).tokens == [];
    }
  }

  /** Digits from p to e, a '.', then digits up to f that no digit follows, form a well-formed number token. */
  lemma FractionWellFormed(text: string, p: int, e: int, f: int)
    requires 0 <= p < e && e + 1 < f <= |text| && text[e] == '.'
    requires forall k :: p <= k < e ==> IsDigit(text[k])
    requires forall k :: e + 1 <= k < f ==> IsDigit(text[k])
    requires f < |text| ==> !IsDigit(text[f])
    ensures WellFormed(text, Token(NumberToken, p, f))
  {
    assert forall k :: p <= k < f && k != e ==> IsDigit(text[k]);
    assert NumberLexeme(text, p, f);
    assert !IsDigit(text[e]);
  }

  /** token_rule from position p: all tokens pushed until the terminator. */
  function Scan(text: string, p: int): (ts: seq<Token>)
    requires 0 <= p <= |text|
    decreases |text| - p
  {
    if p == |text| then []
    else
      var st := TokenStep(text, p);
      st.tokens + Scan(text, st.next)
  }

  /** Every token the lexer pushes is well formed, and they come in text order without overlap. */
  lemma {:induction false} ScanOrdered(text: string, p: int)
    requires 0 <= p <= |text|
    ensures Ordered(text, Scan(text, p), p)
    decreases |text| - p
  {
    if p < |text| {
      var st := TokenStep(text, p);
      StepOrdered(text, p);
      ScanOrdered(text, st.next);
    }
  }

  /** token_rule as written, and whether it stepped past the terminator (then reading undefined memory). */
  datatype ScanResult = ScanResult(tokens: seq<Token>, overread: bool)

  function ScanAsWritten(text: string, p: int): (r: ScanResult)
    requires 0 <= p <= |text|
    decreases |text| - p
  {
    if p == |text| then ScanResult([], false)
    else
      var st := TokenStepAsWritten(text, p);
      if st.next > |text| then ScanResult(st.tokens, true)
      else
        var rest := ScanAsWritten(text, st.next);
        ScanResult(st.tokens + rest.tokens, rest.overread)
  }

  /** The as-written lexer leaves the string only when the text ends in digits and a radix point. */
  lemma {:induction false} OverreadMeansTrailingRadix(text: string, p: int)
    requires 0 <= p <= |text|
    ensures ScanAsWritten(text, p).overread ==>
              2 <= |text| && text[|text| - 1] == '.' && IsDigit(text[|text| - 2])
    decreases |text| - p
  {
    if p < |text| {
      var st := TokenStepAsWritten(text, p);
      if st.next <= |text| {
        OverreadMeansTrailingRadix(text, st.next);
      } else {
        var e := DigitsEnd(text, p + 1);
        assert e + 2 == |text| + 1;
        assert Peek(text, e) == '.';
        assert IsDigit(text[e - 1]);
      }
    }
  }

  /** When the as-written lexer stays inside the string it pushes exactly the tokens of the corrected one. */
  lemma {:induction false} ScanAgrees(text: string, p: int)
    requires 0 <= p <= |text|
    ensures !ScanAsWritten(text, p).overread ==> ScanAsWritten(text, p).tokens == Scan(text, p)
    decreases |text| - p
  {
    if p < |text| {
      var st := TokenStepAsWritten(text, p);
      if st.next <= |text| {
        assert st == TokenStep(text, p);
        ScanAgrees(text, st.next);
      }
    }
  }

  /** The input "1." makes token_rule read past the terminator; the corrected lexer stops with no token. */
  lemma TrailingRadixOverreads()
    ensures ScanAsWritten("1.", 0).overread
    ensures Scan("1.", 0) == []
  {
    assert DigitsEnd("1.", 1) == 1;
    assert TokenStep("1.", 0) == Step([], 2);
  }

  /** Only whitespace gives no tokens. */
  lemma {:induction false} BlankScansEmpty(text: string, p: int)
    requires 0 <= p <= |text|
    requires forall k :: p <= k < |text| ==> IsSpace(text[k])
    ensures Scan(text, p) == []
    decreases |text| - p
  {
    if p < |text| {
      BlankScansEmpty(text, p + 1);
    }
  }

  /** A quoted application lexes into its five tokens; the blank is skipped. */
  lemma ParenScan()
    ensures Scan("(f 'x)", 0) ==
      [Token(LParenToken, 0, 1), Token(SymbolToken, 1, 2), Token(QuoteToken, 3, 4),
       Token(SymbolToken, 4, 5), Token(RParenToken, 5, 6)]
  {
    var s := "(f 'x)";
    assert Scan(s, 6) == [];
    assert TokenStep(s, 5) == Step([Token(RParenToken, 5, 6)], 6);
    assert SymbolEnd(s, 5) == 5;
    assert TokenStep(s, 4) == Step([Token(SymbolToken, 4, 5)], 5);
    assert TokenStep(s, 3) == Step([Token(QuoteToken, 3, 4)], 4);
    assert TokenStep(s, 2) == Step([], 3);
    assert SymbolEnd(s, 2) == 2;
    assert TokenStep(s, 1) == Step([Token(SymbolToken, 1, 2)], 2);
    assert TokenStep(s, 0) == Step([Token(LParenToken, 0, 1)], 1);
  }

  /** A number with a fraction is one token; its integer part alone is not a well-formed token. */
  lemma FractionScan()
    ensures Scan("1.5", 0) == [Token(NumberToken, 0, 3)]
    ensures !WellFormed("1.5", Token(NumberToken, 0, 1))
  {
    var s := "1.5";
    assert DigitsEnd(s, 1) == 1;
    assert DigitsEnd(s, 3) == 3;
    assert TokenStep(s, 0) == Step([Token(NumberToken, 0, 3)], 3);
    assert Scan(s, 3) == [];
  }

  /** Doubling a capacity of at least two never shrinks it. */
  lemma SquareExceeds(m: int)
    requires 2 <= m
    ensures m * m >= 2 * m
  {
    assert m * m == m * (m - 2) + 2 * m;
    assert m * (m - 2) >= 0;
  }

  /** token_vec_t: a growable array of tokens. */
  class TokenVec {
    var data: array<Token>
    var maxTokens: int
    var numTokens: int

    ghost predicate Valid()
      reads this
    {
      data.Length == maxTokens && 2 <= maxTokens && 0 <= numTokens <= maxTokens
    }

    /** The tokens pushed so far. */
    ghost function Tokens(): seq<Token>
      reads this, data
      requires Valid()
    {
      data[..numTokens]
    }

    /** token_vec_new: room for 16 tokens, none used. */
    constructor ()
      ensures Valid() && fresh(data)
      ensures maxTokens == 16 && Tokens() == []
    {
      data := new Token[16];
      maxTokens := 16;
      numTokens := 0;
    }

    /** token_vec_push: appends one token, squaring the capacity when the vector is full. */
    method Push(t: Token)
      requires Valid()
      modifies this, data
      ensures Valid()
      ensures Tokens() == old(Tokens()) + [t]
      ensures data == old(data) || fresh(data)
      ensures maxTokens == if old(numTokens) == old(maxTokens) then old(maxTokens) * old(maxTokens) else old(maxTokens)
    {
      ghost var before := Tokens();
      if numTokens == maxTokens {
        var newMax := maxTokens * maxTokens;
        SquareExceeds(maxTokens);
        var grown := new Token[newMax];
        forall i | 0 <= i < numTokens {
          grown[i] := data[i];
        }
        assert grown[..numTokens] == before;
        data := grown;
        maxTokens := newMax;
      }
      assert data[..numTokens] == before;
      data[numTokens] := t;
      assert data[..numTokens + 1] == before + [t];
      numTokens := numTokens + 1;
    }
  }

  /** symbol_rule: pushes the symbol starting at p (if any) and returns where lexing resumes. */
  method SymbolRule(text: string, p: int, vec: TokenVec) returns (q: int)
    requires 0 <= p < |text| && vec.Valid()
    modifies vec, vec.data
    ensures vec.Valid() && (vec.data == old(vec.data) || fresh(vec.data))
    ensures vec.Tokens() == old(vec.Tokens()) + SymbolStep(text, p).tokens
    ensures q == SymbolStep(text, p).next
  {
    var start := p;
    q := p;
    if !BadSymbolStart(text[q]) {
      q := q + 1;
    } else {
      return q + 1;
    }
    while q < |text|
      invariant p < q <= |text|
      invariant SymbolEnd(text, q) == SymbolEnd(text, p + 1)
      decreases |text| - q
    {
      if !StopsSymbol(text[q]) {
        q := q + 1;
      } else {
        vec.Push(Token(SymbolToken, start, q));
        return q;
      }
    }
    vec.Push(Token(SymbolToken, start, q));
  }

  /** The maximal run of digits from i. */
  method ScanDigits(text: string, i: int) returns (e: int)
    requires 0 <= i <= |text|
    ensures e == DigitsEnd(text, i)
  {
    e := i;
    while e < |text| && IsDigit(text[e])
      invariant i <= e <= |text|
      invariant DigitsEnd(text, e) == DigitsEnd(text, i)
      decreases |text| - e
    {
      e := e + 1;
    }
  }

  /** number_rule, with the error exit after a radix point stopped at the terminator. */
  method NumberRule(text: string, p: int, vec: TokenVec) returns (q: int)
    requires 0 <= p < |text| && IsDigit(text[p]) && vec.Valid()
    modifies vec, vec.data
    ensures vec.Valid() && (vec.data == old(vec.data) || fresh(vec.data))
    ensures vec.Tokens() == old(vec.Tokens()) + NumberStep(text, p).tokens
    ensures q == NumberStep(text, p).next
  {
    var start := p;
    q := ScanDigits(text, p + 1);
    if q < |text| && text[q] == '.' {
      q := q + 1;
    } else {
      vec.Push(Token(NumberToken, start, q));
      return q;
    }
    if q < |text| && IsDigit(text[q]) {
      q := q + 1;
    } else {
      return if q + 1 <= |text| then q + 1 else |text|;
    }
    q := ScanDigits(text, q);
    vec.Push(Token(NumberToken, start, q));
  }

  /** One pass of token_rule's loop body at the character p. */
  method TokenBody(text: string, p: int, vec: TokenVec) returns (q: int)
    requires 0 <= p < |text| && vec.Valid()
    modifies vec, vec.data
    ensures vec.Valid() && (vec.data == old(vec.data) || fresh(vec.data))
    ensures vec.Tokens() == old(vec.Tokens()) + TokenStep(text, p).tokens
    ensures q == TokenStep(text, p).next
  {
    var c := text[p];
    if c == '(' {
      vec.Push(Token(LParenToken, p, p + 1));
      q := p + 1;
    } else if c == ')' {
      vec.Push(Token(RParenToken, p, p + 1));
      q := p + 1;
    } else if c == '\'' {
      vec.Push(Token(QuoteToken, p, p + 1));
      q := p + 1;
    } else if IsDigit(c) {
      q := NumberRule(text, p, vec);
    } else if IsSpace(c) {
      q := p + 1;
    } else {
      q := SymbolRule(text, p, vec);
    }
  }

  lemma ConcatAssoc(a: seq<Token>, b: seq<Token>, c: seq<Token>)
    ensures (a + b) + c == a + (b + c)
  {
  }

  /** token_rule: runs the rules until the terminator and returns the final position. */
  method TokenRule(text: string, p0: int, vec: TokenVec) returns (p: int)
    requires CString(text) && 0 <= p0 <= |text| && vec.Valid()
    modifies vec, vec.data
    ensures vec.Valid()
    ensures vec.Tokens() == old(vec.Tokens()) + Scan(text, p0)
    ensures p == |text|
  {
    p := p0;
    while p < |text|
      invariant p0 <= p <= |text|
      invariant vec.Valid() && (vec.data == old(vec.data) || fresh(vec.data))
      invariant vec.Tokens() + Scan(text, p) == old(vec.Tokens()) + Scan(text, p0)
      decreases |text| - p
    {
      ghost var st := TokenStep(text, p);
      ghost var before := vec.Tokens();
      assert Scan(text, p) == st.tokens + Scan(text, st.next);
      p := TokenBody(text, p, vec);
      ConcatAssoc(before, st.tokens, Scan(text, p));
    }
  }

  /** lex: a fresh vector holding every token of the string. */
  method Lex(text: string) returns (vec: TokenVec)
    requires CString(text)
    ensures fresh(vec) && vec.Valid()
    ensures vec.Tokens() == Scan(text, 0)
  {
    vec := new TokenVec();
    var _ := TokenRule(text, 0, vec);
  }
}
