/** What the comment and literal stripper of scripts/migration_lint.py has to see in a text:
    a lossless division into tokens, given first as a grammar and then as a function. */
module SqlText {

  /** `closed` tells a block comment or literal that ends from one the text ends inside. */
  datatype Token =
    | Code(c: char)
    | LineComment(body: string)
    | BlockComment(body: string, closed: bool)
    | Literal(body: string, closed: bool)

  function Raw(t: Token): string {
    match t
    case Code(c) => [c]
    case LineComment(body) => "--" + body
    case BlockComment(body, closed) => "/*" + body + if closed then "*/" else ""
    case Literal(body, closed) => "'" + body + if closed then "'" else ""
  }

  /** The line breaks of a text, everything else dropped. */
  function Newlines(s: string): (r: string)
    ensures |r| <= |s|
    ensures forall k :: 0 <= k < |r| ==> r[k] == '\n'
  {
    if s == "" then "" else (if s[0] == '\n' then "\n" else "") + Newlines(s[1..])
  }

  /** What is left of a token: line breaks always, literal text only with keepStrings. */
  function Render(t: Token, keepStrings: bool): string {
    match t
    case Code(c) => [c]
    case LineComment(body) => ""
    case BlockComment(body, closed) => Newlines(body)
    case Literal(body, closed) => if keepStrings then Raw(t) else "''" + Newlines(body)
  }

  function RawAll(ts: seq<Token>): string {
    if ts == [] then "" else Raw(ts[0]) + RawAll(ts[1..])
  }

  function RenderAll(ts: seq<Token>, keepStrings: bool): string {
    if ts == [] then "" else Render(ts[0], keepStrings) + RenderAll(ts[1..], keepStrings)
  }

  // ---- The grammar ----

  predicate StartsWith(s: string, c: char) {
    s != "" && s[0] == c
  }

  ghost predicate HasClose(s: string) {
    exists k :: 0 <= k < |s| - 1 && s[k] == '*' && s[k + 1] == '/'
  }

  /** Quotes come in pairs only. */
  ghost predicate Doubled(s: string) {
    s == "" ||
    if s[0] != '\'' then Doubled(s[1..]) else |s| > 1 && s[1] == '\'' && Doubled(s[2..])
  }

  /** The token's own text is legal. */
  ghost predicate LegalBody(t: Token) {
    match t
    case Code(c) => c != '\''
    case LineComment(body) => '\n' !in body
    case BlockComment(body, closed) => !HasClose(body)
    case Literal(body, closed) => Doubled(body)
  }

  /** The token may be followed by `rest`. */
  ghost predicate Fits(t: Token, rest: string) {
    && LegalBody(t)
    && match t
       case Code(c) => !(c == '-' && StartsWith(rest, '-')) && !(c == '/' && StartsWith(rest, '*'))
       case LineComment(body) => rest == "" || rest[0] == '\n'
       case BlockComment(body, closed) => closed || rest == ""
       case Literal(body, closed) => if closed then !StartsWith(rest, '\'') else rest == ""
  }

  /** Every token may be followed by what comes after it, `rest` at the end. */
  ghost predicate LexedBefore(ts: seq<Token>, rest: string) {
    ts == [] || (Fits(ts[0], RawAll(ts[1..]) + rest) && LexedBefore(ts[1..], rest))
  }

  /** `ts` divides `text` into tokens according to the grammar. */
  ghost predicate Lexing(ts: seq<Token>, text: string) {
    RawAll(ts) == text && LexedBefore(ts, "")
  }

  // ---- The tokenizer ----

  /** How far a line comment goes: to the next line break or the end. */
  function LineLen(s: string): (k: nat)
    ensures k <= |s| && '\n' !in s[..k]
    ensures k < |s| ==> s[k] == '\n'
  {
    if s == "" || s[0] == '\n' then 0
    else
      var k := 1 + LineLen(s[1..]);
      assert s[..k] == [s[0]] + s[1..][..k - 1];
      k
  }

  /** Where the first closing mark is, or -1. */
  function CloseAt(s: string): (k: int)
    ensures -1 <= k < |s| - 1 || k == -1
    ensures k == -1 ==> !HasClose(s)
    ensures k >= 0 ==> s[k] == '*' && s[k + 1] == '/' && !HasClose(s[..k])
  {
    if |s| < 2 then -1
    else if s[0] == '*' && s[1] == '/' then 0
    else
      var k := CloseAt(s[1..]);
      CloseLater(s, k);
      if k < 0 then -1 else k + 1
  }

  lemma CloseLater(s: string, k: int)
    requires |s| >= 2 && !(s[0] == '*' && s[1] == '/')
    requires -1 <= k < |s| - 2 || k == -1
    requires k == -1 ==> !HasClose(s[1..])
    requires k >= 0 ==> s[1..][k] == '*' && s[1..][k + 1] == '/' && !HasClose(s[1..][..k])
    ensures k == -1 ==> !HasClose(s)
    ensures k >= 0 ==> !HasClose(s[..k + 1])
  {
    if k == -1 {
      forall j | 0 <= j < |s| - 1 ensures !(s[j] == '*' && s[j + 1] == '/') {
        if j > 0 {
          assert s[1..][j - 1] == s[j] && s[1..][j] == s[j + 1];
        }
      }
    } else {
      var p := s[..k + 1];
      var q := s[1..][..k];
      forall j | 0 <= j < |p| - 1 ensures !(p[j] == '*' && p[j + 1] == '/') {
        if j > 0 {
          assert q[j - 1] == p[j] && q[j] == p[j + 1];
        }
      }
    }
  }

  /** How long a literal's body is: up to a quote that is not doubled, or the end. */
  function BodyLen(s: string): (k: nat)
    ensures k <= |s| && Doubled(s[..k])
    ensures k < |s| ==> s[k] == '\'' && !StartsWith(s[k + 1..], '\'')
  {
    if s == "" then 0
    else if s[0] != '\'' then
      var k := 1 + BodyLen(s[1..]);
      assert s[..k][1..] == s[1..][..k - 1];
      k
    else if |s| > 1 && s[1] == '\'' then
      var k := 2 + BodyLen(s[2..]);
      assert s[..k][2..] == s[2..][..k - 2];
      k
    else 0
  }

  /** `t` is a first token of `s`. */
  ghost predicate Begins(t: Token, s: string) {
    Raw(t) <= s && Raw(t) != "" && Fits(t, s[|Raw(t)|..])
  }

  function LineToken(s: string): (t: Token)
    requires |s| > 1 && s[0] == '-' && s[1] == '-'
    ensures Begins(t, s)
  {
    var k := LineLen(s[2..]);
    assert s[2..][k..] == s[2 + k..];
    LineComment(s[2..][..k])
  }

  function BlockToken(s: string): (t: Token)
    requires |s| > 1 && s[0] == '/' && s[1] == '*'
    ensures Begins(t, s)
  {
    var k := CloseAt(s[2..]);
    if k < 0 then
      assert s == "/*" + s[2..];
      BlockComment(s[2..], false)
    else
      assert s == "/*" + s[2..][..k] + "*/" + s[k + 4..];
      BlockComment(s[2..][..k], true)
  }

  function LiteralToken(s: string): (t: Token)
    requires StartsWith(s, '\'')
    ensures Begins(t, s)
  {
    var k := BodyLen(s[1..]);
    var body := s[1..][..k];
    LiteralBegins(s, k);
    Literal(body, 1 + k < |s|)
  }

  lemma LiteralBegins(s: string, k: nat)
    requires StartsWith(s, '\'') && k <= |s| - 1 && Doubled(s[1..][..k])
    requires k < |s| - 1 ==> s[1..][k] == '\'' && !StartsWith(s[1..][k + 1..], '\'')
    ensures Begins(Literal(s[1..][..k], 1 + k < |s|), s)
  {
    var body := s[1..][..k];
    if 1 + k < |s| {
      assert s == "'" + body + "'" + s[k + 2..];
      assert s[1..][k + 1..] == s[k + 2..];
    } else {
      assert s == "'" + body;
    }
  }

  function FirstToken(s: string): (t: Token)
    requires s != ""
    ensures Begins(t, s)
  {
    if |s| > 1 && s[0] == '-' && s[1] == '-' then LineToken(s)
    else if |s| > 1 && s[0] == '/' && s[1] == '*' then BlockToken(s)
    else if s[0] == '\'' then LiteralToken(s)
    else Code(s[0])
  }

  function Tokens(s: string): seq<Token>
    decreases |s|
  {
    if s == "" then [] else
      var t := FirstToken(s);
      [t] + Tokens(s[|Raw(t)|..])
  }

  /** Where the tokens of a list begin in a text that starts at `from`. */
  function Starts(ts: seq<Token>, from: nat): seq<nat> {
    if ts == [] then [] else [from] + Starts(ts[1..], from + |Raw(ts[0])|)
  }

  /** The stripped text. */
  function Strip(s: string, keepStrings: bool): string {
    RenderAll(Tokens(s), keepStrings)
  }

  // ---- The grammar is unambiguous and the tokenizer implements it ----

  /** A text has one first token only. */
  lemma HeadUnique(t: Token, r: string, u: Token, q: string)
    requires Raw(t) + r == Raw(u) + q && Fits(t, r) && Fits(u, q)
    ensures t == u && r == q
  {
    SameKind(t, r, u, q);
    match t {
      case Code(c) =>
      case LineComment(body) => LineUnique(body, r, u.body, q);
      case BlockComment(body, closed) => BlockUnique(body, closed, r, u.body, u.closed, q);
      case Literal(body, closed) =>
        LiteralSplit(body, closed, r);
        LiteralSplit(u.body, u.closed, q);
        CancelPrefix("'", body + (Quote(closed) + r), u.body + (Quote(u.closed) + q));
        LiteralUnique(body, closed, r, u.body, u.closed, q);
    }
    CancelPrefix(Raw(t), r, q);
  }

  function Quote(closed: bool): string {
    if closed then "'" else ""
  }

  lemma LiteralSplit(body: string, closed: bool, rest: string)
    ensures Raw(Literal(body, closed)) + rest == "'" + (body + (Quote(closed) + rest))
  {
  }

  lemma CancelPrefix(p: string, r: string, q: string)
    requires p + r == p + q
    ensures r == q
  {
    assert (p + r)[|p|..] == r && (p + q)[|p|..] == q;
  }

  lemma SameKind(t: Token, r: string, u: Token, q: string)
    requires Raw(t) + r == Raw(u) + q && Fits(t, r) && Fits(u, q)
    ensures t.Code? == u.Code? && t.LineComment? == u.LineComment?
    ensures t.BlockComment? == u.BlockComment? && t.Literal? == u.Literal?
    ensures t.Code? ==> t == u
  {
    var s := Raw(t) + r;
    assert s[0] == Raw(t)[0] == Raw(u)[0];
    if |s| > 1 {
      assert s[1] == (if |Raw(t)| > 1 then Raw(t)[1] else r[0]);
      assert s[1] == (if |Raw(u)| > 1 then Raw(u)[1] else q[0]);
    }
  }

  lemma LineUnique(a: string, r: string, b: string, q: string)
    requires Raw(LineComment(a)) + r == Raw(LineComment(b)) + q && '\n' !in a && '\n' !in b
    requires (r == "" || r[0] == '\n') && (q == "" || q[0] == '\n')
    ensures a == b
  {
    var s := (Raw(LineComment(a)) + r)[2..];
    assert forall k :: 0 <= k < |a| ==> s[k] == a[k];
    assert forall k :: 0 <= k < |b| ==> s[k] == b[k];
    assert (r != "" ==> s[|a|] == '\n') && (q != "" ==> s[|b|] == '\n');
    assert s[..|a|] == a && s[..|b|] == b;
  }

  lemma BlockUnique(a: string, x: bool, r: string, b: string, y: bool, q: string)
    requires Raw(BlockComment(a, x)) + r == Raw(BlockComment(b, y)) + q
    requires !HasClose(a) && !HasClose(b) && (x || r == "") && (y || q == "")
    ensures a == b && x == y
  {
    var s := (Raw(BlockComment(a, x)) + r)[2..];
    assert forall k :: 0 <= k < |a| ==> s[k] == a[k];
    assert forall k :: 0 <= k < |b| ==> s[k] == b[k];
    assert x ==> s[|a|] == '*' && s[|a| + 1] == '/';
    assert y ==> s[|b|] == '*' && s[|b| + 1] == '/';
    assert s[..|a|] == a && s[..|b|] == b;
  }

  lemma {:induction false} LiteralUnique(a: string, x: bool, r: string, b: string, y: bool, q: string)
    requires a + (Quote(x) + r) == b + (Quote(y) + q)
    requires Doubled(a) && Doubled(b)
    requires if x then !StartsWith(r, '\'') else r == ""
    requires if y then !StartsWith(q, '\'') else q == ""
    ensures a == b && x == y
    decreases |a|
  {
    var s := a + (Quote(x) + r);
    assert (a != "" ==> s[0] == a[0]) && (|a| > 1 ==> s[1] == a[1]);
    assert (b != "" ==> s[0] == b[0]) && (|b| > 1 ==> s[1] == b[1]);
    assert a == "" && x && |s| > 1 ==> s[1] == r[0];
    assert b == "" && y && |s| > 1 ==> s[1] == q[0];
    if a != "" && b != "" {
      var k := FirstUnit(a, Quote(x) + r, b, Quote(y) + q);
      LiteralUnique(a[k..], x, r, b[k..], y, q);
      assert a == a[..k] + a[k..] && b == b[..k] + b[k..];
    }
  }

  /** Two bodies with the same continuation share their first character or quote pair. */
  lemma FirstUnit(a: string, r: string, b: string, q: string) returns (k: nat)
    requires a + r == b + q && a != "" && b != "" && Doubled(a) && Doubled(b)
    ensures 0 < k <= |a| && k <= |b| && a[..k] == b[..k]
    ensures Doubled(a[k..]) && Doubled(b[k..]) && a[k..] + r == b[k..] + q
  {
    var s := a + r;
    assert s[0] == a[0] == b[0];
    k := if a[0] != '\'' then 1 else 2;
    assert s[k..] == a[k..] + r && s[k..] == b[k..] + q;
    assert s[..k] == a[..k] && s[..k] == b[..k];
  }

  /** Tokens that fit what follows them are the ones the tokenizer finds. */
  lemma {:induction false} TokensBefore(ts: seq<Token>, rest: string)
    requires LexedBefore(ts, rest)
    ensures Tokens(RawAll(ts) + rest) == ts + Tokens(rest)
    decreases |ts|
  {
    if ts == [] {
      assert RawAll(ts) + rest == rest;
    } else {
      RawCons(ts, rest);
      TokensBefore(ts[1..], rest);
      FirstTokenIs(ts[0], RawAll(ts[1..]) + rest);
      Cons(ts, Tokens(rest));
    }
  }

  lemma RawCons(ts: seq<Token>, rest: string)
    requires ts != []
    ensures RawAll(ts) + rest == Raw(ts[0]) + (RawAll(ts[1..]) + rest)
  {
  }

  lemma Cons(ts: seq<Token>, us: seq<Token>)
    requires ts != []
    ensures ts + us == [ts[0]] + (ts[1..] + us)
  {
  }

  lemma FirstTokenIs(t: Token, tail: string)
    requires Fits(t, tail)
    ensures FirstToken(Raw(t) + tail) == t
    ensures Tokens(Raw(t) + tail) == [t] + Tokens(tail)
  {
    var s := Raw(t) + tail;
    var u := FirstToken(s);
    assert s == Raw(u) + s[|Raw(u)|..];
    HeadUnique(t, tail, u, s[|Raw(u)|..]);
  }

  /** Stripping goes token by token. */
  lemma StripCons(t: Token, tail: string, keepStrings: bool)
    requires Fits(t, tail)
    ensures Strip(Raw(t) + tail, keepStrings) == Render(t, keepStrings) + Strip(tail, keepStrings)
  {
    FirstTokenIs(t, tail);
  }

  lemma {:induction false} TokensLex(s: string)
    ensures Lexing(Tokens(s), s)
    decreases |s|
  {
    if s != "" {
      var t := FirstToken(s);
      var rest := s[|Raw(t)|..];
      TokensLex(rest);
      assert RawAll(Tokens(rest)) + "" == rest;
      assert s == Raw(t) + rest;
    }
  }

  /** The division into tokens exists, is unique, and loses nothing. */
  lemma LexingIffTokens(ts: seq<Token>, text: string)
    ensures Lexing(ts, text) <==> ts == Tokens(text)
  {
    TokensLex(text);
    if Lexing(ts, text) {
      TokensBefore(ts, "");
      assert RawAll(ts) + "" == text;
    }
  }

  /** The k-th start is where the texts of the tokens before it end. */
  lemma {:induction false} StartsMeaning(ts: seq<Token>, from: nat)
    ensures |Starts(ts, from)| == |ts|
    ensures forall k :: 0 <= k < |ts| ==> Starts(ts, from)[k] == from + |RawAll(ts[..k])|
  {
    if ts != [] {
      var next := from + |Raw(ts[0])|;
      StartsMeaning(ts[1..], next);
      forall k | 0 < k < |ts| ensures Starts(ts, from)[k] == from + |RawAll(ts[..k])| {
        assert ts[..k][0] == ts[0] && ts[..k][1..] == ts[1..][..k - 1];
        assert Starts(ts, from)[k] == Starts(ts[1..], next)[k - 1];
      }
    }
  }
}
