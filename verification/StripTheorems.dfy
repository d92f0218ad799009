/** What stripping preserves: line numbers, independence of blanked text, and itself when repeated. */
module StripTheorems {
  import opened SqlStrip
  import opened SqlText

  /** The 1-based line of a position: one more than the line breaks before it. */
  function Lineno(text: string, pos: int): int
    requires 0 <= pos <= |text|
  {
    |Newlines(text[..pos])| + 1
  }

  /** Lines are numbered from 1, and the number grows by one with each line break. */
  lemma LinenoMeaning(text: string, pos: nat)
    requires pos <= |text|
    ensures Lineno(text, 0) == 1
    ensures pos < |text| ==> Lineno(text, pos + 1) == Lineno(text, pos) + if text[pos] == '\n' then 1 else 0
  {
    if pos < |text| {
      assert text[..pos + 1] == text[..pos] + [text[pos]];
      NewlinesConcat(text[..pos], [text[pos]]);
    }
  }

  /** The places of the line breaks before a position. */
  ghost function BreaksBefore(text: string, pos: nat): set<int>
    requires pos <= |text|
  {
    set p | 0 <= p < pos && text[p] == '\n'
  }

  lemma {:induction false} LinenoCounts(text: string, pos: nat)
    requires pos <= |text|
    ensures Lineno(text, pos) == 1 + |BreaksBefore(text, pos)|
  {
    if pos == 0 {
      assert BreaksBefore(text, 0) == {};
    } else {
      LinenoCounts(text, pos - 1);
      LinenoMeaning(text, pos - 1);
      var before := BreaksBefore(text, pos - 1);
      assert BreaksBefore(text, pos) == if text[pos - 1] == '\n' then before + {pos - 1} else before;
    }
  }

  // ---- Token lists ----

  lemma Shift(a: seq<Token>, b: seq<Token>)
    requires a != []
    ensures (a + b)[0] == a[0] && (a + b)[1..] == a[1..] + b && a + b != []
  {
  }

  lemma Assoc(a: string, b: string, c: string)
    ensures a + (b + c) == (a + b) + c
  {
  }

  lemma {:induction false} RawAppend(a: seq<Token>, b: seq<Token>)
    ensures RawAll(a + b) == RawAll(a) + RawAll(b)
  {
    if a == [] {
      assert a + b == b;
    } else {
      RawAppend(a[1..], b);
      Shift(a, b);
      assert RawAll(a + b) == Raw(a[0]) + RawAll(a[1..] + b);
      Assoc(Raw(a[0]), RawAll(a[1..]), RawAll(b));
    }
  }

  lemma {:induction false} RenderAppend(a: seq<Token>, b: seq<Token>, keepStrings: bool)
    ensures RenderAll(a + b, keepStrings) == RenderAll(a, keepStrings) + RenderAll(b, keepStrings)
  {
    if a == [] {
      assert a + b == b;
    } else {
      RenderAppend(a[1..], b, keepStrings);
      Shift(a, b);
      Assoc(Render(a[0], keepStrings), RenderAll(a[1..], keepStrings), RenderAll(b, keepStrings));
    }
  }

  /** Each token in place: what is before it, itself, what is after. */
  lemma Split(ts: seq<Token>, k: nat, keepStrings: bool)
    requires k < |ts|
    ensures RawAll(ts) == RawAll(ts[..k]) + (Raw(ts[k]) + RawAll(ts[k + 1..]))
    ensures RenderAll(ts, keepStrings)
         == RenderAll(ts[..k], keepStrings) + (Render(ts[k], keepStrings) + RenderAll(ts[k + 1..], keepStrings))
  {
    assert ts == ts[..k] + ts[k..];
    assert ts[k..][1..] == ts[k + 1..];
    RawAppend(ts[..k], ts[k..]);
    RenderAppend(ts[..k], ts[k..], keepStrings);
  }

  // ---- Line fidelity ----

  /** A token and both its renderings have the same line breaks. */
  lemma TokenNewlines(t: Token, keepStrings: bool)
    requires LegalBody(t)
    ensures Newlines(Render(t, keepStrings)) == Newlines(Raw(t))
  {
    RawNewlines(t);
    match t
    case Code(c) =>
    case LineComment(body) =>
    case BlockComment(body, _) => NewlinesTwice(body);
    case Literal(body, _) =>
      NewlinesTwice(body);
      NewlinesConcat("''", Newlines(body));
      NewlinesNone("''");
  }

  lemma {:induction false} NewlinesTwice(s: string)
    ensures Newlines(Newlines(s)) == Newlines(s)
  {
    if s != "" {
      NewlinesTwice(s[1..]);
      var r := Newlines(s[1..]);
      assert ("\n" + r)[1..] == r && "" + r == r;
    }
  }

  lemma {:induction false} PrefixNewlines(ts: seq<Token>, rest: string, keepStrings: bool)
    requires LexedBefore(ts, rest)
    ensures Newlines(RenderAll(ts, keepStrings)) == Newlines(RawAll(ts))
  {
    if ts != [] {
      PrefixNewlines(ts[1..], rest, keepStrings);
      TokenNewlines(ts[0], keepStrings);
      NewlinesConcat(Render(ts[0], keepStrings), RenderAll(ts[1..], keepStrings));
      NewlinesConcat(Raw(ts[0]), RawAll(ts[1..]));
    }
  }

  lemma {:induction false} LexedPrefix(ts: seq<Token>, k: nat)
    requires LexedBefore(ts, "") && k <= |ts|
    ensures LexedBefore(ts[..k], RawAll(ts[k..]))
    decreases |ts|
  {
    if k > 0 {
      LexedPrefix(ts[1..], k - 1);
      PrefixSlices(ts, k);
      RawAppend(ts[..k][1..], ts[k..]);
      assert RawAll(ts[1..]) + "" == RawAll(ts[1..]);
    }
  }

  lemma PrefixSlices(ts: seq<Token>, k: nat)
    requires 0 < k <= |ts|
    ensures ts[1..][..k - 1] == ts[..k][1..] && ts[1..][k - 1..] == ts[k..]
    ensures ts[1..] == ts[..k][1..] + ts[k..] && ts[..k][0] == ts[0]
  {
  }

  /** Stripping keeps the number of line breaks. */
  lemma NewlineCountKept(text: string, keepStrings: bool)
    ensures Newlines(Strip(text, keepStrings)) == Newlines(text)
  {
    TokensLex(text);
    PrefixNewlines(Tokens(text), "", keepStrings);
  }

  lemma SameLinesBefore(ts: seq<Token>, k: nat, keepStrings: bool)
    requires LexedBefore(ts, "") && k <= |ts|
    ensures Newlines(RenderAll(ts[..k], keepStrings)) == Newlines(RawAll(ts[..k]))
  {
    LexedPrefix(ts, k);
    PrefixNewlines(ts[..k], RawAll(ts[k..]), keepStrings);
  }

  lemma SameLine(ts: seq<Token>, k: nat, keepStrings: bool)
    requires LexedBefore(ts, "") && k < |ts|
    ensures var from, to := |RawAll(ts[..k])|, |RenderAll(ts[..k], keepStrings)|;
      var text, out := RawAll(ts), RenderAll(ts, keepStrings);
      && from < |text| && to <= |out| && text[from] == Raw(ts[k])[0]
      && Lineno(out, to) == Lineno(text, from)
      && (ts[k].Code? ==> to < |out| && out[to] == text[from])
  {
    var front, back := RawAll(ts[..k]), RenderAll(ts[..k], keepStrings);
    Split(ts, k, keepStrings);
    CharWithin(RawAll(ts), front, Raw(ts[k]), RawAll(ts[k + 1..]), 0, |front|);
    SameLinesBefore(ts, k, keepStrings);
    assert RawAll(ts)[..|front|] == front;
    assert RenderAll(ts, keepStrings)[..|back|] == back;
  }

  /** Token k starts on the same line in the text and in both stripped texts, and a code
      character stands there unchanged. */
  lemma LineFidelity(text: string, k: nat, keepStrings: bool)
    requires k < |Tokens(text)|
    ensures var ts := Tokens(text);
      var out := Strip(text, keepStrings);
      var from, to := |RawAll(ts[..k])|, |RenderAll(ts[..k], keepStrings)|;
      && from < |text| && to <= |out|
      && Lineno(out, to) == Lineno(text, from) == 1 + |BreaksBefore(text, from)|
      && (ts[k].Code? ==> to < |out| && out[to] == text[from] == ts[k].c)
  {
    TokensLex(text);
    SameLine(Tokens(text), k, keepStrings);
    LinenoCounts(text, |RawAll(Tokens(text)[..k])|);
  }

  /** The same character stands at both places, with the same line breaks before it. */
  ghost predicate SamePlace(text: string, from: nat, out: string, q: nat) {
    from < |text| && q < |out| && text[from] == out[q] && Newlines(text[..from]) == Newlines(out[..q])
  }

  /** Which token a character of the output belongs to. */
  lemma {:induction false} TokenOf(ts: seq<Token>, keepStrings: bool, q: nat) returns (k: nat, x: nat)
    requires q < |RenderAll(ts, keepStrings)|
    ensures k < |ts| && x < |Render(ts[k], keepStrings)| && q == |RenderAll(ts[..k], keepStrings)| + x
    ensures RenderAll(ts, keepStrings)[q] == Render(ts[k], keepStrings)[x]
    decreases |ts|
  {
    if q < |Render(ts[0], keepStrings)| {
      k, x := 0, q;
    } else {
      var j;
      j, x := TokenOf(ts[1..], keepStrings, q - |Render(ts[0], keepStrings)|);
      k := j + 1;
      assert ts[..k][0] == ts[0] && ts[..k][1..] == ts[1..][..j];
    }
  }

  /** Where a character of the output comes from. */
  lemma Origin(ts: seq<Token>, text: string, out: string, keepStrings: bool, q: nat) returns (from: nat)
    requires Lexing(ts, text) && out == RenderAll(ts, keepStrings)
    requires q < |out| && out[q] != '\n'
    ensures SamePlace(text, from, out, q)
  {
    var k, x := TokenOf(ts, keepStrings, q);
    var f := OriginInToken(ts[k], keepStrings, x);
    SameLinesBefore(ts, k, keepStrings);
    from := |RawAll(ts[..k])| + f;
    PlaceInToken(ts, text, out, keepStrings, k, f, x, from, q);
  }

  lemma PlaceInToken(ts: seq<Token>, text: string, out: string, keepStrings: bool, k: nat,
                     f: nat, x: nat, from: nat, q: nat)
    requires text == RawAll(ts) && out == RenderAll(ts, keepStrings)
    requires k < |ts| && SamePlace(Raw(ts[k]), f, Render(ts[k], keepStrings), x)
    requires from == |RawAll(ts[..k])| + f && q == |RenderAll(ts[..k], keepStrings)| + x
    requires Newlines(RenderAll(ts[..k], keepStrings)) == Newlines(RawAll(ts[..k]))
    ensures SamePlace(text, from, out, q)
  {
    Split(ts, k, keepStrings);
    PlaceWithin(text, RawAll(ts[..k]), Raw(ts[k]), RawAll(ts[k + 1..]), f, from,
                out, RenderAll(ts[..k], keepStrings), Render(ts[k], keepStrings),
                RenderAll(ts[k + 1..], keepStrings), x, q);
  }

  lemma PlaceWithin(text: string, pre: string, raw: string, post: string, f: nat, from: nat,
                    out: string, pre': string, piece: string, post': string, x: nat, q: nat)
    requires text == pre + (raw + post) && out == pre' + (piece + post')
    requires Newlines(pre) == Newlines(pre') && SamePlace(raw, f, piece, x)
    requires from == |pre| + f && q == |pre'| + x
    ensures SamePlace(text, from, out, q)
  {
    Within(text, pre, raw, post, f, from);
    Within(out, pre', piece, post', x, q);
  }

  lemma Within(text: string, a: string, b: string, c: string, x: nat, p: nat)
    requires text == a + (b + c) && x < |b| && p == |a| + x
    ensures p < |text| && text[p] == b[x] && Newlines(text[..p]) == Newlines(a) + Newlines(b[..x])
  {
    CharWithin(text, a, b, c, x, p);
    NewlinesConcat(a, b[..x]);
  }

  lemma CharWithin(text: string, a: string, b: string, c: string, x: nat, p: nat)
    requires text == a + (b + c) && x < |b| && p == |a| + x
    ensures p < |text| && text[p] == b[x] && text[..p] == a + b[..x]
  {
  }

  /** Every line the linter reports is right: a character of a stripped text that is not a
      line break stands in the input, unchanged, on the line reported for it. */
  lemma ReportedLine(text: string, keepStrings: bool, q: nat) returns (from: nat)
    requires q < |Strip(text, keepStrings)| && Strip(text, keepStrings)[q] != '\n'
    ensures from < |text| && text[from] == Strip(text, keepStrings)[q]
    ensures Lineno(Strip(text, keepStrings), q) == Lineno(text, from) == 1 + |BreaksBefore(text, from)|
  {
    TokensLex(text);
    from := Origin(Tokens(text), text, Strip(text, keepStrings), keepStrings, q);
    LinenoCounts(text, from);
  }

  /** A character put out for a token that is not a line break: from a kept literal the same
      one, from a blanked literal its opening quote, otherwise the code character itself. */
  lemma OriginInToken(t: Token, keepStrings: bool, x: nat) returns (f: nat)
    requires x < |Render(t, keepStrings)| && Render(t, keepStrings)[x] != '\n'
    ensures SamePlace(Raw(t), f, Render(t, keepStrings), x)
  {
    if t.Literal? && keepStrings {
      f := x;
    } else {
      f := 0;
      if t.Literal? {
        assert Render(t, false) == "''" + Newlines(t.body);
        assert x < 2;
      }
      NewlinesNone(Render(t, keepStrings)[..x]);
    }
  }

  // ---- Non-interference ----

  /** What may follow a token depends only on the next character. */
  lemma FitsByHead(t: Token, r: string, q: string)
    requires r != "" && q != "" && r[0] == q[0]
    ensures Fits(t, r) <==> Fits(t, q)
  {
  }

  /** `u` is `t` with another body: same kind, same end, same line breaks. */
  ghost predicate Rewrites(t: Token, u: Token) {
    && LegalBody(u)
    && match t
       case Code(c) => u == t
       case LineComment(_) => u.LineComment?
       case BlockComment(b, closed) => u.BlockComment? && u.closed == closed && Newlines(u.body) == Newlines(b)
       case Literal(b, closed) => u.Literal? && u.closed == closed && Newlines(u.body) == Newlines(b)
  }

  lemma {:induction false} LexedRewrite(ts: seq<Token>, k: nat, u: Token)
    requires LexedBefore(ts, "") && k < |ts| && Rewrites(ts[k], u)
    ensures LexedBefore(ts[k := u], "")
    decreases k
  {
    var us := ts[k := u];
    if k == 0 {
      assert us[1..] == ts[1..];
    } else {
      LexedRewrite(ts[1..], k - 1, u);
      assert us[1..] == ts[1..][k - 1 := u];
      SameHead(ts[1..], k - 1, u);
      FitsByHead(ts[0], RawAll(ts[1..]) + "", RawAll(us[1..]) + "");
    }
  }

  lemma SameHead(ts: seq<Token>, k: nat, u: Token)
    requires k < |ts| && Rewrites(ts[k], u)
    ensures RawAll(ts) != "" && RawAll(ts[k := u]) != ""
    ensures RawAll(ts)[0] == RawAll(ts[k := u])[0]
  {
    assert Raw(ts[0])[0] == Raw(ts[k := u][0])[0];
  }

  /** Giving a comment or literal another body of the same line breaks, anywhere in any text,
      leaves the other tokens and the fully stripped text as they are; a comment's body does
      not show in the comment-free text either. */
  lemma BlankedTextIsInvisible(text: string, k: nat, u: Token)
    requires k < |Tokens(text)| && Rewrites(Tokens(text)[k], u)
    ensures var ts := Tokens(text);
      var pre, post := RawAll(ts[..k]), RawAll(ts[k + 1..]);
      var other := pre + (Raw(u) + post);
      && text == pre + (Raw(ts[k]) + post)
      && Tokens(other) == ts[k := u]
      && Strip(other, false) == Strip(text, false)
      && (!u.Literal? ==> Strip(other, true) == Strip(text, true))
  {
    var ts := Tokens(text);
    TokensLex(text);
    Split(ts, k, false);
    RewriteTokens(text, k, u);
    SameStrip(text, k, u, RawAll(ts[..k]) + (Raw(u) + RawAll(ts[k + 1..])));
  }

  lemma SameStrip(text: string, k: nat, u: Token, other: string)
    requires k < |Tokens(text)| && Rewrites(Tokens(text)[k], u) && Tokens(other) == Tokens(text)[k := u]
    ensures Strip(other, false) == Strip(text, false)
    ensures !u.Literal? ==> Strip(other, true) == Strip(text, true)
  {
    SameRendering(Tokens(text), k, u, false);
    if !u.Literal? {
      SameRendering(Tokens(text), k, u, true);
    }
  }

  lemma RewriteTokens(text: string, k: nat, u: Token)
    requires k < |Tokens(text)| && Rewrites(Tokens(text)[k], u)
    ensures var ts := Tokens(text);
      Tokens(RawAll(ts[..k]) + (Raw(u) + RawAll(ts[k + 1..]))) == ts[k := u]
  {
    var ts := Tokens(text);
    var us := ts[k := u];
    TokensLex(text);
    LexedRewrite(ts, k, u);
    Split(us, k, false);
    assert us[..k] == ts[..k] && us[k + 1..] == ts[k + 1..];
    LexingIffTokens(us, RawAll(us));
  }

  lemma SameRendering(ts: seq<Token>, k: nat, u: Token, keepStrings: bool)
    requires k < |ts| && Rewrites(ts[k], u) && (keepStrings ==> !u.Literal?)
    ensures RenderAll(ts[k := u], keepStrings) == RenderAll(ts, keepStrings)
  {
    var us := ts[k := u];
    Split(ts, k, keepStrings);
    Split(us, k, keepStrings);
    assert us[..k] == ts[..k] && us[k + 1..] == ts[k + 1..];
  }

  // ---- Stripping twice ----

  /** In the stripped text the output of `t` would run together with what follows: two dashes,
      a slash and a star, or two literals, brought side by side by a vanished comment. */
  predicate Glues(t: Token, rest: string) {
    match t
    case Code(c) => (c == '-' && StartsWith(rest, '-')) || (c == '/' && StartsWith(rest, '*'))
    case Literal(body, _) => Newlines(body) == "" && StartsWith(rest, '\'')
    case _ => false
  }

  /** No token's output runs together with the output after it. */
  predicate GlueFree(ts: seq<Token>) {
    ts == [] || (!Glues(ts[0], RenderAll(ts[1..], false)) && GlueFree(ts[1..]))
  }

  function BreakTokens(s: string): seq<Token> {
    seq(|s|, k requires 0 <= k < |s| => Code(s[k]))
  }

  /** The tokens of a token's output when nothing runs together. */
  function Residue(t: Token): seq<Token> {
    match t
    case Code(c) => [t]
    case LineComment(body) => []
    case BlockComment(body, _) => BreakTokens(Newlines(body))
    case Literal(body, _) => [Literal("", true)] + BreakTokens(Newlines(body))
  }

  lemma {:induction false} BreaksLex(s: string, rest: string)
    requires forall k :: 0 <= k < |s| ==> s[k] == '\n'
    ensures LexedBefore(BreakTokens(s), rest)
    ensures RawAll(BreakTokens(s)) == s && RenderAll(BreakTokens(s), false) == s
  {
    if s != "" {
      BreaksLex(s[1..], rest);
      assert BreakTokens(s)[1..] == BreakTokens(s[1..]);
    }
  }

  lemma ResidueLexes(t: Token, rest: string)
    requires LegalBody(t) && !Glues(t, rest)
    ensures LexedBefore(Residue(t), rest)
    ensures RawAll(Residue(t)) == Render(t, false) && RenderAll(Residue(t), false) == Render(t, false)
  {
    match t
    case Code(c) => assert RawAll([t][1..]) + rest == rest;
    case LineComment(body) =>
    case BlockComment(body, _) => BreaksLex(Newlines(body), rest);
    case Literal(body, _) => LiteralResidue(Newlines(body), rest);
  }

  lemma LiteralResidue(nl: string, rest: string)
    requires forall k :: 0 <= k < |nl| ==> nl[k] == '\n'
    requires nl != "" || !StartsWith(rest, '\'')
    ensures LexedBefore([Literal("", true)] + BreakTokens(nl), rest)
    ensures RawAll([Literal("", true)] + BreakTokens(nl)) == "''" + nl
    ensures RenderAll([Literal("", true)] + BreakTokens(nl), false) == "''" + nl
  {
    var ts := [Literal("", true)] + BreakTokens(nl);
    BreaksLex(nl, rest);
    assert ts[1..] == BreakTokens(nl);
    assert nl != "" ==> (nl + rest)[0] == '\n';
    assert nl == "" ==> nl + rest == rest;
    assert Raw(ts[0]) == "''" && Render(ts[0], false) == "''";
  }

  /** Stripping again passes over the output of a token that does not run into the rest. */
  lemma StripOver(t: Token, rest: string)
    requires LegalBody(t) && !Glues(t, rest)
    ensures Strip(Render(t, false) + rest, false) == Render(t, false) + Strip(rest, false)
  {
    ResidueLexes(t, rest);
    TokensBefore(Residue(t), rest);
    RenderAppend(Residue(t), Tokens(rest), false);
  }

  /** Stripping can lengthen a text only by closing a literal left open at the end. */
  lemma {:induction false} StripLength(ts: seq<Token>)
    requires LexedBefore(ts, "")
    ensures |RenderAll(ts, false)| <= |RawAll(ts)| + 1
  {
    if ts != [] {
      StripLength(ts[1..]);
      assert RawAll(ts[1..]) + "" == RawAll(ts[1..]);
      if ts[0].Literal? && !ts[0].closed {
        NoTokens(ts[1..]);
      }
    }
  }

  lemma NoTokens(ts: seq<Token>)
    requires RawAll(ts) == ""
    ensures ts == []
  {
  }

  /** A text that opens with two dashes, a comment or a doubled literal gets shorter. */
  lemma GluedShrinks(s: string)
    requires |s| >= 2
    requires (s[0] == '-' && s[1] == '-') || (s[0] == '/' && s[1] == '*')
          || (|s| >= 3 && s[0] == '\'' && s[1] == '\'' && s[2] == '\'')
    ensures |Strip(s, false)| < |s|
  {
    var t := FirstToken(s);
    var rest := s[|Raw(t)|..];
    TokensLex(rest);
    StripLength(Tokens(rest));
    assert |s| == |Raw(t)| + |rest|;
    if s[0] == '\'' {
      var body := t.body;
      assert body == s[1..][..|body|];
      PairShrinks(body);
      if !t.closed {
        assert rest == "";
      }
    }
  }

  lemma PairShrinks(body: string)
    requires |body| >= 2 && body[0] == '\'' && body[1] == '\''
    ensures |Newlines(body)| <= |body| - 2
  {
    assert Newlines(body) == Newlines(body[1..]) == Newlines(body[1..][1..]);
  }

  lemma {:induction false} StripAgain(ts: seq<Token>, rest: string)
    requires LexedBefore(ts, rest)
    ensures Strip(RenderAll(ts, false), false) == RenderAll(ts, false) <==> GlueFree(ts)
    decreases |ts|
  {
    if ts != [] {
      var tail := RenderAll(ts[1..], false);
      StripAgain(ts[1..], rest);
      if Glues(ts[0], tail) {
        GluedShrinks(RenderAll(ts, false));
      } else {
        StripOver(ts[0], tail);
        CancelFront(Render(ts[0], false), Strip(tail, false), tail);
      }
    }
  }

  lemma CancelFront(p: string, r: string, q: string)
    ensures p + r == p + q <==> r == q
  {
    if p + r == p + q {
      CancelPrefix(p, r, q);
    }
  }

  /** A block comment that leaves nothing behind. */
  predicate Vanishes(t: Token) {
    t.BlockComment? && Newlines(t.body) == ""
  }

  /** Side by side in the stripped text, `t` and `u` would be read differently. */
  predicate Joins(t: Token, u: Token) {
    match t
    case Code(c) => (c == '-' && u == Code('-')) || (c == '/' && u == Code('*'))
    case Literal(body, _) => Newlines(body) == "" && u.Literal?
    case _ => false
  }

  /** No two tokens join with only vanishing comments between them. */
  ghost predicate JoinFree(ts: seq<Token>) {
    forall i, j :: 0 <= i < j < |ts| && AllVanish(ts[i + 1..j]) ==> !Joins(ts[i], ts[j])
  }

  ghost predicate AllVanish(ts: seq<Token>) {
    forall k :: 0 <= k < |ts| ==> Vanishes(ts[k])
  }

  /** The first token that does not vanish. */
  function Shown(ts: seq<Token>): (k: nat)
    ensures k <= |ts| && AllVanish(ts[..k]) && (k < |ts| ==> !Vanishes(ts[k]))
  {
    if ts == [] || !Vanishes(ts[0]) then 0
    else
      var k := 1 + Shown(ts[1..]);
      assert forall m :: 0 < m < k ==> ts[m] == ts[1..][..k - 1][m - 1];
      k
  }

  /** The stripped text begins with what that token leaves. */
  lemma {:induction false} HeadShown(ts: seq<Token>, c: char)
    requires LexedBefore(ts, "") && c != '\n'
    ensures StartsWith(RenderAll(ts, false), c)
       <==> Shown(ts) < |ts| && (ts[Shown(ts)] == Code(c) || (c == '\'' && ts[Shown(ts)].Literal?))
  {
    if ts != [] {
      HeadShown(ts[1..], c);
      assert RawAll(ts[1..]) + "" == RawAll(ts[1..]);
      if ts[0].LineComment? && ts[1..] != [] {
        AfterLine(ts[1..]);
      }
    }
  }

  lemma AfterLine(ts: seq<Token>)
    requires ts != [] && StartsWith(RawAll(ts), '\n')
    ensures StartsWith(RenderAll(ts, false), '\n')
  {
    assert Raw(ts[0])[0] == '\n';
  }

  lemma GluesIffJoins(t: Token, ts: seq<Token>)
    requires LexedBefore(ts, "")
    ensures Glues(t, RenderAll(ts, false)) <==> Shown(ts) < |ts| && Joins(t, ts[Shown(ts)])
  {
    HeadShown(ts, '-');
    HeadShown(ts, '*');
    HeadShown(ts, '\'');
  }

  lemma {:induction false} JoinFreeIsGlueFree(ts: seq<Token>)
    requires LexedBefore(ts, "")
    ensures JoinFree(ts) <==> GlueFree(ts)
  {
    if ts != [] {
      JoinFreeIsGlueFree(ts[1..]);
      GluesIffJoins(ts[0], ts[1..]);
      JoinFreeUnfold(ts);
    }
  }

  lemma JoinFreeUnfold(ts: seq<Token>)
    requires ts != []
    ensures var r := 1 + Shown(ts[1..]);
      JoinFree(ts) <==> JoinFree(ts[1..]) && (r < |ts| ==> !Joins(ts[0], ts[r]))
  {
    var r := 1 + Shown(ts[1..]);
    if JoinFree(ts) {
      JoinFreeTail(ts);
      assert ts[1..r] == ts[1..][..r - 1];
    } else if JoinFree(ts[1..]) {
      var j := JoinAtHead(ts);
      NextShown(ts, j);
    }
  }

  lemma JoinFreeTail(ts: seq<Token>)
    requires ts != [] && JoinFree(ts)
    ensures JoinFree(ts[1..])
  {
    var rest := ts[1..];
    forall i, j | 0 <= i < j < |rest| && AllVanish(rest[i + 1..j]) ensures !Joins(rest[i], rest[j]) {
      TailSlice(ts, i + 2, j + 1);
      assert !Joins(ts[i + 1], ts[j + 1]);
    }
  }

  lemma JoinAtHead(ts: seq<Token>) returns (j: nat)
    requires ts != [] && JoinFree(ts[1..]) && !JoinFree(ts)
    ensures 0 < j < |ts| && AllVanish(ts[1..j]) && Joins(ts[0], ts[j])
  {
    var i, k :| 0 <= i < k < |ts| && AllVanish(ts[i + 1..k]) && Joins(ts[i], ts[k]);
    if i > 0 {
      TailSlice(ts, i + 1, k);
    }
    j := k;
  }

  lemma TailSlice(ts: seq<Token>, i: nat, j: nat)
    requires 0 < i <= j <= |ts|
    ensures ts[i..j] == ts[1..][i - 1..j - 1]
  {
    forall k | 0 <= k < j - i ensures ts[i..j][k] == ts[1..][i - 1..j - 1][k] {}
  }

  lemma NextShown(ts: seq<Token>, j: nat)
    requires 0 < j < |ts| && AllVanish(ts[1..j])
    ensures j == 1 + Shown(ts[1..]) || !Joins(ts[0], ts[j])
  {
    var rest := ts[1..];
    var r := Shown(rest);
    if r + 1 < j {
      Between(ts, 1, j, r + 1);
    } else if j < r + 1 {
      Between(rest, 0, r, j - 1);
    }
  }

  lemma Between(ts: seq<Token>, i: nat, j: nat, k: nat)
    requires i <= k < j <= |ts| && AllVanish(ts[i..j])
    ensures ts[k] in ts && Vanishes(ts[k])
  {
    assert ts[k] == ts[i..j][k - i];
  }

  /** Stripping the stripped text changes nothing exactly when there are no two dashes, no
      slash and star, and no literal without line break and second literal with nothing
      between them but block comments that span no line break. */
  lemma IdempotentIff(text: string)
    ensures Strip(Strip(text, false), false) == Strip(text, false) <==> JoinFree(Tokens(text))
  {
    TokensLex(text);
    StripAgain(Tokens(text), "");
    JoinFreeIsGlueFree(Tokens(text));
  }

  /** In particular when every block comment spans a line break, or there is none. */
  lemma IdempotentWithoutInlineBlocks(text: string)
    requires forall t :: t in Tokens(text) && t.BlockComment? ==> Newlines(t.body) != ""
    ensures Strip(Strip(text, false), false) == Strip(text, false)
  {
    TokensLex(text);
    NoInlineBlocksJoinFree(Tokens(text));
    IdempotentIff(text);
  }

  lemma NoInlineBlocksJoinFree(ts: seq<Token>)
    requires LexedBefore(ts, "")
    requires forall t :: t in ts && t.BlockComment? ==> Newlines(t.body) != ""
    ensures JoinFree(ts)
  {
    forall i, j | 0 <= i < j < |ts| && AllVanish(ts[i + 1..j]) ensures !Joins(ts[i], ts[j]) {
      if i + 1 < j {
        Between(ts, i + 1, j, i + 1);
      } else {
        Apart(ts, i);
      }
    }
  }

  /** Tokens side by side in the text itself do not join. */
  lemma {:induction false} Apart(ts: seq<Token>, i: nat)
    requires LexedBefore(ts, "") && i + 1 < |ts|
    ensures !Joins(ts[i], ts[i + 1])
  {
    if i > 0 {
      Apart(ts[1..], i - 1);
    } else {
      assert RawAll(ts[1..]) + "" == RawAll(ts[1..]);
      assert Raw(ts[1])[0] == RawAll(ts[1..])[0];
    }
  }

  /** A block comment between two dashes: the first pass joins them, and the second reads a
      line comment. `-/**/- x` is the case w == " x". */
  lemma InlineBlockBreaks(w: string, text: string)
    requires '\n' !in w && !StartsWith(w, '-') && text == "-/**/-" + w
    ensures Strip(text, false) == "--" + Strip(w, false)
    ensures Strip(Strip(text, false), false) == ""
  {
    var v := Strip(w, false);
    InlineText(w);
    StripInline(w);
    NewlinesNone(w);
    NewlineCountKept(w, false);
    NoBreaks(v);
    StripLine(v);
  }

  lemma InlineText(w: string)
    ensures Raw(Code('-')) + (Raw(BlockComment("", true)) + (Raw(Code('-')) + w)) == "-/**/-" + w
  {
    assert Raw(BlockComment("", true)) == "/**/";
  }

  lemma StripInline(w: string)
    requires !StartsWith(w, '-')
    ensures Strip(Raw(Code('-')) + (Raw(BlockComment("", true)) + (Raw(Code('-')) + w)), false)
         == "--" + Strip(w, false)
  {
    var r := Raw(Code('-')) + w;
    StripCons(Code('-'), w, false);
    DashThenBlock(r);
    Assoc("-", "-", Strip(w, false));
  }

  lemma DashThenBlock(r: string)
    ensures Strip(Raw(Code('-')) + (Raw(BlockComment("", true)) + r), false) == "-" + Strip(r, false)
  {
    var block := BlockComment("", true);
    StripCons(block, r, false);
    StripCons(Code('-'), Raw(block) + r, false);
    assert "" + Strip(r, false) == Strip(r, false);
  }

  lemma StripLine(v: string)
    requires '\n' !in v
    ensures Strip("--" + v, false) == ""
  {
    StripCons(LineComment(v), "", false);
    assert Raw(LineComment(v)) + "" == "--" + v;
  }

  lemma {:induction false} NoBreaks(s: string)
    requires Newlines(s) == ""
    ensures '\n' !in s
  {
    if s != "" {
      NoBreaks(s[1..]);
      assert s == [s[0]] + s[1..];
    }
  }
}
