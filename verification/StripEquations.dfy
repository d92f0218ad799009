/** Stripping described on the text itself, without tokens: equations that strip_sql
    (scripts/migration_lint.py) satisfies and no other function does, and what it keeps. */
module StripEquations {
  import opened SqlStrip
  import opened SqlText
  import opened StripTheorems

  // ---- Literals ----

  /** The text of a string constant as SQL writes it: every quote twice. */
  function Escape(w: string): string {
    if w == "" then "" else (if w[0] == '\'' then "''" else [w[0]]) + Escape(w[1..])
  }

  lemma {:induction false} EscapeDoubled(w: string)
    ensures Doubled(Escape(w)) && Newlines(Escape(w)) == Newlines(w)
  {
    if w != "" {
      var e := Escape(w[1..]);
      EscapeDoubled(w[1..]);
      if w[0] == '\'' {
        QuotePair(e);
      } else {
        assert ([w[0]] + e)[1..] == e;
      }
    }
  }

  lemma QuotePair(e: string)
    requires Doubled(e)
    ensures Doubled("''" + e) && Newlines("''" + e) == Newlines(e)
  {
    assert ("''" + e)[2..] == e;
    NewlinesConcat("''", e);
    NewlinesNone("''");
  }

  lemma {:induction false} DoubledEscape(s: string) returns (w: string)
    requires Doubled(s)
    ensures s == Escape(w)
    decreases |s|
  {
    if s == "" {
      w := "";
    } else if s[0] != '\'' {
      var v := DoubledEscape(s[1..]);
      w := [s[0]] + v;
      assert w[1..] == v;
    } else {
      var v := DoubledEscape(s[2..]);
      w := "'" + v;
      assert w[1..] == v && s == "''" + s[2..];
    }
  }

  /** The bodies of literals are exactly the escaped texts. */
  lemma DoubledIffEscaped(s: string)
    ensures Doubled(s) <==> exists w :: s == Escape(w)
  {
    if Doubled(s) {
      var w := DoubledEscape(s);
    }
    forall w | s == Escape(w) ensures Doubled(s) {
      EscapeDoubled(w);
    }
  }

  // ---- The ways a text can begin ----

  /** A character that begins neither a comment nor a literal. */
  predicate CodeThen(s: string, c: char, rest: string) {
    && c != '\'' && !(c == '-' && StartsWith(rest, '-')) && !(c == '/' && StartsWith(rest, '*'))
    && s == [c] + rest
  }

  predicate LineThen(s: string, w: string, rest: string) {
    '\n' !in w && (rest == "" || rest[0] == '\n') && s == "--" + w + rest
  }

  ghost predicate BlockThen(s: string, w: string, rest: string) {
    !HasClose(w) && s == "/*" + w + "*/" + rest
  }

  ghost predicate OpenBlock(s: string, w: string) {
    !HasClose(w) && s == "/*" + w
  }

  predicate LiteralThen(s: string, w: string, rest: string) {
    !StartsWith(rest, '\'') && s == "'" + Escape(w) + "'" + rest
  }

  predicate OpenLiteral(s: string, w: string) {
    s == "'" + Escape(w)
  }

  // ---- The equations ----

  ghost predicate CodeStays(f: string -> string) {
    f("") == "" && forall s, c, rest :: CodeThen(s, c, rest) ==> f(s) == [c] + f(rest)
  }

  ghost predicate LineCommentsGo(f: string -> string) {
    forall s, w, rest :: LineThen(s, w, rest) ==> f(s) == f(rest)
  }

  ghost predicate BlocksLeaveBreaks(f: string -> string) {
    && (forall s, w, rest :: BlockThen(s, w, rest) ==> f(s) == Newlines(w) + f(rest))
    && (forall s, w :: OpenBlock(s, w) ==> f(s) == Newlines(w))
  }

  ghost predicate LiteralsKept(f: string -> string) {
    && (forall s, w, rest :: LiteralThen(s, w, rest) ==> f(s) == "'" + Escape(w) + "'" + f(rest))
    && (forall s, w :: OpenLiteral(s, w) ==> f(s) == s)
  }

  ghost predicate LiteralsBlanked(f: string -> string) {
    && (forall s, w, rest :: LiteralThen(s, w, rest) ==> f(s) == "''" + Newlines(w) + f(rest))
    && (forall s, w :: OpenLiteral(s, w) ==> f(s) == "''" + Newlines(w))
  }

  ghost predicate Equations(f: string -> string, keepStrings: bool) {
    && CodeStays(f) && LineCommentsGo(f) && BlocksLeaveBreaks(f)
    && if keepStrings then LiteralsKept(f) else LiteralsBlanked(f)
  }

  // ---- Stripping satisfies them ----

  lemma LineEquation(s: string, w: string, rest: string, keepStrings: bool)
    requires LineThen(s, w, rest)
    ensures Strip(s, keepStrings) == Strip(rest, keepStrings)
  {
    StripCons(LineComment(w), rest, keepStrings);
    assert s == Raw(LineComment(w)) + rest;
    assert "" + Strip(rest, keepStrings) == Strip(rest, keepStrings);
  }

  lemma BlockEquation(s: string, w: string, rest: string, keepStrings: bool)
    requires BlockThen(s, w, rest)
    ensures Strip(s, keepStrings) == Newlines(w) + Strip(rest, keepStrings)
  {
    StripCons(BlockComment(w, true), rest, keepStrings);
    assert Raw(BlockComment(w, true)) == "/*" + w + "*/";
  }

  lemma OpenBlockEquation(s: string, w: string, keepStrings: bool)
    requires OpenBlock(s, w)
    ensures Strip(s, keepStrings) == Newlines(w)
  {
    var t := BlockComment(w, false);
    StripCons(t, "", keepStrings);
    assert Raw(t) + "" == s;
  }

  lemma LiteralEquation(s: string, w: string, rest: string, keepStrings: bool)
    requires LiteralThen(s, w, rest)
    ensures Strip(s, keepStrings)
         == (if keepStrings then "'" + Escape(w) + "'" else "''" + Newlines(w)) + Strip(rest, keepStrings)
  {
    var t := Literal(Escape(w), true);
    EscapeDoubled(w);
    StripCons(t, rest, keepStrings);
    assert Raw(t) == "'" + Escape(w) + "'";
  }

  lemma OpenLiteralEquation(s: string, w: string, keepStrings: bool)
    requires OpenLiteral(s, w)
    ensures Strip(s, keepStrings) == if keepStrings then s else "''" + Newlines(w)
  {
    var t := Literal(Escape(w), false);
    EscapeDoubled(w);
    StripCons(t, "", keepStrings);
    assert Raw(t) + "" == s == Raw(t);
  }

  lemma StripSatisfies(f: string -> string, keepStrings: bool)
    requires forall s :: f(s) == Strip(s, keepStrings)
    ensures Equations(f, keepStrings)
  {
    forall s, c, rest | CodeThen(s, c, rest) ensures f(s) == [c] + f(rest) {
      StripCons(Code(c), rest, keepStrings);
    }
    forall s, w, rest | LineThen(s, w, rest) ensures f(s) == f(rest) {
      LineEquation(s, w, rest, keepStrings);
    }
    BlocksSatisfied(f, keepStrings);
    LiteralsSatisfied(f, keepStrings);
  }

  lemma BlocksSatisfied(f: string -> string, keepStrings: bool)
    requires forall s :: f(s) == Strip(s, keepStrings)
    ensures BlocksLeaveBreaks(f)
  {
    forall s, w, rest | BlockThen(s, w, rest) ensures f(s) == Newlines(w) + f(rest) {
      BlockEquation(s, w, rest, keepStrings);
    }
    forall s, w | OpenBlock(s, w) ensures f(s) == Newlines(w) {
      OpenBlockEquation(s, w, keepStrings);
    }
  }

  lemma LiteralsSatisfied(f: string -> string, keepStrings: bool)
    requires forall s :: f(s) == Strip(s, keepStrings)
    ensures if keepStrings then LiteralsKept(f) else LiteralsBlanked(f)
  {
    forall s, w, rest | LiteralThen(s, w, rest)
      ensures f(s) == (if keepStrings then "'" + Escape(w) + "'" else "''" + Newlines(w)) + f(rest)
    {
      LiteralEquation(s, w, rest, keepStrings);
    }
    forall s, w | OpenLiteral(s, w) ensures f(s) == if keepStrings then s else "''" + Newlines(w) {
      OpenLiteralEquation(s, w, keepStrings);
    }
  }

  // ---- Nothing else does ----

  /** A function that satisfies the equations takes the first token as stripping does. */
  lemma FirstStep(f: string -> string, keepStrings: bool, s: string, t: Token, rest: string)
    requires Equations(f, keepStrings) && Fits(t, rest) && s == Raw(t) + rest
    ensures f(s) == Render(t, keepStrings) + f(rest)
  {
    match t
    case Code(c) => assert CodeThen(s, c, rest);
    case LineComment(w) =>
      assert LineThen(s, w, rest);
      assert "" + f(rest) == f(rest);
    case BlockComment(w, closed) => FirstBlock(f, s, w, closed, rest);
    case Literal(body, closed) => FirstLiteral(f, keepStrings, s, body, closed, rest);
  }

  lemma FirstBlock(f: string -> string, s: string, w: string, closed: bool, rest: string)
    requires f("") == "" && BlocksLeaveBreaks(f)
    requires Fits(BlockComment(w, closed), rest) && s == Raw(BlockComment(w, closed)) + rest
    ensures f(s) == Newlines(w) + f(rest)
  {
    if closed {
      assert BlockThen(s, w, rest);
    } else {
      assert OpenBlock(s, w);
    }
  }

  lemma FirstLiteral(f: string -> string, keepStrings: bool, s: string, body: string, closed: bool, rest: string)
    requires f("") == "" && if keepStrings then LiteralsKept(f) else LiteralsBlanked(f)
    requires Fits(Literal(body, closed), rest) && s == Raw(Literal(body, closed)) + rest
    ensures f(s) == Render(Literal(body, closed), keepStrings) + f(rest)
  {
    var w := DoubledEscape(body);
    EscapeDoubled(w);
    if closed {
      assert LiteralThen(s, w, rest);
    } else {
      assert OpenLiteral(s, w);
    }
  }

  lemma SplitFirst(s: string) returns (t: Token, rest: string)
    requires s != ""
    ensures s == Raw(t) + rest && Fits(t, rest) && |rest| < |s|
  {
    t := FirstToken(s);
    rest := s[|Raw(t)|..];
  }

  lemma StripFirst(s: string, t: Token, rest: string, keepStrings: bool)
    requires s == Raw(t) + rest && Fits(t, rest)
    ensures Strip(s, keepStrings) == Render(t, keepStrings) + Strip(rest, keepStrings)
  {
    StripCons(t, rest, keepStrings);
  }

  lemma {:induction false} OnlyStrip(f: string -> string, keepStrings: bool, s: string)
    requires Equations(f, keepStrings)
    ensures f(s) == Strip(s, keepStrings)
    decreases |s|
  {
    if s != "" {
      var t, rest := SplitFirst(s);
      OnlyStrip(f, keepStrings, rest);
      FirstStep(f, keepStrings, s, t, rest);
      StripFirst(s, t, rest, keepStrings);
    }
  }

  /** The equations say exactly what stripping is. */
  lemma StripIffEquations(f: string -> string, keepStrings: bool)
    ensures Equations(f, keepStrings) <==> forall s :: f(s) == Strip(s, keepStrings)
  {
    if Equations(f, keepStrings) {
      forall s ensures f(s) == Strip(s, keepStrings) {
        OnlyStrip(f, keepStrings, s);
      }
    }
    if forall s :: f(s) == Strip(s, keepStrings) {
      StripSatisfies(f, keepStrings);
    }
  }

  // ---- What keeping the strings keeps ----

  /** With keepStrings every literal stands unchanged in the output. */
  lemma LiteralKept(text: string, k: nat)
    requires k < |Tokens(text)| && Tokens(text)[k].Literal?
    ensures var ts, out := Tokens(text), Strip(text, true);
      var from, to := |RawAll(ts[..k])|, |RenderAll(ts[..k], true)|;
      var n := |Raw(ts[k])|;
      from + n <= |text| && to + n <= |out| && out[to..to + n] == text[from..from + n] == Raw(ts[k])
  {
    TokensLex(text);
    LiteralStands(Tokens(text), k, text, Strip(text, true));
  }

  lemma LiteralStands(ts: seq<Token>, k: nat, text: string, out: string)
    requires k < |ts| && ts[k].Literal? && text == RawAll(ts) && out == RenderAll(ts, true)
    ensures var from, to, n := |RawAll(ts[..k])|, |RenderAll(ts[..k], true)|, |Raw(ts[k])|;
      from + n <= |text| && to + n <= |out| && out[to..to + n] == text[from..from + n] == Raw(ts[k])
  {
    Split(ts, k, true);
    Middle(text, RawAll(ts[..k]), Raw(ts[k]), RawAll(ts[k + 1..]));
    Middle(out, RenderAll(ts[..k], true), Raw(ts[k]), RenderAll(ts[k + 1..], true));
  }

  lemma Middle(text: string, a: string, b: string, c: string)
    requires text == a + (b + c)
    ensures |a| + |b| <= |text| && text[|a|..|a| + |b|] == b
  {
  }

  predicate IsComment(t: Token) {
    t.LineComment? || t.BlockComment?
  }

  /** With keepStrings a text stays as it is exactly when it has no comments. */
  lemma KeptIffNoComments(text: string)
    ensures Strip(text, true) == text <==> forall t :: t in Tokens(text) ==> !IsComment(t)
  {
    TokensLex(text);
    KeptLength(Tokens(text));
    if forall t :: t in Tokens(text) ==> !IsComment(t) {
      KeptAll(Tokens(text));
    }
  }

  lemma {:induction false} KeptLength(ts: seq<Token>)
    ensures |RenderAll(ts, true)| <= |RawAll(ts)|
    ensures |RenderAll(ts, true)| == |RawAll(ts)| ==> forall t :: t in ts ==> !IsComment(t)
  {
    if ts != [] {
      KeptLength(ts[1..]);
      assert |Render(ts[0], true)| <= |Raw(ts[0])|;
      assert IsComment(ts[0]) ==> |Render(ts[0], true)| < |Raw(ts[0])|;
      assert ts == [ts[0]] + ts[1..];
    }
  }

  lemma {:induction false} KeptAll(ts: seq<Token>)
    requires forall t :: t in ts ==> !IsComment(t)
    ensures RenderAll(ts, true) == RawAll(ts)
  {
    if ts != [] {
      assert ts[0] in ts;
      KeptAll(ts[1..]);
    }
  }
}
