/** The one-pass scanner strip_sql (scripts/migration_lint.py). */
module SqlStrip {
  import opened Common
  import opened SqlText

  /** The scanner computes the stripped text of the token-level definition. `visited` holds
      the scan positions: for either value of keepStrings the places where tokens begin. */
  method StripSql(text: string, keepStrings: bool) returns (out: string, ghost visited: seq<nat>)
    ensures out == Strip(text, keepStrings)
    ensures visited == Starts(Tokens(text), 0)
  {
    out, visited := "", [];
    var i, n := 0, |text|;
    assert text[0..] == text;
    while i < n
      invariant 0 <= i <= n
      invariant Strip(text, keepStrings) == out + Strip(text[i..], keepStrings)
      invariant Starts(Tokens(text), 0) == visited + Starts(Tokens(text[i..]), i)
      decreases n - i
    {
      var piece, j := ScanToken(text, i, keepStrings);
      ghost var t := FirstSplits(text, i, j);
      Advance(text[i..], t, text[j..], i, j, keepStrings);
      Regroup(out, Strip(text[i..], keepStrings), piece, Strip(text[j..], keepStrings));
      Regroup(visited, Starts(Tokens(text[i..]), i), [i], Starts(Tokens(text[j..]), j));
      out, visited := out + piece, visited + [i];
      i := j;
    }
    assert out + "" == out;
  }

  /** The body of the main loop: the token that begins at `i` is put out, and the scan goes
      on where it ends. */
  method ScanToken(text: string, i: int, keepStrings: bool) returns (piece: string, j: int)
    requires 0 <= i < |text|
    ensures j == i + |Raw(FirstToken(text[i..]))| && i < j <= |text|
    ensures piece == Render(FirstToken(text[i..]), keepStrings)
  {
    ghost var t: Token;
    var n := |text|;
    var c := text[i];
    var two := text[i..Min(i + 2, n)];
    TwoChars(text, i);
    if two == "--" {
      j := SkipLine(text, i);
      t := LineComment(text[i + 2..j]);
      piece := "";
    } else if two == "/*" {
      var k := CloseAt(text[i + 2..]);
      t := BlockStep(text, i, k);
      j := if k < 0 then n else i + 2 + k + 2;
      piece := Newlines(text[i..j]);
    } else if c == '\'' {
      j := SkipLiteral(text, i);
      t := LiteralAt(text, i, j);
      piece := if keepStrings then text[i..j] else "''" + Newlines(text[i..j]);
    } else {
      CodeStep(text, i);
      t := Code(c);
      piece, j := [c], i + 1;
    }
    RawNewlines(t);
    TokenAtIsFirst(text, i, t, j);
  }

  lemma TwoChars(text: string, i: int)
    requires 0 <= i < |text|
    ensures text[i..Min(i + 2, |text|)] == "--" <==> i + 1 < |text| && text[i] == '-' && text[i + 1] == '-'
    ensures text[i..Min(i + 2, |text|)] == "/*" <==> i + 1 < |text| && text[i] == '/' && text[i + 1] == '*'
  {
    var two := text[i..Min(i + 2, |text|)];
    assert two[0] == text[i] && (i + 1 < |text| ==> two[1] == text[i + 1]);
  }

  /** `t` stands at `i` in the text, ends at `j`, and fits what follows. */
  ghost predicate TokenAt(text: string, i: int, t: Token, j: int) {
    0 <= i < j <= |text| && text[i..j] == Raw(t) && Fits(t, text[j..])
  }

  /** Only one token can, and it is the one the tokenizer finds. */
  lemma TokenAtIsFirst(text: string, i: int, t: Token, j: int)
    requires TokenAt(text, i, t, j)
    ensures t == FirstToken(text[i..]) && j == i + |Raw(t)| && text[i..] == Raw(t) + text[j..]
  {
    assert text[i..] == Raw(t) + text[j..];
    FirstTokenIs(t, text[j..]);
  }

  lemma FirstSplits(text: string, i: int, j: int) returns (t: Token)
    requires 0 <= i < |text| && j == i + |Raw(FirstToken(text[i..]))|
    ensures t == FirstToken(text[i..]) && TokenAt(text, i, t, j) && text[i..] == Raw(t) + text[j..]
  {
    t := FirstToken(text[i..]);
    TokenStands(text, i, t, j);
  }

  lemma TokenStands(text: string, i: int, t: Token, j: int)
    requires 0 <= i < |text| && j == i + |Raw(t)| && Begins(t, text[i..])
    ensures TokenAt(text, i, t, j) && text[i..] == Raw(t) + text[j..]
  {
    Slices(text, i, j);
  }

  lemma Slices(text: string, i: int, j: int)
    requires 0 <= i <= j <= |text|
    ensures text[i..j] == text[i..][..j - i] && text[i..][j - i..] == text[j..]
    ensures text[i..] == text[i..j] + text[j..]
  {
  }

  lemma Advance(s: string, t: Token, rest: string, from: nat, next: nat, keepStrings: bool)
    requires s == Raw(t) + rest && Fits(t, rest) && next == from + |Raw(t)|
    ensures Strip(s, keepStrings) == Render(t, keepStrings) + Strip(rest, keepStrings)
    ensures Starts(Tokens(s), from) == [from] + Starts(Tokens(rest), next)
  {
    StripCons(t, rest, keepStrings);
    StartsCons(s, t, rest, from, next);
  }

  lemma StartsCons(s: string, t: Token, rest: string, from: nat, next: nat)
    requires s == Raw(t) + rest && Fits(t, rest) && next == from + |Raw(t)|
    ensures Starts(Tokens(s), from) == [from] + Starts(Tokens(rest), next)
  {
    FirstTokenIs(t, rest);
    StartsOfCons(Tokens(s), t, Tokens(rest), from, next);
  }

  lemma StartsOfCons(ts: seq<Token>, t: Token, us: seq<Token>, from: nat, next: nat)
    requires ts == [t] + us && next == from + |Raw(t)|
    ensures Starts(ts, from) == [from] + Starts(us, next)
  {
    assert ts[1..] == us;
  }

  lemma Regroup<T>(before: seq<T>, mid: seq<T>, piece: seq<T>, rest: seq<T>)
    requires mid == piece + rest
    ensures before + mid == (before + piece) + rest
  {
  }

  lemma CodeStep(text: string, i: int)
    requires 0 <= i < |text| && text[i] != '\''
    requires i + 1 < |text| ==> !(text[i] == '-' && text[i + 1] == '-') && !(text[i] == '/' && text[i + 1] == '*')
    ensures TokenAt(text, i, Code(text[i]), i + 1)
  {
    assert i + 1 < |text| ==> text[i + 1..][0] == text[i + 1];
    assert text[i..i + 1][0] == text[i];
    assert text[i..i + 1] == Raw(Code(text[i]));
  }

  /** A line comment runs to its line break, which is not taken, or to the end. */
  method SkipLine(text: string, start: int) returns (i: int)
    requires 0 <= start < |text| - 1 && text[start] == '-' && text[start + 1] == '-'
    ensures start + 2 <= i <= |text| && '\n' !in text[start..i] && (i < |text| ==> text[i] == '\n')
    ensures TokenAt(text, start, LineComment(text[start + 2..i]), i)
  {
    i := start;
    while i < |text| && text[i] != '\n'
      invariant start <= i <= |text|
      invariant forall k :: start <= k < i ==> text[k] != '\n'
    {
      i := i + 1;
    }
    assert text[start..i] == "--" + text[start + 2..i];
  }

  lemma BlockStep(text: string, i: int, k: int) returns (t: Token)
    requires 0 <= i < |text| - 1 && text[i] == '/' && text[i + 1] == '*'
    requires k == CloseAt(text[i + 2..])
    ensures t.BlockComment? && t.closed == (k >= 0)
    ensures TokenAt(text, i, t, if k < 0 then |text| else i + 2 + k + 2)
  {
    var s := text[i + 2..];
    if k < 0 {
      t := BlockComment(s, false);
      assert text[i..] == Raw(t);
    } else {
      t := BlockComment(s[..k], true);
      ClosedSlice(text, i, k);
    }
  }

  lemma ClosedSlice(text: string, i: int, k: nat)
    requires 0 <= i < |text| - 1 && text[i] == '/' && text[i + 1] == '*'
    requires i + k + 4 <= |text| && text[i + 2..][k] == '*' && text[i + 2..][k + 1] == '/'
    ensures text[i..i + k + 4] == Raw(BlockComment(text[i + 2..][..k], true))
  {
    var r := Raw(BlockComment(text[i + 2..][..k], true));
    assert |r| == k + 4;
    forall m | 0 <= m < k + 4 ensures text[i..i + k + 4][m] == r[m] {
    }
  }

  /** A literal runs to one past the first quote that is not one of a pair, or to the end. */
  method SkipLiteral(text: string, i: int) returns (j: int)
    requires 0 <= i < |text| && text[i] == '\''
    ensures j == i + |Raw(FirstToken(text[i..]))| && i < j <= |text|
    ensures FirstToken(text[i..]).closed ==> i + 1 < j && text[j - 1] == '\''
    ensures !FirstToken(text[i..]).closed ==> j == |text|
  {
    var n := |text|;
    j := i + 1;
    while j < n
      invariant i < j <= n
      invariant Doubled(text[i + 1..j])
    {
      if text[j] == '\'' {
        if text[j + 1..Min(j + 2, n)] == "'" {
          assert text[j + 1..Min(j + 2, n)][0] == '\'';
          PairSlice(text, i + 1, j);
          j := j + 2;
          continue;
        }
        assert j + 1 < n ==> text[j + 1..Min(j + 2, n)] == [text[j + 1]];
        break;
      }
      CharSlice(text, i + 1, j);
      j := j + 1;
    }
    LiteralStep(text, i, j);
    j := Min(j + 1, n);
  }

  lemma LiteralAt(text: string, i: int, j: int) returns (t: Token)
    requires 0 <= i < |text| && text[i] == '\'' && j == i + |Raw(FirstToken(text[i..]))|
    ensures t.Literal? && TokenAt(text, i, t, j)
  {
    t := FirstSplits(text, i, j);
  }

  lemma LiteralStep(text: string, i: int, j: int)
    requires 0 <= i < j <= |text| && text[i] == '\'' && Doubled(text[i + 1..j])
    requires j < |text| ==> text[j] == '\'' && !StartsWith(text[j + 1..], '\'')
    ensures FirstToken(text[i..]) == Literal(text[i + 1..j], j < |text|)
    ensures Min(j + 1, |text|) == i + |Raw(FirstToken(text[i..]))|
  {
    var k := Min(j + 1, |text|);
    assert text[i..j] == "'" + text[i + 1..j];
    assert j < |text| ==> text[i..k] == text[i..j] + "'";
    TokenAtIsFirst(text, i, Literal(text[i + 1..j], j < |text|), k);
  }

  lemma PairSlice(text: string, i: int, j: int)
    requires 0 <= i <= j < |text| - 1 && text[j] == text[j + 1] == '\'' && Doubled(text[i..j])
    ensures Doubled(text[i..j + 2])
  {
    DoubledPair(text[i..j]);
    assert text[i..j + 2] == text[i..j] + [text[j], text[j + 1]];
  }

  lemma CharSlice(text: string, i: int, j: int)
    requires 0 <= i <= j < |text| && text[j] != '\'' && Doubled(text[i..j])
    ensures Doubled(text[i..j + 1])
  {
    DoubledChar(text[i..j], text[j]);
    assert text[i..j + 1] == text[i..j] + [text[j]];
  }

  lemma {:induction false} DoubledChar(s: string, c: char)
    requires Doubled(s) && c != '\''
    ensures Doubled(s + [c])
    decreases |s|
  {
    if s != "" {
      var k := if s[0] != '\'' then 1 else 2;
      DoubledChar(s[k..], c);
      assert (s + [c])[k..] == s[k..] + [c];
    }
  }

  lemma {:induction false} DoubledPair(s: string)
    requires Doubled(s)
    ensures Doubled(s + "''")
    decreases |s|
  {
    if s != "" {
      var k := if s[0] != '\'' then 1 else 2;
      DoubledPair(s[k..]);
      assert (s + "''")[k..] == s[k..] + "''";
    }
  }

  lemma {:induction false} NewlinesConcat(a: string, b: string)
    ensures Newlines(a + b) == Newlines(a) + Newlines(b)
    decreases |a|
  {
    if a == "" {
      assert a + b == b;
    } else {
      NewlinesConcat(a[1..], b);
      assert (a + b)[1..] == a[1..] + b;
    }
  }

  lemma {:induction false} NewlinesNone(s: string)
    requires '\n' !in s
    ensures Newlines(s) == ""
  {
    if s != "" {
      NewlinesNone(s[1..]);
    }
  }

  /** A token's delimiters hold no line breaks. */
  lemma RawNewlines(t: Token)
    requires LegalBody(t)
    ensures match t
      case Code(c) => Newlines(Raw(t)) == Newlines([c])
      case LineComment(body) => Newlines(Raw(t)) == ""
      case BlockComment(body, _) => Newlines(Raw(t)) == Newlines(body)
      case Literal(body, _) => Newlines(Raw(t)) == Newlines(body)
  {
    match t
    case Code(c) =>
    case LineComment(body) => NewlinesNone("--" + body);
    case BlockComment(body, closed) => DelimitedNewlines("/*", body, if closed then "*/" else "");
    case Literal(body, closed) => DelimitedNewlines("'", body, if closed then "'" else "");
  }

  lemma DelimitedNewlines(open: string, body: string, close: string)
    requires '\n' !in open && '\n' !in close
    ensures Newlines(open + body + close) == Newlines(body)
  {
    NewlinesConcat(open + body, close);
    NewlinesConcat(open, body);
    NewlinesNone(open);
    NewlinesNone(close);
  }
}
