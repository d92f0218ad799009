/** Entries written in the documented format of scripts/migration-lint.allow read back unchanged. */
module AllowFormat {
  import opened AllowList
  import opened Common
  import opened Naming

  function Decimal(n: nat): string {
    if n < 10 then [Digit(n)] else Decimal(n / 10) + [Digit(n % 10)]
  }

  function Digit(d: nat): (c: char)
    requires d < 10
    ensures IsDigit(c) && c as int - '0' as int == d
  {
    ('0' as int + d) as char
  }

  /** The second word of an entry. */
  function Target(e: Entry): string
    requires e.line.Some? ==> e.line.value >= 0
  {
    e.path + if e.line.Some? then ":" + Decimal(e.line.value) else ""
  }

  /** A non-empty text without blanks and comment marks. */
  ghost predicate IsWord(s: string) {
    s != "" && forall k :: 0 <= k < |s| ==> !IsSpace(s[k]) && s[k] != '#'
  }

  /** `<rule> <path>[:<line>]  # justification` */
  function Format(e: Entry, why: string): string
    requires e.line.Some? ==> e.line.value >= 0
  {
    e.rule + " " + Target(e) + "  " + "#" + why
  }

  lemma {:induction false} DecimalReadsBack(n: nat)
    ensures AllDigits(Decimal(n)) && ParseInt(Decimal(n)) == n
  {
    if n >= 10 {
      DecimalReadsBack(n / 10);
      assert Decimal(n)[..|Decimal(n)| - 1] == Decimal(n / 10);
    } else {
      assert Decimal(n)[..0] == "";
    }
  }

  lemma {:induction false} BeforeAt(s: string, c: char, k: nat)
    requires k < |s| && s[k] == c && forall j :: 0 <= j < k ==> s[j] != c
    ensures Before(s, c) == k
  {
    if k > 0 {
      BeforeAt(s[1..], c, k - 1);
    }
  }

  lemma {:induction false} WordLenAt(w: string, rest: string)
    requires forall j :: 0 <= j < |w| ==> !IsSpace(w[j])
    requires rest == "" || IsSpace(rest[0])
    ensures WordLen(w + rest) == |w|
  {
    if w == "" {
      assert w + rest == rest;
    } else {
      WordLenAt(w[1..], rest);
      assert (w + rest)[1..] == w[1..] + rest;
    }
  }

  lemma BeforeNone(s: string, c: char)
    requires forall j :: 0 <= j < |s| ==> s[j] != c
    ensures Before(s, c) == |s|
  {
  }

  lemma TargetIsWord(e: Entry)
    requires IsWord(e.path) && (e.line.Some? ==> e.line.value >= 0)
    ensures IsWord(Target(e))
  {
    if e.line.Some? {
      DecimalReadsBack(e.line.value);
    }
  }

  /** Splitting the target at the colon gives the path and the line. */
  lemma TargetSplits(e: Entry)
    requires e.line.Some? ==> e.line.value >= 0
    requires forall k :: 0 <= k < |e.path| ==> e.path[k] != ':'
    ensures ParseTarget(e.rule, Target(e)) == e
  {
    var t := Target(e);
    if e.line.Some? {
      BeforeAt(t, ':', |e.path|);
      assert t[|e.path| + 1..] == Decimal(e.line.value);
      DecimalReadsBack(e.line.value);
    } else {
      assert t == e.path;
      BeforeNone(t, ':');
    }
    assert t[..|e.path|] == e.path;
  }

  // ---- What a line has to look like ----

  ghost predicate Blank(s: string) {
    forall k :: 0 <= k < |s| ==> IsSpace(s[k])
  }

  /** Two words apart, the mark, and a justification that is not blank. */
  ghost predicate IsEntryLine(raw: string, a: string, rule: string, b: string, target: string, c: string, why: string) {
    && Blank(a) && Blank(b) && b != "" && Blank(c) && !Blank(why)
    && IsWord(rule) && IsWord(target)
    && raw == a + rule + b + target + c + "#" + why
  }

  lemma {:induction false} SkipBlank(a: string, s: string)
    requires Blank(a)
    ensures SkipSpaces(a + s) == SkipSpaces(s)
  {
    if a == "" {
      assert a + s == s;
    } else {
      SkipBlank(a[1..], s);
      assert (a + s)[1..] == a[1..] + s;
    }
  }

  lemma {:induction false} SkipMeaning(s: string) returns (a: string)
    ensures Blank(a) && s == a + SkipSpaces(s)
    ensures SkipSpaces(s) == "" <==> Blank(s)
  {
    if s != "" && IsSpace(s[0]) {
      var b := SkipMeaning(s[1..]);
      a := [s[0]] + b;
      assert forall k :: 0 < k < |s| ==> s[k] == s[1..][k - 1];
    } else {
      a := "";
    }
  }

  lemma WordAfterBlank(a: string, w: string, rest: string)
    requires Blank(a) && IsWord(w) && (rest == "" || IsSpace(rest[0]))
    ensures Words(a + (w + rest)) == [w] + Words(rest)
  {
    SkipBlank(a, w + rest);
    var t := w + rest;
    assert t[0] == w[0] && SkipSpaces(t) == t;
    WordLenAt(w, rest);
    assert t[..|w|] == w && t[|w|..] == rest;
  }

  lemma NoWords(c: string)
    requires Blank(c)
    ensures Words(c) == []
  {
    var _ := SkipMeaning(c);
  }

  /** Undoing Words: the first word with the blanks before it. */
  lemma FirstWord(s: string) returns (a: string, w: string, rest: string)
    requires |Words(s)| > 0
    ensures s == a + w + rest && Blank(a) && (rest == "" || IsSpace(rest[0]))
    ensures w != "" && forall k :: 0 <= k < |w| ==> !IsSpace(w[k])
    ensures Words(s) == [w] + Words(rest)
  {
    a := SkipMeaning(s);
    w, rest := WordsUnfold(s);
  }

  lemma WordsUnfold(s: string) returns (w: string, rest: string)
    requires |Words(s)| > 0
    ensures SkipSpaces(s) == w + rest && (rest == "" || IsSpace(rest[0]))
    ensures w != "" && forall k :: 0 <= k < |w| ==> !IsSpace(w[k])
    ensures Words(s) == [w] + Words(rest)
  {
    SkipShortens(s);
    var t := SkipSpaces(s);
    w, rest := t[..WordLen(t)], t[WordLen(t)..];
  }

  lemma WordsEmpty(s: string)
    ensures Words(s) == [] ==> Blank(s)
  {
    var _ := SkipMeaning(s);
  }

  /** A line is accepted exactly when it has the documented form. */
  lemma AcceptedIff(raw: string, e: Entry)
    ensures ParseLine(raw) == Allowed(e) <==>
      exists a, b, target, c, why :: IsEntryLine(raw, a, e.rule, b, target, c, why) && e == ParseTarget(e.rule, target)
  {
    if a, b, target, c, why :| IsEntryLine(raw, a, e.rule, b, target, c, why) && e == ParseTarget(e.rule, target) {
      EntryLineParses(raw, a, e.rule, b, target, c, why);
    }
    if ParseLine(raw) == Allowed(e) {
      var a, b, target, c, why := ParsedHasForm(raw, e);
    }
  }

  /** A line is passed over exactly when it is blank or its first visible character is the mark. */
  lemma IgnoredIff(raw: string)
    ensures ParseLine(raw) == Ignored <==> exists a :: Blank(a) && (raw == a || a + "#" <= raw)
  {
    var a := SkipMeaning(raw);
    if SkipSpaces(raw) == "" {
      assert raw == a;
    } else if SkipSpaces(raw)[0] == '#' {
      assert a + "#" <= raw;
    }
    forall b | Blank(b) && b + "#" <= raw ensures StartsWithMark(SkipSpaces(raw)) {
      var rest := raw[|b|..];
      assert raw == b + rest && rest[0] == '#';
      SkipBlank(b, rest);
    }
  }

  predicate StartsWithMark(s: string) {
    s != "" && s[0] == '#'
  }

  lemma EntryLineParses(raw: string, a: string, rule: string, b: string, target: string, c: string, why: string)
    requires IsEntryLine(raw, a, rule, b, target, c, why)
    ensures ParseLine(raw) == Allowed(ParseTarget(rule, target))
  {
    var body := a + rule + b + target + c;
    assert body == a + (rule + (b + (target + c)));
    WordAfterBlank(a, rule, b + (target + c));
    WordAfterBlank(b, target, c);
    NoWords(c);
    var _ := SkipMeaning(why);
    MarkedLine(raw, a, rule, body, why);
  }

  lemma MarkedLine(raw: string, a: string, rule: string, body: string, why: string)
    requires raw == body + "#" + why && IsWord(rule) && Blank(a) && a + rule <= body
    requires forall k :: 0 <= k < |body| ==> body[k] != '#'
    ensures ParseLine(raw) == ParseParts(Words(body), why)
  {
    BodyThenMark(raw, body, why);
    VisibleStart(raw, a, rule);
  }

  lemma VisibleStart(raw: string, a: string, rule: string)
    requires Blank(a) && IsWord(rule) && a + rule <= raw
    ensures SkipSpaces(raw) != "" && SkipSpaces(raw)[0] != '#'
  {
    var rest := raw[|a| + |rule|..];
    assert raw == a + (rule + rest);
    SkipBlank(a, rule + rest);
    assert (rule + rest)[0] == rule[0];
  }

  lemma BodyThenMark(raw: string, body: string, why: string)
    requires raw == body + "#" + why
    requires forall k :: 0 <= k < |body| ==> body[k] != '#'
    ensures Before(raw, '#') == |body| && raw[..|body|] == body && After(raw, '#') == why
  {
    BeforeAt(raw, '#', |body|);
  }

  lemma ParsedHasForm(raw: string, e: Entry)
    returns (a: string, b: string, target: string, c: string, why: string)
    requires ParseLine(raw) == Allowed(e)
    ensures IsEntryLine(raw, a, e.rule, b, target, c, why) && e == ParseTarget(e.rule, target)
  {
    var k := Before(raw, '#');
    var body := raw[..k];
    why := After(raw, '#');
    var _ := SkipMeaning(why);
    assert k < |raw|;
    assert raw == body + "#" + why;
    var rule, rest, tail;
    a, rule, rest := FirstWord(body);
    b, target, tail := FirstWord(rest);
    c := tail;
    WordsEmpty(tail);
    assert Words(tail) == [];
    SecondWord(body, a, rule, rest, b, target, tail);
  }

  lemma SecondWord(body: string, a: string, rule: string, rest: string, b: string, target: string, tail: string)
    requires body == a + rule + rest && rest == b + target + tail && rest != ""
    requires IsSpace(rest[0]) && target != "" && !IsSpace(target[0])
    requires forall k :: 0 <= k < |body| ==> body[k] != '#'
    ensures b != "" && body == a + rule + b + target + tail
    ensures forall k :: 0 <= k < |rule| ==> rule[k] != '#'
    ensures forall k :: 0 <= k < |target| ==> target[k] != '#'
  {
    assert rest[|b|] == target[0];
    forall k | 0 <= k < |rule| ensures rule[k] != '#' {
      assert body[|a| + k] == rule[k];
    }
    forall k | 0 <= k < |target| ensures target[k] != '#' {
      assert body[|a| + |rule| + |b| + k] == target[k];
    }
  }

  // ---- The round trip ----

  /** Every entry with a proper rule and path, written with some justification, reads back. */
  lemma FormatReadsBack(e: Entry, why: string)
    requires IsWord(e.rule) && IsWord(e.path) && forall k :: 0 <= k < |e.path| ==> e.path[k] != ':'
    requires e.line.Some? ==> e.line.value >= 0
    requires !Blank(why)
    ensures ParseLine(Format(e, why)) == Allowed(e)
  {
    TargetIsWord(e);
    TargetSplits(e);
    FormatIsEntryLine(e.rule, Target(e), why);
    EntryLineParses(Format(e, why), "", e.rule, " ", Target(e), "  ", why);
  }

  lemma FormatIsEntryLine(rule: string, target: string, why: string)
    requires IsWord(rule) && IsWord(target) && !Blank(why)
    ensures IsEntryLine(rule + " " + target + "  " + "#" + why, "", rule, " ", target, "  ", why)
  {
    assert "" + rule == rule;
  }

  // ---- What an entry allows ----

  /** An entry with a line allows the violations of its rule in its file on that line; without
      a line, those on every line. Nothing else. */
  lemma EntryAllows(r: string, p: string, l: nat, why: string, v: Violation)
    requires IsWord(r) && IsWord(p) && (forall k :: 0 <= k < |p| ==> p[k] != ':') && !Blank(why)
    ensures Allows(Format(Entry(r, p, Some(l)), why), v) <==> v.rule == r && v.path == p && v.line == l
    ensures Allows(Format(Entry(r, p, None), why), v) <==> v.rule == r && v.path == p
  {
    FormatReadsBack(Entry(r, p, Some(l)), why);
    FormatReadsBack(Entry(r, p, None), why);
  }

  /** With that line as the allow file and one violation, the exit code of Run is 0 exactly when
      the entry names the violation; a warning is no exception, since the entry would be stale. */
  lemma OneLineSettles(r: string, p: string, l: nat, why: string, v: Violation)
    requires IsWord(r) && IsWord(p) && (forall k :: 0 <= k < |p| ==> p[k] != ':') && !Blank(why)
    ensures Settled([Format(Entry(r, p, Some(l)), why)], [v]) <==> v.rule == r && v.path == p && v.line == l
    ensures Settled([Format(Entry(r, p, None), why)], [v]) <==> v.rule == r && v.path == p
  {
    EntryAllows(r, p, l, why, v);
    FormatReadsBack(Entry(r, p, Some(l)), why);
    FormatReadsBack(Entry(r, p, None), why);
    SettledBySelf(Format(Entry(r, p, Some(l)), why), v);
    SettledBySelf(Format(Entry(r, p, None), why), v);
  }

  lemma SettledBySelf(raw: string, v: Violation)
    requires ParseLine(raw).Allowed?
    ensures Settled([raw], [v]) <==> Allows(raw, v)
  {
    var lines := [raw];
    assert lines[0] == raw;
    assert AllowedBySome(lines, v) <==> Allows(raw, v);
    if Allows(raw, v) {
      assert v in [v];
    }
    assert AllowsSome(raw, [v]) <==> Allows(raw, v);
  }

  /** Printable ASCII texts without the mark are words. */
  lemma PrintableIsWord(s: string)
    requires s != "" && forall k :: 0 <= k < |s| ==> '!' <= s[k] <= '~' && s[k] != '#'
    ensures IsWord(s)
  {
  }

  /** The form in use, with its blanks and its number spelled out. */
  lemma DocumentedLine(v: Violation)
    ensures Allows("R6 a.sql:10  # why", v) <==> v.rule == "R6" && v.path == "a.sql" && v.line == 10
  {
    PrintableIsWord("R6");
    PrintableIsWord("a.sql");
    assert Decimal(1) == "1" && Decimal(10) == "10";
    assert Format(Entry("R6", "a.sql", Some(10)), " why") == "R6 a.sql:10  # why";
    assert " why"[1] == 'w' && !IsSpace('w');
    EntryAllows("R6", "a.sql", 10, " why", v);
  }

  // ---- Which blanks, and how many, makes no difference ----

  /** Equal but for which blank stands where. */
  ghost predicate SameButBlanks(s: string, t: string) {
    |s| == |t| && forall k :: 0 <= k < |s| ==> s[k] == t[k] || (IsSpace(s[k]) && IsSpace(t[k]))
  }

  lemma {:induction false} SkipAlike(s: string, t: string)
    requires SameButBlanks(s, t)
    ensures SameButBlanks(SkipSpaces(s), SkipSpaces(t))
  {
    if s != "" && IsSpace(s[0]) {
      SkipAlike(s[1..], t[1..]);
    }
  }

  lemma {:induction false} WordAlike(s: string, t: string)
    requires SameButBlanks(s, t)
    ensures WordLen(s) == WordLen(t) && s[..WordLen(s)] == t[..WordLen(s)]
  {
    if s != "" && !IsSpace(s[0]) {
      WordAlike(s[1..], t[1..]);
      var n := WordLen(s);
      assert s[..n] == [s[0]] + s[1..][..n - 1] && t[..n] == [t[0]] + t[1..][..n - 1];
    }
  }

  lemma {:induction false} WordsAlike(s: string, t: string)
    requires SameButBlanks(s, t)
    ensures Words(s) == Words(t)
    decreases |s|
  {
    SkipAlike(s, t);
    var p, q := SkipSpaces(s), SkipSpaces(t);
    SkipShortens(s);
    if p != "" {
      WordAlike(p, q);
      WordsAlike(p[WordLen(p)..], q[WordLen(p)..]);
    }
  }

  lemma {:induction false} BeforeAlike(s: string, t: string)
    requires SameButBlanks(s, t)
    ensures Before(s, '#') == Before(t, '#')
  {
    if s != "" && s[0] != '#' {
      BeforeAlike(s[1..], t[1..]);
    }
  }

  lemma ParseAlike(s: string, t: string)
    requires SameButBlanks(s, t)
    ensures ParseLine(s) == ParseLine(t)
  {
    SkipAlike(s, t);
    BeforeAlike(s, t);
    var k := Before(s, '#');
    WordsAlike(s[..k], t[..k]);
    SkipAlike(After(s, '#'), After(t, '#'));
  }

  /** Every blank does what a space does. */
  lemma BlanksAlike(a: string, c: char, b: string)
    requires c == '\t' || c == '\n' || c == '\U{000B}' || c == '\U{000C}' || c == '\r'
          || c == '\U{001C}' || c == '\U{001D}' || c == '\U{001E}' || c == '\U{001F}'
    ensures ParseLine(a + [c] + b) == ParseLine(a + " " + b)
  {
    ParseAlike(a + [c] + b, a + " " + b);
  }

  lemma {:induction false} SkipTrailing(s: string)
    ensures SkipSpaces(s + "\n") == if SkipSpaces(s) == "" then "" else SkipSpaces(s) + "\n"
  {
    if s == "" {
      assert s + "\n" == "\n" && SkipSpaces("\n"[1..]) == "";
    } else if IsSpace(s[0]) {
      SkipTrailing(s[1..]);
      assert (s + "\n")[1..] == s[1..] + "\n";
    }
  }

  /** A line reads the same with and without its line break. */
  lemma LineBreakIgnored(raw: string)
    ensures ParseLine(raw + "\n") == ParseLine(raw)
  {
    SkipTrailing(raw);
    var k := Before(raw, '#');
    if k < |raw| {
      BeforeAt(raw + "\n", '#', k);
      assert (raw + "\n")[..k] == raw[..k] && After(raw + "\n", '#') == After(raw, '#') + "\n";
      SkipTrailing(After(raw, '#'));
    } else {
      BeforeNone(raw + "\n", '#');
    }
  }
}
