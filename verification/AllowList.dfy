/** The allow-list: parsing its lines (load_allow) and applying it to the violations found
    (the second half of run), both in scripts/migration_lint.py. */
module AllowList {
  import opened Common
  import opened Naming

  // ---- Lines ----

  /** The ASCII characters that Python counts as whitespace. */
  predicate IsSpace(c: char) {
    c == ' ' || '\t' <= c <= '\r' || '\U{001C}' <= c <= '\U{001F}'
  }

  predicate IsDigit(c: char) {
    '0' <= c <= '9'
  }

  function SkipSpaces(s: string): string {
    if s != "" && IsSpace(s[0]) then SkipSpaces(s[1..]) else s
  }

  /** The length of the part before the first `c`, or of all of `s`. */
  function Before(s: string, c: char): (k: nat)
    ensures k <= |s| && (k < |s| ==> s[k] == c)
    ensures forall j :: 0 <= j < k ==> s[j] != c
  {
    if s == "" || s[0] == c then 0 else 1 + Before(s[1..], c)
  }

  function WordLen(s: string): (k: nat)
    ensures k <= |s| && (k < |s| ==> IsSpace(s[k]))
    ensures forall j :: 0 <= j < k ==> !IsSpace(s[j])
  {
    if s == "" || IsSpace(s[0]) then 0 else 1 + WordLen(s[1..])
  }

  /** The whitespace-separated words of `s`. */
  function Words(s: string): seq<string>
    decreases |s|
  {
    var t := SkipSpaces(s);
    SkipShortens(s);
    if t == "" then [] else [t[..WordLen(t)]] + Words(t[WordLen(t)..])
  }

  lemma {:induction false} SkipShortens(s: string)
    ensures |SkipSpaces(s)| <= |s|
    ensures SkipSpaces(s) != "" ==> !IsSpace(SkipSpaces(s)[0]) && WordLen(SkipSpaces(s)) > 0
  {
    if s != "" && IsSpace(s[0]) {
      SkipShortens(s[1..]);
    }
  }

  predicate AllDigits(s: string) {
    s != "" && forall k :: 0 <= k < |s| ==> IsDigit(s[k])
  }

  function ParseInt(s: string): int
    requires forall k :: 0 <= k < |s| ==> IsDigit(s[k])
  {
    if s == "" then 0 else ParseInt(s[..|s| - 1]) * 10 + (s[|s| - 1] as int - '0' as int)
  }

  datatype Entry = Entry(rule: string, path: string, line: Option<int>)

  datatype Parsed = Ignored | Bad | Allowed(entry: Entry)

  /** The part after the first `c`, if there is one. */
  function After(s: string, c: char): string {
    var k := Before(s, c);
    if k < |s| then s[k + 1..] else ""
  }

  /** `path[:line]`; anything but digits after the colon means no line. */
  function ParseTarget(rule: string, target: string): (e: Entry)
    ensures e.path <= target && ':' !in e.path
    ensures e.path == target || target[|e.path|] == ':'
    ensures e.line.Some? <==> |e.path| < |target| && AllDigits(target[|e.path| + 1..])
    ensures e.line.Some? ==> e.line.value == ParseInt(target[|e.path| + 1..])
    ensures e.rule == rule
  {
    var ln := After(target, ':');
    Entry(rule, target[..Before(target, ':')], if AllDigits(ln) then Some(ParseInt(ln)) else None)
  }

  function ParseParts(parts: seq<string>, why: string): Parsed {
    if |parts| != 2 || SkipSpaces(why) == "" then Bad else Allowed(ParseTarget(parts[0], parts[1]))
  }

  /** One line: blank or comment, malformed, or an entry. */
  function ParseLine(raw: string): Parsed {
    var text := SkipSpaces(raw);
    if text == "" || text[0] == '#' then Ignored
    else ParseParts(Words(raw[..Before(raw, '#')]), After(raw, '#'))
  }

  class AllowEntry {
    const n: int
    const entry: Entry
    var used: bool

    constructor (n: int, entry: Entry)
      ensures this.n == n && this.entry == entry && !used
    {
      this.n, this.entry, used := n, entry, false;
    }
  }

  function ParseAll(lines: seq<string>): seq<Parsed> {
    seq(|lines|, k requires 0 <= k < |lines| => ParseLine(lines[k]))
  }

  /** The entries of the parsed lines, with their line numbers. */
  function EntriesOf(ps: seq<Parsed>): seq<(int, Entry)> {
    if ps == [] then []
    else
      var n := |ps|;
      EntriesOf(ps[..n - 1]) + if ps[n - 1].Allowed? then [(n, ps[n - 1].entry)] else []
  }

  /** The numbers of the malformed lines. */
  function BadLines(ps: seq<Parsed>): seq<int> {
    if ps == [] then [] else BadLines(ps[..|ps| - 1]) + if ps[|ps| - 1].Bad? then [|ps|] else []
  }

  ghost function Stored(entries: seq<AllowEntry>): seq<(int, Entry)> {
    seq(|entries|, k requires 0 <= k < |entries| => (entries[k].n, entries[k].entry))
  }

  method LoadAllow(lines: seq<string>) returns (entries: seq<AllowEntry>, errs: seq<int>)
    ensures Stored(entries) == EntriesOf(ParseAll(lines)) && errs == BadLines(ParseAll(lines))
    ensures fresh(entries) && forall e :: e in entries ==> !e.used
  {
    entries, errs := Collect(ParseAll(lines));
  }

  /** The loop over the lines, each already parsed. */
  method Collect(ps: seq<Parsed>) returns (entries: seq<AllowEntry>, errs: seq<int>)
    ensures Stored(entries) == EntriesOf(ps) && errs == BadLines(ps)
    ensures fresh(entries) && forall e :: e in entries ==> !e.used
  {
    entries, errs := [], [];
    for i := 0 to |ps|
      invariant Stored(entries) == EntriesOf(ps[..i]) && errs == BadLines(ps[..i])
      invariant fresh(entries) && forall e :: e in entries ==> !e.used
    {
      LineStep(ps, i);
      if ps[i].Allowed? {
        var e := new AllowEntry(i + 1, ps[i].entry);
        StoredSnoc(entries, e);
        entries := entries + [e];
      } else if ps[i].Bad? {
        errs := errs + [i + 1];
      }
    }
    assert ps[..|ps|] == ps;
  }

  lemma StoredSnoc(entries: seq<AllowEntry>, e: AllowEntry)
    ensures Stored(entries + [e]) == Stored(entries) + [(e.n, e.entry)]
  {
  }

  lemma LineStep(ps: seq<Parsed>, i: nat)
    requires i < |ps|
    ensures EntriesOf(ps[..i + 1]) == EntriesOf(ps[..i]) + if ps[i].Allowed? then [(i + 1, ps[i].entry)] else []
    ensures BadLines(ps[..i + 1]) == BadLines(ps[..i]) + if ps[i].Bad? then [i + 1] else []
  {
    assert ps[..i + 1][..i] == ps[..i];
  }

  // ---- The verdict ----

  predicate Matches(e: Entry, v: Violation) {
    e.rule == v.rule && e.path == v.path && (e.line == None || e.line == Some(v.line))
  }

  predicate Covered(entries: seq<Entry>, v: Violation) {
    exists e :: e in entries && Matches(e, v)
  }

  /** The violations no entry matches, in their order. */
  function Kept(violations: seq<Violation>, entries: seq<Entry>): seq<Violation> {
    if violations == [] then []
    else
      var front := violations[..|violations| - 1];
      var v := violations[|violations| - 1];
      Kept(front, entries) + if Covered(entries, v) then [] else [v]
  }

  function CountLevel(vs: seq<Violation>, level: Level): nat {
    if vs == [] then 0
    else CountLevel(vs[..|vs| - 1], level) + if vs[|vs| - 1].level == level then 1 else 0
  }

  ghost predicate Used(e: Entry, violations: seq<Violation>) {
    exists v :: v in violations && Matches(e, v)
  }

  /** The entries that match nothing. */
  ghost function Stale(entries: seq<Entry>, violations: seq<Violation>): seq<Entry> {
    if entries == [] then []
    else
      var front := entries[..|entries| - 1];
      var e := entries[|entries| - 1];
      Stale(front, violations) + if Used(e, violations) then [] else [e]
  }

  ghost function Values(entries: seq<AllowEntry>): seq<Entry> {
    seq(|entries|, k requires 0 <= k < |entries| => entries[k].entry)
  }

  /** The whole verdict as a function of what was found and what is allowed. */
  ghost function ErrorTotal(violations: seq<Violation>, entries: seq<Entry>, badLines: int): int {
    CountLevel(Kept(violations, entries), Error) + badLines + |Stale(entries, violations)|
  }

  method Judge(violations: seq<Violation>, entries: seq<AllowEntry>, allowErrs: seq<int>)
    returns (kept: seq<Violation>, errors: int, warns: int, code: int)
    requires forall e :: e in entries ==> !e.used
    modifies entries
    ensures kept == Kept(violations, Values(entries))
    ensures forall e :: e in entries ==> (e.used <==> Used(e.entry, violations))
    ensures errors == ErrorTotal(violations, Values(entries), |allowErrs|)
    ensures warns == CountLevel(kept, Warn)
    ensures code == if errors == 0 then 0 else 1
  {
    kept := [];
    for i := 0 to |violations|
      invariant kept == Kept(violations[..i], Values(entries))
      invariant forall e :: e in entries ==> (e.used <==> Used(e.entry, violations[..i]))
    {
      var front := violations[..i + 1];
      assert front[..i] == violations[..i] && front[i] == violations[i];
      var hit := MarkMatching(violations[i], entries);
      forall e | e in entries
        ensures Used(e.entry, front) <==> Used(e.entry, violations[..i]) || Matches(e.entry, violations[i])
      {
        UsedStep(e.entry, violations, i);
      }
      if !hit {
        kept := kept + [violations[i]];
      }
    }
    assert violations[..|violations|] == violations;
    errors := Count(kept, Error);
    warns := Count(kept, Warn);
    errors := errors + |allowErrs|;
    var stale := CountUnused(violations, entries);
    errors := errors + stale;
    code := if errors != 0 then 1 else 0;
  }

  lemma UsedStep(e: Entry, violations: seq<Violation>, i: nat)
    requires i < |violations|
    ensures Used(e, violations[..i + 1]) <==> Used(e, violations[..i]) || Matches(e, violations[i])
  {
    assert violations[..i + 1] == violations[..i] + [violations[i]];
    if Matches(e, violations[i]) {
      assert violations[i] in violations[..i + 1];
    }
    if Used(e, violations[..i]) {
      var v :| v in violations[..i] && Matches(e, v);
      assert v in violations[..i + 1];
    }
  }

  /** The inner loop: every matching entry is marked, not only the first. */
  method MarkMatching(v: Violation, entries: seq<AllowEntry>) returns (hit: bool)
    modifies entries
    ensures hit == Covered(Values(entries), v)
    ensures forall e :: e in entries ==> (e.used <==> old(e.used) || Matches(e.entry, v))
  {
    hit := false;
    for k := 0 to |entries|
      invariant hit <==> exists j :: 0 <= j < k && Matches(entries[j].entry, v)
      invariant forall e :: e in entries ==>
        (e.used <==> old(e.used) || (e in entries[..k] && Matches(e.entry, v)))
    {
      if Matches(entries[k].entry, v) {
        entries[k].used := true;
        hit := true;
      }
      assert entries[..k + 1] == entries[..k] + [entries[k]];
    }
    assert entries[..|entries|] == entries;
    ghost var values := Values(entries);
    if hit {
      var j :| 0 <= j < |entries| && Matches(entries[j].entry, v);
      assert values[j] in values;
    }
    if Covered(values, v) {
      ghost var e :| e in values && Matches(e, v);
      ghost var j :| 0 <= j < |values| && values[j] == e;
    }
  }

  method Count(vs: seq<Violation>, level: Level) returns (n: int)
    ensures n == CountLevel(vs, level)
  {
    n := 0;
    for i := 0 to |vs|
      invariant n == CountLevel(vs[..i], level)
    {
      assert vs[..i + 1][..i] == vs[..i];
      if vs[i].level == level {
        n := n + 1;
      }
    }
    assert vs[..|vs|] == vs;
  }

  method CountUnused(ghost violations: seq<Violation>, entries: seq<AllowEntry>) returns (n: int)
    requires forall e :: e in entries ==> (e.used <==> Used(e.entry, violations))
    ensures n == |Stale(Values(entries), violations)|
  {
    n := 0;
    for i := 0 to |entries|
      invariant n == |Stale(Values(entries[..i]), violations)|
    {
      assert Values(entries[..i + 1])[..i] == Values(entries[..i]);
      if !entries[i].used {
        n := n + 1;
      }
    }
    assert entries[..|entries|] == entries;
  }

  // ---- What the verdict means ----

  lemma {:induction false} KeptMembers(violations: seq<Violation>, entries: seq<Entry>, v: Violation)
    ensures multiset(Kept(violations, entries))[v] == if Covered(entries, v) then 0 else multiset(violations)[v]
  {
    if violations != [] {
      var front := violations[..|violations| - 1];
      var last := violations[|violations| - 1];
      KeptMembers(front, entries, v);
      assert violations == front + [last];
    }
  }

  /** Reporting goes file by file: the report of two lists in a row is the two reports in a row. */
  lemma {:induction false} KeptConcat(a: seq<Violation>, b: seq<Violation>, entries: seq<Entry>)
    ensures Kept(a + b, entries) == Kept(a, entries) + Kept(b, entries)
    decreases |b|
  {
    if b == [] {
      assert a + b == a;
    } else {
      var front := b[..|b| - 1];
      KeptConcat(a, front, entries);
      assert (a + b)[..|a + b| - 1] == a + front;
    }
  }

  lemma {:induction false} NoneOfLevel(vs: seq<Violation>, level: Level)
    ensures CountLevel(vs, level) == 0 <==> forall v :: v in vs ==> v.level != level
  {
    if vs != [] {
      var front, last := vs[..|vs| - 1], vs[|vs| - 1];
      NoneOfLevel(front, level);
      assert vs == front + [last];
      forall v ensures v in vs <==> v in front || v == last {}
    }
  }

  lemma NoErrorsLeft(violations: seq<Violation>, entries: seq<Entry>)
    ensures CountLevel(Kept(violations, entries), Error) == 0
       <==> forall v :: v in violations && v.level == Error ==> Covered(entries, v)
  {
    var kept := Kept(violations, entries);
    NoneOfLevel(kept, Error);
    forall v ensures v in kept <==> v in violations && !Covered(entries, v) {
      KeptMembers(violations, entries, v);
      assert v in kept <==> v in multiset(kept);
      assert v in violations <==> v in multiset(violations);
    }
  }

  lemma {:induction false} NoneStale(entries: seq<Entry>, violations: seq<Violation>)
    ensures Stale(entries, violations) == [] <==> forall e :: e in entries ==> Used(e, violations)
  {
    if entries != [] {
      var front := entries[..|entries| - 1];
      var last := entries[|entries| - 1];
      NoneStale(front, violations);
      assert entries == front + [last];
      forall e ensures e in entries <==> e in front || e == last {}
    }
  }

  /** The lint passes exactly when every error is allowed, no allow line is malformed and every
      entry matches some violation, a warning included. */
  lemma PassesIff(violations: seq<Violation>, entries: seq<Entry>, badLines: nat)
    ensures ErrorTotal(violations, entries, badLines) == 0 <==>
      && (forall v :: v in violations && v.level == Error ==> Covered(entries, v))
      && badLines == 0
      && (forall e :: e in entries ==> Used(e, violations))
  {
    NoErrorsLeft(violations, entries);
    NoneStale(entries, violations);
  }

  lemma {:induction false} LevelCounted(violations: seq<Violation>, entries: seq<Entry>, level: Level)
    ensures CountLevel(Kept(violations, entries), level) == |KeptPlaces(violations, entries, level)|
  {
    if violations == [] {
      assert KeptPlaces([], entries, level) == {};
    } else {
      var n := |violations| - 1;
      var front, last := violations[..n], violations[n];
      LevelCounted(front, entries, level);
      KeptPlacesSnoc(front, last, entries, level);
      assert violations == front + [last];
      CountSnoc(Kept(front, entries), last, level);
      assert Kept(front, entries) + [] == Kept(front, entries);
    }
  }

  /** Where the violations of a level stand that no entry matches. */
  ghost function KeptPlaces(violations: seq<Violation>, entries: seq<Entry>, level: Level): set<int> {
    set i | 0 <= i < |violations| && violations[i].level == level && !Covered(entries, violations[i])
  }

  lemma KeptPlacesSnoc(front: seq<Violation>, last: Violation, entries: seq<Entry>, level: Level)
    ensures |KeptPlaces(front + [last], entries, level)|
         == |KeptPlaces(front, entries, level)| + if last.level == level && !Covered(entries, last) then 1 else 0
  {
    var before := KeptPlaces(front, entries, level);
    assert KeptPlaces(front + [last], entries, level)
        == if last.level == level && !Covered(entries, last) then before + {|front|} else before;
  }

  lemma CountSnoc(vs: seq<Violation>, v: Violation, level: Level)
    ensures CountLevel(vs + [v], level) == CountLevel(vs, level) + if v.level == level then 1 else 0
  {
    assert (vs + [v])[..|vs|] == vs;
  }

  /** Where the entries stand that match nothing. */
  ghost function StalePlaces(entries: seq<Entry>, violations: seq<Violation>): set<int> {
    set i | 0 <= i < |entries| && !Used(entries[i], violations)
  }

  lemma {:induction false} StaleCounted(entries: seq<Entry>, violations: seq<Violation>)
    ensures |Stale(entries, violations)| == |StalePlaces(entries, violations)|
  {
    if entries == [] {
      assert StalePlaces([], violations) == {};
    } else {
      var n := |entries| - 1;
      StaleCounted(entries[..n], violations);
      var before := StalePlaces(entries[..n], violations);
      assert StalePlaces(entries, violations) == if Used(entries[n], violations) then before else before + {n};
    }
  }

  /** The error total counts the errors no entry matches, the malformed lines and the entries
      that match nothing, each place one time. */
  lemma ErrorTotalMeaning(violations: seq<Violation>, entries: seq<Entry>, badLines: int)
    ensures ErrorTotal(violations, entries, badLines)
         == |KeptPlaces(violations, entries, Error)| + badLines + |StalePlaces(entries, violations)|
  {
    LevelCounted(violations, entries, Error);
    StaleCounted(entries, violations);
  }

  /** The accepted lines are recorded in order, with their 1-based numbers. */
  lemma {:induction false} EntriesOfMeaning(ps: seq<Parsed>, n: int, e: Entry)
    ensures (n, e) in EntriesOf(ps) <==> 1 <= n <= |ps| && ps[n - 1] == Allowed(e)
    ensures forall i, j :: 0 <= i < j < |EntriesOf(ps)| ==> EntriesOf(ps)[i].0 < EntriesOf(ps)[j].0
  {
    EntriesAscend(ps);
    if ps != [] {
      EntriesOfMeaning(ps[..|ps| - 1], n, e);
    }
  }

  lemma {:induction false} EntriesAscend(ps: seq<Parsed>)
    ensures forall i, j :: 0 <= i < j < |EntriesOf(ps)| ==> EntriesOf(ps)[i].0 < EntriesOf(ps)[j].0
    ensures forall i :: 0 <= i < |EntriesOf(ps)| ==> EntriesOf(ps)[i].0 <= |ps|
  {
    if ps != [] {
      EntriesAscend(ps[..|ps| - 1]);
    }
  }

  /** The malformed lines are reported in order, each one time. */
  lemma {:induction false} BadLinesAscend(ps: seq<Parsed>)
    ensures forall i, j :: 0 <= i < j < |BadLines(ps)| ==> BadLines(ps)[i] < BadLines(ps)[j]
    ensures forall i :: 0 <= i < |BadLines(ps)| ==> BadLines(ps)[i] <= |ps|
  {
    if ps != [] {
      BadLinesAscend(ps[..|ps| - 1]);
    }
  }

  /** Exactly the malformed lines are reported, by number. */
  lemma {:induction false} BadLineNumbers(ps: seq<Parsed>, n: int)
    ensures n in BadLines(ps) <==> 1 <= n <= |ps| && ps[n - 1].Bad?
  {
    if ps != [] {
      BadLineNumbers(ps[..|ps| - 1], n);
    }
  }

  // ---- From the lines of the file to the exit code ----

  predicate Allows(raw: string, v: Violation) {
    ParseLine(raw).Allowed? && Matches(ParseLine(raw).entry, v)
  }

  predicate AllowedBySome(lines: seq<string>, v: Violation) {
    exists k :: 0 <= k < |lines| && Allows(lines[k], v)
  }

  ghost predicate AllowsSome(raw: string, violations: seq<Violation>) {
    exists v :: v in violations && Allows(raw, v)
  }

  /** No line is malformed, every error is allowed by a line, and every line that is an entry
      allows something. */
  ghost predicate Settled(lines: seq<string>, violations: seq<Violation>) {
    && (forall k :: 0 <= k < |lines| ==> !ParseLine(lines[k]).Bad?)
    && (forall v :: v in violations && v.level == Error ==> AllowedBySome(lines, v))
    && (forall k :: 0 <= k < |lines| && ParseLine(lines[k]).Allowed? ==> AllowsSome(lines[k], violations))
  }

  /** Reading the allow file and applying it: the second half of run. */
  method Run(violations: seq<Violation>, lines: seq<string>) returns (code: int)
    ensures code == if Settled(lines, violations) then 0 else 1
  {
    var entries, allowErrs := LoadAllow(lines);
    var kept, errors, warns;
    ghost var values, stored := Values(entries), Stored(entries);
    assert forall i :: 0 <= i < |values| ==> values[i] == stored[i].1;
    kept, errors, warns, code := Judge(violations, entries, allowErrs);
    SettledIff(violations, lines, values);
  }

  /** `values` are the entries of the accepted lines. */
  ghost predicate EntriesIn(lines: seq<string>, values: seq<Entry>) {
    && |values| == |EntriesOf(ParseAll(lines))|
    && forall i :: 0 <= i < |values| ==> values[i] == EntriesOf(ParseAll(lines))[i].1
  }

  lemma SettledIff(violations: seq<Violation>, lines: seq<string>, values: seq<Entry>)
    requires EntriesIn(lines, values)
    ensures Settled(lines, violations) <==> ErrorTotal(violations, values, |BadLines(ParseAll(lines))|) == 0
  {
    PassesIff(violations, values, |BadLines(ParseAll(lines))|);
    NoneBad(lines);
    AllUsed(violations, lines, values);
    forall v ensures Covered(values, v) <==> AllowedBySome(lines, v) {
      CoveredByLine(lines, values, v);
    }
  }

  lemma CoveredByLine(lines: seq<string>, values: seq<Entry>, v: Violation)
    requires EntriesIn(lines, values)
    ensures Covered(values, v) <==> AllowedBySome(lines, v)
  {
    if e :| e in values && Matches(e, v) {
      var k := LineOfValue(lines, values, e);
      assert Allows(lines[k], v);
    }
    if k :| 0 <= k < |lines| && Allows(lines[k], v) {
      ValueOfLine(lines, values, k);
    }
  }

  lemma AllUsed(violations: seq<Violation>, lines: seq<string>, values: seq<Entry>)
    requires EntriesIn(lines, values)
    ensures (forall e :: e in values ==> Used(e, violations))
       <==> (forall k :: 0 <= k < |lines| && ParseLine(lines[k]).Allowed? ==> AllowsSome(lines[k], violations))
  {
    if forall e :: e in values ==> Used(e, violations) {
      forall k | 0 <= k < |lines| && ParseLine(lines[k]).Allowed? ensures AllowsSome(lines[k], violations) {
        ValueOfLine(lines, values, k);
        UsedLine(lines[k], violations);
      }
    } else {
      var e :| e in values && !Used(e, violations);
      var k := LineOfValue(lines, values, e);
      UsedLine(lines[k], violations);
    }
  }

  lemma UsedLine(raw: string, violations: seq<Violation>)
    requires ParseLine(raw).Allowed?
    ensures Used(ParseLine(raw).entry, violations) <==> AllowsSome(raw, violations)
  {
    var e := ParseLine(raw).entry;
    forall v ensures Matches(e, v) <==> Allows(raw, v) {}
  }

  lemma LineOfValue(lines: seq<string>, values: seq<Entry>, e: Entry) returns (k: nat)
    requires EntriesIn(lines, values) && e in values
    ensures k < |lines| && ParseLine(lines[k]) == Allowed(e)
  {
    var i :| 0 <= i < |values| && values[i] == e;
    k := LineOfEntry(ParseAll(lines), i);
  }

  lemma ValueOfLine(lines: seq<string>, values: seq<Entry>, k: nat)
    requires EntriesIn(lines, values) && k < |lines| && ParseLine(lines[k]).Allowed?
    ensures ParseLine(lines[k]).entry in values
  {
    var i := EntryOfLine(ParseAll(lines), k);
    assert values[i] == ParseLine(lines[k]).entry;
  }

  lemma {:induction false} LineOfEntry(ps: seq<Parsed>, i: nat) returns (k: nat)
    requires i < |EntriesOf(ps)|
    ensures k < |ps| && ps[k] == Allowed(EntriesOf(ps)[i].1)
  {
    var front := ps[..|ps| - 1];
    if i < |EntriesOf(front)| {
      k := LineOfEntry(front, i);
    } else {
      k := |ps| - 1;
    }
  }

  lemma {:induction false} EntryOfLine(ps: seq<Parsed>, k: nat) returns (i: nat)
    requires k < |ps| && ps[k].Allowed?
    ensures i < |EntriesOf(ps)| && EntriesOf(ps)[i].1 == ps[k].entry
  {
    var front := ps[..|ps| - 1];
    if k < |front| {
      i := EntryOfLine(front, k);
    } else {
      i := |EntriesOf(front)|;
    }
  }

  lemma NoneBad(lines: seq<string>)
    ensures |BadLines(ParseAll(lines))| == 0 <==> forall k :: 0 <= k < |lines| ==> !ParseLine(lines[k]).Bad?
  {
    var ps := ParseAll(lines);
    forall k | 0 <= k < |lines| && ParseLine(lines[k]).Bad? ensures |BadLines(ps)| > 0 {
      BadLineNumbers(ps, k + 1);
    }
    if |BadLines(ps)| > 0 {
      BadLineNumbers(ps, BadLines(ps)[0]);
    }
  }
}
