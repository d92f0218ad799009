/** The file-name pass check_naming (scripts/migration_lint.py). */
module Naming {
  import opened Common
  import opened Sorting

  datatype Kind = Up | Down

  /** The version, compared as text, and the kind. */
  type Key = (string, Kind)

  /** A migration file: its relative path, and the version and kind its name matched, if it did. */
  datatype File = File(rel: string, name: Option<Key>)

  datatype Level = Error | Warn

  /** The messages of this pass, and any message of another one. */
  datatype Message =
    | MalformedName
    | DuplicateVersion(kind: Kind, version: string, also: string)
    | MissingDownFile
    | Other(text: string)

  datatype Violation = Violation(path: string, line: int, rule: string, level: Level, msg: Message)

  function Malformed(f: File): Violation {
    Violation(f.rel, 1, "R0", Error, MalformedName)
  }

  function Duplicate(f: File, key: Key, earlier: string): Violation {
    Violation(f.rel, 1, "R0", Error, DuplicateVersion(key.1, key.0, earlier))
  }

  function Unpaired(rel: string): Violation {
    Violation(rel, 1, "R0", Warn, MissingDownFile)
  }

  // ---- What the pass has to report ----

  /** The latest file before position `i` with this key. */
  function LatestBefore(files: seq<File>, i: nat, key: Key): (r: Option<nat>)
    requires i <= |files|
    ensures r.Some? ==> r.value < i && files[r.value].name == Some(key)
    ensures r.Some? ==> forall j :: r.value < j < i ==> files[j].name != Some(key)
    ensures r.None? ==> forall j :: 0 <= j < i ==> files[j].name != Some(key)
  {
    if i == 0 then None
    else if files[i - 1].name == Some(key) then Some(i - 1)
    else LatestBefore(files, i - 1, key)
  }

  function ErrorAt(files: seq<File>, i: nat): seq<Violation>
    requires i < |files|
  {
    match files[i].name
    case None => [Malformed(files[i])]
    case Some(key) =>
      match LatestBefore(files, i, key)
      case None => []
      case Some(j) => [Duplicate(files[i], key, files[j].rel)]
  }

  function Errors(files: seq<File>, n: nat): seq<Violation>
    requires n <= |files|
  {
    if n == 0 then [] else Errors(files, n - 1) + ErrorAt(files, n - 1)
  }

  /** The distinct (version, kind) pairs among the first `n` files. */
  ghost function Keys(files: seq<File>, n: nat): set<Key>
    requires n <= |files|
  {
    set i | 0 <= i < n && files[i].name.Some? :: files[i].name.value
  }

  /** Versions with an up file and no down file. */
  ghost function MissingDown(files: seq<File>): set<string> {
    set k | k in Keys(files, |files|) && k.1 == Up && (k.0, Down) !in Keys(files, |files|) :: k.0
  }

  /** One warning for each such version, by version, on the latest up file of it. */
  ghost predicate IsWarnings(files: seq<File>, ws: seq<Violation>) {
    exists vs :: Lists(TextLeq, vs, MissingDown(files)) && Described(files, vs, ws)
  }

  ghost predicate Described(files: seq<File>, vs: seq<string>, ws: seq<Violation>) {
    && |ws| == |vs|
    && forall k :: 0 <= k < |vs| ==>
      var j := LatestBefore(files, |files|, (vs[k], Up));
      j.Some? && ws[k] == Unpaired(files[j.value].rel)
  }

  // ---- The pass ----

  /** `vers` remembers the latest path of every key, `ups` that of every up version. */
  ghost predicate Recorded(files: seq<File>, i: nat, vers: map<Key, string>,
                           ups: map<string, string>, downs: set<string>)
    requires i <= |files|
  {
    LatestPaths(files, i, vers) && SplitByKind(vers, ups, downs)
  }

  ghost predicate LatestPaths(files: seq<File>, i: nat, vers: map<Key, string>)
    requires i <= |files|
  {
    forall key :: match LatestBefore(files, i, key)
      case Some(j) => key in vers && vers[key] == files[j].rel
      case None => key !in vers
  }

  ghost predicate SplitByKind(vers: map<Key, string>, ups: map<string, string>, downs: set<string>) {
    && (forall v :: v in ups <==> (v, Up) in vers)
    && (forall v :: v in ups ==> ups[v] == vers[(v, Up)])
    && (forall v :: v in downs <==> (v, Down) in vers)
  }

  method CheckNaming(files: seq<File>) returns (res: seq<Violation>)
    ensures Errors(files, |files|) <= res
    ensures IsWarnings(files, res[|Errors(files, |files|)|..])
    ensures IsReport(files, res)
  {
    res := [];
    var vers: map<Key, string> := map[];
    var ups: map<string, string> := map[];
    var downs: set<string> := {};
    for i := 0 to |files|
      invariant Recorded(files, i, vers, ups, downs)
      invariant res == Errors(files, i)
    {
      var f := files[i];
      NextError(files, i, vers, ups, downs);
      if f.name.None? {
        SkipFile(files, i, vers, ups, downs);
        res := res + [Malformed(f)];
        continue;
      }
      var key := f.name.value;
      if key in vers {
        res := res + [Duplicate(f, key, vers[key])];
      }
      RecordFile(files, i, vers, ups, downs);
      vers := vers[key := f.rel];
      if key.1 == Up {
        ups := ups[key.0 := f.rel];
      } else {
        downs := downs + {key.0};
      }
    }
    var ws := Warnings(files, vers, ups, downs);
    ReportMade(files, res, ws);
    res := res + ws;
  }

  lemma NextError(files: seq<File>, i: nat, vers: map<Key, string>, ups: map<string, string>, downs: set<string>)
    requires i < |files| && Recorded(files, i, vers, ups, downs)
    ensures Errors(files, i + 1) == Errors(files, i) + match files[i].name
      case None => [Malformed(files[i])]
      case Some(key) => if key in vers then [Duplicate(files[i], key, vers[key])] else []
  {
  }

  lemma SkipFile(files: seq<File>, i: nat, vers: map<Key, string>, ups: map<string, string>, downs: set<string>)
    requires i < |files| && files[i].name.None? && Recorded(files, i, vers, ups, downs)
    ensures Recorded(files, i + 1, vers, ups, downs)
  {
    forall key ensures LatestBefore(files, i + 1, key) == LatestBefore(files, i, key) {
      LatestStep(files, i, key);
    }
  }

  lemma RecordFile(files: seq<File>, i: nat, vers: map<Key, string>, ups: map<string, string>, downs: set<string>)
    requires i < |files| && files[i].name.Some? && Recorded(files, i, vers, ups, downs)
    ensures var key := files[i].name.value;
      Recorded(files, i + 1, vers[key := files[i].rel],
               if key.1 == Up then ups[key.0 := files[i].rel] else ups,
               if key.1 == Up then downs else downs + {key.0})
  {
    var k := files[i].name.value;
    RecordPath(files, i, k, vers);
    SplitStep(vers, ups, downs, k, files[i].rel);
  }

  lemma RecordPath(files: seq<File>, i: nat, k: Key, vers: map<Key, string>)
    requires i < |files| && files[i].name == Some(k) && LatestPaths(files, i, vers)
    ensures LatestPaths(files, i + 1, vers[k := files[i].rel])
  {
    forall key ensures LatestBefore(files, i + 1, key) == if key == k then Some(i) else LatestBefore(files, i, key) {
      LatestStep(files, i, key);
    }
  }

  lemma SplitStep(vers: map<Key, string>, ups: map<string, string>, downs: set<string>, k: Key, rel: string)
    requires SplitByKind(vers, ups, downs)
    ensures SplitByKind(vers[k := rel], if k.1 == Up then ups[k.0 := rel] else ups,
                        if k.1 == Up then downs else downs + {k.0})
  {
    assert k == (k.0, k.1);
  }

  lemma LatestStep(files: seq<File>, i: nat, key: Key)
    requires i < |files|
    ensures LatestBefore(files, i + 1, key)
         == if files[i].name == Some(key) then Some(i) else LatestBefore(files, i, key)
  {
  }

  /** The closing loop over sorted(ups.items()). */
  method Warnings(files: seq<File>, ghost vers: map<Key, string>, ups: map<string, string>, downs: set<string>)
    returns (ws: seq<Violation>)
    requires Recorded(files, |files|, vers, ups, downs)
    ensures IsWarnings(files, ws)
  {
    var order := SortedKeys(ups);
    ws := [];
    ghost var vs := [];
    for i := 0 to |order|
      invariant Picked(order[..i], downs, vs)
      invariant Described(files, vs, ws)
    {
      var v := order[i];
      assert v in Elems(order);
      PickNext(order, i, downs, vs);
      DescribedNext(files, vers, ups, downs, vs, ws, v);
      if v !in downs {
        ws := ws + [Unpaired(ups[v])];
        vs := vs + [v];
      }
    }
    assert order[..|order|] == order;
    PickedAll(files, vers, ups, downs, order, vs);
  }

  lemma DescribedNext(files: seq<File>, vers: map<Key, string>, ups: map<string, string>, downs: set<string>,
                      vs: seq<string>, ws: seq<Violation>, v: string)
    requires Recorded(files, |files|, vers, ups, downs) && Described(files, vs, ws) && v in ups
    ensures Described(files, vs + [v], ws + [Unpaired(ups[v])])
  {
    assert LatestBefore(files, |files|, (v, Up)).Some?;
  }

  /** `vs` is what is left of `order` without the versions in `downs`. */
  ghost predicate Picked(order: seq<string>, downs: set<string>, vs: seq<string>) {
    && SortedBy(TextLeq, vs) && Distinct(vs)
    && forall v :: v in vs <==> v in order && v !in downs
  }

  lemma PickNext(order: seq<string>, i: nat, downs: set<string>, vs: seq<string>)
    requires i < |order| && SortedBy(TextLeq, order) && Distinct(order)
    requires Picked(order[..i], downs, vs)
    ensures Picked(order[..i + 1], downs, if order[i] in downs then vs else vs + [order[i]])
  {
    var v := order[i];
    assert order[..i + 1] == order[..i] + [v];
    forall w | w in vs ensures TextLeq(w, v) && w != v {
      assert w in order[..i];
    }
    forall k | 0 <= k < |vs| ensures TextLeq(vs[k], v) && vs[k] != v {
      assert vs[k] in vs;
    }
  }

  lemma PickedAll(files: seq<File>, vers: map<Key, string>, ups: map<string, string>, downs: set<string>,
                  order: seq<string>, vs: seq<string>)
    requires Recorded(files, |files|, vers, ups, downs)
    requires Elems(order) == ups.Keys && Picked(order, downs, vs)
    ensures Lists(TextLeq, vs, MissingDown(files))
  {
    forall v ensures v in Elems(vs) <==> v in MissingDown(files) {
      KeyRecorded(files, vers, ups, downs, (v, Up));
      KeyRecorded(files, vers, ups, downs, (v, Down));
      assert v in vs <==> v in Elems(order) && v !in downs;
      if v in MissingDown(files) {
        var k :| k in Keys(files, |files|) && k.1 == Up && (k.0, Down) !in Keys(files, |files|) && k.0 == v;
        assert k == (v, Up);
      }
      if (v, Up) in Keys(files, |files|) && (v, Down) !in Keys(files, |files|) {
        var k := (v, Up);
        assert k.0 == v && k.1 == Up;
      }
    }
  }

  lemma KeyRecorded(files: seq<File>, vers: map<Key, string>, ups: map<string, string>, downs: set<string>,
                    key: Key)
    requires Recorded(files, |files|, vers, ups, downs)
    ensures key in vers <==> key in Keys(files, |files|)
  {
    var r := LatestBefore(files, |files|, key);
    if key in Keys(files, |files|) {
      var i :| 0 <= i < |files| && files[i].name.Some? && files[i].name.value == key;
      assert files[i].name == Some(key);
    }
  }

  method SortedKeys(ups: map<string, string>) returns (order: seq<string>)
    ensures Lists(TextLeq, order, ups.Keys)
  {
    order := [];
    var rest := ups.Keys;
    while rest != {}
      invariant rest <= ups.Keys && Distinct(order) && Elems(order) == ups.Keys - rest
      decreases |rest|
    {
      ghost var some := Inhabited(rest);
      var v :| v in rest;
      rest := rest - {v};
      DistinctSnoc(order, v);
      order := order + [v];
    }
    TextLeqTotal();
    var sorted := Sort(order, TextLeq);
    PermutationFacts(order, sorted);
    order := sorted;
  }

  // ---- Consequences ----

  /** As many errors as files beyond the distinct keys: one for each malformed name, and one
      for each well-formed file whose key was used before. */
  lemma {:induction false} ErrorCount(files: seq<File>, n: nat)
    requires n <= |files|
    ensures |Errors(files, n)| == n - |Keys(files, n)|
  {
    if n > 0 {
      ErrorCount(files, n - 1);
      ErrorsLength(files, n);
      KeysStep(files, n - 1);
    }
  }

  lemma KeysStep(files: seq<File>, i: nat)
    requires i < |files|
    ensures |Keys(files, i + 1)| + |ErrorAt(files, i)| == |Keys(files, i)| + 1
  {
    if files[i].name.None? {
      assert Keys(files, i + 1) == Keys(files, i);
    } else {
      var key := files[i].name.value;
      assert Keys(files, i + 1) == Keys(files, i) + {key};
      KeyUsedBefore(files, i, key);
      if key in Keys(files, i) {
        assert Keys(files, i) + {key} == Keys(files, i);
      }
    }
  }

  lemma KeyUsedBefore(files: seq<File>, i: nat, key: Key)
    requires i <= |files|
    ensures LatestBefore(files, i, key).Some? <==> key in Keys(files, i)
  {
    var r := LatestBefore(files, i, key);
    if r.Some? {
      assert files[r.value].name.value in Keys(files, i);
    }
    if key in Keys(files, i) {
      var j :| 0 <= j < i && files[j].name.Some? && files[j].name.value == key;
      assert files[j].name == Some(key);
    }
  }

  /** No naming error exactly when every name is well formed and no key is used twice. */
  lemma NoErrorsIff(files: seq<File>)
    ensures Errors(files, |files|) == [] <==>
      && (forall i :: 0 <= i < |files| ==> files[i].name.Some?)
      && (forall i, j :: 0 <= i < j < |files| ==> files[i].name != files[j].name)
  {
    NoErrorsUpTo(files, |files|);
  }

  lemma {:induction false} NoErrorsUpTo(files: seq<File>, n: nat)
    requires n <= |files|
    ensures |Errors(files, n)| == 0 <==>
      && (forall i :: 0 <= i < n ==> files[i].name.Some?)
      && (forall i, j :: 0 <= i < j < n ==> files[i].name != files[j].name)
  {
    if n > 0 {
      NoErrorsUpTo(files, n - 1);
      NoErrorsStep(files, n);
    }
  }

  lemma NoErrorsStep(files: seq<File>, n: nat)
    requires 0 < n <= |files|
    ensures |Errors(files, n)| == 0 <==>
      && |Errors(files, n - 1)| == 0
      && files[n - 1].name.Some?
      && forall j :: 0 <= j < n - 1 ==> files[j].name != files[n - 1].name
  {
    ErrorsLength(files, n);
    NoErrorAt(files, n - 1);
  }

  lemma NoErrorAt(files: seq<File>, i: nat)
    requires i < |files|
    ensures |ErrorAt(files, i)| == 0 <==>
      files[i].name.Some? && forall j :: 0 <= j < i ==> files[j].name != files[i].name
  {
  }

  lemma ErrorsLength(files: seq<File>, n: nat)
    requires 0 < n <= |files|
    ensures |Errors(files, n)| == |Errors(files, n - 1)| + |ErrorAt(files, n - 1)|
  {
  }

  /** Order does not matter: the same files in another order give as many errors, and
      warnings for the same versions. */
  lemma OrderIndependent(a: seq<File>, b: seq<File>, ws: seq<Violation>, us: seq<Violation>)
    requires multiset(a) == multiset(b)
    requires IsWarnings(a, ws) && IsWarnings(b, us)
    ensures |Errors(a, |a|)| == |Errors(b, |b|)|
    ensures MissingDown(a) == MissingDown(b) && |ws| == |us| == |MissingDown(a)|
  {
    PermutationFacts(b, a);
    SameKeys(a, b);
    SameKeys(b, a);
    assert Keys(a, |a|) == Keys(b, |b|);
    ErrorCount(a, |a|);
    ErrorCount(b, |b|);
    WarningCount(a, ws);
    WarningCount(b, us);
  }

  lemma SameKeys(a: seq<File>, b: seq<File>)
    requires Elems(a) == Elems(b)
    ensures forall k :: k in Keys(a, |a|) ==> k in Keys(b, |b|)
  {
    forall k | k in Keys(a, |a|) ensures k in Keys(b, |b|) {
      var i :| 0 <= i < |a| && a[i].name.Some? && a[i].name.value == k;
      var f := a[i];
      assert f in Elems(b);
      var j :| 0 <= j < |b| && b[j] == f;
    }
  }

  lemma WarningCount(files: seq<File>, ws: seq<Violation>)
    requires IsWarnings(files, ws)
    ensures |ws| == |MissingDown(files)|
  {
    var vs :| Lists(TextLeq, vs, MissingDown(files)) && Described(files, vs, ws);
    DistinctCount(vs);
  }

  // ---- The report, entry by entry ----

  /** `j` is the latest file before position `i` with this key. */
  ghost predicate IsLatest(files: seq<File>, i: nat, key: Key, j: int)
    requires i <= |files|
  {
    0 <= j < i && files[j].name == Some(key) && forall k :: j < k < i ==> files[k].name != Some(key)
  }

  ghost predicate IsPath(files: seq<File>, path: string) {
    exists i :: 0 <= i < |files| && files[i].rel == path
  }

  /** What file `i` adds to the report, at a place that says how many files before it erred. */
  ghost predicate Blamed(files: seq<File>, i: nat, res: seq<Violation>)
    requires i < |files|
  {
    var p := i - |Keys(files, i)|;
    match files[i].name
    case None =>
      0 <= p < |res| && res[p].level == Error && res[p].path == files[i].rel && res[p].msg == MalformedName
    case Some(key) =>
      forall j :: IsLatest(files, i, key, j) ==>
        && 0 <= p < |res| && res[p].level == Error && res[p].path == files[i].rel
        && res[p].msg == DuplicateVersion(key.1, key.0, files[j].rel)
  }

  /** `w` tells that the latest up file of version `v` has no down file. */
  ghost predicate Warned(files: seq<File>, v: string, w: Violation) {
    && w.level == Warn && w.msg == MissingDownFile
    && exists j :: IsLatest(files, |files|, (v, Up), j) && w.path == files[j].rel
  }

  /** The report: the errors, each for its file, then the warnings, by version. */
  ghost predicate IsReport(files: seq<File>, res: seq<Violation>) {
    var n := |files| - |Keys(files, |files|)|;
    && |res| == n + |MissingDown(files)| && n >= 0
    && (forall k :: 0 <= k < |res| ==>
          res[k].rule == "R0" && res[k].line == 1 && IsPath(files, res[k].path))
    && (forall k :: 0 <= k < |res| ==> (res[k].level == Error <==> k < n))
    && (forall i :: 0 <= i < |files| ==> Blamed(files, i, res))
    && WarningsByVersion(files, res[n..])
  }

  ghost predicate WarningsByVersion(files: seq<File>, ws: seq<Violation>) {
    exists vs: seq<string> ::
      && |vs| == |ws| && Elems(vs) == MissingDown(files)
      && (forall a, b :: 0 <= a < b < |vs| ==> TextLeq(vs[a], vs[b]) && vs[a] != vs[b])
      && forall a :: 0 <= a < |vs| ==> Warned(files, vs[a], ws[a])
  }

  /** A version is warned about exactly when it has an up file and no down file. */
  lemma MissingDownMeaning(files: seq<File>, v: string)
    ensures v in MissingDown(files) <==>
      && (exists i :: 0 <= i < |files| && files[i].name == Some((v, Up)))
      && (forall j :: 0 <= j < |files| ==> files[j].name != Some((v, Down)))
  {
    KeyUsedBefore(files, |files|, (v, Up));
    KeyUsedBefore(files, |files|, (v, Down));
    if v in MissingDown(files) {
      var k :| k in Keys(files, |files|) && k.1 == Up && (k.0, Down) !in Keys(files, |files|) && k.0 == v;
      assert k == (v, Up);
    }
    if (v, Up) in Keys(files, |files|) && (v, Down) !in Keys(files, |files|) {
      var k := (v, Up);
      assert k.0 == v && k.1 == Up;
    }
  }

  lemma ReportMade(files: seq<File>, errors: seq<Violation>, ws: seq<Violation>)
    requires errors == Errors(files, |files|) && IsWarnings(files, ws)
    ensures Errors(files, |files|) <= errors + ws && (errors + ws)[|errors|..] == ws
    ensures IsReport(files, errors + ws)
  {
    var res := errors + ws;
    ErrorCount(files, |files|);
    WarningCount(files, ws);
    ErrorForms(files, |files|);
    WarningForms(files, ws);
    forall i | 0 <= i < |files| ensures Blamed(files, i, res) {
      ErrorPlace(files, errors, i);
      BlamedLater(files, i, errors, ws);
    }
    assert res[|errors|..] == ws;
  }

  lemma BlamedLater(files: seq<File>, i: nat, errors: seq<Violation>, ws: seq<Violation>)
    requires i < |files| && Blamed(files, i, errors)
    ensures Blamed(files, i, errors + ws)
  {
  }

  lemma {:induction false} ErrorForms(files: seq<File>, n: nat)
    requires n <= |files|
    ensures forall k :: 0 <= k < |Errors(files, n)| ==>
      var v := Errors(files, n)[k];
      v.rule == "R0" && v.line == 1 && v.level == Error && IsPath(files, v.path)
  {
    if n > 0 {
      ErrorForms(files, n - 1);
      ErrorForm(files, n - 1);
    }
  }

  lemma ErrorForm(files: seq<File>, i: nat)
    requires i < |files|
    ensures forall k :: 0 <= k < |ErrorAt(files, i)| ==>
      var v := ErrorAt(files, i)[k];
      v.rule == "R0" && v.line == 1 && v.level == Error && IsPath(files, v.path)
  {
    assert IsPath(files, files[i].rel);
  }

  lemma ErrorPlace(files: seq<File>, errors: seq<Violation>, i: nat)
    requires i < |files| && errors == Errors(files, |files|)
    ensures Blamed(files, i, errors)
  {
    ErrorCount(files, i);
    ErrorAtPlace(files, |files|, i);
    match files[i].name
    case None =>
    case Some(key) =>
      forall j | IsLatest(files, i, key, j) ensures LatestBefore(files, i, key) == Some(j) {
        LatestUnique(files, i, key, j);
      }
  }

  lemma LatestUnique(files: seq<File>, i: nat, key: Key, j: int)
    requires i <= |files| && IsLatest(files, i, key, j)
    ensures LatestBefore(files, i, key) == Some(j)
  {
  }

  /** The error of file `i` stands after those of the files before it. */
  lemma {:induction false} ErrorAtPlace(files: seq<File>, n: nat, i: nat)
    requires i < n <= |files|
    ensures |Errors(files, i)| + |ErrorAt(files, i)| <= |Errors(files, n)|
    ensures |ErrorAt(files, i)| > 0 ==> Errors(files, n)[|Errors(files, i)|] == ErrorAt(files, i)[0]
    decreases n
  {
    ErrorsLength(files, n);
    if i < n - 1 {
      ErrorAtPlace(files, n - 1, i);
    }
  }

  lemma WarningForms(files: seq<File>, ws: seq<Violation>)
    requires IsWarnings(files, ws)
    ensures WarningsByVersion(files, ws)
    ensures forall k :: 0 <= k < |ws| ==>
      ws[k].rule == "R0" && ws[k].line == 1 && ws[k].level == Warn && IsPath(files, ws[k].path)
  {
    var vs :| Lists(TextLeq, vs, MissingDown(files)) && Described(files, vs, ws);
    forall k | 0 <= k < |vs|
      ensures Warned(files, vs[k], ws[k]) && ws[k].rule == "R0" && ws[k].line == 1 && IsPath(files, ws[k].path)
    {
      var j := LatestBefore(files, |files|, (vs[k], Up));
      assert IsLatest(files, |files|, (vs[k], Up), j.value);
    }
  }
}
