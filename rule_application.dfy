/** Applying one rule to the matches of its query: the trailing-sibling
    guard, collection of error ranges and filter ranges, suppression,
    within-rule deduplication and templating of each description. */
module RuleApplication {
  import opened LintTypes
  import Template

  /** An error range together with the captures of the match it came from. */
  type ErrorPair = (Range, Match)

  /** Some `trailing` node of the match has a following named sibling. */
  predicate HasTrailingSibling(m: Match) {
    exists i :: 0 <= i < |m| && m[i].name == TrailingName && m[i].hasNextNamedSibling
  }

  /** The guard drops a match only when the query declares `trailing`. */
  predicate Discarded(m: Match, names: set<string>) {
    TrailingName in names && HasTrailingSibling(m)
  }

  /** The error pairs of one match: one per `error` capture, in capture order,
      each with the whole match. */
  function MatchErrors(cs: seq<Capture>, m: Match): seq<ErrorPair> {
    if cs == [] then []
    else
      var c := cs[|cs| - 1];
      MatchErrors(cs[..|cs| - 1], m) + (if c.name == ErrorName then [(c.range, m)] else [])
  }

  /** The ranges of the `filter` captures of one match. */
  function MatchFilters(cs: seq<Capture>): set<Range> {
    if cs == [] then {}
    else
      var c := cs[|cs| - 1];
      MatchFilters(cs[..|cs| - 1]) + (if c.name == FilterName then {c.range} else {})
  }

  /** The error pairs of all matches the guard keeps, in match order. */
  function CollectErrors(ms: seq<Match>, names: set<string>): seq<ErrorPair> {
    if ms == [] then []
    else
      var m := ms[|ms| - 1];
      CollectErrors(ms[..|ms| - 1], names) + (if Discarded(m, names) then [] else MatchErrors(m, m))
  }

  /** The suppression set: filter ranges of the matches the guard keeps (a
      discarded match is skipped before its filters are recorded). */
  function CollectFilters(ms: seq<Match>, names: set<string>): set<Range> {
    if ms == [] then {}
    else
      var m := ms[|ms| - 1];
      CollectFilters(ms[..|ms| - 1], names) +
        (if Discarded(m, names) || FilterName !in names then {} else MatchFilters(m))
  }

  function RangesOf(ps: seq<ErrorPair>): set<Range> {
    set i | 0 <= i < |ps| :: ps[i].0
  }

  /** The pairs that survive suppression and deduplication: a pair is kept
      when its range is not suppressed and no earlier pair was kept for it. */
  function Kept(ps: seq<ErrorPair>, filtered: set<Range>): seq<ErrorPair> {
    if ps == [] then []
    else
      var prior := Kept(ps[..|ps| - 1], filtered);
      var last := ps[|ps| - 1];
      if last.0 in filtered || last.0 in RangesOf(prior) then prior else prior + [last]
  }

  /** Templates a description for every kept pair, in order; the first
      templating error aborts. */
  function ToDiagnostics(rule: Rule, ps: seq<ErrorPair>): Result<seq<RawDiagnostic>> {
    if ps == [] then Ok([])
    else
      match ToDiagnostics(rule, ps[..|ps| - 1])
      case Err(e) => Err(e)
      case Ok(ds) =>
        match Template.Render(rule.description, ps[|ps| - 1].1)
        case Err(e) => Err(e)
        case Ok(d) => Ok(ds + [RawDiagnostic(rule.name, d, ps[|ps| - 1].0)])
  }

  /** What applying a rule yields, given what the engine made of its query. */
  function ApplySpec(rule: Rule, run: QueryRun): Result<seq<RawDiagnostic>> {
    match run
    case CompileFailed => Err(QueryCompileFailed(rule.name))
    case Compiled(names, ms) =>
      if ErrorName !in names then Err(MissingErrorCapture(rule.query))
      else ToDiagnostics(rule, Kept(CollectErrors(ms, names), CollectFilters(ms, names)))
  }

  /** The suppression set of a run (empty when the query does not compile). */
  function Suppressed(run: QueryRun): set<Range> {
    match run
    case CompileFailed => {}
    case Compiled(names, ms) => CollectFilters(ms, names)
  }

  /** Applies a rule: compiles (abstractly), requires an `error` capture,
      collects error pairs and filter ranges from the matches that pass the
      trailing guard, then reports the first unsuppressed pair per range. */
  method ApplyRule(rule: Rule, run: QueryRun) returns (r: Result<seq<RawDiagnostic>>)
    ensures r == ApplySpec(rule, run)
    ensures run.CompileFailed? ==> r == Err(QueryCompileFailed(rule.name))
    ensures run.Compiled? && ErrorName !in run.captureNames ==> r == Err(MissingErrorCapture(rule.query))
    ensures r.Ok? ==> forall i :: 0 <= i < |r.value| ==> r.value[i].range !in Suppressed(run)
    ensures r.Ok? ==> forall i, j :: 0 <= i < j < |r.value| ==> r.value[i].range != r.value[j].range
  {
    if run.CompileFailed? {
      return Err(QueryCompileFailed(rule.name));
    }
    var names := run.captureNames;
    if ErrorName !in names {
      return Err(MissingErrorCapture(rule.query));
    }
    var errors, filtered := CollectMatches(run.matches, names);
    r := ReportErrors(rule, errors, filtered);
    ApplyProperties(rule, run);
  }

  /** The loop over the matches: skips the matches the trailing guard
      discards, and records the error pairs and filter ranges of the others. */
  method CollectMatches(ms: seq<Match>, names: set<string>) returns (errors: seq<ErrorPair>, filtered: set<Range>)
    ensures errors == CollectErrors(ms, names)
    ensures filtered == CollectFilters(ms, names)
  {
    var hasFilter := FilterName in names;
    var hasTrailing := TrailingName in names;
    filtered := {};
    errors := [];
    var i := 0;
    while i < |ms|
      invariant 0 <= i <= |ms|
      invariant errors == CollectErrors(ms[..i], names)
      invariant filtered == CollectFilters(ms[..i], names)
    {
      var m := ms[i];
      CollectStep(ms, i, names);
      if !(hasTrailing && HasTrailingSibling(m)) {
        var es := MatchErrorPairs(m);
        errors := errors + es;
        if hasFilter {
          var fs := MatchFilterRanges(m);
          filtered := filtered + fs;
        }
      }
      i := i + 1;
    }
    assert ms[..|ms|] == ms;
  }

  /** The error pairs of one match, one per `error` capture. */
  method MatchErrorPairs(m: Match) returns (es: seq<ErrorPair>)
    ensures es == MatchErrors(m, m)
  {
    es := [];
    var j := 0;
    while j < |m|
      invariant 0 <= j <= |m|
      invariant es == MatchErrors(m[..j], m)
    {
      MatchStep(m, j, m);
      if m[j].name == ErrorName {
        es := es + [(m[j].range, m)];
      }
      j := j + 1;
    }
    assert m[..|m|] == m;
  }

  /** The ranges of the `filter` captures of one match. */
  method MatchFilterRanges(m: Match) returns (fs: set<Range>)
    ensures fs == MatchFilters(m)
  {
    fs := {};
    var j := 0;
    while j < |m|
      invariant 0 <= j <= |m|
      invariant fs == MatchFilters(m[..j])
    {
      MatchStep(m, j, m);
      if m[j].name == FilterName {
        fs := fs + {m[j].range};
      }
      j := j + 1;
    }
    assert m[..|m|] == m;
  }

  /** One more match collected. */
  lemma CollectStep(ms: seq<Match>, i: nat, names: set<string>)
    requires i < |ms|
    ensures CollectErrors(ms[..i + 1], names) ==
            CollectErrors(ms[..i], names) + (if Discarded(ms[i], names) then [] else MatchErrors(ms[i], ms[i]))
    ensures CollectFilters(ms[..i + 1], names) ==
            CollectFilters(ms[..i], names) +
              (if Discarded(ms[i], names) || FilterName !in names then {} else MatchFilters(ms[i]))
  {
    assert ms[..i + 1] == ms[..i] + [ms[i]];
    CollectSnoc(ms[..i], ms[i], names);
  }

  /** Collecting one more match at the end. */
  lemma CollectSnoc(ms: seq<Match>, m: Match, names: set<string>)
    ensures CollectErrors(ms + [m], names) ==
            CollectErrors(ms, names) + (if Discarded(m, names) then [] else MatchErrors(m, m))
    ensures CollectFilters(ms + [m], names) ==
            CollectFilters(ms, names) + (if Discarded(m, names) || FilterName !in names then {} else MatchFilters(m))
  {
    assert (ms + [m])[..|ms|] == ms;
  }

  /** One more capture of a match looked at. */
  lemma MatchStep(cs: seq<Capture>, j: nat, m: Match)
    requires j < |cs|
    ensures MatchErrors(cs[..j + 1], m) ==
            MatchErrors(cs[..j], m) + (if cs[j].name == ErrorName then [(cs[j].range, m)] else [])
    ensures MatchFilters(cs[..j + 1]) ==
            MatchFilters(cs[..j]) + (if cs[j].name == FilterName then {cs[j].range} else {})
  {
    assert cs[..j + 1][..j] == cs[..j];
  }

  /** The loop over the collected pairs: drops suppressed ranges and ranges
      already seen, and templates a diagnostic for each remaining pair. */
  method ReportErrors(rule: Rule, errors: seq<ErrorPair>, filtered: set<Range>) returns (r: Result<seq<RawDiagnostic>>)
    ensures r == ToDiagnostics(rule, Kept(errors, filtered))
  {
    var seen: set<Range> := {};
    var diagnostics: seq<RawDiagnostic> := [];
    var k := 0;
    while k < |errors|
      invariant 0 <= k <= |errors|
      invariant seen == RangesOf(Kept(errors[..k], filtered))
      invariant ToDiagnostics(rule, Kept(errors[..k], filtered)) == Ok(diagnostics)
    {
      var range := errors[k].0;
      var captures := errors[k].1;
      assert errors[..k + 1][..k] == errors[..k];
      if range in filtered || range in seen {
        k := k + 1;
        continue;
      }
      ghost var prior := Kept(errors[..k], filtered);
      assert Kept(errors[..k + 1], filtered) == prior + [errors[k]];
      assert (prior + [errors[k]])[..|prior|] == prior;
      RangesOfSnoc(prior, errors[k]);
      seen := seen + {range};
      var description := Template.TemplateDescription(rule.description, captures);
      if description.Err? {
        KeptPrefix(errors, filtered, k + 1);
        assert errors[..|errors|] == errors;
        var rest :| Kept(errors, filtered) == Kept(errors[..k + 1], filtered) + rest;
        ToDiagnosticsErrPrefix(rule, Kept(errors[..k + 1], filtered), rest);
        return Err(description.error);
      }
      diagnostics := diagnostics + [RawDiagnostic(rule.name, description.value, range)];
      k := k + 1;
    }
    assert errors[..|errors|] == errors;
    r := Ok(diagnostics);
  }

  lemma RangesOfSnoc(ps: seq<ErrorPair>, x: ErrorPair)
    ensures RangesOf(ps + [x]) == RangesOf(ps) + {x.0}
  {
    var qs := ps + [x];
    forall r | r in RangesOf(qs) ensures r in RangesOf(ps) + {x.0} {
      var i :| 0 <= i < |qs| && qs[i].0 == r;
      if i < |ps| { assert ps[i] == qs[i]; }
    }
    forall r | r in RangesOf(ps) ensures r in RangesOf(qs) {
      var i :| 0 <= i < |ps| && ps[i].0 == r;
      assert qs[i] == ps[i];
    }
    assert qs[|ps|] == x;
  }

  /** Deduplication only ever appends: what is kept of a prefix is a prefix
      of what is kept of the whole. */
  lemma {:induction false} KeptPrefix(ps: seq<ErrorPair>, filtered: set<Range>, k: nat)
    requires k <= |ps|
    ensures exists rest :: Kept(ps, filtered) == Kept(ps[..k], filtered) + rest
    decreases |ps| - k
  {
    if k == |ps| {
      assert ps[..k] == ps;
      assert Kept(ps, filtered) == Kept(ps[..k], filtered) + [];
    } else {
      KeptPrefix(ps, filtered, k + 1);
      var rest :| Kept(ps, filtered) == Kept(ps[..k + 1], filtered) + rest;
      assert ps[..k + 1][..k] == ps[..k];
      var prior := Kept(ps[..k], filtered);
      if Kept(ps[..k + 1], filtered) == prior {
        assert Kept(ps, filtered) == prior + rest;
      } else {
        assert Kept(ps, filtered) == prior + ([ps[k]] + rest);
      }
    }
  }

  /** Once templating has failed, later pairs do not change the error. */
  lemma {:induction false} ToDiagnosticsErrPrefix(rule: Rule, ps: seq<ErrorPair>, qs: seq<ErrorPair>)
    requires ToDiagnostics(rule, ps).Err?
    ensures ToDiagnostics(rule, ps + qs) == ToDiagnostics(rule, ps)
    decreases |qs|
  {
    if qs == [] {
      assert ps + qs == ps;
    } else {
      var front := qs[..|qs| - 1];
      ToDiagnosticsErrPrefix(rule, ps, front);
      assert (ps + qs)[..|ps + qs| - 1] == ps + front;
    }
  }

  /** The per-pair meaning of ToDiagnostics: it succeeds exactly when every
      pair's description renders, and then yields one diagnostic per pair,
      carrying the rule's name, the pair's range and the description templated
      with that pair's captures. */
  lemma {:induction false} ToDiagnosticsMeaning(rule: Rule, ps: seq<ErrorPair>)
    ensures ToDiagnostics(rule, ps).Ok? <==>
            forall i :: 0 <= i < |ps| ==> Template.Render(rule.description, ps[i].1).Ok?
    ensures ToDiagnostics(rule, ps).Ok? ==>
            var ds := ToDiagnostics(rule, ps).value;
            |ds| == |ps| &&
            forall i :: 0 <= i < |ps| ==>
              ds[i] == RawDiagnostic(rule.name, Template.Render(rule.description, ps[i].1).value, ps[i].0)
  {
    if ps != [] {
      var front := ps[..|ps| - 1];
      ToDiagnosticsMeaning(rule, front);
      assert forall i :: 0 <= i < |front| ==> front[i] == ps[i];
    }
  }

  /** No kept pair has a suppressed range. */
  lemma {:induction false} KeptUnsuppressed(ps: seq<ErrorPair>, filtered: set<Range>)
    ensures forall i :: 0 <= i < |Kept(ps, filtered)| ==> Kept(ps, filtered)[i].0 !in filtered
  {
    if ps != [] {
      KeptUnsuppressed(ps[..|ps| - 1], filtered);
    }
  }

  /** Kept pairs have pairwise distinct ranges. */
  lemma {:induction false} KeptDistinct(ps: seq<ErrorPair>, filtered: set<Range>)
    ensures forall i, j :: 0 <= i < j < |Kept(ps, filtered)| ==> Kept(ps, filtered)[i].0 != Kept(ps, filtered)[j].0
  {
    if ps != [] {
      var prior := Kept(ps[..|ps| - 1], filtered);
      KeptDistinct(ps[..|ps| - 1], filtered);
      var last := ps[|ps| - 1];
      if !(last.0 in filtered || last.0 in RangesOf(prior)) {
        var ks := prior + [last];
        forall i | 0 <= i < |prior| ensures ks[i].0 != last.0 {
          assert prior[i].0 in RangesOf(prior);
        }
        forall i, j | 0 <= i < j < |ks| ensures ks[i].0 != ks[j].0 {
          if j < |prior| {
            assert ks[i] == prior[i] && ks[j] == prior[j];
          }
        }
      }
    }
  }

  /** Every unsuppressed error range is reported, and only those. */
  lemma {:induction false} KeptRanges(ps: seq<ErrorPair>, filtered: set<Range>)
    ensures RangesOf(Kept(ps, filtered)) == RangesOf(ps) - filtered
  {
    if ps != [] {
      var front := ps[..|ps| - 1];
      var last := ps[|ps| - 1];
      KeptRanges(front, filtered);
      assert ps == front + [last];
      RangesOfSnoc(front, last);
      var prior := Kept(front, filtered);
      assert RangesOf(ps) == RangesOf(front) + {last.0};
      if !(last.0 in filtered || last.0 in RangesOf(prior)) {
        RangesOfSnoc(prior, last);
        assert Kept(ps, filtered) == prior + [last];
      } else {
        assert Kept(ps, filtered) == prior;
      }
    }
  }

  /** idx picks, in increasing order, the positions of ps that ks lists. */
  ghost predicate EmbedsAt(ks: seq<ErrorPair>, ps: seq<ErrorPair>, idx: seq<nat>) {
    && |idx| == |ks|
    && (forall i :: 0 <= i < |idx| ==> idx[i] < |ps| && ps[idx[i]] == ks[i])
    && (forall i, j :: 0 <= i < j < |idx| ==> idx[i] < idx[j])
  }

  /** Position j of ps is the first pair with its range. */
  ghost predicate FirstOccurrence(ps: seq<ErrorPair>, j: nat) {
    j < |ps| && forall j' :: 0 <= j' < j ==> ps[j'].0 != ps[j].0
  }

  /** The kept pairs are an order-preserving subsequence of the collected
      pairs, each the first pair collected for its range. */
  lemma {:induction false} KeptFirstOccurrences(ps: seq<ErrorPair>, filtered: set<Range>)
    ensures exists idx :: EmbedsAt(Kept(ps, filtered), ps, idx) &&
                          forall i :: 0 <= i < |idx| ==> FirstOccurrence(ps, idx[i])
  {
    if ps == [] {
      assert EmbedsAt([], ps, []);
    } else {
      var front := ps[..|ps| - 1];
      var last := ps[|ps| - 1];
      assert ps == front + [last];
      KeptFirstOccurrences(front, filtered);
      var prior := Kept(front, filtered);
      var idx: seq<nat> :| EmbedsAt(prior, front, idx) && forall i :: 0 <= i < |idx| ==> FirstOccurrence(front, idx[i]);
      EmbedsExtend(prior, front, last, idx);
      if !(last.0 in filtered || last.0 in RangesOf(prior)) {
        KeptRanges(front, filtered);
        EmbedsNew(prior, front, last, idx);
      }
    }
  }

  /** An embedding into ps is one into ps + [x] too. */
  lemma EmbedsExtend(ks: seq<ErrorPair>, ps: seq<ErrorPair>, x: ErrorPair, idx: seq<nat>)
    requires EmbedsAt(ks, ps, idx) && forall i :: 0 <= i < |idx| ==> FirstOccurrence(ps, idx[i])
    ensures EmbedsAt(ks, ps + [x], idx) && forall i :: 0 <= i < |idx| ==> FirstOccurrence(ps + [x], idx[i])
  {
    var qs := ps + [x];
    forall i | 0 <= i < |idx| ensures qs[idx[i]] == ks[i] && FirstOccurrence(qs, idx[i]) {
      assert FirstOccurrence(ps, idx[i]);
      forall j' | 0 <= j' < idx[i] ensures qs[j'].0 != qs[idx[i]].0 {
        assert qs[j'] == ps[j'] && qs[idx[i]] == ps[idx[i]];
      }
    }
  }

  /** A pair whose range no earlier pair has is a first occurrence, and
      extends the embedding. */
  lemma EmbedsNew(ks: seq<ErrorPair>, ps: seq<ErrorPair>, x: ErrorPair, idx: seq<nat>)
    requires x.0 !in RangesOf(ps)
    requires EmbedsAt(ks, ps + [x], idx) && forall i :: 0 <= i < |idx| ==> FirstOccurrence(ps + [x], idx[i])
    requires forall i :: 0 <= i < |idx| ==> idx[i] < |ps|
    ensures EmbedsAt(ks + [x], ps + [x], idx + [|ps|]) &&
            forall i :: 0 <= i < |idx| + 1 ==> FirstOccurrence(ps + [x], (idx + [|ps|])[i])
  {
    var qs := ps + [x];
    forall j' | 0 <= j' < |ps| ensures qs[j'].0 != x.0 {
      assert qs[j'] == ps[j'];
      assert ps[j'].0 in RangesOf(ps);
    }
    assert FirstOccurrence(qs, |ps|);
  }

  /** No diagnostic's range is in the given set. */
  predicate Avoids(ds: seq<RawDiagnostic>, fs: set<Range>) {
    forall i :: 0 <= i < |ds| ==> ds[i].range !in fs
  }

  /** No two diagnostics share a range. */
  predicate DistinctRanges(ds: seq<RawDiagnostic>) {
    forall i, j :: 0 <= i < j < |ds| ==> ds[i].range != ds[j].range
  }

  /** The i-th diagnostic has the range of the i-th pair. */
  lemma {:induction false} ToDiagnosticsRanges(rule: Rule, ps: seq<ErrorPair>)
    requires ToDiagnostics(rule, ps).Ok?
    ensures |ToDiagnostics(rule, ps).value| == |ps|
    ensures forall i :: 0 <= i < |ps| ==> ToDiagnostics(rule, ps).value[i].range == ps[i].0
  {
    if ps != [] {
      ToDiagnosticsRanges(rule, ps[..|ps| - 1]);
    }
  }

  /** The rule-level laws: no reported range is suppressed and no range is
      reported twice. */
  lemma ApplyProperties(rule: Rule, run: QueryRun)
    ensures ApplySpec(rule, run).Ok? ==> Avoids(ApplySpec(rule, run).value, Suppressed(run))
    ensures ApplySpec(rule, run).Ok? ==> DistinctRanges(ApplySpec(rule, run).value)
  {
    if run.Compiled? && ErrorName in run.captureNames {
      var ps := CollectErrors(run.matches, run.captureNames);
      var fs := CollectFilters(run.matches, run.captureNames);
      var ks := Kept(ps, fs);
      var d := ToDiagnostics(rule, ks);
      assert ApplySpec(rule, run) == d;
      assert Suppressed(run) == fs;
      if d.Ok? {
        ToDiagnosticsRanges(rule, ks);
        KeptUnsuppressed(ps, fs);
        KeptDistinct(ps, fs);
        var ds := d.value;
        forall i, j | 0 <= i < j < |ds| ensures ds[i].range != ds[j].range {
          assert ds[i].range == ks[i].0 && ds[j].range == ks[j].0;
        }
      }
    }
  }

  /** The ways applying a rule can fail: the query does not compile, it
      declares no `error` capture, or a description cannot be templated.
      Missing `filter` or `trailing` captures are not errors: a query with
      an `error` capture and no matches yields no diagnostics. */
  lemma ApplyErrorKinds(rule: Rule, run: QueryRun)
    ensures run.Compiled? && ErrorName in run.captureNames && ApplySpec(rule, run).Err? ==>
              ApplySpec(rule, run).error.CaptureNotFound? || ApplySpec(rule, run).error == NonUtf8Text
    ensures run.Compiled? && ErrorName in run.captureNames && run.matches == [] ==> ApplySpec(rule, run) == Ok([])
  {
    if run.Compiled? && ErrorName in run.captureNames {
      ToDiagnosticsErrorKinds(rule, Kept(CollectErrors(run.matches, run.captureNames), CollectFilters(run.matches, run.captureNames)));
    }
  }

  lemma {:induction false} ToDiagnosticsErrorKinds(rule: Rule, ps: seq<ErrorPair>)
    ensures ToDiagnostics(rule, ps).Err? ==>
              ToDiagnostics(rule, ps).error.CaptureNotFound? || ToDiagnostics(rule, ps).error == NonUtf8Text
  {
    if ps != [] {
      ToDiagnosticsErrorKinds(rule, ps[..|ps| - 1]);
      var t := rule.description;
      Template.ExpandErrorKinds(Template.Pieces(t, 0), ps[|ps| - 1].1, t);
    }
  }

  /** On success, the reported ranges are exactly the error ranges of the
      guarded matches minus the suppression set. */
  lemma ApplyComplete(rule: Rule, names: set<string>, ms: seq<Match>)
    requires ApplySpec(rule, Compiled(names, ms)).Ok?
    ensures var ds := ApplySpec(rule, Compiled(names, ms)).value;
      (set i | 0 <= i < |ds| :: ds[i].range) == RangesOf(CollectErrors(ms, names)) - CollectFilters(ms, names)
  {
    var ps := CollectErrors(ms, names);
    var fs := CollectFilters(ms, names);
    var ks := Kept(ps, fs);
    ToDiagnosticsMeaning(rule, ks);
    KeptRanges(ps, fs);
    var ds := ApplySpec(rule, Compiled(names, ms)).value;
    assert (set i | 0 <= i < |ds| :: ds[i].range) == RangesOf(ks) by {
      forall x | x in RangesOf(ks) ensures x in (set i | 0 <= i < |ds| :: ds[i].range) {
        var i :| 0 <= i < |ks| && ks[i].0 == x;
        assert ds[i].range == x;
      }
    }
  }

  /** On success, the i-th diagnostic comes from the first collected pair
      for its range, in collection order, and its description is templated
      with the captures of that pair's match. */
  lemma ApplyFirstOccurrence(rule: Rule, names: set<string>, ms: seq<Match>)
    requires ApplySpec(rule, Compiled(names, ms)).Ok?
    ensures var ds := ApplySpec(rule, Compiled(names, ms)).value;
      var ps := CollectErrors(ms, names);
      exists idx: seq<nat> ::
        && |idx| == |ds|
        && (forall i, j :: 0 <= i < j < |idx| ==> idx[i] < idx[j])
        && forall i :: 0 <= i < |idx| ==>
             && FirstOccurrence(ps, idx[i])
             && Template.Render(rule.description, ps[idx[i]].1).Ok?
             && ds[i] == RawDiagnostic(rule.name, Template.Render(rule.description, ps[idx[i]].1).value, ps[idx[i]].0)
  {
    var ps := CollectErrors(ms, names);
    var fs := CollectFilters(ms, names);
    var ks := Kept(ps, fs);
    ToDiagnosticsMeaning(rule, ks);
    KeptFirstOccurrences(ps, fs);
    var idx: seq<nat> :| EmbedsAt(ks, ps, idx) && forall i :: 0 <= i < |idx| ==> FirstOccurrence(ps, idx[i]);
    var ds := ApplySpec(rule, Compiled(names, ms)).value;
    assert forall i :: 0 <= i < |idx| ==> ps[idx[i]] == ks[i];
  }

  lemma {:induction false} CollectErrorsAppend(a: seq<Match>, b: seq<Match>, names: set<string>)
    ensures CollectErrors(a + b, names) == CollectErrors(a, names) + CollectErrors(b, names)
    decreases |b|
  {
    if b == [] {
      assert a + b == a;
    } else {
      var front := b[..|b| - 1];
      var m := b[|b| - 1];
      CollectErrorsAppend(a, front, names);
      assert b == front + [m];
      CollectAppendSnoc(a, front, m, names);
      AppendAssoc(CollectErrors(a, names), CollectErrors(front, names),
                  if Discarded(m, names) then [] else MatchErrors(m, m));
    }
  }

  lemma {:induction false} CollectFiltersAppend(a: seq<Match>, b: seq<Match>, names: set<string>)
    ensures CollectFilters(a + b, names) == CollectFilters(a, names) + CollectFilters(b, names)
    decreases |b|
  {
    if b == [] {
      assert a + b == a;
    } else {
      var front := b[..|b| - 1];
      var m := b[|b| - 1];
      CollectFiltersAppend(a, front, names);
      assert b == front + [m];
      CollectAppendSnoc(a, front, m, names);
    }
  }

  lemma CollectAppendSnoc(a: seq<Match>, front: seq<Match>, m: Match, names: set<string>)
    ensures CollectErrors(a + (front + [m]), names) ==
            CollectErrors(a + front, names) + (if Discarded(m, names) then [] else MatchErrors(m, m))
    ensures CollectErrors(front + [m], names) ==
            CollectErrors(front, names) + (if Discarded(m, names) then [] else MatchErrors(m, m))
    ensures CollectFilters(a + (front + [m]), names) ==
            CollectFilters(a + front, names) + (if Discarded(m, names) || FilterName !in names then {} else MatchFilters(m))
    ensures CollectFilters(front + [m], names) ==
            CollectFilters(front, names) + (if Discarded(m, names) || FilterName !in names then {} else MatchFilters(m))
  {
    assert a + (front + [m]) == (a + front) + [m];
    CollectSnoc(a + front, m, names);
    CollectSnoc(front, m, names);
  }

  /** A range is among a match's filter ranges exactly when one of its
      `filter` captures has it. */
  lemma {:induction false} MatchFiltersMembers(cs: seq<Capture>, r: Range)
    ensures r in MatchFilters(cs) <==> exists j :: 0 <= j < |cs| && cs[j].name == FilterName && cs[j].range == r
  {
    if cs != [] {
      var front := cs[..|cs| - 1];
      MatchFiltersMembers(front, r);
      if r in MatchFilters(front) {
        var j :| 0 <= j < |front| && front[j].name == FilterName && front[j].range == r;
        assert cs[j] == front[j];
      }
      if exists j :: 0 <= j < |cs| && cs[j].name == FilterName && cs[j].range == r {
        var j :| 0 <= j < |cs| && cs[j].name == FilterName && cs[j].range == r;
        if j < |front| {
          assert front[j] == cs[j];
        }
      }
    }
  }

  /** Some match the guard keeps has a `filter` capture with range r. */
  predicate IsFilterRange(ms: seq<Match>, names: set<string>, r: Range) {
    exists k, j :: 0 <= k < |ms| && !Discarded(ms[k], names) && 0 <= j < |ms[k]| &&
                   ms[k][j].name == FilterName && ms[k][j].range == r
  }

  /** What the suppression set holds: the range of every `filter` capture
      of every match the trailing guard keeps, earlier or later than the
      error it suppresses, and nothing else -- and nothing at all when the
      query declares no `filter` capture. */
  lemma {:induction false} CollectFiltersMembers(ms: seq<Match>, names: set<string>, r: Range)
    ensures r in CollectFilters(ms, names) <==> FilterName in names && IsFilterRange(ms, names, r)
  {
    if ms != [] {
      var front := ms[..|ms| - 1];
      var m := ms[|ms| - 1];
      CollectFiltersMembers(front, names, r);
      MatchFiltersMembers(m, r);
      assert ms == front + [m];
      FilterRangeSnoc(front, m, names, r);
    }
  }

  lemma FilterRangeSnoc(front: seq<Match>, m: Match, names: set<string>, r: Range)
    ensures IsFilterRange(front + [m], names, r) <==>
            IsFilterRange(front, names, r) ||
            (!Discarded(m, names) && exists j :: 0 <= j < |m| && m[j].name == FilterName && m[j].range == r)
  {
    var ms := front + [m];
    if IsFilterRange(front, names, r) {
      var k, j :| 0 <= k < |front| && !Discarded(front[k], names) && 0 <= j < |front[k]| &&
                  front[k][j].name == FilterName && front[k][j].range == r;
      assert ms[k] == front[k];
    }
    if !Discarded(m, names) && exists j :: 0 <= j < |m| && m[j].name == FilterName && m[j].range == r {
      var j :| 0 <= j < |m| && m[j].name == FilterName && m[j].range == r;
      assert ms[|front|] == m;
    }
    if IsFilterRange(ms, names, r) {
      var k, j :| 0 <= k < |ms| && !Discarded(ms[k], names) && 0 <= j < |ms[k]| &&
                  ms[k][j].name == FilterName && ms[k][j].range == r;
      if k < |front| {
        assert front[k] == ms[k];
      } else {
        assert ms[k] == m;
      }
    }
  }

  /** A pair is among a match's error pairs exactly when one of its `error`
      captures has its range and the pair carries the whole match. */
  lemma {:induction false} MatchErrorsMembers(cs: seq<Capture>, m: Match, x: ErrorPair)
    ensures x in MatchErrors(cs, m) <==> exists j :: 0 <= j < |cs| && cs[j].name == ErrorName && x == (cs[j].range, m)
  {
    if cs != [] {
      var front := cs[..|cs| - 1];
      MatchErrorsMembers(front, m, x);
      if x in MatchErrors(front, m) {
        var j :| 0 <= j < |front| && front[j].name == ErrorName && x == (front[j].range, m);
        assert cs[j] == front[j];
      }
      if exists j :: 0 <= j < |cs| && cs[j].name == ErrorName && x == (cs[j].range, m) {
        var j :| 0 <= j < |cs| && cs[j].name == ErrorName && x == (cs[j].range, m);
        if j < |front| {
          assert front[j] == cs[j];
        }
      }
    }
  }

  /** Some match the guard keeps has an `error` capture whose range, with
      that match's captures, is x. */
  predicate IsErrorPair(ms: seq<Match>, names: set<string>, x: ErrorPair) {
    exists k, j :: 0 <= k < |ms| && !Discarded(ms[k], names) && 0 <= j < |ms[k]| &&
                   ms[k][j].name == ErrorName && x == (ms[k][j].range, ms[k])
  }

  /** What the collected pairs are: one for every `error` capture of every
      match the trailing guard keeps, with that match's captures. */
  lemma {:induction false} CollectErrorsMembers(ms: seq<Match>, names: set<string>, x: ErrorPair)
    ensures x in CollectErrors(ms, names) <==> IsErrorPair(ms, names, x)
  {
    if ms != [] {
      var front := ms[..|ms| - 1];
      var m := ms[|ms| - 1];
      CollectErrorsMembers(front, names, x);
      MatchErrorsMembers(m, m, x);
      assert ms == front + [m];
      ErrorPairSnoc(front, m, names, x);
    }
  }

  lemma ErrorPairSnoc(front: seq<Match>, m: Match, names: set<string>, x: ErrorPair)
    ensures IsErrorPair(front + [m], names, x) <==>
            IsErrorPair(front, names, x) ||
            (!Discarded(m, names) && exists j :: 0 <= j < |m| && m[j].name == ErrorName && x == (m[j].range, m))
  {
    var ms := front + [m];
    if IsErrorPair(front, names, x) {
      var k, j :| 0 <= k < |front| && !Discarded(front[k], names) && 0 <= j < |front[k]| &&
                  front[k][j].name == ErrorName && x == (front[k][j].range, front[k]);
      assert ms[k] == front[k];
    }
    if !Discarded(m, names) && exists j :: 0 <= j < |m| && m[j].name == ErrorName && x == (m[j].range, m) {
      var j :| 0 <= j < |m| && m[j].name == ErrorName && x == (m[j].range, m);
      assert ms[|front|] == m;
    }
    if IsErrorPair(ms, names, x) {
      var k, j :| 0 <= k < |ms| && !Discarded(ms[k], names) && 0 <= j < |ms[k]| &&
                  ms[k][j].name == ErrorName && x == (ms[k][j].range, ms[k]);
      if k < |front| {
        assert front[k] == ms[k];
      } else {
        assert ms[k] == m;
      }
    }
  }

  /** The trailing guard: a discarded match contributes neither error pairs
      nor filter ranges, so removing it changes nothing about the rule's
      result -- in particular its filter captures suppress nothing. */
  lemma ApplyIgnoresDiscarded(rule: Rule, names: set<string>, a: seq<Match>, m: Match, b: seq<Match>)
    requires Discarded(m, names)
    ensures ApplySpec(rule, Compiled(names, a + [m] + b)) == ApplySpec(rule, Compiled(names, a + b))
  {
    CollectErrorsAppend(a + [m], b, names);
    CollectErrorsAppend(a, [m], names);
    CollectErrorsAppend(a, b, names);
    CollectFiltersAppend(a + [m], b, names);
    CollectFiltersAppend(a, [m], names);
    CollectFiltersAppend(a, b, names);
    assert [m][..0] == [];
    assert CollectErrors([m], names) == [];
    assert CollectFilters([m], names) == {};
    assert CollectErrors(a + [m], names) == CollectErrors(a, names);
    assert CollectFilters(a + [m], names) == CollectFilters(a, names);
  }
}
