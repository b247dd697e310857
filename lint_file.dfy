/** Linting one file: every rule is applied in order (the first failing rule
    aborts the whole file before anything is written), the diagnostics of
    all rules are stably sorted by start byte, and each is written to the
    output in the configured format, followed by a line feed. The result is
    the number of diagnostics. */
module Lint {
  import opened LintTypes
  import RuleApplication
  import Ordering
  import TextOutput

  datatype OutputFormat = Pretty | Text

  datatype Config = Config(format: OutputFormat)

  /** The default configuration prints in the pretty format. */
  const DefaultConfig: Config := Config(Pretty)

  /** The output the report is written to; `text` is everything written so far. */
  class Sink {
    var text: string

    constructor ()
      ensures text == ""
    {
      text := "";
    }

    /** Writes s and a line feed. */
    method WriteLine(s: string)
      modifies this
      ensures text == old(text) + s + "\n"
    {
      text := text + s + "\n";
    }
  }

  /** What one rule yields on the file, given the engine's view of its query. */
  function RuleResult(rule: Rule, engine: string -> QueryRun): Result<seq<RawDiagnostic>> {
    RuleApplication.ApplySpec(rule, engine(rule.query))
  }

  /** The diagnostics of all rules, rule after rule; the first failing rule
      decides the error. */
  function CollectAll(rules: seq<Rule>, engine: string -> QueryRun): Result<seq<RawDiagnostic>> {
    if rules == [] then Ok([])
    else
      match CollectAll(rules[..|rules| - 1], engine)
      case Err(e) => Err(e)
      case Ok(ds) =>
        match RuleResult(rules[|rules| - 1], engine)
        case Err(e) => Err(e)
        case Ok(d) => Ok(ds + d)
  }

  /** One diagnostic in the configured format; the pretty renderer is a
      parameter. */
  function Format(config: Config, path: string, input: string,
                  pretty: (string, string, RawDiagnostic) -> string, d: RawDiagnostic): string {
    match config.format
    case Pretty => pretty(path, input, d)
    case Text => TextOutput.TextDiagnostic(path, input, d)
  }

  /** The text written for the diagnostics ds, in their order. */
  function Written(config: Config, path: string, input: string,
                   pretty: (string, string, RawDiagnostic) -> string, ds: seq<RawDiagnostic>): string {
    if ds == [] then ""
    else Written(config, path, input, pretty, ds[..|ds| - 1]) + Format(config, path, input, pretty, ds[|ds| - 1]) + "\n"
  }

  /** Lints a file: collects the diagnostics of every rule, sorts them by
      start byte and writes each one. On an error nothing is written. */
  method LintFile(config: Config, path: string, input: string, rules: seq<Rule>,
                  engine: string -> QueryRun, pretty: (string, string, RawDiagnostic) -> string,
                  out: Sink) returns (r: Result<nat>)
    modifies out
    ensures CollectAll(rules, engine).Err? ==>
              r == Err(CollectAll(rules, engine).error) && out.text == old(out.text)
    ensures CollectAll(rules, engine).Ok? ==>
              && r == Ok(|CollectAll(rules, engine).value|)
              && out.text == old(out.text) + Written(config, path, input, pretty,
                                                     Ordering.SortByStart(CollectAll(rules, engine).value))
  {
    var collected := ApplyRules(rules, engine);
    if collected.Err? {
      return Err(collected.error);
    }
    var diagnostics := collected.value;
    var count := |diagnostics|;
    var sorted := Ordering.SortByStart(diagnostics);
    WriteAll(config, path, input, pretty, sorted, out);
    return Ok(count);
  }

  /** The loop over the rules: each rule's diagnostics are appended, and the
      first failing rule returns its error. */
  method ApplyRules(rules: seq<Rule>, engine: string -> QueryRun) returns (r: Result<seq<RawDiagnostic>>)
    ensures r == CollectAll(rules, engine)
  {
    var diagnostics: seq<RawDiagnostic> := [];
    for i := 0 to |rules|
      invariant CollectAll(rules[..i], engine) == Ok(diagnostics)
    {
      var applied := RuleApplication.ApplyRule(rules[i], engine(rules[i].query));
      assert rules[..i + 1][..i] == rules[..i];
      if applied.Err? {
        CollectAllErrPrefix(rules, i + 1, engine);
        return Err(applied.error);
      }
      diagnostics := diagnostics + applied.value;
    }
    assert rules[..|rules|] == rules;
    return Ok(diagnostics);
  }

  /** The output loop: writes every diagnostic in order, each followed by a
      line feed. */
  method WriteAll(config: Config, path: string, input: string,
                  pretty: (string, string, RawDiagnostic) -> string, ds: seq<RawDiagnostic>, out: Sink)
    modifies out
    ensures out.text == old(out.text) + Written(config, path, input, pretty, ds)
  {
    for i := 0 to |ds|
      invariant out.text == old(out.text) + Written(config, path, input, pretty, ds[..i])
    {
      var output: string;
      match config.format {
        case Pretty =>
          output := pretty(path, input, ds[i]);
        case Text =>
          output := TextOutput.PrintTextDiagnostic(path, input, ds[i]);
      }
      assert ds[..i + 1][..i] == ds[..i];
      AppendAssoc(old(out.text), Written(config, path, input, pretty, ds[..i]) + output, "\n");
      AppendAssoc(old(out.text), Written(config, path, input, pretty, ds[..i]), output);
      out.WriteLine(output);
    }
    assert ds[..|ds|] == ds;
  }

  /** Once a prefix of the rules fails, the whole run fails with its error. */
  lemma {:induction false} CollectAllErrPrefix(rules: seq<Rule>, k: nat, engine: string -> QueryRun)
    requires k <= |rules| && CollectAll(rules[..k], engine).Err?
    ensures CollectAll(rules, engine) == CollectAll(rules[..k], engine)
    decreases |rules| - k
  {
    if k == |rules| {
      assert rules[..k] == rules;
    } else {
      assert rules[..k + 1][..k] == rules[..k];
      CollectAllErrPrefix(rules, k + 1, engine);
    }
  }

  /** Linting with the default configuration and no rules finds no
      diagnostics and writes nothing; this follows from LintFile's contract
      with an empty rule list. */
  method LintNoRules(path: string, input: string, engine: string -> QueryRun,
                     pretty: (string, string, RawDiagnostic) -> string) returns (r: Result<nat>, written: string)
    ensures r == Ok(0) && written == ""
  {
    var out := new Sink();
    r := LintFile(DefaultConfig, path, input, [], engine, pretty, out);
    written := out.text;
  }

  /** Running the rules of a + b is running those of a, then those of b:
      it succeeds exactly when both parts do, and then the diagnostics (and
      so their count) are those of a followed by those of b -- no
      diagnostic is removed across rules. */
  lemma {:induction false} CollectAllAppend(a: seq<Rule>, b: seq<Rule>, engine: string -> QueryRun)
    ensures CollectAll(a + b, engine).Ok? <==> CollectAll(a, engine).Ok? && CollectAll(b, engine).Ok?
    ensures CollectAll(a + b, engine).Ok? ==>
              CollectAll(a + b, engine).value == CollectAll(a, engine).value + CollectAll(b, engine).value
    ensures CollectAll(a, engine).Err? ==> CollectAll(a + b, engine) == CollectAll(a, engine)
    decreases |b|
  {
    if b == [] {
      assert a + b == a;
    } else {
      var front := b[..|b| - 1];
      var last := b[|b| - 1];
      CollectAllAppend(a, front, engine);
      assert (a + b)[..|a + b| - 1] == a + front;
      assert (a + b)[|a + b| - 1] == last;
      var x := CollectAll(a + front, engine);
      var y := RuleResult(last, engine);
      if x.Ok? && y.Ok? {
        AppendAssoc(CollectAll(a, engine).value, CollectAll(front, engine).value, y.value);
      }
    }
  }

  /** The run succeeds exactly when every rule succeeds. */
  lemma {:induction false} CollectAllMeaning(rules: seq<Rule>, engine: string -> QueryRun)
    ensures CollectAll(rules, engine).Ok? <==> forall i :: 0 <= i < |rules| ==> RuleResult(rules[i], engine).Ok?
  {
    if rules != [] {
      var front := rules[..|rules| - 1];
      CollectAllMeaning(front, engine);
      AllOkSnoc(front, rules[|rules| - 1], engine);
      assert rules == front + [rules[|rules| - 1]];
    }
  }

  lemma AllOkSnoc(front: seq<Rule>, last: Rule, engine: string -> QueryRun)
    ensures (forall i :: 0 <= i < |front + [last]| ==> RuleResult((front + [last])[i], engine).Ok?) <==>
            (forall i :: 0 <= i < |front| ==> RuleResult(front[i], engine).Ok?) && RuleResult(last, engine).Ok?
  {
    var rules := front + [last];
    assert rules[|front|] == last;
    assert forall i :: 0 <= i < |front| ==> rules[i] == front[i];
  }

  /** The sum of the rules' diagnostic counts. */
  function CountSum(rules: seq<Rule>, engine: string -> QueryRun): nat {
    if rules == [] then 0
    else
      var r := RuleResult(rules[|rules| - 1], engine);
      CountSum(rules[..|rules| - 1], engine) + (if r.Ok? then |r.value| else 0)
  }

  /** The count lint_file returns is the sum of the per-rule counts. */
  lemma {:induction false} CountIsSum(rules: seq<Rule>, engine: string -> QueryRun)
    ensures CollectAll(rules, engine).Ok? ==> |CollectAll(rules, engine).value| == CountSum(rules, engine)
  {
    if rules != [] {
      CountIsSum(rules[..|rules| - 1], engine);
    }
  }

  /** The first failing rule decides the error of the run. */
  lemma {:induction false} CollectAllFirstError(rules: seq<Rule>, engine: string -> QueryRun, k: nat)
    requires k < |rules| && RuleResult(rules[k], engine).Err?
    requires forall i :: 0 <= i < k ==> RuleResult(rules[i], engine).Ok?
    ensures CollectAll(rules, engine) == Err(RuleResult(rules[k], engine).error)
  {
    CollectAllMeaning(rules[..k], engine);
    assert forall i :: 0 <= i < k ==> rules[..k][i] == rules[i];
    assert rules[..k + 1][..k] == rules[..k];
    CollectAllErrPrefix(rules, k + 1, engine);
  }

  /** The output order: diagnostics are printed by start byte, and those
      starting at the same byte keep the order of the rules, and within a
      rule the order in which the rule reported them. */
  lemma LintOrder(a: seq<Rule>, b: seq<Rule>, engine: string -> QueryRun, k: nat)
    requires CollectAll(a, engine).Ok? && CollectAll(b, engine).Ok?
    ensures CollectAll(a + b, engine).Ok?
    ensures Ordering.SortedByStart(Ordering.SortByStart(CollectAll(a + b, engine).value))
    ensures Ordering.WithStart(Ordering.SortByStart(CollectAll(a + b, engine).value), k) ==
            Ordering.WithStart(CollectAll(a, engine).value, k) + Ordering.WithStart(CollectAll(b, engine).value, k)
  {
    CollectAllAppend(a, b, engine);
    Ordering.WithStartAppend(CollectAll(a, engine).value, CollectAll(b, engine).value, k);
  }

  /** In the text format, one write per diagnostic is that diagnostic's
      plain-text report. */
  lemma WrittenSnoc(config: Config, path: string, input: string,
                    pretty: (string, string, RawDiagnostic) -> string, ds: seq<RawDiagnostic>, d: RawDiagnostic)
    ensures Written(config, path, input, pretty, ds + [d]) ==
            Written(config, path, input, pretty, ds) + Format(config, path, input, pretty, d) + "\n"
    ensures config.format.Text? ==> Format(config, path, input, pretty, d) == TextOutput.TextDiagnostic(path, input, d)
  {
    assert (ds + [d])[..|ds|] == ds;
  }
}
