/** Description templating: every `@name` placeholder (an `@` followed by one
    or more of `a`-`z` and `-`) is replaced by the text of the first capture
    of the match with that name. The scan is leftmost, greedy and
    non-overlapping, like a regular-expression scan for `@([a-z-]+)`. */
module Template {
  import opened LintTypes

  predicate IsNameChar(c: char) {
    ('a' <= c <= 'z') || c == '-'
  }

  /** A placeholder starts at index i of t. */
  predicate PlaceholderAt(t: string, i: int) {
    0 <= i && i + 1 < |t| && t[i] == '@' && IsNameChar(t[i + 1])
  }

  /** A valid placeholder name: one or more name characters. */
  predicate IsName(s: string) {
    |s| > 0 && forall j {:trigger IsNameChar(s[j])} :: 0 <= j < |s| ==> IsNameChar(s[j])
  }

  predicate HasNoPlaceholder(t: string) {
    forall i :: 0 <= i < |t| ==> !PlaceholderAt(t, i)
  }

  /** The end of the longest run of name characters that starts at j. */
  function NameEnd(t: string, j: nat): (e: nat)
    requires j <= |t|
    ensures j <= e <= |t|
    ensures forall k {:trigger IsNameChar(t[k])} :: j <= k < e ==> IsNameChar(t[k])
    ensures e == |t| || !IsNameChar(t[e])
    decreases |t| - j
  {
    if j < |t| && IsNameChar(t[j]) then NameEnd(t, j + 1) else j
  }

  /** The leftmost placeholder at or after i, or |t| when there is none. */
  function NextPlaceholder(t: string, i: nat): (p: nat)
    requires i <= |t|
    ensures i <= p <= |t|
    ensures p < |t| ==> PlaceholderAt(t, p)
    ensures forall k :: i <= k < p ==> !PlaceholderAt(t, k)
    decreases |t| - i
  {
    if i == |t| || PlaceholderAt(t, i) then i else NextPlaceholder(t, i + 1)
  }

  /** A template cut into literal text and placeholders. */
  datatype Piece = Literal(text: string) | Hole(name: string)

  /** The scan of t from index i: literal, hole, literal, ..., literal. */
  function Pieces(t: string, i: nat): seq<Piece>
    requires i <= |t|
    decreases |t| - i
  {
    var p := NextPlaceholder(t, i);
    if p == |t| then [Literal(t[i..])]
    else
      var e := NameEnd(t, p + 1);
      [Literal(t[i..p]), Hole(t[p + 1..e])] + Pieces(t, e)
  }

  /** The template text a sequence of pieces stands for. */
  function Source(ps: seq<Piece>): string {
    if ps == [] then ""
    else
      (match ps[0]
       case Literal(s) => s
       case Hole(n) => "@" + n) + Source(ps[1..])
  }

  /** The first capture with the given name, as `Iterator::find` picks it. */
  function FirstCapture(cs: seq<Capture>, name: string): (r: Option<Capture>)
    ensures r.None? <==> forall i :: 0 <= i < |cs| ==> cs[i].name != name
    ensures r.Some? ==> exists i :: 0 <= i < |cs| && cs[i] == r.value && r.value.name == name &&
                                    forall j :: 0 <= j < i ==> cs[j].name != name
  {
    if cs == [] then None
    else if cs[0].name == name then Some(cs[0])
    else
      var r := FirstCapture(cs[1..], name);
      assert r.Some? ==> exists i :: 0 <= i < |cs[1..]| && cs[1..][i] == r.value && r.value.name == name &&
                                     forall j :: 0 <= j < i ==> cs[1..][j].name != name;
      assert forall i :: 1 <= i < |cs| ==> cs[i] == cs[1..][i - 1];
      r
  }

  /** A placeholder name can be filled: a capture has it, with UTF-8 text. */
  predicate Fillable(cs: seq<Capture>, name: string) {
    FirstCapture(cs, name).Some? && FirstCapture(cs, name).value.text.Some?
  }

  /** The text that goes in place of one piece. */
  function Substitute(p: Piece, cs: seq<Capture>, template: string): Result<string> {
    match p
    case Literal(s) => Ok(s)
    case Hole(n) =>
      match FirstCapture(cs, n)
      case None => Err(CaptureNotFound(n, template))
      case Some(c) =>
        match c.text
        case None => Err(NonUtf8Text)
        case Some(x) => Ok(x)
  }

  /** Substitutes every piece in order and concatenates; the first piece that
      cannot be substituted decides the error. */
  function Expand(ps: seq<Piece>, cs: seq<Capture>, template: string): Result<string> {
    if ps == [] then Ok("")
    else
      match Substitute(ps[0], cs, template)
      case Err(e) => Err(e)
      case Ok(x) =>
        match Expand(ps[1..], cs, template)
        case Err(e) => Err(e)
        case Ok(y) => Ok(x + y)
  }

  /** The rendered description of template t for a match with captures cs. */
  function Render(t: string, cs: seq<Capture>): Result<string> {
    Expand(Pieces(t, 0), cs, t)
  }

  /** A piece with its hole, if any, replaced by its capture's text. */
  function Fill(p: Piece, cs: seq<Capture>): Piece
    requires p.Hole? ==> Fillable(cs, p.name)
  {
    match p
    case Literal(s) => Literal(s)
    case Hole(n) => Literal(FirstCapture(cs, n).value.text.value)
  }

  /** Every hole replaced by the literal text of its capture. */
  function Filled(ps: seq<Piece>, cs: seq<Capture>): (r: seq<Piece>)
    requires forall i :: 0 <= i < |ps| && ps[i].Hole? ==> Fillable(cs, ps[i].name)
    ensures |r| == |ps|
    ensures forall i :: 0 <= i < |ps| ==> r[i].Literal?
  {
    seq(|ps|, i requires 0 <= i < |ps| => Fill(ps[i], cs))
  }

  function Prepend(s: string, r: Result<string>): Result<string> {
    if r.Ok? then Ok(s + r.value) else r
  }

  /** The templating loop: copies the text before each placeholder, then the
      text of the capture the placeholder names, and finally the text after
      the last placeholder. */
  method TemplateDescription(template: string, captures: seq<Capture>) returns (r: Result<string>)
    ensures r == Render(template, captures)
  {
    var out := "";
    var last := 0;
    var p := NextPlaceholder(template, last);
    PrependEmpty(Render(template, captures));
    while p < |template|
      invariant last <= p <= |template|
      invariant p == NextPlaceholder(template, last)
      invariant Render(template, captures) == Prepend(out, Expand(Pieces(template, last), captures, template))
      decreases |template| - last
    {
      var e := NameEnd(template, p + 1);
      var name := template[p + 1..e];
      var c := FirstCapture(captures, name);
      if c.None? {
        StepFails(template, captures, last, out, p, e, CaptureNotFound(name, template));
        return Err(CaptureNotFound(name, template));
      }
      if c.value.text.None? {
        StepFails(template, captures, last, out, p, e, NonUtf8Text);
        return Err(NonUtf8Text);
      }
      StepFilled(template, captures, last, out, p, e, c.value.text.value);
      out := out + template[last..p] + c.value.text.value;
      last := e;
      p := NextPlaceholder(template, last);
    }
    PiecesLast(template, last);
    ExpandLiteral(template[last..], captures, template);
    out := out + template[last..];
    r := Ok(out);
  }

  /** The scan always starts with the literal up to the next placeholder. */
  lemma PiecesHead(t: string, i: nat)
    requires i <= |t|
    ensures |Pieces(t, i)| > 0 && Pieces(t, i)[0] == Literal(t[i..NextPlaceholder(t, i)])
  {
    var p := NextPlaceholder(t, i);
    if p == |t| {
      PiecesLast(t, i);
      assert t[i..] == t[i..|t|];
    } else {
      PiecesNext(t, i, p, NameEnd(t, p + 1));
    }
  }

  lemma PrependEmpty(r: Result<string>)
    ensures Prepend("", r) == r
  {
    if r.Ok? {
      assert "" + r.value == r.value;
    }
  }

  /** One turn of the templating loop when the placeholder at p, whose name
      ends at e, can be filled with x. */
  lemma StepFilled(t: string, cs: seq<Capture>, last: nat, out: string, p: nat, e: nat, x: string)
    requires last <= |t| && p == NextPlaceholder(t, last) < |t| && e == NameEnd(t, p + 1)
    requires Substitute(Hole(t[p + 1..e]), cs, t) == Ok(x)
    ensures Prepend(out, Expand(Pieces(t, last), cs, t)) == Prepend(out + t[last..p] + x, Expand(Pieces(t, e), cs, t))
  {
    PiecesNext(t, last, p, e);
    ExpandLiteralHole(t[last..p], t[p + 1..e], Pieces(t, e), cs, t);
    PrependTwice(out, t[last..p], x, Expand(Pieces(t, e), cs, t));
  }

  /** One turn of the templating loop when the placeholder at p cannot be filled. */
  lemma StepFails(t: string, cs: seq<Capture>, last: nat, out: string, p: nat, e: nat, err: LintError)
    requires last <= |t| && p == NextPlaceholder(t, last) < |t| && e == NameEnd(t, p + 1)
    requires Substitute(Hole(t[p + 1..e]), cs, t) == Err(err)
    ensures Prepend(out, Expand(Pieces(t, last), cs, t)) == Err(err)
  {
    PiecesNext(t, last, p, e);
    ExpandLiteralHole(t[last..p], t[p + 1..e], Pieces(t, e), cs, t);
  }

  /** The scan after the last placeholder: one literal. */
  lemma PiecesLast(t: string, i: nat)
    requires i <= |t| && NextPlaceholder(t, i) == |t|
    ensures Pieces(t, i) == [Literal(t[i..])]
  {
  }

  /** The scan at a placeholder p whose name ends at e. */
  lemma PiecesNext(t: string, i: nat, p: nat, e: nat)
    requires i <= |t| && p == NextPlaceholder(t, i) < |t| && e == NameEnd(t, p + 1)
    ensures Pieces(t, i) == [Literal(t[i..p]), Hole(t[p + 1..e])] + Pieces(t, e)
  {
  }

  lemma PrependTwice(a: string, b: string, c: string, r: Result<string>)
    ensures Prepend(a, Prepend(b, Prepend(c, r))) == Prepend(a + b + c, r)
  {
    if r.Ok? {
      assert a + (b + (c + r.value)) == a + b + c + r.value;
    }
  }

  /** One step of Expand over a literal followed by a hole. */
  lemma ExpandLiteralHole(lit: string, name: string, rest: seq<Piece>, cs: seq<Capture>, t: string)
    ensures var h := Substitute(Hole(name), cs, t);
      Expand([Literal(lit), Hole(name)] + rest, cs, t) ==
      Prepend(lit, if h.Err? then h else Prepend(h.value, Expand(rest, cs, t)))
  {
    var ps := [Literal(lit), Hole(name)] + rest;
    assert ps[0] == Literal(lit);
    assert ps[1..] == [Hole(name)] + rest;
    assert ps[1..][0] == Hole(name);
    assert ps[1..][1..] == rest;
  }

  /** Expand over a single literal. */
  lemma ExpandLiteral(lit: string, cs: seq<Capture>, t: string)
    ensures Expand([Literal(lit)], cs, t) == Ok(lit)
  {
    assert [Literal(lit)][1..] == [];
    assert lit + "" == lit;
  }

  /** The scan loses nothing: the pieces spell out the template again. */
  lemma {:induction false} PiecesRoundTrip(t: string, i: nat)
    requires i <= |t|
    ensures Source(Pieces(t, i)) == t[i..]
    decreases |t| - i
  {
    var p := NextPlaceholder(t, i);
    if p == |t| {
      PiecesLast(t, i);
      SourceSingle(t[i..]);
    } else {
      var e := NameEnd(t, p + 1);
      PiecesNext(t, i, p, e);
      SourcePair(t[i..p], t[p + 1..e], Pieces(t, e));
      PiecesRoundTrip(t, e);
      SplitAtPlaceholder(t, i, p, e);
    }
  }

  lemma SourceSingle(s: string)
    ensures Source([Literal(s)]) == s
  {
    assert [Literal(s)][1..] == [];
    assert s + "" == s;
  }

  lemma SourcePair(lit: string, name: string, rest: seq<Piece>)
    ensures Source([Literal(lit), Hole(name)] + rest) == lit + "@" + name + Source(rest)
  {
    var ps := [Literal(lit), Hole(name)] + rest;
    assert ps[1..] == [Hole(name)] + rest;
    assert ps[1..][1..] == rest;
    assert lit + ("@" + name + Source(rest)) == lit + "@" + name + Source(rest);
  }

  lemma SplitAtPlaceholder(t: string, i: nat, p: nat, e: nat)
    requires i <= p < e <= |t| && t[p] == '@'
    ensures t[i..] == t[i..p] + "@" + t[p + 1..e] + t[e..]
  {
    assert t[i..] == t[i..p] + t[p..p + 1] + t[p + 1..e] + t[e..];
  }

  /** Literals and holes alternate, starting and ending with a literal. */
  predicate Alternates(ps: seq<Piece>) {
    && |ps| > 0 && ps[0].Literal? && ps[|ps| - 1].Literal?
    && forall k {:trigger ps[k].Literal?} :: 0 <= k < |ps| - 1 ==> (ps[k].Literal? <==> ps[k + 1].Hole?)
  }

  /** No literal contains a placeholder. */
  predicate LiteralsClean(ps: seq<Piece>) {
    forall k {:trigger ps[k].Literal?} :: 0 <= k < |ps| && ps[k].Literal? ==> HasNoPlaceholder(ps[k].text)
  }

  /** Every hole names a non-empty run of name characters that the piece
      after it does not continue. */
  predicate HolesGreedy(ps: seq<Piece>) {
    forall k {:trigger ps[k].Hole?} :: 0 <= k < |ps| && ps[k].Hole? ==>
      && IsName(ps[k].name)
      && k + 1 < |ps| && ps[k + 1].Literal?
      && (|ps[k + 1].text| > 0 ==> !IsNameChar(ps[k + 1].text[0]))
  }

  /** The scan's pieces alternate literal, hole, literal, ..., literal. */
  lemma {:induction false} PiecesAlternate(t: string, i: nat)
    requires i <= |t|
    ensures Alternates(Pieces(t, i))
    decreases |t| - i
  {
    var p := NextPlaceholder(t, i);
    if p == |t| {
      PiecesLast(t, i);
    } else {
      var e := NameEnd(t, p + 1);
      PiecesNext(t, i, p, e);
      PiecesAlternate(t, e);
      AlternatesCons(t[i..p], t[p + 1..e], Pieces(t, e));
    }
  }

  lemma AlternatesCons(lit: string, name: string, rest: seq<Piece>)
    requires Alternates(rest)
    ensures Alternates([Literal(lit), Hole(name)] + rest)
  {
    var ps := [Literal(lit), Hole(name)] + rest;
    forall k | 2 <= k < |ps| ensures ps[k] == rest[k - 2] { }
  }

  /** No literal piece of the scan contains a placeholder. */
  lemma {:induction false} PiecesLiteralsClean(t: string, i: nat)
    requires i <= |t|
    ensures LiteralsClean(Pieces(t, i))
    decreases |t| - i
  {
    var p := NextPlaceholder(t, i);
    LiteralHasNoPlaceholder(t, i, p);
    if p == |t| {
      PiecesLast(t, i);
      assert t[i..p] == t[i..];
      LiteralsCleanSingle(t[i..]);
    } else {
      var e := NameEnd(t, p + 1);
      PiecesNext(t, i, p, e);
      PiecesLiteralsClean(t, e);
      LiteralsCleanCons(t[i..p], t[p + 1..e], Pieces(t, e));
    }
  }

  lemma LiteralsCleanSingle(lit: string)
    requires HasNoPlaceholder(lit)
    ensures LiteralsClean([Literal(lit)])
  {
  }

  lemma LiteralsCleanCons(lit: string, name: string, rest: seq<Piece>)
    requires HasNoPlaceholder(lit) && LiteralsClean(rest)
    ensures LiteralsClean([Literal(lit), Hole(name)] + rest)
  {
    var ps := [Literal(lit), Hole(name)] + rest;
    forall k | 2 <= k < |ps| ensures ps[k] == rest[k - 2] { }
  }

  /** The scan is greedy: every hole is a maximal run of name characters. */
  lemma {:induction false} PiecesHolesGreedy(t: string, i: nat)
    requires i <= |t|
    ensures HolesGreedy(Pieces(t, i))
    decreases |t| - i
  {
    var p := NextPlaceholder(t, i);
    if p == |t| {
      PiecesLast(t, i);
      HolesGreedySingle(t[i..]);
    } else {
      var e := NameEnd(t, p + 1);
      PiecesNext(t, i, p, e);
      PiecesHolesGreedy(t, e);
      HoleIsGreedy(t, p + 1, e);
      HolesGreedyCons(t[i..p], t[p + 1..e], Pieces(t, e));
    }
  }

  lemma HolesGreedySingle(lit: string)
    ensures HolesGreedy([Literal(lit)])
  {
  }

  /** The name cut out by NameEnd is a name, and the scan after it starts
      with a literal that does not continue it. */
  lemma HoleIsGreedy(t: string, j: nat, e: nat)
    requires 0 < j <= |t| && PlaceholderAt(t, j - 1) && e == NameEnd(t, j)
    ensures IsName(t[j..e])
    ensures var rest := Pieces(t, e);
      |rest| > 0 && rest[0].Literal? && (|rest[0].text| > 0 ==> !IsNameChar(rest[0].text[0]))
  {
    var name := t[j..e];
    forall k | 0 <= k < |name| ensures IsNameChar(name[k]) {
      assert name[k] == t[j + k];
    }
    PiecesHead(t, e);
    var lit := t[e..NextPlaceholder(t, e)];
    assert |lit| > 0 ==> lit[0] == t[e];
  }

  lemma HolesGreedyCons(lit: string, name: string, rest: seq<Piece>)
    requires IsName(name)
    requires |rest| > 0 && rest[0].Literal? && (|rest[0].text| > 0 ==> !IsNameChar(rest[0].text[0]))
    requires HolesGreedy(rest)
    ensures HolesGreedy([Literal(lit), Hole(name)] + rest)
  {
    var ps := [Literal(lit), Hole(name)] + rest;
    forall k | 0 <= k < |ps| && ps[k].Hole?
      ensures && IsName(ps[k].name)
              && k + 1 < |ps| && ps[k + 1].Literal?
              && (|ps[k + 1].text| > 0 ==> !IsNameChar(ps[k + 1].text[0]))
    {
      if k >= 2 {
        assert ps[k] == rest[k - 2];
        assert k + 1 < |ps| ==> ps[k + 1] == rest[k - 1];
      } else {
        assert k == 1 && ps[k] == Hole(name) && ps[2] == rest[0];
      }
    }
  }

  /** The scan is the only cut with these properties: a sequence of pieces
      that spells out t[i..], alternates, has literals free of placeholders
      and takes every name greedily is Pieces(t, i). This is the cut of a
      leftmost, greedy scan for `@([a-z-]+)`. */
  lemma {:induction false} PiecesUnique(t: string, i: nat, ps: seq<Piece>)
    requires i <= |t|
    requires Source(ps) == t[i..]
    requires Alternates(ps) && LiteralsClean(ps) && HolesGreedy(ps)
    ensures ps == Pieces(t, i)
    decreases |t| - i
  {
    assert ps[0].Literal?;
    if |ps| == 1 {
      assert ps == [Literal(ps[0].text)];
      SourceSingle(ps[0].text);
      NoPlaceholderTail(t, i);
      PiecesLast(t, i);
    } else {
      TailProps(ps);
      SourceTail(ps);
      var lit, name, rest := ps[0].text, ps[1].name, ps[2..];
      var p := i + |lit|;
      var e := p + 1 + |name|;
      SourceStart(rest);
      PiecesConsStep(t, i, p, e, lit, name, Source(rest));
      PiecesUnique(t, e, rest);
    }
  }

  /** Text that starts with a clean literal, `@`, a name and a tail that
      does not continue the name: the scan starts with that literal and
      that hole, and goes on at the tail. */
  lemma PiecesConsStep(t: string, i: nat, p: nat, e: nat, lit: string, name: string, tail: string)
    requires i <= |t| && t[i..] == lit + "@" + name + tail
    requires p == i + |lit| && e == p + 1 + |name|
    requires HasNoPlaceholder(lit) && IsName(name)
    requires |tail| > 0 ==> !IsNameChar(tail[0])
    ensures e <= |t| && tail == t[e..]
    ensures Pieces(t, i) == [Literal(lit), Hole(name)] + Pieces(t, e)
  {
    ConsScan(t, i, p, e, lit, name, tail);
    PiecesNextNamed(t, i, p, e, lit, name);
  }

  /** Where the scan finds the placeholder and the end of its name in such text. */
  lemma ConsScan(t: string, i: nat, p: nat, e: nat, lit: string, name: string, tail: string)
    requires i <= |t| && t[i..] == lit + "@" + name + tail
    requires p == i + |lit| && e == p + 1 + |name|
    requires HasNoPlaceholder(lit) && IsName(name)
    requires |tail| > 0 ==> !IsNameChar(tail[0])
    ensures e <= |t| && tail == t[e..]
    ensures t[i..p] == lit && t[p + 1..e] == name
    ensures p == NextPlaceholder(t, i) < |t| && e == NameEnd(t, p + 1)
  {
    SplitParts(t, i, p, e, lit, name, tail);
    FirstPlaceholder(t, i, p, e);
    assert e < |t| ==> t[e] == tail[0];
    NameEndIs(t, p + 1, e);
  }

  /** PiecesNext, with the literal and the name given by value. */
  lemma PiecesNextNamed(t: string, i: nat, p: nat, e: nat, lit: string, name: string)
    requires i <= |t| && p == NextPlaceholder(t, i) < |t| && e == NameEnd(t, p + 1)
    requires t[i..p] == lit && t[p + 1..e] == name
    ensures Pieces(t, i) == [Literal(lit), Hole(name)] + Pieces(t, e)
  {
    PiecesNext(t, i, p, e);
  }

  /** The scan, characterised: a cut of t is the scan's exactly when it
      spells out t, alternates, keeps its literals free of placeholders and
      takes every name greedily. */
  lemma PiecesCharacterised(t: string, ps: seq<Piece>)
    ensures ps == Pieces(t, 0) <==>
            Source(ps) == t && Alternates(ps) && LiteralsClean(ps) && HolesGreedy(ps)
  {
    PiecesRoundTrip(t, 0);
    PiecesAlternate(t, 0);
    PiecesLiteralsClean(t, 0);
    PiecesHolesGreedy(t, 0);
    assert t[0..] == t;
    if Source(ps) == t && Alternates(ps) && LiteralsClean(ps) && HolesGreedy(ps) {
      PiecesUnique(t, 0, ps);
    }
  }

  /** The first two pieces of a cut and what the rest inherits. */
  lemma TailProps(ps: seq<Piece>)
    requires |ps| >= 2 && Alternates(ps) && LiteralsClean(ps) && HolesGreedy(ps)
    ensures ps[0].Literal? && HasNoPlaceholder(ps[0].text)
    ensures ps[1].Hole? && IsName(ps[1].name)
    ensures |ps| > 2 && ps[2].Literal? && (|ps[2].text| > 0 ==> !IsNameChar(ps[2].text[0]))
    ensures Alternates(ps[2..]) && LiteralsClean(ps[2..]) && HolesGreedy(ps[2..])
  {
    assert ps[0].Literal?;
    assert ps[1].Hole?;
    var rest := ps[2..];
    forall k | 0 <= k < |rest| ensures rest[k] == ps[k + 2] { }
  }

  lemma SourceTail(ps: seq<Piece>)
    requires |ps| >= 2 && ps[0].Literal? && ps[1].Hole?
    ensures Source(ps) == ps[0].text + "@" + ps[1].name + Source(ps[2..])
    ensures ps == [Literal(ps[0].text), Hole(ps[1].name)] + ps[2..]
  {
    assert ps == [Literal(ps[0].text), Hole(ps[1].name)] + ps[2..];
    SourcePair(ps[0].text, ps[1].name, ps[2..]);
  }

  /** Where the parts of lit + "@" + name + tail sit in t. */
  lemma SplitParts(t: string, i: nat, p: nat, e: nat, lit: string, name: string, tail: string)
    requires i <= |t| && t[i..] == lit + "@" + name + tail
    requires p == i + |lit| && e == p + 1 + |name|
    ensures e <= |t|
    ensures t[i..p] == lit && t[p] == '@'
    ensures t[p + 1..e] == name
    ensures t[e..] == tail
  {
    var u := t[i..];
    assert u[..|lit|] == lit;
    assert u[|lit|] == '@';
    assert u[|lit| + 1..|lit| + 1 + |name|] == name;
    assert u[|lit| + 1 + |name|..] == tail;
    assert t[i..p] == u[..|lit|];
    assert t[p + 1..e] == u[|lit| + 1..|lit| + 1 + |name|];
    assert t[e..] == u[|lit| + 1 + |name|..];
  }

  /** A clean literal followed by `@` and a name: the next placeholder is at the `@`. */
  lemma FirstPlaceholder(t: string, i: nat, p: nat, e: nat)
    requires i <= p < e <= |t|
    requires HasNoPlaceholder(t[i..p]) && t[p] == '@' && IsName(t[p + 1..e])
    ensures NextPlaceholder(t, i) == p
  {
    var lit := t[i..p];
    forall k | i <= k < p ensures !PlaceholderAt(t, k) {
      if k + 1 < p {
        assert t[k] == lit[k - i] && t[k + 1] == lit[k + 1 - i];
        assert !PlaceholderAt(lit, k - i);
      } else {
        assert !IsNameChar(t[p]);
      }
    }
    assert t[p + 1] == t[p + 1..e][0];
    assert IsNameChar(t[p + 1..e][0]);
    NextPlaceholderIs(t, i, p);
  }

  /** Text whose tail from i is free of placeholders has none from i on. */
  lemma NoPlaceholderTail(t: string, i: nat)
    requires i <= |t| && HasNoPlaceholder(t[i..])
    ensures NextPlaceholder(t, i) == |t|
  {
    var u := t[i..];
    forall k | i <= k < |t| ensures !PlaceholderAt(t, k) {
      assert !PlaceholderAt(u, k - i);
      assert t[k] == u[k - i];
      if k + 1 < |t| {
        assert t[k + 1] == u[k + 1 - i];
      }
    }
    NextPlaceholderIs(t, i, |t|);
  }

  /** NextPlaceholder finds the first placeholder at or after i. */
  lemma {:induction false} NextPlaceholderIs(t: string, i: nat, p: nat)
    requires i <= p <= |t|
    requires forall k :: i <= k < p ==> !PlaceholderAt(t, k)
    requires p < |t| ==> PlaceholderAt(t, p)
    ensures NextPlaceholder(t, i) == p
    decreases p - i
  {
    if i < p {
      NextPlaceholderIs(t, i + 1, p);
    }
  }

  /** The first character a cut spells out: that of its first literal, or
      the `@` of the hole after an empty first literal. */
  lemma SourceStart(ps: seq<Piece>)
    requires Alternates(ps)
    ensures |Source(ps)| > 0 && |ps[0].text| > 0 ==> Source(ps)[0] == ps[0].text[0]
    ensures |Source(ps)| > 0 && |ps[0].text| == 0 ==> Source(ps)[0] == '@'
  {
    assert ps[0].Literal?;
    assert Source(ps) == ps[0].text + Source(ps[1..]);
    if |ps[0].text| == 0 && |ps| > 1 {
      assert ps[1].Hole?;
      assert ps[1..][0] == ps[1];
      assert Source(ps[1..]) == "@" + ps[1].name + Source(ps[1..][1..]);
    }
  }

  /** A name that stops where the text or the run of name characters stops
      is where NameEnd stops. */
  lemma NameEndIs(t: string, j: nat, e: nat)
    requires j <= e <= |t| && IsName(t[j..e])
    requires e == |t| || !IsNameChar(t[e])
    ensures NameEnd(t, j) == e
  {
    forall k | j <= k < e ensures IsNameChar(t[k]) {
      assert t[k] == t[j..e][k - j];
    }
    NameEndOfRun(t, j, e);
  }

  /** A literal cut out before the next placeholder contains none itself. */
  lemma LiteralHasNoPlaceholder(t: string, i: nat, p: nat)
    requires i <= p <= |t|
    requires forall k :: i <= k < p ==> !PlaceholderAt(t, k)
    ensures HasNoPlaceholder(t[i..p])
  {
    forall k | 0 <= k < p - i ensures !PlaceholderAt(t[i..p], k) {
      assert !PlaceholderAt(t, i + k);
    }
  }

  /** A template without placeholders renders to itself, whatever the captures. */
  lemma NoPlaceholderRendersItself(t: string, cs: seq<Capture>)
    requires HasNoPlaceholder(t)
    ensures Render(t, cs) == Ok(t)
  {
    var p := NextPlaceholder(t, 0);
    assert p == |t|;
    assert Pieces(t, 0) == [Literal(t[0..])];
    assert t[0..] == t;
    ExpandLiteral(t, cs, t);
  }

  /** Rendering succeeds exactly when every placeholder can be filled, and
      then it is the template with each placeholder replaced verbatim by its
      capture's text: what is inserted is never scanned again. */
  lemma {:induction false} ExpandFills(ps: seq<Piece>, cs: seq<Capture>, t: string)
    ensures Expand(ps, cs, t).Ok? <==> forall i :: 0 <= i < |ps| && ps[i].Hole? ==> Fillable(cs, ps[i].name)
    ensures Expand(ps, cs, t).Ok? ==> Expand(ps, cs, t).value == Source(Filled(ps, cs))
  {
    if ps != [] {
      ExpandFills(ps[1..], cs, t);
      assert forall i :: 1 <= i < |ps| ==> ps[i] == ps[1..][i - 1];
      if Expand(ps, cs, t).Ok? {
        var f := Filled(ps, cs);
        assert f[1..] == Filled(ps[1..], cs);
      }
    }
  }

  /** Templating can only fail on a missing capture or non-UTF-8 text. */
  lemma {:induction false} ExpandErrorKinds(ps: seq<Piece>, cs: seq<Capture>, t: string)
    ensures Expand(ps, cs, t).Err? ==> Expand(ps, cs, t).error.CaptureNotFound? || Expand(ps, cs, t).error == NonUtf8Text
  {
    if ps != [] {
      ExpandErrorKinds(ps[1..], cs, t);
    }
  }

  /** Rendering fails exactly when a placeholder names no capture or a
      capture with non-UTF-8 text; the error is the one of the leftmost such
      placeholder. */
  lemma {:induction false} ExpandFirstError(ps: seq<Piece>, cs: seq<Capture>, t: string, k: nat)
    requires k < |ps| && ps[k].Hole? && !Fillable(cs, ps[k].name)
    requires forall i :: 0 <= i < k && ps[i].Hole? ==> Fillable(cs, ps[i].name)
    ensures FirstCapture(cs, ps[k].name).None? ==> Expand(ps, cs, t) == Err(CaptureNotFound(ps[k].name, t))
    ensures FirstCapture(cs, ps[k].name).Some? ==> Expand(ps, cs, t) == Err(NonUtf8Text)
  {
    if k > 0 {
      assert forall i :: 1 <= i < |ps| ==> ps[i] == ps[1..][i - 1];
      ExpandFirstError(ps[1..], cs, t, k - 1);
    }
  }

  /** The templater as a whole: the rendered description is the template's
      pieces with every placeholder filled, and it fails exactly when some
      placeholder cannot be filled. */
  lemma RenderMeaning(t: string, cs: seq<Capture>)
    ensures Source(Pieces(t, 0)) == t
    ensures Render(t, cs).Ok? <==>
            forall i :: 0 <= i < |Pieces(t, 0)| && Pieces(t, 0)[i].Hole? ==> Fillable(cs, Pieces(t, 0)[i].name)
    ensures Render(t, cs).Ok? ==> Render(t, cs).value == Source(Filled(Pieces(t, 0), cs))
  {
    PiecesRoundTrip(t, 0);
    ExpandFills(Pieces(t, 0), cs, t);
  }

  /** A run of name characters: NameEnd finds its end. */
  lemma NameEndOfRun(t: string, j: nat, e: nat)
    requires j <= e <= |t|
    requires forall k {:trigger IsNameChar(t[k])} :: j <= k < e ==> IsNameChar(t[k])
    requires e == |t| || !IsNameChar(t[e])
    ensures NameEnd(t, j) == e
  {
  }

  /** A template that starts with a placeholder and has no other one. */
  lemma LeadingPlaceholder(name: string, after: string)
    requires IsName(name)
    requires |after| > 0 ==> !IsNameChar(after[0])
    requires HasNoPlaceholder(after)
    ensures Pieces("@" + name + after, 0) == [Literal(""), Hole(name), Literal(after)]
  {
    var t := "@" + name + after;
    var e := 1 + |name|;
    LeadingName(name, after);
    TailHasNoPlaceholder(name, after);
    PiecesLast(t, e);
    PiecesNext(t, 0, 0, e);
    assert t[0..0] == "";
  }

  /** In "@" + name + after, the scan finds the placeholder at 0 and its
      name ends where after begins. */
  lemma LeadingName(name: string, after: string)
    requires IsName(name)
    requires |after| > 0 ==> !IsNameChar(after[0])
    ensures var t := "@" + name + after;
      NextPlaceholder(t, 0) == 0 && NameEnd(t, 1) == 1 + |name| &&
      t[1..1 + |name|] == name && t[1 + |name|..] == after
  {
    var t := "@" + name + after;
    var e := 1 + |name|;
    assert t[1] == name[0];
    assert PlaceholderAt(t, 0);
    forall k | 1 <= k < e ensures IsNameChar(t[k]) {
      assert t[k] == name[k - 1];
    }
    assert e < |t| ==> t[e] == after[0];
    NameEndOfRun(t, 1, e);
    assert t[1..e] == name;
    assert t[e..] == after;
  }

  /** No placeholder starts inside the tail of "@" + name + after. */
  lemma TailHasNoPlaceholder(name: string, after: string)
    requires HasNoPlaceholder(after)
    ensures var t := "@" + name + after;
      NextPlaceholder(t, 1 + |name|) == |t|
  {
    var t := "@" + name + after;
    var e := 1 + |name|;
    forall k | e <= k < |t| ensures !PlaceholderAt(t, k) {
      assert !PlaceholderAt(after, k - e);
      if k + 1 < |t| {
        assert t[k] == after[k - e] && t[k + 1] == after[k + 1 - e];
      }
    }
  }

  /** A template made of one leading placeholder and a literal tail renders
      to the placeholder's capture text followed by the tail. */
  lemma RenderLeading(name: string, after: string, cs: seq<Capture>)
    requires IsName(name)
    requires |after| > 0 ==> !IsNameChar(after[0])
    requires HasNoPlaceholder(after)
    ensures var t := "@" + name + after;
      var c := FirstCapture(cs, name);
      Render(t, cs) ==
        if c.None? then Err(CaptureNotFound(name, t))
        else if c.value.text.None? then Err(NonUtf8Text)
        else Ok(c.value.text.value + after)
  {
    var t := "@" + name + after;
    LeadingPlaceholder(name, after);
    ExpandLiteral(after, cs, t);
    ExpandLiteralHole("", name, [Literal(after)], cs, t);
    assert [Literal(""), Hole(name)] + [Literal(after)] == [Literal(""), Hole(name), Literal(after)];
    var h := Substitute(Hole(name), cs, t);
    if h.Ok? {
      assert "" + (h.value + after) == h.value + after;
    }
  }

  /** Text without an `@` has no placeholder. */
  lemma NoAtNoPlaceholder(s: string)
    requires '@' !in s
    ensures HasNoPlaceholder(s)
  {
    forall i | 0 <= i < |s| ensures !PlaceholderAt(s, i) {
      assert s[i] in s;
    }
  }

  /** A typical description: `@x is unused` with x bound to `foo`. */
  lemma RenderExample(r: Range)
    ensures Render("@x is unused", [Capture("x", r, Some("foo"), false)]) == Ok("foo is unused")
  {
    var cs := [Capture("x", r, Some("foo"), false)];
    assert "@x is unused" == "@" + "x" + " is unused";
    NoAtNoPlaceholder(" is unused");
    RenderLeading("x", " is unused", cs);
    assert FirstCapture(cs, "x") == Some(cs[0]);
    assert "foo" + " is unused" == "foo is unused";
  }

  /** Inserted text is not scanned again, even when it looks like a placeholder. */
  lemma RenderNoRescan(r: Range)
    ensures Render("@x!", [Capture("x", r, Some("@y"), false)]) == Ok("@y!")
  {
    var cs := [Capture("x", r, Some("@y"), false)];
    assert "@x!" == "@" + "x" + "!";
    NoAtNoPlaceholder("!");
    RenderLeading("x", "!", cs);
    assert FirstCapture(cs, "x") == Some(cs[0]);
    assert "@y" + "!" == "@y!";
  }

  /** A placeholder that names no capture is an error. */
  lemma RenderUnknownName(r: Range)
    ensures Render("@y is unused", [Capture("x", r, Some("foo"), false)]) == Err(CaptureNotFound("y", "@y is unused"))
  {
    var cs := [Capture("x", r, Some("foo"), false)];
    assert "@y is unused" == "@" + "y" + " is unused";
    NoAtNoPlaceholder(" is unused");
    RenderLeading("y", " is unused", cs);
    assert FirstCapture(cs, "y") == None;
  }
}
