/** The deterministic post-processing around the three predictor calls in
    agent/dspy_signatures.py: `Router.forward` (mode coercion), `NL2SQL.forward`
    (trimming) and `Synthesizer.forward` (citation parsing, confidence clamp).
    The predictors are oracles: the functions here take their raw output. */
module Signatures {
  import opened Text

  /** The state's `mode` field: empty before the router runs, then one of
      the three processing modes. */
  datatype Mode = Unset | Rag | Sql | Hybrid

  /** The text of a mode as the state holds it. */
  function ModeName(m: Mode): string {
    match m
    case Unset => ""
    case Rag => "rag"
    case Sql => "sql"
    case Hybrid => "hybrid"
  }

  /** `mode in ['rag', 'sql', 'hybrid']`. */
  predicate IsModeName(text: string) {
    text == "rag" || text == "sql" || text == "hybrid"
  }

  /** `mode in ["rag", "hybrid"]`: the modes that read the documents. */
  predicate UsesDocuments(mode: Mode) {
    mode == Rag || mode == Hybrid
  }

  /** `mode in ["sql", "hybrid"]`: the modes that query the database. */
  predicate UsesDatabase(mode: Mode) {
    mode == Sql || mode == Hybrid
  }

  /** The predictor's mode text as `Router.forward` compares it: lower-cased, then stripped. */
  function NormalizeMode(raw: string): string {
    Strip(Lower(raw))
  }

  /** `Router.forward`: the mode the normalised text names, `hybrid` when it
      names none. */
  function CoerceMode(raw: string): (mode: Mode)
    ensures mode != Unset
    ensures ModeName(mode) == NormalizeMode(raw) <==> IsModeName(NormalizeMode(raw))
    ensures !IsModeName(NormalizeMode(raw)) ==> mode == Hybrid
  {
    var m := NormalizeMode(raw);
    if m == "rag" then Rag
    else if m == "sql" then Sql
    else if m == "hybrid" then Hybrid
    else Hybrid
  }

  /** A valid mode maps to itself. */
  lemma ValidModeFixed(m: Mode)
    requires m != Unset
    ensures CoerceMode(ModeName(m)) == m
  {
    var text := ModeName(m);
    LowerExample(text, text);
    assert IsTrimmed(text);
  }

  /** Coercing the text of a coerced mode changes nothing. */
  lemma CoerceModeIdempotent(raw: string)
    ensures CoerceMode(ModeName(CoerceMode(raw))) == CoerceMode(raw)
  {
    ValidModeFixed(CoerceMode(raw));
  }

  /** Case and surrounding whitespace do not matter. */
  lemma CoerceModeTolerant()
    ensures CoerceMode(" SQL\n") == Sql
  {
    LowerExample(" SQL\n", " sql\n");
    StripPadded(" ", "sql", "\n");
    assert " " + "sql" + "\n" == " sql\n";
  }

  /** A word that is not a mode falls back to `hybrid`. */
  lemma CoerceModeFallback()
    ensures CoerceMode("both") == Hybrid
  {
    LowerExample("both", "both");
    assert IsTrimmed("both");
  }

  lemma LowerExample(s: string, t: string)
    requires |s| == |t| && forall k :: 0 <= k < |s| ==> LowerChar(s[k]) == t[k]
    ensures Lower(s) == t
  {
    LowerAt(s);
  }

  /** A predictor output field: normally text, but the predictor may hand back another value. */
  datatype LmField = TextField(text: string) | OtherField

  /** A citation as the synthesizer keeps it: it holds "::" and has no
      surrounding whitespace. */
  predicate IsCitation(c: string) {
    Contains(c, "::") && IsTrimmed(c)
  }

  /** Every entry is a citation, stated one entry at a time. */
  predicate WellCited(cs: seq<string>) {
    cs == [] || (IsCitation(cs[0]) && WellCited(cs[1..]))
  }

  /** Entry `k` of a well-cited list is a citation. */
  lemma {:induction false} WellCitedAt(cs: seq<string>, k: nat)
    requires WellCited(cs) && k < |cs|
    ensures IsCitation(cs[k])
  {
    if k > 0 {
      WellCitedAt(cs[1..], k - 1);
    }
  }

  lemma {:induction false} WellCitedAppend(a: seq<string>, b: seq<string>)
    requires WellCited(a) && WellCited(b)
    ensures WellCited(a + b)
  {
    if a == [] {
      assert a + b == b;
    } else {
      assert (a + b)[1..] == a[1..] + b;
      WellCitedAppend(a[1..], b);
    }
  }

  /** One piece of the comprehension: kept, stripped, when it holds "::". */
  function Cited(piece: string): (kept: seq<string>)
    ensures |kept| <= 1 && WellCited(kept)
  {
    if Contains(piece, "::") then
      StripKeeps(piece, "::");
      assert [Strip(piece)][1..] == [];
      [Strip(piece)]
    else []
  }

  /** The comprehension `[c.strip() for c in pieces if '::' in c]`. */
  function KeepCitations(pieces: seq<string>): (citations: seq<string>)
    ensures |citations| <= |pieces| && WellCited(citations)
  {
    if pieces == [] then []
    else
      var head := Cited(pieces[0]);
      var rest := KeepCitations(pieces[1..]);
      WellCitedAppend(head, rest);
      head + rest
  }

  /** The kept citations of two runs of pieces, in order: the comprehension keeps order. */
  lemma {:induction false} KeepCitationsAppend(a: seq<string>, b: seq<string>)
    ensures KeepCitations(a + b) == KeepCitations(a) + KeepCitations(b)
  {
    if a == [] {
      assert a + b == b;
    } else {
      assert (a + b)[0] == a[0];
      assert (a + b)[1..] == a[1..] + b;
      KeepCitationsAppend(a[1..], b);
      assert Cited(a[0]) + (KeepCitations(a[1..]) + KeepCitations(b))
          == (Cited(a[0]) + KeepCitations(a[1..])) + KeepCitations(b);
    }
  }

  /** A single piece: dropped exactly when it lacks "::", otherwise kept stripped. */
  lemma KeepCitationsOne(p: string)
    ensures KeepCitations([p]) == if Contains(p, "::") then [Strip(p)] else []
  {
    assert [p][1..] == [];
  }

  /** Citation parsing in `Synthesizer.forward`: split on commas, keep the pieces
      holding "::", stripped; a non-text field gives no citations. */
  function ParseCitations(field: LmField): (citations: seq<string>)
    ensures field.OtherField? ==> citations == []
    ensures field.TextField? ==> |citations| <= |Split(field.text, ',')|
    ensures WellCited(citations)
  {
    match field
    case TextField(t) => KeepCitations(Split(t, ','))
    case OtherField => []
  }

  lemma {:induction false} NoColonNoCitation(p: string)
    requires ':' !in p
    ensures !Contains(p, "::")
    decreases |p|
  {
    if p != [] {
      assert p[0] in p;
      assert forall c :: c in p[1..] ==> c in p;
      NoColonNoCitation(p[1..]);
    }
  }

  lemma SplitExample()
    ensures Split("a::c1, x, b::c2", ',')
         == ["a::c1", " x", " b::c2"]
  {
    var pieces := ["a::c1", " x", " b::c2"];
    assert Join(pieces, [',']) == "a::c1, x, b::c2";
    SplitJoin(pieces, ',');
  }

  lemma CitedKept(p: string, i: nat, w: string, t: string)
    requires i <= |p| && "::" <= p[i..]
    requires AllSpace(w) && IsTrimmed(t) && p == w + t
    ensures Cited(p) == [t]
  {
    ContainsAt(p, "::", i);
    StripPadded(w, t, "");
    assert w + t + "" == p;
  }

  lemma KeepThree(a: string, b: string, c: string)
    ensures KeepCitations([a, b, c]) == Cited(a) + Cited(b) + Cited(c)
  {
    assert [a, b, c][1..] == [b, c];
    assert [b, c][1..] == [c];
    assert [c][1..] == [];
    assert KeepCitations([c]) == Cited(c);
    assert KeepCitations([b, c]) == Cited(b) + Cited(c);
  }

  lemma CitedFirst(p: string)
    requires p == "a::c1"
    ensures Cited(p) == [p]
  {
    CitedKept(p, 1, "", p);
  }

  lemma CitedSecond(p: string)
    requires p == " x"
    ensures Cited(p) == []
  {
    NoColonNoCitation(p);
  }

  lemma CitedThird(p: string)
    requires p == " b::c2"
    ensures Cited(p) == ["b::c2"]
  {
    CitedKept(p, 2, " ", "b::c2");
  }

  /** The worked example: the piece without "::" is dropped, the others are trimmed. */
  lemma ParseCitationsExample()
    ensures ParseCitations(TextField("a::c1, x, b::c2"))
         == ["a::c1", "b::c2"]
  {
    var p0, p1, p2 := "a::c1", " x", " b::c2";
    SplitExample();
    ParseThree("a::c1, x, b::c2", p0, p1, p2);
    CitedFirst(p0);
    CitedSecond(p1);
    CitedThird(p2);
  }

  lemma {:induction false} ParseThree(text: string, a: string, b: string, c: string)
    requires Split(text, ',') == [a, b, c]
    ensures ParseCitations(TextField(text)) == Cited(a) + Cited(b) + Cited(c)
  {
    KeepThree(a, b, c);
  }

  /** What Python's `float()` makes of the predictor's confidence text. Parsing
      itself is not modelled: the oracle hands back its outcome. */
  datatype FloatParse = Finite(value: real) | Infinity | NegInfinity | NaN | ParseFailure

  /** Python's `x < b` against a finite bound; every comparison with NaN is false. */
  predicate Below(x: FloatParse, b: real) {
    match x
    case Finite(v) => v < b
    case NegInfinity => true
    case _ => false
  }

  /** Python's `x > b` against a finite bound. */
  predicate Above(x: FloatParse, b: real) {
    match x
    case Finite(v) => v > b
    case Infinity => true
    case _ => false
  }

  /** `min(1.0, x)`: the builtin keeps its first argument unless a later one is smaller. */
  function MinOne(x: FloatParse): (r: FloatParse)
    ensures r.Finite? || r.NegInfinity?
  {
    if Below(x, 1.0) then x else Finite(1.0)
  }

  /** `max(0.0, x)`: the builtin keeps its first argument unless a later one is larger. */
  function MaxZero(x: FloatParse): (r: FloatParse)
    requires x.Finite? || x.NegInfinity?
    ensures r.Finite?
  {
    if Above(x, 0.0) then x else Finite(0.0)
  }

  /** The confidence parse in `Synthesizer.forward`: clamped into [0, 1], 0.5 when parsing fails. */
  function ClampConfidence(p: FloatParse): (c: real)
    ensures 0.0 <= c <= 1.0
    ensures p.ParseFailure? ==> c == 0.5
    ensures p.Finite? && 0.0 <= p.value <= 1.0 ==> c == p.value
    ensures (p.Finite? && p.value > 1.0) || p.Infinity? || p.NaN? ==> c == 1.0
    ensures (p.Finite? && p.value < 0.0) || p.NegInfinity? ==> c == 0.0
  {
    if p.ParseFailure? then 0.5 else MaxZero(MinOne(p)).value
  }

  /** `NL2SQL.forward`: the predictor's query text, stripped. */
  function GeneratedSql(raw: string): (sql: string)
    ensures IsTrimmed(sql) && |sql| <= |raw|
    ensures IsTrimmed(raw) ==> sql == raw
  {
    Strip(raw)
  }

  /** The four output fields of the synthesis predictor, as it hands them back. */
  datatype SynthRaw = SynthRaw(finalAnswer: string, citations: LmField, confidence: FloatParse, explanation: string)

  /** The dictionary `Synthesizer.forward` returns. */
  datatype Synthesis = Synthesis(finalAnswer: string, citations: seq<string>, confidence: real, explanation: string)

  /** `Synthesizer.forward` after the predictor call: answer and explanation pass
      through, citations are parsed and confidence is clamped. */
  function Synthesize(raw: SynthRaw): (out: Synthesis)
    ensures out.finalAnswer == raw.finalAnswer && out.explanation == raw.explanation
    ensures 0.0 <= out.confidence <= 1.0
    ensures WellCited(out.citations)
    ensures raw.citations.OtherField? ==> out.citations == []
    ensures out.citations == ParseCitations(raw.citations) && out.confidence == ClampConfidence(raw.confidence)
  {
    Synthesis(raw.finalAnswer, ParseCitations(raw.citations), ClampConfidence(raw.confidence), raw.explanation)
  }
}
