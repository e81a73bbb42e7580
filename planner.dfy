/** The constraint scan of `planner_node` in agent/graph_hybrid.py: for every
    retrieved chunk, the month names of "Month YYYY" mentions and whether the
    chunk holds a KPI formula, joined into one hint for the SQL generator. */
module Planner {
  import opened Text
  import opened Retrieval
  import opened Maybe

  // ------------------------------------------------------------ date pattern
  // re.findall(r'\b(January|...|December)\s+\d{4}\b', content, re.IGNORECASE)

  /** The alternatives of the group, in pattern order, written in lower case:
      the pattern is matched ignoring case. */
  const Months: seq<string> := ["january", "february", "march", "april", "may", "june", "july",
                                "august", "september", "october", "november", "december"]

  /** `\w` on ASCII text: letters, digits and the underscore. */
  predicate IsWordChar(c: char) {
    ('a' <= c <= 'z') || ('A' <= c <= 'Z') || ('0' <= c <= '9') || c == '_'
  }

  /** The lower-case `name` occurs at `i`, ignoring case. */
  predicate NameAt(s: string, i: nat, name: string) {
    i + |name| <= |s| && Lower(s[i..i + |name|]) == name
  }

  /** The alternation over `names` (lower case, in pattern order): the
      length of the first of them, from index `m` on, that occurs at `i`, or
      0 when none does. The matcher below is stated for any list of
      alternatives; the planner passes `Months`, where no name is empty and
      none is a prefix of another, so the first alternative that matches is
      the only one. */
  function MonthAt(names: seq<string>, s: string, i: nat, m: nat): (n: nat)
    requires m <= |names|
    ensures n > 0 ==> i + n <= |s|
    decreases |names| - m
  {
    if m == |names| then 0
    else if NameAt(s, i, names[m]) then |names[m]|
    else MonthAt(names, s, i, m + 1)
  }

  /** `d` is one of the alternatives, in any letter case. */
  predicate OneOf(names: seq<string>, d: string) {
    exists k :: 0 <= k < |names| && Lower(d) == names[k]
  }

  /** What `MonthAt` found is one of the alternatives. */
  lemma {:induction false} MonthAtName(names: seq<string>, s: string, i: nat, m: nat)
    requires m <= |names|
    ensures MonthAt(names, s, i, m) > 0 ==> OneOf(names, s[i..i + MonthAt(names, s, i, m)])
    decreases |names| - m
  {
    if m < |names| {
      if NameAt(s, i, names[m]) {
        assert 0 <= m < |names| && Lower(s[i..i + |names[m]|]) == names[m];
      } else {
        MonthAtName(names, s, i, m + 1);
      }
    }
  }

  /** `\d{4}` at `j`. */
  predicate FourDigitsAt(s: string, j: nat) {
    j + 4 <= |s| && IsDigit(s[j]) && IsDigit(s[j + 1]) && IsDigit(s[j + 2]) && IsDigit(s[j + 3])
  }

  /** `\s+\d{4}\b` from index `n`: where a match of that tail ends, if there
      is one. `\s+` is greedy, so the digits start where the whitespace run
      ends. */
  function YearEnd(s: string, n: nat): (e: Option<nat>)
    requires n <= |s|
    ensures e.Some? ==> n < e.value - 4 && e.value <= |s|
  {
    var j := SpaceEnd(s, n);
    if j == n || !FourDigitsAt(s, j) || (j + 4 < |s| && IsWordChar(s[j + 4])) then None
    else Some(j + 4)
  }

  /** Where a match of the whole pattern starting at `i` ends, if there is one. */
  function DateAt(names: seq<string>, s: string, i: nat): (e: Option<nat>)
    requires i <= |s|
    ensures e.Some? ==> i < e.value <= |s|
  {
    var n := MonthAt(names, s, i, 0);
    if n == 0 || (i > 0 && IsWordChar(s[i - 1])) then None
    else YearEnd(s, i + n)
  }

  /** A match is a word boundary, one of the alternatives, at least one
      whitespace character, four digits and a word boundary. */
  lemma DateAtMatch(names: seq<string>, s: string, i: nat)
    requires i <= |s|
    ensures DateAt(names, s, i).Some? ==>
              var e := DateAt(names, s, i).value;
              var n := MonthAt(names, s, i, 0);
              n > 0 && OneOf(names, s[i..i + n]) && (i == 0 || !IsWordChar(s[i - 1]))
              && i + n < e - 4 && AllSpace(s[i + n..e - 4]) && FourDigitsAt(s, e - 4)
              && (e == |s| || !IsWordChar(s[e]))
  {
    MonthAtName(names, s, i, 0);
  }

  /** `findall` from position `i`: non-overlapping matches, left to right; the
      pattern has one group, so each match contributes the month name only. */
  function FindDates(names: seq<string>, s: string, i: nat): (dates: seq<string>)
    requires i <= |s|
    ensures |dates| <= |s| - i
    decreases |s| - i
  {
    if i == |s| then []
    else
      match DateAt(names, s, i)
      case Some(e) =>
        var n := MonthAt(names, s, i, 0);
        [s[i..i + n]] + FindDates(names, s, e)
      case None => FindDates(names, s, i + 1)
  }

  /** A match at `i` reports the month text there, then the scan resumes
      where the match ended. */
  lemma FindDatesAtMatch(names: seq<string>, s: string, i: nat)
    requires i < |s| && DateAt(names, s, i).Some?
    ensures 0 < MonthAt(names, s, i, 0) && i + MonthAt(names, s, i, 0) <= |s|
    ensures FindDates(names, s, i)
            == [s[i..i + MonthAt(names, s, i, 0)]] + FindDates(names, s, DateAt(names, s, i).value)
  {
  }

  /** Every reported date is one of the alternatives, in whatever case the
      text has it. */
  lemma {:induction false} FindDatesMonths(names: seq<string>, s: string, i: nat)
    requires i <= |s|
    ensures forall k :: 0 <= k < |FindDates(names, s, i)| ==> OneOf(names, FindDates(names, s, i)[k])
    decreases |s| - i
  {
    if i < |s| {
      match DateAt(names, s, i)
      case Some(e) =>
        FindDatesAtMatch(names, s, i);
        DateAtMatch(names, s, i);
        FindDatesMonths(names, s, e);
      case None =>
        FindDatesMonths(names, s, i + 1);
    }
  }

  /** What a match reports is the month as written in the text, not the year:
      the group stops before the whitespace and the four digits. */
  lemma MatchReportsMonthOnly(names: seq<string>, s: string, i: nat)
    requires i < |s| && DateAt(names, s, i).Some?
    ensures var e := DateAt(names, s, i).value;
            var d := FindDates(names, s, i)[0];
            d == s[i..i + |d|] && OneOf(names, d) && |d| + 5 <= e - i
            && FourDigitsAt(s, e - 4) && IsSpace(s[i + |d|])
  {
    var e := DateAt(names, s, i).value;
    FindDatesAtMatch(names, s, i);
    var d := s[i..i + MonthAt(names, s, i, 0)];
    DateAtMatch(names, s, i);
    assert FindDates(names, s, i)[0] == d;
    AllSpaceAt(s[i + |d|..e - 4], 0);
  }

  /** A match ends with a digit of the text. */
  lemma DateHasDigit(names: seq<string>, s: string, i: nat)
    requires i <= |s|
    ensures DateAt(names, s, i).Some? ==>
              DateAt(names, s, i).value - 4 < |s| && IsDigit(s[DateAt(names, s, i).value - 4])
  {
    DateAtMatch(names, s, i);
  }

  /** A text with no digits holds no date. */
  lemma {:induction false} NoDigitsNoDates(names: seq<string>, s: string, i: nat)
    requires i <= |s|
    requires forall k :: 0 <= k < |s| ==> !IsDigit(s[k])
    ensures FindDates(names, s, i) == []
    decreases |s| - i
  {
    if i < |s| {
      DateHasDigit(names, s, i);
      NoDigitsNoDates(names, s, i + 1);
    }
  }

  // ------------------------------------------------------ what the scan finds

  /** No alternative is empty and none is a prefix of another. Then at most
      one alternative occurs at any position, so taking the first one that
      occurs is also what the backtracking alternation of the regular
      expression does. */
  predicate ProperAlternatives(names: seq<string>) {
    && (forall p :: 0 <= p < |names| ==> names[p] != [])
    && (forall p, q :: 0 <= p < |names| && 0 <= q < |names| && names[p] <= names[q] ==> p == q)
  }

  /** Two names occurring at the same position agree on their common
      length: one is a prefix of the other. */
  lemma NameAtComparable(s: string, i: nat, a: string, b: string)
    requires NameAt(s, i, a) && NameAt(s, i, b)
    ensures a <= b || b <= a
  {
    if |a| <= |b| {
      LowerPrefix(s[i..i + |b|], |a|);
      assert s[i..i + |b|][..|a|] == s[i..i + |a|];
    } else {
      LowerPrefix(s[i..i + |a|], |b|);
      assert s[i..i + |a|][..|b|] == s[i..i + |b|];
    }
  }

  /** Of proper alternatives, at most one occurs at `i`. */
  lemma NameAtUnique(names: seq<string>, s: string, i: nat, p: nat, q: nat)
    requires ProperAlternatives(names) && p < |names| && q < |names|
    requires NameAt(s, i, names[p]) && NameAt(s, i, names[q])
    ensures p == q
  {
    NameAtComparable(s, i, names[p], names[q]);
  }

  /** Where a proper alternative occurs, the alternation matches it. */
  lemma {:induction false} MonthAtFinds(names: seq<string>, s: string, i: nat, m0: nat, m: nat)
    requires ProperAlternatives(names) && m0 <= m < |names|
    requires NameAt(s, i, names[m])
    ensures MonthAt(names, s, i, m0) == |names[m]|
    decreases m - m0
  {
    if NameAt(s, i, names[m0]) {
      NameAtUnique(names, s, i, m0, m);
    } else {
      MonthAtFinds(names, s, i, m0 + 1, m);
    }
  }

  /** The converse of `DateAtMatch`: a word boundary, an alternative in any
      case, a non-empty whitespace run, four digits and a word boundary make
      a match that ends after the digits. */
  lemma DateAtFinds(names: seq<string>, s: string, i: nat, m: nat, j: nat)
    requires ProperAlternatives(names) && m < |names|
    requires NameAt(s, i, names[m]) && (i == 0 || !IsWordChar(s[i - 1]))
    requires FourDigitsAt(s, j) && (j + 4 == |s| || !IsWordChar(s[j + 4]))
    requires i + |names[m]| < j && AllSpace(s[i + |names[m]|..j])
    ensures DateAt(names, s, i) == Some(j + 4)
  {
    MonthAtFinds(names, s, i, 0, m);
    var n := i + |names[m]|;
    forall k | n <= k < j ensures IsSpace(s[k]) {
      AllSpaceAt(s[n..j], k - n);
    }
    SpaceEndAt(s, n, j);
  }

  /** A match anywhere from `i` on makes `findall` report something. */
  lemma {:induction false} FindDatesFinds(names: seq<string>, s: string, i: nat, p: nat)
    requires i <= p < |s| && DateAt(names, s, p).Some?
    ensures FindDates(names, s, i) != []
    decreases p - i
  {
    if DateAt(names, s, i).None? {
      FindDatesFinds(names, s, i + 1, p);
    }
  }

  /** A chunk whose content holds a match gets a dates fragment, first. */
  lemma MentionGivesDatesFragment(names: seq<string>, chunk: DocChunk, p: nat)
    requires p < |chunk.content| && DateAt(names, chunk.content, p).Some?
    ensures ChunkFragments(names, chunk) != []
    ensures ChunkFragments(names, chunk)[0] == DatesLead + Join(FindDates(names, chunk.content, 0), ", ")
  {
    FindDatesFinds(names, chunk.content, 0, p);
    ChunkFragmentsShape(names, chunk);
  }

  /** Which month a name is, read from its first three letters. */
  function HeadIndex(name: string): nat
    requires |name| >= 3
  {
    var a, b, c := name[0], name[1], name[2];
    if a == 'j' && b == 'a' then 0
    else if a == 'f' then 1
    else if a == 'm' && c == 'r' then 2
    else if a == 'a' && b == 'p' then 3
    else if a == 'm' then 4
    else if a == 'j' && c == 'n' then 5
    else if a == 'j' then 6
    else if a == 'a' then 7
    else if a == 's' then 8
    else if a == 'o' then 9
    else if a == 'n' then 10
    else 11
  }

  /** The twelve month names are proper alternatives: their first three
      letters already tell them apart. */
  lemma MonthsProper()
    ensures ProperAlternatives(Months)
  {
    assert forall p :: 0 <= p < |Months| ==> |Months[p]| >= 3 && HeadIndex(Months[p]) == p;
    forall p, q | 0 <= p < |Months| && 0 <= q < |Months| && Months[p] <= Months[q]
      ensures p == q
    {
      assert Months[q][0] == Months[p][0] && Months[q][1] == Months[p][1] && Months[q][2] == Months[p][2];
    }
  }

  /** "March 2024" is reported as "March". */
  lemma MarchExample()
    ensures FindDates(Months, "March 2024", 0) == ["March"]
  {
    var s := "March 2024";
    MonthsProper();
    LowerAt(s[0..5]);
    assert Months[2] == "march" && NameAt(s, 0, Months[2]);
    assert AllSpace(s[5..6]);
    DateAtFinds(Months, s, 0, 2, 6);
    MonthAtFinds(Months, s, 0, 0, 2);
    assert FindDates(Months, s, 10) == [];
    assert s[0..5] == "March";
    assert FindDates(Months, s, 0) == [s[0..5]] + FindDates(Months, s, 10);
  }

  // --------------------------------------------------------------- fragments

  const DatesLead := "Relevant dates: "
  const FormulaLead := "KPI formula found in "
  const NoConstraints := "No specific constraints"

  /** `"Formula:" in content or "SELECT" in content`. */
  predicate HasFormula(content: string) {
    Contains(content, "Formula:") || Contains(content, "SELECT")
  }

  /** What one chunk adds to `constraints_parts`: the dates fragment when the
      scan found dates, then the formula fragment when the chunk holds one. */
  function ChunkFragments(names: seq<string>, chunk: DocChunk): (parts: seq<string>)
    ensures |parts| <= 2
  {
    var dates := FindDates(names, chunk.content, 0);
    (if dates != [] then [DatesLead + Join(dates, ", ")] else [])
    + (if HasFormula(chunk.content) then [FormulaLead + chunk.source] else [])
  }

  /** A chunk contributes its dates fragment exactly when the scan found
      dates, its formula fragment exactly when it holds a formula, in that
      order; every fragment starts with 'R' or 'K'. */
  lemma ChunkFragmentsShape(names: seq<string>, chunk: DocChunk)
    ensures var parts := ChunkFragments(names, chunk);
            var dates := FindDates(names, chunk.content, 0);
            |parts| == (if dates != [] then 1 else 0) + (if HasFormula(chunk.content) then 1 else 0)
            && (dates != [] ==> parts[0] == DatesLead + Join(dates, ", "))
            && (HasFormula(chunk.content) ==> parts[|parts| - 1] == FormulaLead + chunk.source)
            && forall k :: 0 <= k < |parts| ==> parts[k] != [] && (parts[k][0] == 'R' || parts[k][0] == 'K')
  {
  }

  /** The accumulation of the loop in `planner_node`: what `fragments` gives
      for each chunk, concatenated in chunk order. */
  function Collect(fragments: DocChunk -> seq<string>, chunks: seq<DocChunk>): seq<string> {
    if chunks == [] then []
    else Collect(fragments, chunks[..|chunks| - 1]) + fragments(chunks[|chunks| - 1])
  }

  /** The fragments of consecutive chunk lists follow each other: the
      accumulation keeps chunk order. */
  lemma {:induction false} CollectAppend(fragments: DocChunk -> seq<string>, a: seq<DocChunk>, b: seq<DocChunk>)
    ensures Collect(fragments, a + b) == Collect(fragments, a) + Collect(fragments, b)
    decreases |b|
  {
    if b == [] {
      assert a + b == a;
    } else {
      var b' := b[..|b| - 1];
      assert (a + b)[..|a + b| - 1] == a + b';
      assert (a + b)[|a + b| - 1] == b[|b| - 1];
      CollectAppend(fragments, a, b');
    }
  }

  /** The scan of one chunk, as a value the accumulation can apply. */
  function FragmentsOf(names: seq<string>): DocChunk -> seq<string> {
    chunk => ChunkFragments(names, chunk)
  }

  /** `constraints_parts` after the loop has seen `chunks`, in chunk order. */
  function ConstraintParts(names: seq<string>, chunks: seq<DocChunk>): seq<string> {
    Collect(FragmentsOf(names), chunks)
  }

  /** Every fragment, from whichever chunk, starts with 'R' or 'K'. */
  lemma {:induction false} ConstraintPartsLead(names: seq<string>, chunks: seq<DocChunk>)
    ensures forall k :: 0 <= k < |ConstraintParts(names, chunks)| ==>
              ConstraintParts(names, chunks)[k] != [] && ConstraintParts(names, chunks)[k][0] in "RK"
    decreases |chunks|
  {
    if chunks != [] {
      var front := ConstraintParts(names, chunks[..|chunks| - 1]);
      var last := ChunkFragments(names, chunks[|chunks| - 1]);
      ConstraintPartsLead(names, chunks[..|chunks| - 1]);
      ChunkFragmentsShape(names, chunks[|chunks| - 1]);
      forall k | 0 <= k < |front + last|
        ensures (front + last)[k] != [] && (front + last)[k][0] in "RK"
      {
        if k >= |front| {
          assert (front + last)[k] == last[k - |front|];
        }
      }
    }
  }

  /** `"; ".join(constraints_parts) if constraints_parts else "No specific constraints"`. */
  function Constraints(chunks: seq<DocChunk>): string {
    var parts := ConstraintParts(Months, chunks);
    if parts == [] then NoConstraints else Join(parts, "; ")
  }

  lemma {:induction false} JoinHead(parts: seq<string>, sep: string)
    requires parts != [] && parts[0] != []
    ensures Join(parts, sep) != [] && Join(parts, sep)[0] == parts[0][0]
  {
  }

  /** The hint is never empty, and it is the fallback text exactly when no
      chunk contributed a fragment: every fragment starts with 'R' or 'K'. */
  lemma ConstraintsFallback(chunks: seq<DocChunk>)
    ensures Constraints(chunks) != []
    ensures Constraints(chunks) == NoConstraints <==> ConstraintParts(Months, chunks) == []
  {
    var parts := ConstraintParts(Months, chunks);
    if parts != [] {
      ConstraintPartsLead(Months, chunks);
      JoinHead(parts, "; ");
      assert NoConstraints[0] == 'N';
    }
  }

  /** Only content and source are read: ids and scores do not matter. */
  lemma {:induction false} ConstraintPartsReadContentAndSource(names: seq<string>, a: seq<DocChunk>, b: seq<DocChunk>)
    requires |a| == |b|
    requires forall k :: 0 <= k < |a| ==> a[k].content == b[k].content && a[k].source == b[k].source
    ensures ConstraintParts(names, a) == ConstraintParts(names, b)
    decreases |a|
  {
    if a != [] {
      ConstraintPartsReadContentAndSource(names, a[..|a| - 1], b[..|b| - 1]);
    }
  }

  /** The hint is a pure function of the chunks' contents and sources. */
  lemma ConstraintsReadContentAndSource(a: seq<DocChunk>, b: seq<DocChunk>)
    requires |a| == |b|
    requires forall k :: 0 <= k < |a| ==> a[k].content == b[k].content && a[k].source == b[k].source
    ensures Constraints(a) == Constraints(b)
  {
    ConstraintPartsReadContentAndSource(Months, a, b);
  }

  /** A chunk with no digits and no formula contributes nothing. */
  lemma PlainChunkSilent(names: seq<string>, chunk: DocChunk)
    requires forall k :: 0 <= k < |chunk.content| ==> !IsDigit(chunk.content[k])
    requires !HasFormula(chunk.content)
    ensures ChunkFragments(names, chunk) == []
  {
    NoDigitsNoDates(names, chunk.content, 0);
  }

  /** The loop of `planner_node`: appends each chunk's fragments, then joins. */
  method ScanConstraints(chunks: seq<DocChunk>) returns (constraints: string)
    ensures constraints == Constraints(chunks)
  {
    var parts: seq<string> := [];
    for i := 0 to |chunks|
      invariant parts == ConstraintParts(Months, chunks[..i])
    {
      ghost var before := parts;
      var content := chunks[i].content;
      var dates := FindDates(Months, content, 0);
      if dates != [] {
        parts := parts + [DatesLead + Join(dates, ", ")];
      }
      if Contains(content, "Formula:") || Contains(content, "SELECT") {
        parts := parts + [FormulaLead + chunks[i].source];
      }
      assert parts == before + ChunkFragments(Months, chunks[i]);
      assert chunks[..i + 1][..i] == chunks[..i];
    }
    assert chunks[..|chunks|] == chunks;
    constraints := if parts != [] then Join(parts, "; ") else NoConstraints;
  }
}
