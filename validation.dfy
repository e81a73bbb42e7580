/** The checks of `validate_and_repair_node` in agent/graph_hybrid.py: the
    issues found in a synthesized answer, in the order they are reported, and
    the rule that decides whether the run is done. */
module Validation {
  import opened Text
  import opened Maybe
  import opened SqlTool
  import opened Signatures

  datatype Issue = NotANumber | NotSerializable | MissingCitations | SqlErrorIssue(message: string) | NoRows {
    /** The text the node records in its trace entry. */
    function Message(): string {
      match this
      case NotANumber => "Answer should be a number"
      case NotSerializable => "Answer is not JSON serializable"
      case MissingCitations => "Missing citations"
      case SqlErrorIssue(e) => "SQL error: " + e
      case NoRows => "SQL returned no rows"
    }

    /** The position of the check that reports the issue. */
    function Rank(): nat {
      match this
      case NotANumber => 0
      case NotSerializable => 1
      case MissingCitations => 2
      case SqlErrorIssue(_) => 3
      case NoRows => 3
    }
  }

  /** `str(final_answer).replace('$', '').replace(',', '')`: the text handed to `float()`. */
  function NumberText(answer: string): (t: string)
    ensures |t| <= |answer|
  {
    RemoveAll(RemoveAll(answer, "$"), ",")
  }

  /** The text handed to `float()` holds no dollar sign and no comma, and every
      other character of the answer. */
  lemma NumberTextClean(answer: string)
    ensures var t := NumberText(answer);
            '$' !in t && ',' !in t
            && forall x :: x in t <==> x in answer && x != '$' && x != ','
  {
    RemoveCharKeeps(answer, '$');
    RemoveCharKeeps(RemoveAll(answer, "$"), ',');
  }

  /** The issue list. `isNumber` says whether `float()` accepts the
      `NumberText` of the answer and `serializable` whether `json.dumps`
      accepts the answer: both are oracles. */
  function Issues(formatHint: string, isNumber: bool, serializable: bool, mode: Mode,
                  citations: seq<string>, result: SqlResult): (issues: seq<Issue>)
    ensures |issues| <= 4
  {
    FormatIssues(formatHint, isNumber) + SerializationIssues(serializable)
    + CitationIssues(mode, citations) + SqlIssues(mode, result)
  }

  /** Ranks strictly increase along `issues`. */
  predicate Ranked(issues: seq<Issue>) {
    forall i, j :: 0 <= i < j < |issues| ==> issues[i].Rank() < issues[j].Rank()
  }

  /** Every issue of `issues` comes from a check before check `r`. */
  predicate RanksBelow(issues: seq<Issue>, r: nat) {
    forall k :: 0 <= k < |issues| ==> issues[k].Rank() < r
  }

  /** Appending what check `r` reports, at most one issue, to the issues of
      the earlier checks keeps the ranks increasing. */
  lemma {:induction false} RankedAppendCheck(early: seq<Issue>, found: seq<Issue>, r: nat)
    requires Ranked(early) && RanksBelow(early, r)
    requires |found| <= 1 && forall k :: 0 <= k < |found| ==> found[k].Rank() == r
    ensures Ranked(early + found) && RanksBelow(early + found, r + 1)
  {
    var all := early + found;
    forall i, j | 0 <= i < j < |all| ensures all[i].Rank() < all[j].Rank() {
      if j < |early| {
        assert all[i] == early[i] && all[j] == early[j];
      } else {
        assert all[i] == early[i] && all[j] == found[0];
      }
    }
    forall k | 0 <= k < |all| ensures all[k].Rank() < r + 1 {
      if k < |early| { assert all[k] == early[k]; } else { assert all[k] == found[k - |early|]; }
    }
  }

  /** The issues come in check order, each check reporting at most one, and a
      reported SQL error carries the error text of the result. */
  lemma IssuesOrdered(formatHint: string, isNumber: bool, serializable: bool, mode: Mode,
                      citations: seq<string>, result: SqlResult)
    ensures var issues := Issues(formatHint, isNumber, serializable, mode, citations, result);
            Ranked(issues)
            && (forall k :: 0 <= k < |issues| && issues[k].SqlErrorIssue? ==>
                  HasError(result) && issues[k].message == ErrorText(result))
  {
    var f, z := FormatIssues(formatHint, isNumber), SerializationIssues(serializable);
    var c, q := CitationIssues(mode, citations), SqlIssues(mode, result);
    RankedAppendCheck(f, z, 1);
    RankedAppendCheck(f + z, c, 2);
    RankedAppendCheck(f + z + c, q, 3);
    var issues := f + z + c + q;
    forall k | 0 <= k < |issues| && issues[k].SqlErrorIssue?
      ensures HasError(result) && issues[k].message == ErrorText(result)
    {
      assert k >= |f + z + c|;
      assert issues[k] == q[k - |f + z + c|];
    }
  }

  /** Each answer check reports its issue exactly when its condition holds. */
  lemma AnswerIssuesReported(formatHint: string, isNumber: bool, serializable: bool, mode: Mode,
                             citations: seq<string>, result: SqlResult)
    ensures var issues := Issues(formatHint, isNumber, serializable, mode, citations, result);
            (NotANumber in issues <==> formatHint == "number" && !isNumber)
            && (NotSerializable in issues <==> !serializable)
            && (MissingCitations in issues <==> UsesDocuments(mode) && citations == [])
  {
    var early := FormatIssues(formatHint, isNumber) + SerializationIssues(serializable)
                 + CitationIssues(mode, citations);
    assert forall k :: 0 <= k < |SqlIssues(mode, result)| ==> SqlIssues(mode, result)[k].Rank() == 3;
  }

  /** The SQL check reports an error exactly in a database mode whose query
      failed, and "no rows" exactly in a database mode whose query neither
      failed nor returned rows: never both. */
  lemma SqlIssuesReported(formatHint: string, isNumber: bool, serializable: bool, mode: Mode,
                          citations: seq<string>, result: SqlResult)
    ensures var issues := Issues(formatHint, isNumber, serializable, mode, citations, result);
            ((exists k :: 0 <= k < |issues| && issues[k].SqlErrorIssue?) <==> UsesDatabase(mode) && HasError(result))
            && (NoRows in issues <==> UsesDatabase(mode) && !HasError(result) && !HasRows(result))
  {
    var f, z := FormatIssues(formatHint, isNumber), SerializationIssues(serializable);
    var early, q := f + z + CitationIssues(mode, citations), SqlIssues(mode, result);
    RankedAppendCheck(f, z, 1);
    RankedAppendCheck(f + z, CitationIssues(mode, citations), 2);
    var issues := early + q;
    forall k | 0 <= k < |issues| && (issues[k].SqlErrorIssue? || issues[k] == NoRows)
      ensures k == |early| && issues[k] == q[0]
    {
      assert k >= |early|;
    }
    if q != [] {
      assert issues[|early|] == q[0];
    }
  }

  /** No issue at all exactly when every check passes. */
  lemma NoIssuesIff(formatHint: string, isNumber: bool, serializable: bool, mode: Mode,
                    citations: seq<string>, result: SqlResult)
    ensures Issues(formatHint, isNumber, serializable, mode, citations, result) == []
            <==> (formatHint == "number" ==> isNumber) && serializable
                 && (UsesDocuments(mode) ==> citations != [])
                 && (UsesDatabase(mode) ==> !HasError(result) && HasRows(result))
  {
  }

  function FormatIssues(formatHint: string, isNumber: bool): seq<Issue> {
    if formatHint == "number" && !isNumber then [NotANumber] else []
  }

  function SerializationIssues(serializable: bool): seq<Issue> {
    if !serializable then [NotSerializable] else []
  }

  function CitationIssues(mode: Mode, citations: seq<string>): seq<Issue> {
    if UsesDocuments(mode) && citations == [] then [MissingCitations] else []
  }

  /** The SQL check: an error, else no rows (`elif`), in the database modes only. */
  function SqlIssues(mode: Mode, result: SqlResult): seq<Issue> {
    if UsesDatabase(mode) then
      if HasError(result) then [SqlErrorIssue(result.error.value)]
      else if !HasRows(result) then [NoRows]
      else []
    else []
  }

  /** The issue texts, in order, as they appear in the trace. */
  function Messages(issues: seq<Issue>): (texts: seq<string>)
    ensures |texts| == |issues|
  {
    if issues == [] then [] else Messages(issues[..|issues| - 1]) + [issues[|issues| - 1].Message()]
  }

  /** Message `k` is the text of issue `k`. */
  lemma {:induction false} MessagesText(issues: seq<Issue>)
    ensures forall k :: 0 <= k < |issues| ==> Messages(issues)[k] == issues[k].Message()
  {
    if issues != [] {
      MessagesText(issues[..|issues| - 1]);
    }
  }

  /** `done = (len(issues) == 0) or (attempts >= 2)`. */
  function Done(issues: seq<Issue>, attempts: nat): (done: bool)
    ensures done <==> issues == [] || attempts >= 2
  {
    |issues| == 0 || attempts >= 2
  }

  /** A clean answer in `rag` mode: cited, serializable, and a number where one is asked for. */
  lemma RagCleanAnswer(formatHint: string, isNumber: bool, citations: seq<string>, result: SqlResult)
    requires formatHint == "number" ==> isNumber
    requires citations != []
    ensures Issues(formatHint, isNumber, true, Rag, citations, result) == []
  {
  }

  /** The body of the node: the issues are appended one check at a time. */
  method CollectIssues(formatHint: string, isNumber: bool, serializable: bool, mode: Mode,
                       citations: seq<string>, result: SqlResult) returns (issues: seq<Issue>)
    ensures issues == Issues(formatHint, isNumber, serializable, mode, citations, result)
  {
    issues := [];
    if formatHint == "number" && !isNumber {
      issues := issues + [NotANumber];
    }
    assert issues == FormatIssues(formatHint, isNumber);
    if !serializable {
      issues := issues + [NotSerializable];
    }
    assert issues == FormatIssues(formatHint, isNumber) + SerializationIssues(serializable);
    ghost var before := issues;
    if (mode == Rag || mode == Hybrid) && citations == [] {
      issues := issues + [MissingCitations];
    }
    assert issues == before + CitationIssues(mode, citations);
    before := issues;
    if mode == Sql || mode == Hybrid {
      if result.Executed? && result.error.Some? && result.error.value != "" {
        issues := issues + [SqlErrorIssue(result.error.value)];
      } else if !(result.Executed? && result.rows != []) {
        issues := issues + [NoRows];
      }
    }
    assert issues == before + SqlIssues(mode, result);
  }
}
