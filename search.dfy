/**
 * searchPatients: the rows of the patient table are shown or hidden by a case-insensitive
 * substring test, and a "no results" row is added or removed afterwards.
 *
 * The table is the sequence of its `tr` elements in document order. The "no results" row
 * (the element with id noResultsMessage) is itself a `tr` of the table, and the source's
 * row query does not exclude it; SearchAsWritten keeps that behaviour, Search excludes it.
 */
module Search {
  import opened Text

  /** A row of the table: a rendered patient row, or the "no results" row created for a term. */
  datatype Row = PatientRow(text: string, shown: bool) | NoResultsRow(term: string, shown: bool)

  /** The same row with its display set to shown (`''`) or hidden (`'none'`). */
  function WithShown(r: Row, shown: bool): (r': Row)
    ensures r'.PatientRow? == r.PatientRow? && r'.shown == shown
  {
    match r
    case PatientRow(t, _) => PatientRow(t, shown)
    case NoResultsRow(t, _) => NoResultsRow(t, shown)
  }

  /** The text of the "no results" row. */
  function MessageText(term: string): (m: string)
    ensures |m| == |term| + 29 && m[28..|m| - 1] == term
  {
    "No patients found matching \"" + term + "\""
  }

  /** The row's textContent. */
  function RowText(r: Row): (t: string)
    ensures r.PatientRow? ==> t == r.text
    ensures r.NoResultsRow? ==> |t| == |r.term| + 29 && t[28..|t| - 1] == r.term
  {
    match r
    case PatientRow(t, _) => t
    case NoResultsRow(term, _) => MessageText(term)
  }

  /** The source's test: the term is empty, or the lowercased row text includes it. */
  predicate Matches(r: Row, term: string): (b: bool)
    ensures term == "" ==> b
    ensures b && term != "" ==> |term| <= |RowText(r)|
  {
    term == "" || Contains(ToLower(RowText(r)), term)
  }

  /** document.getElementById('noResultsMessage'): the first "no results" row, or -1. */
  function MessageIndex(rows: seq<Row>): (k: int)
    ensures -1 <= k < |rows|
    ensures k >= 0 ==> rows[k].NoResultsRow? && forall j :: 0 <= j < k ==> rows[j].PatientRow?
    ensures k == -1 <==> forall j :: 0 <= j < |rows| ==> rows[j].PatientRow?
    decreases |rows|
  {
    if rows == [] then -1
    else if rows[0].NoResultsRow? then 0
    else
      var k := MessageIndex(rows[1..]);
      if k < 0 then -1 else k + 1
  }

  predicate HasMessage(rows: seq<Row>) {
    MessageIndex(rows) >= 0
  }

  /** Every row but the last is a patient row: there is at most one "no results" row, and it is at the end. */
  predicate MessageLast(rows: seq<Row>) {
    forall i :: 0 <= i < |rows| - 1 ==> rows[i].PatientRow?
  }

  predicate MessageShown(rows: seq<Row>) {
    forall i :: 0 <= i < |rows| && rows[i].NoResultsRow? ==> rows[i].shown
  }

  /** The shape the table should have: patient rows, then at most one "no results" row, visible, at the end. */
  predicate WellFormedTable(rows: seq<Row>) {
    MessageLast(rows) && MessageShown(rows)
  }

  /** The number of patient rows of a well-formed table. */
  function PatientCount(rows: seq<Row>): nat {
    if |rows| > 0 && rows[|rows| - 1].NoResultsRow? then |rows| - 1 else |rows|
  }

  /** The message step: add a row for a non-empty term when nothing was found and none exists, remove an existing one otherwise. */
  function UpdateMessage(rows: seq<Row>, term: string, found: bool): (r: seq<Row>)
    ensures !found && term != "" ==> rows <= r && |r| <= |rows| + 1
    ensures found || term == "" ==> |rows| - 1 <= |r| <= |rows|
  {
    var k := MessageIndex(rows);
    if !found && term != "" then (if k < 0 then rows + [NoResultsRow(term, true)] else rows)
    else if k >= 0 then rows[..k] + rows[k + 1..]
    else rows
  }

  // ---------------------------------------------------------------------------
  // The search as written: every row, the message row included, is tested

  function ShowMatching(rows: seq<Row>, term: string): (r: seq<Row>)
    ensures |r| == |rows|
    ensures forall i :: 0 <= i < |rows| ==> r[i].PatientRow? == rows[i].PatientRow? && r[i].shown == Matches(rows[i], term)
  {
    seq(|rows|, i requires 0 <= i < |rows| => WithShown(rows[i], Matches(rows[i], term)))
  }

  predicate AnyMatch(rows: seq<Row>, term: string): (b: bool)
    ensures term == "" ==> (b <==> rows != [])
  {
    assert term == "" && rows != [] ==> Matches(rows[0], term);
    exists i :: 0 <= i < |rows| && Matches(rows[i], term)
  }

  function SearchAsWrittenResult(rows: seq<Row>, term: string): (r: seq<Row>)
    ensures |rows| - 1 <= |r| <= |rows| + 1
    ensures term != "" && !AnyMatch(rows, term) ==> |r| >= |rows|
    ensures term == "" ==> |r| <= |rows|
  {
    UpdateMessage(ShowMatching(rows, term), term, AnyMatch(rows, term))
  }

  // ---------------------------------------------------------------------------
  // The search as intended: only patient rows are tested and counted

  function ShowMatchingPatients(rows: seq<Row>, term: string): (r: seq<Row>)
    ensures |r| == |rows|
  {
    seq(|rows|, i requires 0 <= i < |rows| =>
      if rows[i].PatientRow? then WithShown(rows[i], Matches(rows[i], term)) else rows[i])
  }

  predicate AnyPatientMatch(rows: seq<Row>, term: string) {
    exists i :: 0 <= i < |rows| && rows[i].PatientRow? && Matches(rows[i], term)
  }

  function SearchResult(rows: seq<Row>, term: string): (r: seq<Row>)
    ensures |rows| - 1 <= |r| <= |rows| + 1
    ensures term != "" && !AnyPatientMatch(rows, term) ==> |r| >= |rows|
    ensures term == "" ==> |r| <= |rows|
  {
    UpdateMessage(ShowMatchingPatients(rows, term), term, AnyPatientMatch(rows, term))
  }

  /** The patient table on the page. */
  class PatientsTable {
    var rows: seq<Row>

    /** A freshly rendered table: one visible row per patient, no "no results" row. */
    constructor (texts: seq<string>)
      ensures |rows| == |texts|
      ensures forall i :: 0 <= i < |texts| ==> rows[i] == PatientRow(texts[i], true)
      ensures MessageLast(rows)
    {
      rows := seq(|texts|, i requires 0 <= i < |texts| => PatientRow(texts[i], true));
    }

    /**
     * searchPatients as the source has it. On any table whose "no results" row, if any, is the
     * last (every table this class produces), each patient row keeps its place and is shown
     * exactly when it matches, and a message row remains exactly when nothing, the old message
     * row included, matched a non-empty term.
     */
    method SearchAsWritten(term: string)
      modifies this
      ensures rows == SearchAsWrittenResult(old(rows), term)
      ensures MessageLast(old(rows)) ==>
        && MessageLast(rows)
        && PatientCount(rows) == PatientCount(old(rows))
        && (forall i :: 0 <= i < PatientCount(rows) ==> rows[i] == PatientRow(old(rows)[i].text, Matches(old(rows)[i], term)))
        && (HasMessage(rows) <==> term != "" && !AnyMatch(old(rows), term))
    {
      ghost var before := rows;
      var found := ShowMatchingRows(term);
      UpdateMessageRow(term, found);
      if MessageLast(before) {
        AsWrittenPatientRows(before, term);
      }
    }

    /** searchPatients with the "no results" row left out of the row test. */
    method Search(term: string)
      modifies this
      ensures rows == SearchResult(old(rows), term)
    {
      var found := ShowMatchingPatientRows(term);
      UpdateMessageRow(term, found);
    }

    /** The row loop as written: every row is shown exactly when it matches; reports whether one did. */
    method ShowMatchingRows(term: string) returns (found: bool)
      modifies this
      ensures rows == ShowMatching(old(rows), term)
      ensures found == AnyMatch(old(rows), term)
    {
      ghost var want := ShowMatching(rows, term);
      found := false;
      var i := 0;
      while i < |rows|
        invariant 0 <= i <= |rows| == |old(rows)| == |want|
        invariant forall j :: 0 <= j < i ==> rows[j] == want[j]
        invariant forall j :: i <= j < |rows| ==> rows[j] == old(rows)[j]
        invariant found <==> exists j :: 0 <= j < i && Matches(old(rows)[j], term)
      {
        assert rows[i] == old(rows)[i];
        var text := ToLower(RowText(rows[i]));
        ghost var m := Matches(old(rows)[i], term);
        assert m == (term == "" || Contains(text, term));
        assert want[i] == WithShown(old(rows)[i], m);
        if term == "" || Contains(text, term) {
          rows := rows[i := WithShown(rows[i], true)];
          found := true;
        } else {
          rows := rows[i := WithShown(rows[i], false)];
        }
        i := i + 1;
      }
      assert rows == want;
    }

    /** The row loop with the "no results" row skipped. */
    method ShowMatchingPatientRows(term: string) returns (found: bool)
      modifies this
      ensures rows == ShowMatchingPatients(old(rows), term)
      ensures found == AnyPatientMatch(old(rows), term)
    {
      found := false;
      var i := 0;
      while i < |rows|
        invariant 0 <= i <= |rows| == |old(rows)|
        invariant forall j :: 0 <= j < i ==> rows[j] == ShowMatchingPatients(old(rows), term)[j]
        invariant forall j :: i <= j < |rows| ==> rows[j] == old(rows)[j]
        invariant found <==> exists j :: 0 <= j < i && old(rows)[j].PatientRow? && Matches(old(rows)[j], term)
      {
        if rows[i].PatientRow? {
          var text := ToLower(RowText(rows[i]));
          if term == "" || Contains(text, term) {
            rows := rows[i := WithShown(rows[i], true)];
            found := true;
          } else {
            rows := rows[i := WithShown(rows[i], false)];
          }
        }
        i := i + 1;
      }
    }

    /** The message step after the row loop. */
    method UpdateMessageRow(term: string, found: bool)
      modifies this
      ensures rows == UpdateMessage(old(rows), term, found)
    {
      var k := MessageIndex(rows);
      if !found && term != "" {
        if k < 0 {
          rows := rows + [NoResultsRow(term, true)];
        }
      } else if k >= 0 {
        rows := rows[..k] + rows[k + 1..];
      }
    }
  }

  // ---------------------------------------------------------------------------
  // Properties

  lemma MessageAtEnd(rows: seq<Row>)
    requires MessageLast(rows)
    ensures HasMessage(rows) <==> |rows| > 0 && rows[|rows| - 1].NoResultsRow?
    ensures HasMessage(rows) ==> MessageIndex(rows) == |rows| - 1
  {
  }

  /**
   * The intended search on a well-formed table: every patient row keeps its text and place and
   * is visible exactly when it matches; a visible "no results" row is at the end exactly when
   * the term is non-empty and no patient row matched; the table stays well-formed.
   */
  lemma SearchMessageIffNoMatch(rows: seq<Row>, term: string)
    requires WellFormedTable(rows)
    ensures var r := SearchResult(rows, term);
      && WellFormedTable(r)
      && PatientCount(r) == PatientCount(rows)
      && (forall i :: 0 <= i < PatientCount(rows) ==> r[i] == PatientRow(rows[i].text, Matches(rows[i], term)))
      && (HasMessage(r) <==> term != "" && !AnyPatientMatch(rows, term))
      && (HasMessage(r) ==> r[|r| - 1].shown)
      && (HasMessage(r) && HasMessage(rows) ==> r[|r| - 1] == rows[|rows| - 1])
  {
    var s := ShowMatchingPatients(rows, term);
    ShowMatchingPatientsFacts(rows, term);
    UpdateMessageFacts(s, term, AnyPatientMatch(rows, term));
  }

  /** The row step of the intended search: patient rows get their match flag, the message row is untouched. */
  lemma ShowMatchingPatientsFacts(rows: seq<Row>, term: string)
    requires WellFormedTable(rows)
    ensures var s := ShowMatchingPatients(rows, term);
      && WellFormedTable(s)
      && PatientCount(s) == PatientCount(rows)
      && (HasMessage(s) <==> HasMessage(rows))
      && (HasMessage(s) ==> s[|s| - 1] == rows[|rows| - 1])
      && forall i :: 0 <= i < PatientCount(rows) ==> s[i] == PatientRow(rows[i].text, Matches(rows[i], term))
  {
    var s := ShowMatchingPatients(rows, term);
    assert forall i :: 0 <= i < |s| ==> s[i].PatientRow? == rows[i].PatientRow?;
    MessageAtEnd(rows);
    MessageAtEnd(s);
  }

  /** What the message step keeps, on a table whose only "no results" row, if any, is the last. */
  predicate MessageStepFacts(s: seq<Row>, term: string, found: bool) {
    var r := UpdateMessage(s, term, found);
    && MessageLast(r)
    && (MessageShown(s) ==> MessageShown(r))
    && PatientCount(r) == PatientCount(s)
    && (forall i :: 0 <= i < PatientCount(s) ==> r[i] == s[i])
    && (HasMessage(r) <==> !found && term != "")
    && (HasMessage(r) && HasMessage(s) ==> r[|r| - 1] == s[|s| - 1])
    && (HasMessage(r) && !HasMessage(s) ==> r[|r| - 1] == NoResultsRow(term, true))
  }

  /** The message step, on a table whose only "no results" row, if any, is the last. */
  lemma UpdateMessageFacts(s: seq<Row>, term: string, found: bool)
    requires MessageLast(s)
    ensures var r := UpdateMessage(s, term, found);
      && MessageLast(r)
      && (MessageShown(s) ==> MessageShown(r))
      && PatientCount(r) == PatientCount(s)
      && (forall i :: 0 <= i < PatientCount(s) ==> r[i] == s[i])
      && (HasMessage(r) <==> !found && term != "")
      && (HasMessage(r) && HasMessage(s) ==> r[|r| - 1] == s[|s| - 1])
      && (HasMessage(r) && !HasMessage(s) ==> r[|r| - 1] == NoResultsRow(term, true))
  {
    if !found && term != "" {
      if MessageIndex(s) < 0 {
        AppendMessageFacts(s, term);
      } else {
        KeepMessageFacts(s, term);
      }
    } else if MessageIndex(s) >= 0 {
      RemoveMessageFacts(s, term, found);
    } else {
      NoMessageFacts(s, term, found);
    }
    assert MessageStepFacts(s, term, found);
  }

  /** The message step's append case: the new row is the only message, at the end, and shown. */
  lemma AppendMessageFacts(s: seq<Row>, term: string)
    requires MessageLast(s) && MessageIndex(s) < 0 && term != ""
    ensures UpdateMessage(s, term, false) == s + [NoResultsRow(term, true)]
    ensures MessageStepFacts(s, term, false)
  {
    var r := s + [NoResultsRow(term, true)];
    assert UpdateMessage(s, term, false) == r;
    MessageAppended(s, term);
    MessageAtEnd(s);
    forall j | 0 <= j < |r| && r[j].NoResultsRow? ensures r[j].shown {
      assert j == |s|;
    }
  }

  /** The message step's keep case: an existing message row stays as it is. */
  lemma KeepMessageFacts(s: seq<Row>, term: string)
    requires MessageLast(s) && MessageIndex(s) >= 0 && term != ""
    ensures UpdateMessage(s, term, false) == s
    ensures MessageStepFacts(s, term, false)
  {
    MessageAtEnd(s);
  }

  /** The message step's remove case: dropping the last-row message keeps every patient row. */
  lemma RemoveMessageFacts(s: seq<Row>, term: string, found: bool)
    requires MessageLast(s) && MessageIndex(s) >= 0 && (found || term == "")
    ensures UpdateMessage(s, term, found) == s[..|s| - 1]
    ensures MessageStepFacts(s, term, found)
  {
    var r := s[..|s| - 1];
    MessageRemoved(s);
    assert UpdateMessage(s, term, found) == r;
    MessageAtEnd(s);
  }

  /** The message step's idle case: without a message row and with a match or an empty term, nothing changes. */
  lemma NoMessageFacts(s: seq<Row>, term: string, found: bool)
    requires MessageLast(s) && MessageIndex(s) < 0 && (found || term == "")
    ensures UpdateMessage(s, term, found) == s
    ensures MessageStepFacts(s, term, found)
  {
    MessageAtEnd(s);
  }

  /** Appending the message row to a table of patient rows puts the message at the end. */
  lemma MessageAppended(s: seq<Row>, term: string)
    requires forall j :: 0 <= j < |s| ==> s[j].PatientRow?
    ensures MessageIndex(s + [NoResultsRow(term, true)]) == |s|
  {
    var r := s + [NoResultsRow(term, true)];
    assert forall j :: 0 <= j < |s| ==> r[j].PatientRow?;
    assert r[|s|].NoResultsRow?;
  }

  /** Removing the last row, the message, of a table leaves no message. */
  lemma MessageRemoved(s: seq<Row>)
    requires MessageLast(s) && MessageIndex(s) >= 0
    ensures MessageIndex(s) == |s| - 1
    ensures s[..MessageIndex(s)] + s[MessageIndex(s) + 1..] == s[..|s| - 1]
    ensures MessageIndex(s[..|s| - 1]) == -1
  {
    MessageAtEnd(s);
    var k := MessageIndex(s);
    assert s[k + 1..] == [];
    var t := s[..k];
    assert forall j :: 0 <= j < |t| ==> t[j].PatientRow? by {
      forall j | 0 <= j < |t| ensures t[j].PatientRow? {
        assert t[j] == s[j];
      }
    }
    var m := MessageIndex(t);
    assert m == -1;
  }

  /** With an empty term every patient row is shown and there is no "no results" row. */
  lemma EmptyTermShowsAll(rows: seq<Row>)
    requires WellFormedTable(rows)
    ensures var r := SearchResult(rows, "");
      && !HasMessage(r) && |r| == PatientCount(rows)
      && forall i :: 0 <= i < |r| ==> r[i].shown
  {
    SearchMessageIffNoMatch(rows, "");
    MessageAtEnd(SearchResult(rows, ""));
  }

  /** In a well-formed table the patient rows are exactly the first PatientCount rows. */
  lemma PatientRowsArePrefix(rows: seq<Row>, i: int)
    requires MessageLast(rows) && 0 <= i < |rows|
    ensures rows[i].PatientRow? <==> i < PatientCount(rows)
  {
  }

  lemma MatchSurvivesSearch(rows: seq<Row>, term: string, i: int)
    requires WellFormedTable(rows) && 0 <= i < |rows| && rows[i].PatientRow? && Matches(rows[i], term)
    ensures AnyPatientMatch(SearchResult(rows, term), term)
  {
    var r := SearchResult(rows, term);
    SearchMessageIffNoMatch(rows, term);
    PatientRowsArePrefix(rows, i);
    assert r[i].PatientRow? && RowText(r[i]) == RowText(rows[i]);
  }

  lemma MatchCameFromInput(rows: seq<Row>, term: string, i: int)
    requires WellFormedTable(rows)
    requires var r := SearchResult(rows, term); 0 <= i < |r| && r[i].PatientRow? && Matches(r[i], term)
    ensures AnyPatientMatch(rows, term)
  {
    var r := SearchResult(rows, term);
    SearchMessageIffNoMatch(rows, term);
    PatientRowsArePrefix(r, i);
    assert RowText(r[i]) == RowText(rows[i]) && rows[i].PatientRow?;
  }

  /** The intended search finds a patient match in its own result exactly when it found one in its input. */
  lemma SearchKeepsMatches(rows: seq<Row>, term: string)
    requires WellFormedTable(rows)
    ensures AnyPatientMatch(SearchResult(rows, term), term) <==> AnyPatientMatch(rows, term)
  {
    var r := SearchResult(rows, term);
    if AnyPatientMatch(rows, term) {
      var i :| 0 <= i < |rows| && rows[i].PatientRow? && Matches(rows[i], term);
      MatchSurvivesSearch(rows, term, i);
    }
    if AnyPatientMatch(r, term) {
      var i :| 0 <= i < |r| && r[i].PatientRow? && Matches(r[i], term);
      MatchCameFromInput(rows, term, i);
    }
  }

  /** Running the intended search twice with the same term changes nothing the second time. */
  lemma SearchIdempotent(rows: seq<Row>, term: string)
    requires WellFormedTable(rows)
    ensures SearchResult(SearchResult(rows, term), term) == SearchResult(rows, term)
  {
    var r := SearchResult(rows, term);
    SearchMessageIffNoMatch(rows, term);
    SearchKeepsMatches(rows, term);
    forall i | 0 <= i < PatientCount(r) ensures r[i].PatientRow? && r[i].shown == Matches(r[i], term) {
      assert RowText(r[i]) == RowText(rows[i]);
    }
    SearchFixedPoint(r, term);
  }

  /** A well-formed table whose rows already show the outcome of a search for the term is left as it is. */
  lemma SearchFixedPoint(r: seq<Row>, term: string)
    requires WellFormedTable(r)
    requires forall i :: 0 <= i < PatientCount(r) ==> r[i].PatientRow? && r[i].shown == Matches(r[i], term)
    requires HasMessage(r) <==> term != "" && !AnyPatientMatch(r, term)
    ensures SearchResult(r, term) == r
  {
    var s := ShowMatchingPatients(r, term);
    MessageAtEnd(r);
    forall i | 0 <= i < |r| ensures s[i] == r[i] {
      PatientRowsArePrefix(r, i);
    }
    assert s == r;
  }

  /** The message row created for a lower-case term contains that term. */
  lemma MessageMatchesOwnTerm(term: string, shown: bool)
    requires HasNoUpper(term)
    ensures Matches(NoResultsRow(term, shown), term)
  {
    var a, b := "No patients found matching \"", "\"";
    ToLowerAppend(a + term, b);
    ToLowerAppend(a, term);
    ToLowerFacts(term);
    ContainsInfix(ToLower(a), term, ToLower(b));
  }

  /**
   * The search as written also keeps at most one "no results" row, at the end, since it only
   * adds one when none exists.
   */
  lemma AsWrittenKeepsOneMessage(rows: seq<Row>, term: string)
    requires MessageLast(rows)
    ensures MessageLast(SearchAsWrittenResult(rows, term))
  {
    var s := ShowMatching(rows, term);
    assert forall i :: 0 <= i < |s| ==> s[i].PatientRow? == rows[i].PatientRow?;
    UpdateMessageFacts(s, term, AnyMatch(rows, term));
  }

  /**
   * The search as written, on a table whose "no results" row, if any, is the last (shown or
   * hidden): every patient row keeps its text and place and is shown exactly when its
   * lower-cased text contains the term, and a message row remains exactly when no row, the
   * old message row included, matched a non-empty term.
   */
  lemma AsWrittenPatientRows(rows: seq<Row>, term: string)
    requires MessageLast(rows)
    ensures var r := SearchAsWrittenResult(rows, term);
      && MessageLast(r)
      && PatientCount(r) == PatientCount(rows)
      && (forall i :: 0 <= i < PatientCount(rows) ==> r[i] == PatientRow(rows[i].text, Matches(rows[i], term)))
      && (HasMessage(r) <==> term != "" && !AnyMatch(rows, term))
  {
    var s := ShowMatching(rows, term);
    ShowMatchingPatientRowsAsWritten(rows, term);
    UpdateMessageFacts(s, term, AnyMatch(rows, term));
  }

  /** The row loop as written keeps the table's shape and gives each patient row its match flag. */
  lemma ShowMatchingPatientRowsAsWritten(rows: seq<Row>, term: string)
    requires MessageLast(rows)
    ensures var s := ShowMatching(rows, term);
      && MessageLast(s)
      && PatientCount(s) == PatientCount(rows)
      && (forall i :: 0 <= i < PatientCount(rows) ==> s[i] == PatientRow(rows[i].text, Matches(rows[i], term)))
  {
    var s := ShowMatching(rows, term);
    assert forall i :: 0 <= i < |s| ==> s[i].PatientRow? == rows[i].PatientRow?;
    forall i | 0 <= i < PatientCount(rows) ensures s[i] == PatientRow(rows[i].text, Matches(rows[i], term)) {
      PatientRowsArePrefix(rows, i);
    }
  }

  /** The search as written with an empty term shows every patient row and leaves no "no results" row. */
  lemma AsWrittenEmptyTermShowsAll(rows: seq<Row>)
    requires MessageLast(rows)
    ensures var r := SearchAsWrittenResult(rows, "");
      && !HasMessage(r) && |r| == PatientCount(rows)
      && forall i :: 0 <= i < |r| ==> r[i].shown
  {
    var r := SearchAsWrittenResult(rows, "");
    AsWrittenPatientRows(rows, "");
    var s := ShowMatching(rows, "");
    UpdateMessageFacts(s, "", AnyMatch(rows, ""));
    MessageAtEnd(r);
  }

  lemma RowTextWithShown(r: Row, shown: bool)
    ensures RowText(WithShown(r, shown)) == RowText(r)
  {
  }

  /** First search as written on a table without a message row and with no match: the message row is appended. */
  lemma AsWrittenAddsMessage(rows: seq<Row>, term: string)
    requires forall i :: 0 <= i < |rows| ==> rows[i].PatientRow?
    requires term != "" && !AnyMatch(rows, term)
    ensures SearchAsWrittenResult(rows, term) == ShowMatching(rows, term) + [NoResultsRow(term, true)]
  {
    assert MessageIndex(ShowMatching(rows, term)) == -1;
  }

  /** A search as written in which the message row itself matches drops the message row. */
  lemma AsWrittenDropsMatchingMessage(s: seq<Row>, m: Row, term: string)
    requires forall i :: 0 <= i < |s| ==> s[i].PatientRow?
    requires m.NoResultsRow? && Matches(m, term)
    ensures SearchAsWrittenResult(s + [m], term) == ShowMatching(s + [m], term)[..|s|]
  {
    var r := s + [m];
    assert Matches(r[|s|], term);
    var s2 := ShowMatching(r, term);
    assert forall j :: 0 <= j < |s| ==> s2[j].PatientRow?;
    assert s2[|s|].NoResultsRow?;
    assert MessageIndex(s2) == |s|;
  }

  /**
   * The search as written, on a freshly rendered table: a lower-case term that matches no patient
   * adds the "no results" row, and searching the same term again removes it, because the row's
   * own text contains the term. The table then shows nothing at all and no message.
   */
  lemma RepeatedSearchLosesMessage(rows: seq<Row>, term: string)
    requires forall i :: 0 <= i < |rows| ==> rows[i].PatientRow?
    requires term != "" && HasNoUpper(term)
    requires !AnyMatch(rows, term)
    ensures HasMessage(SearchAsWrittenResult(rows, term))
    ensures var r2 := SearchAsWrittenResult(SearchAsWrittenResult(rows, term), term);
      !HasMessage(r2) && forall i :: 0 <= i < |r2| ==> !r2[i].shown
  {
    var s := ShowMatching(rows, term);
    AsWrittenAddsMessage(rows, term);
    var r1 := SearchAsWrittenResult(rows, term);
    assert r1[|s|].NoResultsRow?;
    MessageMatchesOwnTerm(term, true);
    AsWrittenDropsMatchingMessage(s, NoResultsRow(term, true), term);
    var r2 := SearchAsWrittenResult(r1, term);
    forall i | 0 <= i < |r2| ensures r2[i].PatientRow? && !r2[i].shown {
      RowTextWithShown(rows[i], Matches(rows[i], term));
      assert r1[i] == s[i];
    }
  }

  /**
   * A search as written for a second term that matches nothing, after a first search left the
   * "no results" row: the row loop hides that row, and since it already exists the message step
   * keeps it hidden. The table then shows no row at all and no message.
   */
  lemma AsWrittenHidesStaleMessage(s: seq<Row>, m: Row, term: string)
    requires forall i :: 0 <= i < |s| ==> s[i].PatientRow?
    requires m.NoResultsRow? && term != "" && !AnyMatch(s + [m], term)
    ensures var r := SearchAsWrittenResult(s + [m], term);
      && r == ShowMatching(s + [m], term)
      && HasMessage(r) && r[|s|] == NoResultsRow(m.term, false)
      && forall i :: 0 <= i < |r| ==> !r[i].shown
  {
    var rows := s + [m];
    var v := ShowMatching(rows, term);
    assert !Matches(rows[|s|], term);
    assert v[|s|].NoResultsRow?;
    assert MessageIndex(v) >= 0;
  }

  /** The intended search keeps the message on a repeated search. */
  lemma RepeatedSearchKeepsMessage(rows: seq<Row>, term: string)
    requires forall i :: 0 <= i < |rows| ==> rows[i].PatientRow?
    requires term != "" && !AnyPatientMatch(rows, term)
    ensures HasMessage(SearchResult(SearchResult(rows, term), term))
  {
    SearchIdempotent(rows, term);
    SearchMessageIffNoMatch(rows, term);
  }
}
