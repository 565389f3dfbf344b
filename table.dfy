/**
 * `Table`: the list of the signed-in user's studies. One row per study the
 * user owns, in the order of the study list, showing its name (or a
 * placeholder), its session id and how many transcripts it has; while the
 * study list loads only the loading text is shown.
 */
module Table {
  import opened Records

  const NoName := "Name not provided"

  /** The cells of one row of the table. */
  datatype Row = Row(name: Value, sessionId: Value, responses: nat)

  /** What the table renders. */
  datatype View = Loading | Rows(rows: seq<Row>)

  /** The Name cell: the study's name, or the placeholder when it is empty or missing. */
  function NameCell(study: Record): (name: Value)
    ensures Truthy(name)
    ensures Truthy(Field(study, "StudyName")) ==> name == Field(study, "StudyName")
    ensures !Truthy(Field(study, "StudyName")) ==> name == Str(NoName)
  {
    if Truthy(Field(study, "StudyName")) then Field(study, "StudyName") else Str(NoName)
  }

  /** The Responses cell: how many transcripts carry the study's session id. */
  function Responses(transcripts: seq<Record>, study: Record): (n: nat)
    ensures n <= |transcripts|
  {
    |WithField(transcripts, "Session ID", Field(study, "Session ID"))|
  }

  function RowOf(transcripts: seq<Record>, study: Record): Row
  {
    Row(NameCell(study), Field(study, "Session ID"), Responses(transcripts, study))
  }

  /** `records.map(r => r.fields['Email'] === user?.email ? <row> : undefined)`, without the skipped entries. */
  function TableRows(records: seq<Record>, transcripts: seq<Record>, email: Value): (rows: seq<Row>)
    ensures |rows| <= |records|
  {
    if records == [] then []
    else
      (if Field(records[0], "Email") == email then [RowOf(transcripts, records[0])] else []) +
      TableRows(records[1..], transcripts, email)
  }

  function TableView(isLoading: bool, records: seq<Record>, transcripts: seq<Record>, email: Value): (v: View)
    ensures isLoading <==> v == Loading
  {
    if isLoading then Loading else Rows(TableRows(records, transcripts, email))
  }

  /** One row per study, in order. */
  function RowsOf(transcripts: seq<Record>, studies: seq<Record>): (rows: seq<Row>)
    ensures |rows| == |studies|
    ensures forall k :: 0 <= k < |studies| ==> rows[k] == RowOf(transcripts, studies[k])
  {
    if studies == [] then [] else [RowOf(transcripts, studies[0])] + RowsOf(transcripts, studies[1..])
  }

  /**
   * The rows are exactly the user's own studies, in the order of the study
   * list: one row for each study whose Email is the user's.
   */
  lemma {:induction false} RowsAreOwnStudies(records: seq<Record>, transcripts: seq<Record>, email: Value)
    ensures TableRows(records, transcripts, email) == RowsOf(transcripts, WithField(records, "Email", email))
    decreases |records|
  {
    if records != [] {
      RowsAreOwnStudies(records[1..], transcripts, email);
      var rest := WithField(records[1..], "Email", email);
      if Field(records[0], "Email") == email {
        assert WithField(records, "Email", email) == [records[0]] + rest;
        assert ([records[0]] + rest)[1..] == rest;
      }
    }
  }

  /** A study of another user never shows up, however the list around it looks. */
  lemma OthersHidden(a: seq<Record>, other: Record, b: seq<Record>, transcripts: seq<Record>, email: Value)
    requires Field(other, "Email") != email
    ensures TableRows(a + [other] + b, transcripts, email) == TableRows(a + b, transcripts, email)
  {
    var wa := WithField(a, "Email", email);
    var wb := WithField(b, "Email", email);
    assert WithField(a + [other] + b, "Email", email) == wa + wb by {
      WithFieldAppend(a + [other], b, "Email", email);
      WithFieldAppend(a, [other], "Email", email);
      assert WithField([other], "Email", email) == [] by {
        assert [other][1..] == [];
      }
      assert wa + [] == wa;
    }
    assert WithField(a + b, "Email", email) == wa + wb by {
      WithFieldAppend(a, b, "Email", email);
    }
    RowsAreOwnStudies(a + [other] + b, transcripts, email);
    RowsAreOwnStudies(a + b, transcripts, email);
  }

  /**
   * A new transcript adds one response to the studies with its session id
   * and none to the others.
   */
  lemma ResponsesAddTranscript(transcripts: seq<Record>, t: Record, study: Record)
    ensures Responses(transcripts + [t], study) ==
      Responses(transcripts, study) + (if Field(t, "Session ID") == Field(study, "Session ID") then 1 else 0)
  {
    WithFieldAppend(transcripts, [t], "Session ID", Field(study, "Session ID"));
  }
}
