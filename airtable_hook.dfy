/**
 * `useAirtableAPI`: the generic record hook. It holds the records of one
 * table together with a loading flag and the last error, loads the table on
 * mount, and keeps its list in step with the records it creates and updates.
 * Every remote call is an input: the record or list the server returned, or
 * the error it threw.
 */
module AirtableHook {
  import opened Records

  class RecordTable {
    var records: seq<Record>
    var isLoading: bool
    var error: Option<string>

    constructor()
      ensures records == [] && !isLoading && error == None
    {
      records := [];
      isLoading := false;
      error := None;
    }

    /** The mount effect starts loading. */
    method StartLoad()
      modifies this
      ensures isLoading
      ensures records == old(records) && error == old(error)
    {
      isLoading := true;
    }

    /**
     * The mount effect's fetch settles: loading stops either way; the
     * records are replaced, in server order and reduced to `{id, fields}`,
     * only on success, and the error is recorded only on failure.
     */
    method FinishLoad(fetched: Result<seq<ServerRecord>>)
      modifies this
      ensures !isLoading
      ensures fetched.Ok? ==> records == Project(fetched.value) && error == old(error)
      ensures fetched.Err? ==> records == old(records) && error == Some(Failure(RecordsPrefix, fetched.message))
    {
      isLoading := false;
      match fetched
      case Ok(rs) => records := Project(rs);
      case Err(m) => error := Some(Failure(RecordsPrefix, m));
    }

    /** `createRecord`: the created record is appended; a failure only records the error. */
    method CreateRecord(created: Result<ServerRecord>)
      modifies this
      ensures isLoading == old(isLoading)
      ensures created.Ok? ==>
        records == old(records) + [Record(created.value.id, created.value.fields)] && error == old(error)
      ensures created.Err? ==> records == old(records) && error == Some(created.message)
    {
      match created
      case Ok(r) => records := records + [Record(r.id, r.fields)];
      case Err(m) => error := Some(m);
    }

    /**
     * `updateRecord(id, fields)`: every record carrying the id the server
     * returned is replaced by the returned record; a failure only records
     * the error.
     */
    method UpdateRecord(id: string, updated: Result<ServerRecord>)
      modifies this
      ensures isLoading == old(isLoading)
      ensures updated.Ok? ==>
        records == ReplaceById(old(records), Record(updated.value.id, updated.value.fields)) &&
        error == old(error)
      ensures updated.Err? ==> records == old(records) && error == Some(updated.message)
    {
      match updated
      case Ok(r) => records := ReplaceById(records, Record(r.id, r.fields));
      case Err(m) => error := Some(m);
    }
  }

  /** A created record can be found by its id afterwards, and the earlier records are a prefix. */
  lemma CreateThenFind(before: seq<Record>, created: ServerRecord)
    requires forall k :: 0 <= k < |before| ==> before[k].id != created.id
    ensures var after := before + [Record(created.id, created.fields)];
      after[..|before|] == before &&
      FindById(after, created.id) == Some(Record(created.id, created.fields))
  {
    var after := before + [Record(created.id, created.fields)];
    assert after[..|before|] == before;
    FindByIdAppend(before, Record(created.id, created.fields));
  }

  /**
   * Lookup by id. The hook has no such lookup: this is the specification
   * the create and update lemmas below state their results with.
   */
  function FindById(rs: seq<Record>, id: string): (r: Option<Record>)
    ensures r.Some? ==> r.value in rs && r.value.id == id
    ensures r.None? ==> forall x :: x in rs ==> x.id != id
  {
    if rs == [] then None else if rs[0].id == id then Some(rs[0]) else FindById(rs[1..], id)
  }

  lemma {:induction false} FindByIdAppend(rs: seq<Record>, x: Record)
    requires forall k :: 0 <= k < |rs| ==> rs[k].id != x.id
    ensures FindById(rs + [x], x.id) == Some(x)
    decreases |rs|
  {
    if rs == [] {
      assert rs + [x] == [x];
    } else {
      assert (rs + [x])[1..] == rs[1..] + [x];
      FindByIdAppend(rs[1..], x);
    }
  }

  /** After an update the returned record is what a lookup by its id finds, if any record had that id. */
  lemma UpdateThenFind(before: seq<Record>, updated: Record)
    requires exists k :: 0 <= k < |before| && before[k].id == updated.id
    ensures FindById(ReplaceById(before, updated), updated.id) == Some(updated)
  {
    var after := ReplaceById(before, updated);
    var f := FindById(after, updated.id);
    var k :| 0 <= k < |before| && before[k].id == updated.id;
    assert after[k] == updated;
    assert f.Some?;
    assert f.value in after;
    var j :| 0 <= j < |after| && after[j] == f.value;
    assert after[j] == updated;
  }
}
