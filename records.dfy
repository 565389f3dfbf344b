/**
 * Records of the hosted tabular store as the front end holds them:
 * `{id, fields}` where `fields` maps column names to JavaScript values.
 * Field comparisons in the source use `===`, and field tests use
 * JavaScript truthiness; both are stated here once, together with the
 * list operations that the study context and the generic record hook
 * perform on their `records` state.
 */
module Records {

  datatype Option<T> = None | Some(value: T)

  /** The outcome of a remote call: the value it returned, or the error it threw. */
  datatype Result<T> = Ok(value: T) | Err(message: string)

  /** A JavaScript value stored in a record field. Numbers are integers here. */
  datatype Value = Undefined | Null | Str(s: string) | Num(n: int) | Bool(b: bool)

  /** JavaScript truthiness: `undefined`, `null`, `""`, `0` and `false` are falsy. */
  predicate Truthy(v: Value)
  {
    match v
    case Undefined => false
    case Null => false
    case Str(s) => s != ""
    case Num(n) => n != 0
    case Bool(b) => b
  }

  type Fields = map<string, Value>

  datatype Record = Record(id: string, fields: Fields)

  /** A record as the REST API returns it, before it is reduced to `{id, fields}`. */
  datatype ServerRecord = ServerRecord(id: string, createdTime: string, fields: Fields)

  /** `record.fields[key]`: a missing column reads as `undefined`. */
  function Field(r: Record, key: string): (v: Value)
    ensures key in r.fields ==> v == r.fields[key]
    ensures key !in r.fields ==> v == Undefined
  {
    if key in r.fields then r.fields[key] else Undefined
  }

  /** `data.records.map(record => ({id: record.id, fields: record.fields}))` */
  function Project(rs: seq<ServerRecord>): (r: seq<Record>)
    ensures |r| == |rs|
    ensures forall k :: 0 <= k < |rs| ==> r[k].id == rs[k].id && r[k].fields == rs[k].fields
  {
    if rs == [] then [] else [Record(rs[0].id, rs[0].fields)] + Project(rs[1..])
  }

  /** The prefixes the fetch helpers put before the message of a failure they rethrow. */
  const RecordsPrefix := "Failed to fetch records: "
  const TranscriptsPrefix := "Failed to fetch transcripts: "
  const UserDataPrefix := "Failed to fetch InterviewUserData: "

  /** `new Error(`<prefix>${error.message}`)`: the message a failed fetch is rethrown with. */
  function Failure(prefix: string, message: string): (r: string)
    ensures |r| >= |message| && r[|r| - |message|..] == message
    ensures r[..|r| - |message|] == prefix
  {
    prefix + message
  }

  /** The rethrown text loses nothing: under one prefix, different failures read differently. */
  lemma FailureInjective(prefix: string, m1: string, m2: string)
    requires Failure(prefix, m1) == Failure(prefix, m2)
    ensures m1 == m2
  {
    var r := Failure(prefix, m1);
    assert |m1| == |m2|;
    assert m1 == r[|prefix|..] == m2;
  }

  /** The rethrown text names the fetch that failed: the three prefixes never yield the same text. */
  lemma FailureNamesFetch(m1: string, m2: string)
    ensures Failure(RecordsPrefix, m1) != Failure(TranscriptsPrefix, m2)
    ensures Failure(RecordsPrefix, m1) != Failure(UserDataPrefix, m2)
    ensures Failure(TranscriptsPrefix, m1) != Failure(UserDataPrefix, m2)
  {
    assert Failure(RecordsPrefix, m1)[16] == 'r';
    assert Failure(TranscriptsPrefix, m1)[16] == 't';
    assert Failure(TranscriptsPrefix, m2)[16] == 't';
    assert Failure(UserDataPrefix, m2)[16] == 'I';
  }

  /**
   * `records.map(r => r.id === record.id ? {id: record.id, fields: record.fields} : r)`:
   * every record carrying the id of `updated` is replaced by it.
   */
  function ReplaceById(rs: seq<Record>, updated: Record): (r: seq<Record>)
    ensures |r| == |rs|
    ensures forall k :: 0 <= k < |rs| ==>
      r[k] == if rs[k].id == updated.id then updated else rs[k]
  {
    if rs == [] then []
    else [if rs[0].id == updated.id then updated else rs[0]] + ReplaceById(rs[1..], updated)
  }

  /** `rs.filter(r => r.fields[key] === v)` */
  function WithField(rs: seq<Record>, key: string, v: Value): (r: seq<Record>)
    ensures |r| <= |rs|
    ensures forall x :: x in r ==> x in rs && Field(x, key) == v
    ensures forall x :: x in rs && Field(x, key) == v ==> x in r
  {
    if rs == [] then []
    else (if Field(rs[0], key) == v then [rs[0]] else []) + WithField(rs[1..], key, v)
  }

  /** `rs.filter(r => r.fields[key])` */
  function WhereTruthy(rs: seq<Record>, key: string): (r: seq<Record>)
    ensures |r| <= |rs|
    ensures forall x :: x in r ==> x in rs && Truthy(Field(x, key))
    ensures forall x :: x in rs && Truthy(Field(x, key)) ==> x in r
  {
    if rs == [] then []
    else (if Truthy(Field(rs[0], key)) then [rs[0]] else []) + WhereTruthy(rs[1..], key)
  }

  /** `rs.find(r => r.fields[key] === v)` */
  function FindByField(rs: seq<Record>, key: string, v: Value): (r: Option<Record>)
    ensures r.Some? ==> r.value in rs && Field(r.value, key) == v
    ensures r.None? <==> forall x :: x in rs ==> Field(x, key) != v
  {
    if rs == [] then None
    else if Field(rs[0], key) == v then Some(rs[0])
    else FindByField(rs[1..], key, v)
  }

  // ---------------------------------------------------------------------
  // Laws of the list operations
  // ---------------------------------------------------------------------

  /** Filtering keeps order: it distributes over concatenation. */
  lemma {:induction false} WithFieldAppend(a: seq<Record>, b: seq<Record>, key: string, v: Value)
    ensures WithField(a + b, key, v) == WithField(a, key, v) + WithField(b, key, v)
    decreases |a|
  {
    if a == [] {
      assert a + b == b;
    } else {
      assert (a + b)[1..] == a[1..] + b;
      WithFieldAppend(a[1..], b, key, v);
    }
  }

  /** Filtering on truthiness keeps order: it distributes over concatenation. */
  lemma {:induction false} WhereTruthyAppend(a: seq<Record>, b: seq<Record>, key: string)
    ensures WhereTruthy(a + b, key) == WhereTruthy(a, key) + WhereTruthy(b, key)
    decreases |a|
  {
    if a == [] {
      assert a + b == b;
    } else {
      assert (a + b)[1..] == a[1..] + b;
      WhereTruthyAppend(a[1..], b, key);
    }
  }

  /** Index `k` holds the first record whose field `key` is `v`. */
  predicate IsFirstMatch(rs: seq<Record>, key: string, v: Value, k: int)
  {
    0 <= k < |rs| && Field(rs[k], key) == v &&
    forall j :: 0 <= j < k ==> Field(rs[j], key) != v
  }

  /** `find` returns the first match: no earlier record matches. */
  lemma {:induction false} FindByFieldIsFirst(rs: seq<Record>, key: string, v: Value)
    ensures FindByField(rs, key, v).Some? ==>
      exists k :: IsFirstMatch(rs, key, v, k) && rs[k] == FindByField(rs, key, v).value
    decreases |rs|
  {
    if rs == [] {
    } else if Field(rs[0], key) == v {
      assert IsFirstMatch(rs, key, v, 0);
    } else {
      FindByFieldIsFirst(rs[1..], key, v);
      if FindByField(rs[1..], key, v).Some? {
        var k :| IsFirstMatch(rs[1..], key, v, k) && rs[1..][k] == FindByField(rs[1..], key, v).value;
        forall j | 0 <= j < k + 1 ensures Field(rs[j], key) != v {
          if j > 0 {
            assert rs[j] == rs[1..][j - 1];
          }
        }
        assert IsFirstMatch(rs, key, v, k + 1);
      }
    }
  }

  /** Replacing by id twice with the same record is the same as replacing once. */
  lemma ReplaceByIdIdempotent(rs: seq<Record>, updated: Record)
    ensures ReplaceById(ReplaceById(rs, updated), updated) == ReplaceById(rs, updated)
  {
    var once := ReplaceById(rs, updated);
    var twice := ReplaceById(once, updated);
    assert forall k :: 0 <= k < |rs| ==> twice[k] == once[k];
  }

  /** Replacing by an id that no record carries leaves the list unchanged. */
  lemma ReplaceByIdAbsent(rs: seq<Record>, updated: Record)
    requires forall k :: 0 <= k < |rs| ==> rs[k].id != updated.id
    ensures ReplaceById(rs, updated) == rs
  {
    var r := ReplaceById(rs, updated);
    assert forall k :: 0 <= k < |rs| ==> r[k] == rs[k];
  }
}
