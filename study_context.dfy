/**
 * `StudyProvider`: the study context. It counts the user's completed
 * interviews in the subscription window, decides whether the account's
 * usage must be blocked, and keeps the list of study records in step with
 * the studies it creates, updates and fetches. The remote stores (the
 * tabular store, the identity provider's management API, the token
 * endpoint) are inputs: what they returned, or the error they threw.
 */
module StudyContext {
  import opened Records

  // ---------------------------------------------------------------------
  // Counting completed interviews
  // ---------------------------------------------------------------------

  /** Transcript `t` is a completed interview of study `study`. */
  predicate CompletedFor(t: Record, study: Record)
  {
    Field(t, "Session ID") == Field(study, "Session ID") && Field(t, "isComplete") == Bool(true)
  }

  /** How many of `ts` are completed interviews of `study`. */
  function CompletedOf(ts: seq<Record>, study: Record): (n: nat)
    ensures n <= |ts|
  {
    if ts == [] then 0
    else CompletedOf(ts[..|ts| - 1], study) + (if CompletedFor(ts[|ts| - 1], study) then 1 else 0)
  }

  /** The completed interviews, over the studies whose `Email` equals `email`. */
  function Completed(studies: seq<Record>, ts: seq<Record>, email: Value): nat
  {
    if studies == [] then 0
    else
      var s := studies[|studies| - 1];
      Completed(studies[..|studies| - 1], ts, email) + (if Field(s, "Email") == email then CompletedOf(ts, s) else 0)
  }

  /**
   * The nested filters of the load effect: for every study owned by the
   * user, every transcript of that study whose `isComplete` is exactly
   * `true` adds one.
   */
  method CountCompleted(studies: seq<Record>, ts: seq<Record>, email: Value) returns (count: nat)
    ensures count == Completed(studies, ts, email)
  {
    count := 0;
    var i := 0;
    while i < |studies|
      invariant 0 <= i <= |studies|
      invariant count == Completed(studies[..i], ts, email)
    {
      var study := studies[i];
      assert studies[..i + 1][..i] == studies[..i];
      if Field(study, "Email") == email {
        var j := 0;
        var before := count;
        while j < |ts|
          invariant 0 <= j <= |ts|
          invariant count == before + CompletedOf(ts[..j], study)
        {
          assert ts[..j + 1][..j] == ts[..j];
          if Field(ts[j], "Session ID") == Field(study, "Session ID") {
            if Field(ts[j], "isComplete") == Bool(true) {
              count := count + 1;
            }
          }
          j := j + 1;
        }
        assert ts[..j] == ts;
      }
      i := i + 1;
    }
    assert studies[..i] == studies;
  }

  /** How many studies in `studies` are owned by `email` and carry session id `sid`. */
  function OwnedWith(studies: seq<Record>, email: Value, sid: Value): (n: nat)
    ensures n <= |studies|
  {
    if studies == [] then 0
    else
      var s := studies[|studies| - 1];
      OwnedWith(studies[..|studies| - 1], email, sid) +
        (if Field(s, "Email") == email && Field(s, "Session ID") == sid then 1 else 0)
  }

  /** With no studies, or no transcripts, the count is zero. */
  lemma {:induction false} CompletedEmpty(studies: seq<Record>, email: Value)
    ensures Completed([], [], email) == 0
    ensures Completed(studies, [], email) == 0
    decreases |studies|
  {
    if studies != [] {
      CompletedEmpty(studies[..|studies| - 1], email);
    }
  }

  /**
   * One more transcript adds one for every owned study with its session id
   * when it is complete, and nothing otherwise.
   */
  lemma {:induction false} CompletedAddTranscript(studies: seq<Record>, ts: seq<Record>, t: Record, email: Value)
    ensures Completed(studies, ts + [t], email) == Completed(studies, ts, email) +
      (if Field(t, "isComplete") == Bool(true) then OwnedWith(studies, email, Field(t, "Session ID")) else 0)
    decreases |studies|
  {
    if studies != [] {
      var s := studies[|studies| - 1];
      CompletedAddTranscript(studies[..|studies| - 1], ts, t, email);
      assert (ts + [t])[..|ts + [t]| - 1] == ts;
      assert CompletedOf(ts + [t], s) == CompletedOf(ts, s) + (if CompletedFor(t, s) then 1 else 0);
    }
  }

  /** Adding any transcript never lowers the count. */
  lemma CompletedMonotone(studies: seq<Record>, ts: seq<Record>, t: Record, email: Value)
    ensures Completed(studies, ts + [t], email) >= Completed(studies, ts, email)
  {
    CompletedAddTranscript(studies, ts, t, email);
  }

  /** An incomplete transcript, or one of a study the user does not own, changes nothing. */
  lemma CompletedIgnores(studies: seq<Record>, ts: seq<Record>, t: Record, email: Value)
    requires Field(t, "isComplete") != Bool(true) || OwnedWith(studies, email, Field(t, "Session ID")) == 0
    ensures Completed(studies, ts + [t], email) == Completed(studies, ts, email)
  {
    CompletedAddTranscript(studies, ts, t, email);
  }

  /** A study the user does not own adds nothing, whatever its transcripts. */
  lemma CompletedIgnoresOthersStudy(studies: seq<Record>, ts: seq<Record>, s: Record, email: Value)
    requires Field(s, "Email") != email
    ensures Completed(studies + [s], ts, email) == Completed(studies, ts, email)
  {
    assert (studies + [s])[..|studies + [s]| - 1] == studies;
  }

  // ---------------------------------------------------------------------
  // The usage gate
  // ---------------------------------------------------------------------

  /** A remote call the load effect makes once the count is known. */
  datatype Call = TokenGet | UserGet(sub: string) | BlockPatch(sub: string, usageBlockedAt: int)

  /** `count >= interviewCount`, where a missing quota makes the comparison false. */
  predicate QuotaReached(count: nat, quota: Option<int>)
  {
    quota.Some? && count >= quota.value
  }

  /** `Math.floor(now / 1000)` for a clock reading in milliseconds. */
  function Seconds(nowMs: nat): (s: nat)
    ensures s * 1000 <= nowMs < (s + 1) * 1000
  {
    nowMs / 1000
  }

  /**
   * The calls the gate makes, in order: at the quota it fetches a token;
   * with a signed-in subject it reads the user; unless the user's
   * `usageBlockedAt` is already set (truthy) it writes the current time in
   * seconds. `blockedAt` is the `usageBlockedAt` the read returns.
   */
  function GateCalls(count: nat, quota: Option<int>, sub: Option<string>, blockedAt: Value,
                     nowMs: nat): (calls: seq<Call>)
    ensures |calls| <= 3
    ensures calls != [] <==> QuotaReached(count, quota)
  {
    if !QuotaReached(count, quota) then []
    else if sub.None? || sub.value == "" then [TokenGet]
    else if Truthy(blockedAt) then [TokenGet, UserGet(sub.value)]
    else [TokenGet, UserGet(sub.value), BlockPatch(sub.value, Seconds(nowMs))]
  }

  /** The gate writes `usageBlockedAt` exactly when the quota is reached, there is a subject, and nothing is set yet. */
  lemma GatePatchesIff(count: nat, quota: Option<int>, sub: Option<string>, blockedAt: Value, nowMs: nat)
    ensures var calls := GateCalls(count, quota, sub, blockedAt, nowMs);
      (exists k :: 0 <= k < |calls| && calls[k].BlockPatch?) <==>
        QuotaReached(count, quota) && sub.Some? && sub.value != "" && !Truthy(blockedAt)
    ensures var calls := GateCalls(count, quota, sub, blockedAt, nowMs);
      forall k :: 0 <= k < |calls| && calls[k].BlockPatch? ==>
        k == |calls| - 1 && calls[k] == BlockPatch(sub.value, nowMs / 1000)
  {
    var calls := GateCalls(count, quota, sub, blockedAt, nowMs);
    if QuotaReached(count, quota) && sub.Some? && sub.value != "" && !Truthy(blockedAt) {
      assert calls[2].BlockPatch?;
    }
  }

  /**
   * A request of the gate that failed, by its position in the call
   * sequence, with the error it raised: a rejected fetch, a reply that is
   * not JSON, or a user without `app_metadata`. The error rejects the load
   * effect's promise and reaches its `catch`.
   */
  datatype GateFailure = GateFailure(at: nat, message: string)

  /** One of the requests the gate issues fails. */
  predicate Stopped(calls: seq<Call>, failure: Option<GateFailure>)
  {
    failure.Some? && failure.value.at < |calls|
  }

  /** The requests the gate issues: each call in turn, up to and including the first that fails. */
  function Issued(calls: seq<Call>, failure: Option<GateFailure>): (r: seq<Call>)
    ensures r <= calls
    ensures Stopped(calls, failure) ==> |r| == failure.value.at + 1
    ensures !Stopped(calls, failure) ==> r == calls
  {
    if Stopped(calls, failure) then calls[..failure.value.at + 1] else calls
  }

  /**
   * The PATCH goes out only after the token and the user requests both
   * succeeded, and then exactly when the gate would write.
   */
  lemma PatchNeedsReads(count: nat, quota: Option<int>, sub: Option<string>, blockedAt: Value, nowMs: nat,
                        failure: Option<GateFailure>)
    ensures var calls := GateCalls(count, quota, sub, blockedAt, nowMs);
      var issued := Issued(calls, failure);
      (exists k :: 0 <= k < |issued| && issued[k].BlockPatch?) <==>
        |calls| == 3 && (failure.None? || failure.value.at >= 2)
  {
    var calls := GateCalls(count, quota, sub, blockedAt, nowMs);
    var issued := Issued(calls, failure);
    if |calls| == 3 && (failure.None? || failure.value.at >= 2) {
      assert issued[2] == calls[2];
    }
  }

  /**
   * The account's `usageBlockedAt` as the identity provider stores it; the
   * gate only ever moves it from unset to set.
   */
  class Account {
    var usageBlockedAt: Value

    constructor(initial: Value)
      ensures usageBlockedAt == initial
    {
      usageBlockedAt := initial;
    }

    /**
     * Runs the gate against this account, its requests stopping at the
     * first that fails, and applies its write if the PATCH succeeds.
     */
    method Gate(count: nat, quota: Option<int>, sub: Option<string>, nowMs: nat, failure: Option<GateFailure>)
      returns (calls: seq<Call>)
      modifies this
      ensures calls == Issued(GateCalls(count, quota, sub, old(usageBlockedAt), nowMs), failure)
      ensures Truthy(old(usageBlockedAt)) ==> usageBlockedAt == old(usageBlockedAt)
      ensures !Truthy(old(usageBlockedAt)) && QuotaReached(count, quota) && sub.Some? && sub.value != "" ==>
        usageBlockedAt == (if failure.None? || failure.value.at >= 3 then Num(nowMs / 1000) else old(usageBlockedAt))
      ensures !(QuotaReached(count, quota) && sub.Some? && sub.value != "") ==> usageBlockedAt == old(usageBlockedAt)
    {
      var planned := GateCalls(count, quota, sub, usageBlockedAt, nowMs);
      calls := Issued(planned, failure);
      if |planned| == 3 && !Stopped(planned, failure) {
        usageBlockedAt := Num(planned[2].usageBlockedAt);
      }
    }
  }

  /**
   * Blocking is one way and happens once: after a gate that wrote the time
   * (at any clock reading of a second or more), a second gate writes
   * nothing, whatever the count and the clock.
   */
  lemma GateOnce(count1: nat, count2: nat, quota: Option<int>, sub: Option<string>, blockedAt: Value,
                 now1: nat, now2: nat)
    requires now1 >= 1000
    requires |GateCalls(count1, quota, sub, blockedAt, now1)| == 3
    ensures |GateCalls(count2, quota, sub, Num(now1 / 1000), now2)| <= 2
  {
  }

  /**
   * A write at a clock reading below one second stores 0, which the next
   * gate reads as unset: the guard relies on the stored time being truthy.
   */
  lemma GateZeroSecondsRewrites(quota: Option<int>, sub: string)
    requires quota == Some(0) && sub != ""
    ensures GateCalls(0, quota, Some(sub), Undefined, 999)[2] == BlockPatch(sub, 0)
    ensures |GateCalls(0, quota, Some(sub), Num(0), 5000)| == 3
  {
  }

  // ---------------------------------------------------------------------
  // The study list
  // ---------------------------------------------------------------------

  /** The message of the `RangeError` that `toISOString` throws for an invalid date. */
  const InvalidTime := "Invalid time value"

  /** The largest distance from the epoch, in milliseconds, that a JavaScript date can hold. */
  const MaxTimeMs := 8_640_000_000_000_000

  /**
   * `new Date(seconds * 1000).toISOString()` succeeds: the subscription
   * date is a number (`None` stands for a missing claim, whose product is
   * `NaN`) and the instant lies within the range of a date.
   */
  predicate ValidTime(seconds: Option<int>)
  {
    seconds.Some? && -MaxTimeMs <= seconds.value * 1000 <= MaxTimeMs
  }

  /**
   * The error the load records when it fails. A missing or out-of-range
   * subscription date makes the window fetch throw its `RangeError` before
   * it sends anything, which rejects the load at once and unprefixed.
   * Otherwise it is the rethrown message of a failing fetch, the earliest in
   * list order first.
   */
  function LoadFailure(start: Option<int>, end: Option<int>,
                       studies: Result<seq<ServerRecord>>, window: Result<seq<ServerRecord>>,
                       all: Result<seq<ServerRecord>>, userData: Result<seq<ServerRecord>>): (r: Option<string>)
    ensures r.None? <==> ValidTime(start) && ValidTime(end) && studies.Ok? && window.Ok? && all.Ok? && userData.Ok?
    ensures !(ValidTime(start) && ValidTime(end)) ==> r == Some(InvalidTime)
    ensures ValidTime(start) && ValidTime(end) && studies.Err? ==> r == Some(Failure(RecordsPrefix, studies.message))
    ensures ValidTime(start) && ValidTime(end) && studies.Ok? && window.Err? ==>
      r == Some(Failure(TranscriptsPrefix, window.message))
  {
    if !ValidTime(start) || !ValidTime(end) then Some(InvalidTime)
    else if studies.Err? then Some(Failure(RecordsPrefix, studies.message))
    else if window.Err? then Some(Failure(TranscriptsPrefix, window.message))
    else if all.Err? then Some(Failure(TranscriptsPrefix, all.message))
    else if userData.Err? then Some(Failure(UserDataPrefix, userData.message))
    else None
  }

  /**
   * Before the identity claims arrive the subscription dates are missing:
   * that load fails with the `RangeError`, whatever the fetches return, and
   * its error is none of the rethrown fetch failures.
   */
  lemma LoadBeforeClaimsFails(end: Option<int>, studies: Result<seq<ServerRecord>>,
                              window: Result<seq<ServerRecord>>, all: Result<seq<ServerRecord>>,
                              userData: Result<seq<ServerRecord>>, m: string)
    ensures LoadFailure(None, end, studies, window, all, userData) == Some(InvalidTime)
    ensures InvalidTime != Failure(RecordsPrefix, m) && InvalidTime != Failure(TranscriptsPrefix, m)
    ensures InvalidTime != Failure(UserDataPrefix, m)
  {
    assert InvalidTime[0] == 'I';
    assert Failure(RecordsPrefix, m)[0] == 'F';
    assert Failure(TranscriptsPrefix, m)[0] == 'F';
    assert Failure(UserDataPrefix, m)[0] == 'F';
  }

  class StudyStore {
    var records: seq<Record>
    var transcripts: seq<Record>
    var isLoading: bool
    var error: Option<string>
    /** `undefined` until the first load completes. */
    var completedInterviews: Option<nat>

    constructor()
      ensures records == [] && transcripts == [] && !isLoading && error == None
      ensures completedInterviews == None
    {
      records := [];
      transcripts := [];
      isLoading := false;
      error := None;
      completedInterviews := None;
    }

    /**
     * `createStudy(fields)`: the created record is appended and returned;
     * on failure the error is recorded and `false` (here `None`) returned.
     */
    method CreateStudy(created: Result<ServerRecord>) returns (result: Option<Record>)
      modifies this
      ensures transcripts == old(transcripts) && isLoading == old(isLoading)
      ensures completedInterviews == old(completedInterviews)
      ensures created.Ok? ==>
        result == Some(Record(created.value.id, created.value.fields)) &&
        records == old(records) + [result.value] && error == old(error)
      ensures created.Err? ==> result == None && records == old(records) && error == Some(created.message)
    {
      match created
      case Ok(r) =>
        result := Some(Record(r.id, r.fields));
        records := records + [result.value];
      case Err(m) =>
        result := None;
        error := Some(m);
    }

    /**
     * `updateStudy(id, fields)`: the records carrying the id the server
     * returned are replaced by the returned record and `true` returned; on
     * failure the error is recorded and `false` returned.
     */
    method UpdateStudy(id: string, updated: Result<ServerRecord>) returns (ok: bool)
      modifies this
      ensures transcripts == old(transcripts) && isLoading == old(isLoading)
      ensures completedInterviews == old(completedInterviews)
      ensures ok <==> updated.Ok?
      ensures updated.Ok? ==>
        records == ReplaceById(old(records), Record(updated.value.id, updated.value.fields)) &&
        error == old(error)
      ensures updated.Err? ==> records == old(records) && error == Some(updated.message)
    {
      match updated
      case Ok(r) =>
        records := ReplaceById(records, Record(r.id, r.fields));
        ok := true;
      case Err(m) =>
        error := Some(m);
        ok := false;
    }

    /**
     * `fetchStudies()`: on success the records are replaced wholesale by
     * the fetched list, in server order, and returned; a failure is
     * rethrown with a prefix and changes nothing.
     */
    method FetchStudies(fetched: Result<seq<ServerRecord>>) returns (result: Result<seq<Record>>)
      modifies this
      ensures transcripts == old(transcripts) && isLoading == old(isLoading)
      ensures completedInterviews == old(completedInterviews) && error == old(error)
      ensures fetched.Ok? ==> result == Ok(Project(fetched.value)) && records == Project(fetched.value)
      ensures fetched.Err? ==> result == Err(Failure(RecordsPrefix, fetched.message)) && records == old(records)
    {
      match fetched
      case Ok(rs) =>
        records := Project(rs);
        result := Ok(records);
      case Err(m) =>
        result := Err(Failure(RecordsPrefix, m));
    }

    /**
     * The load effect. `start` and `end` are the subscription dates of the
     * identity claims, in seconds. The four fetches run together: the
     * studies fetch sets the records as soon as it succeeds; if the window
     * cannot be computed or any fetch fails, loading stops and the error is
     * recorded. Otherwise loading stops, the records and all transcripts are
     * stored, the completed count over the window's transcripts is stored,
     * and the gate's requests are issued; one that fails ends them and
     * records its error.
     */
    method Load(start: Option<int>, end: Option<int>,
                studies: Result<seq<ServerRecord>>, window: Result<seq<ServerRecord>>,
                all: Result<seq<ServerRecord>>, userData: Result<seq<ServerRecord>>,
                email: Value, quota: Option<int>, sub: Option<string>, blockedAt: Value, nowMs: nat,
                gateFailure: Option<GateFailure>)
      returns (calls: seq<Call>)
      modifies this
      ensures !isLoading
      ensures studies.Ok? ==> records == Project(studies.value)
      ensures studies.Err? ==> records == old(records)
      ensures LoadFailure(start, end, studies, window, all, userData).None? ==>
        transcripts == Project(all.value) &&
        completedInterviews == Some(Completed(Project(studies.value), Project(window.value), email)) &&
        var planned := GateCalls(completedInterviews.value, quota, sub, blockedAt, nowMs);
        calls == Issued(planned, gateFailure) &&
        error == (if Stopped(planned, gateFailure) then Some(gateFailure.value.message) else old(error))
      ensures LoadFailure(start, end, studies, window, all, userData).Some? ==>
        transcripts == old(transcripts) && completedInterviews == old(completedInterviews) &&
        error == LoadFailure(start, end, studies, window, all, userData) && calls == []
    {
      isLoading := true;
      if studies.Ok? {
        records := Project(studies.value);
      }
      var failure := LoadFailure(start, end, studies, window, all, userData);
      if failure.None? {
        isLoading := false;
        transcripts := Project(all.value);
        var count := CountCompleted(records, Project(window.value), email);
        completedInterviews := Some(count);
        var planned := GateCalls(count, quota, sub, blockedAt, nowMs);
        calls := Issued(planned, gateFailure);
        if Stopped(planned, gateFailure) {
          error := Some(gateFailure.value.message);
        }
      } else {
        isLoading := false;
        error := failure;
        calls := [];
      }
    }
  }
}
