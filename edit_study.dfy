/**
 * `ViewStudy` (the study page): the session id read from the page's path,
 * the study and the transcripts that belong to it, the started and
 * completed totals, the completion percentage, the numbering of the
 * interview rows and the rule that disables a row once the account's usage
 * was blocked before the interview started. `Date.parse` and the clock are
 * inputs: a creation time in milliseconds, or nothing when it did not parse.
 */
module EditStudy {
  import opened Records
  import opened Strings
  import opened StudyContext
  import opened CreateStudy

  // ---------------------------------------------------------------------
  // The session id in the path
  // ---------------------------------------------------------------------

  /** `path.split('/')[3]`: the fourth segment of the path, or `undefined` when there is none. */
  function SessionIdFromPath(path: string): (v: Value)
    ensures v.Str? || v == Undefined
    ensures v.Str? ==> '/' !in v.s
  {
    var parts := Split(path, "/");
    if |parts| > 3 then
      SplitPiecesFree(path, "/");
      ContainsChar(parts[3], '/');
      Str(parts[3])
    else Undefined
  }

  /** Splitting at the first slash when it follows a slash-free word. */
  lemma SplitAfterWord(w: string, rest: string)
    requires '/' !in w
    ensures Split(w + "/" + rest, "/") == [w] + Split(rest, "/")
  {
    var s := w + "/" + rest;
    forall j | 0 <= j < |w| ensures !OccursAt(s, "/", j) {
      assert s[j..j + 1] == [w[j]];
    }
    SplitAtFirst(w, "/", rest);
  }

  /** A study page's path is the empty word, then the words `study` and `view`, then the id, joined by slashes. */
  lemma ViewPathShape(id: string)
    ensures "/study/view/" + id == "" + "/" + ("study" + "/" + ("view" + "/" + id))
  {
  }

  /** The pieces of a study page's path. */
  lemma ViewPathSplit(id: string)
    requires '/' !in id
    ensures Split("/study/view/" + id, "/") == ["", "study", "view", id]
  {
    var r3 := "view" + "/" + id;
    var r2 := "study" + "/" + r3;
    assert Split(id, "/") == [id] by {
      ContainsChar(id, '/');
      SplitWithoutSeparator(id, "/");
    }
    assert Split(r3, "/") == ["view", id] by {
      SplitAfterWord("view", id);
    }
    assert Split(r2, "/") == ["study", "view", id] by {
      SplitAfterWord("study", r3);
    }
    ViewPathShape(id);
    SplitAfterWord("", r2);
  }

  /**
   * The study page reads back the session id the form navigated with:
   * the path of a study's page yields that study's session id as text,
   * whenever the text has no slash in it. The path is taken to reach the
   * page unchanged (no percent-encoding, no cut at '?' or '#').
   */
  lemma PathRoundTrip(v: Value)
    requires '/' !in Text(v)
    ensures SessionIdFromPath(ViewPath(v)) == Str(Text(v))
  {
    ViewPathSplit(Text(v));
  }

  /** The example path of the study page. */
  lemma PathExample()
    ensures SessionIdFromPath("/study/view/abc") == Str("abc")
  {
    assert ViewPath(Str("abc")) == "/study/view/abc";
    PathRoundTrip(Str("abc"));
  }

  // ---------------------------------------------------------------------
  // Totals and the percentage
  // ---------------------------------------------------------------------

  /** The transcripts of a study: those carrying its session id, in their original order. */
  function StudyTranscripts(ts: seq<Record>, sessionId: Value): (r: seq<Record>)
    ensures forall x :: x in r <==> x in ts && Field(x, "Session ID") == sessionId
  {
    WithField(ts, "Session ID", sessionId)
  }

  /** The "Total Completed" figure: the transcripts whose `isComplete` is truthy. */
  function CompletedCount(ts: seq<Record>): (n: nat)
    ensures n <= |ts|
  {
    |WhereTruthy(ts, "isComplete")|
  }

  /** Only completed interviews count: one more started interview leaves the completed total alone. */
  lemma CompletedCountStarted(ts: seq<Record>, t: Record)
    requires !Truthy(Field(t, "isComplete"))
    ensures CompletedCount(ts + [t]) == CompletedCount(ts)
    ensures CompletedCount(ts + [t]) <= |ts|
  {
    WhereTruthyAppend(ts, [t], "isComplete");
    assert WhereTruthy([t], "isComplete") == [];
  }

  /**
   * `Math.round(completed / total * 100)` on exact arithmetic: the nearest
   * whole percentage, halves rounded up.
   */
  function RoundPercent(completed: nat, total: nat): (r: int)
    requires total > 0
    ensures 2 * total * r <= 200 * completed + total < 2 * total * (r + 1)
  {
    (200 * completed + total) / (2 * total)
  }

  /** Multiplying by a positive factor keeps the order of two integers, both ways. */
  lemma MulStrict(t: int, a: int, b: int)
    requires t > 0
    ensures a < b <==> t * a < t * b
  {
    assert t * b - t * a == t * (b - a);
  }

  /** The percentage of a share is between 0 and 100, and 0 and 100 exactly for none and all. */
  lemma PercentBounds(completed: nat, total: nat)
    requires 0 < total && completed <= total
    ensures 0 <= RoundPercent(completed, total) <= 100
    ensures completed == 0 ==> RoundPercent(completed, total) == 0
    ensures completed == total ==> RoundPercent(completed, total) == 100
  {
    var r := RoundPercent(completed, total);
    var t := 2 * total;
    assert t * (r + 1) == t * r + t;
    MulStrict(t, -1, r);
    MulStrict(t, r, 101);
    MulStrict(t, r, 1);
    MulStrict(t, 100, r + 1);
  }

  // ---------------------------------------------------------------------
  // Row numbering and the usage block
  // ---------------------------------------------------------------------

  /** The labels of `n` rows: `length - index` for each index. */
  function RowLabels(n: nat): (r: seq<nat>)
    ensures |r| == n
  {
    if n == 0 then [] else [n] + RowLabels(n - 1)
  }

  /** The rows are numbered from `n` down to 1, the newest interview first. */
  lemma {:induction false} RowLabelsCountDown(n: nat)
    ensures forall i :: 0 <= i < n ==> RowLabels(n)[i] == n - i
  {
    if n > 0 {
      RowLabelsCountDown(n - 1);
      assert forall i :: 1 <= i < n ==> RowLabels(n)[i] == RowLabels(n - 1)[i - 1];
    }
  }

  /** Every label from 1 to `n` is used once. */
  lemma RowLabelsAreOneToN(n: nat)
    ensures forall m :: m in RowLabels(n) <==> 1 <= m <= n
  {
    RowLabelsCountDown(n);
    forall m | 1 <= m <= n ensures m in RowLabels(n) {
      assert RowLabels(n)[n - m] == m;
    }
  }

  /**
   * `usageBlockedAt < Date.parse(createdAt) / 1000`: a row is disabled when
   * the account's usage was blocked, in seconds, strictly before the
   * interview started. A missing block time or an unparsable creation time
   * compares false.
   */
  predicate ShouldBlockUsage(blockedAt: Option<int>, createdMs: Option<int>)
  {
    blockedAt.Some? && createdMs.Some? && blockedAt.value * 1000 < createdMs.value
  }

  /** The integer comparison is the source's comparison of seconds against milliseconds over 1000. */
  lemma ShouldBlockUsageIsDivision(blockedAt: Option<int>, createdMs: Option<int>)
    ensures ShouldBlockUsage(blockedAt, createdMs) <==>
      blockedAt.Some? && createdMs.Some? && (blockedAt.value as real) < (createdMs.value as real) / 1000.0
  {
  }

  /** No block time disables nothing. */
  lemma NeverBlockedWithoutBlock(createdMs: Option<int>)
    ensures !ShouldBlockUsage(None, createdMs)
  {
  }

  /**
   * After the gate writes the block at clock reading `nowMs`, every
   * interview started after that is disabled, and one started at or before
   * the whole second of the write is not: interviews started within that
   * second, just before the write, are disabled too.
   */
  lemma BlockedAfterGate(nowMs: nat, createdMs: int)
    ensures createdMs > nowMs ==> ShouldBlockUsage(Some(Seconds(nowMs)), Some(createdMs))
    ensures createdMs <= Seconds(nowMs) * 1000 ==> !ShouldBlockUsage(Some(Seconds(nowMs)), Some(createdMs))
  {
  }

  /** A later interview is disabled whenever an earlier one is. */
  lemma BlockMonotone(blockedAt: int, earlier: int, later: int)
    requires earlier <= later && ShouldBlockUsage(Some(blockedAt), Some(earlier))
    ensures ShouldBlockUsage(Some(blockedAt), Some(later))
  {
  }

  // ---------------------------------------------------------------------
  // The page's state
  // ---------------------------------------------------------------------

  class StudyPage {
    /** Read from the path once, when the page mounts. */
    var sessionId: Value
    var currentStudy: Option<Record>
    var transcriptsForStudy: seq<Record>
    var percentage: int

    /** The percentage shown is always a whole percentage between 0 and 100. */
    predicate Valid()
      reads this
    {
      0 <= percentage <= 100
    }

    constructor(path: string)
      ensures Valid()
      ensures sessionId == SessionIdFromPath(path) && currentStudy == None
      ensures transcriptsForStudy == [] && percentage == 0
    {
      sessionId := SessionIdFromPath(path);
      currentStudy := None;
      transcriptsForStudy := [];
      percentage := 0;
    }

    /** The study effect: with a session id, the current study is the first record carrying it. */
    method OnRecords(records: seq<Record>)
      modifies this
      requires Valid()
      ensures Valid()
      ensures sessionId == old(sessionId) && transcriptsForStudy == old(transcriptsForStudy)
      ensures percentage == old(percentage)
      ensures Truthy(sessionId) ==> currentStudy == FindByField(records, "Session ID", sessionId)
      ensures !Truthy(sessionId) ==> currentStudy == old(currentStudy)
    {
      if Truthy(sessionId) {
        currentStudy := FindByField(records, "Session ID", sessionId);
      }
    }

    /** The transcripts effect: a non-empty transcript list replaces the study's transcripts. */
    method OnTranscripts(transcripts: seq<Record>)
      modifies this
      requires Valid()
      ensures Valid()
      ensures sessionId == old(sessionId) && currentStudy == old(currentStudy)
      ensures percentage == old(percentage)
      ensures |transcripts| > 0 ==> transcriptsForStudy == StudyTranscripts(transcripts, sessionId)
      ensures |transcripts| == 0 ==> transcriptsForStudy == old(transcriptsForStudy)
    {
      if |transcripts| > 0 {
        transcriptsForStudy := StudyTranscripts(transcripts, sessionId);
      }
    }

    /**
     * `calculatePercentage`: with at least one transcript the percentage
     * becomes the rounded share of completed ones; with none it keeps its
     * previous value.
     */
    method CalculatePercentage()
      modifies this
      requires Valid()
      ensures Valid()
      ensures sessionId == old(sessionId) && currentStudy == old(currentStudy)
      ensures transcriptsForStudy == old(transcriptsForStudy)
      ensures |transcriptsForStudy| > 0 ==>
        percentage == RoundPercent(CompletedCount(transcriptsForStudy), |transcriptsForStudy|)
      ensures |transcriptsForStudy| == 0 ==> percentage == old(percentage)
    {
      var completed := CompletedCount(transcriptsForStudy);
      var total := |transcriptsForStudy|;
      if total != 0 {
        PercentBounds(completed, total);
        percentage := RoundPercent(completed, total);
      }
    }
  }
}
