/**
 * `Dashboard`: the page frame. The header text is chosen from the path by
 * a sequence of substring tests in which the last match wins; the usage
 * banner shows when the completed interviews reach the quota, until the
 * user dismisses it for the rest of the browser session; `classNames`
 * joins the truthy class names with single spaces. The session storage is
 * the banner's `dismissedFlag` field.
 */
module Dashboard {
  import opened Records
  import opened Strings
  import opened StudyContext
  import opened CreateStudy

  // ---------------------------------------------------------------------
  // The header text
  // ---------------------------------------------------------------------

  const DefaultHeader := "Your studies"
  const CreateHeader := "Create Study"
  const EditHeader := "Edit Study"

  /**
   * The header by priority: no header on study and profile pages (any path
   * containing `view` or `me`), else the edit header, else the create
   * header, else the default.
   */
  function Header(path: string): string
  {
    if Contains(path, "view") || Contains(path, "me") then ""
    else if Contains(path, "edit") then EditHeader
    else if Contains(path, "create") then CreateHeader
    else DefaultHeader
  }

  /** The header as the page computes it: a default overwritten by each test that matches, in order. */
  method HeaderText(path: string) returns (header: string)
    ensures header == Header(path)
  {
    header := DefaultHeader;
    if Contains(path, "create") {
      header := CreateHeader;
    }
    if Contains(path, "edit") {
      header := EditHeader;
    }
    if Contains(path, "view") {
      header := "";
    }
    if Contains(path, "me") {
      header := "";
    }
  }

  /** A study's own page has no header. */
  lemma ViewPageHasNoHeader(sessionId: Value)
    ensures Header(ViewPath(sessionId)) == ""
  {
    var p := ViewPath(sessionId);
    assert p[7..11] == "view" by {
      assert p[..12][7..11] == "/study/view/"[7..11];
    }
    assert OccursAt(p, "view", 7);
  }

  /** `me` anywhere in the path wins over every other test, `edit` and `create` included. */
  lemma MeWins(path: string)
    requires Contains(path, "me")
    ensures Header(path) == ""
  {
  }

  /** A path matching none of the tests keeps the default header. */
  lemma DefaultWhenNoMatch(path: string)
    requires !Contains(path, "create") && !Contains(path, "edit")
    requires !Contains(path, "view") && !Contains(path, "me")
    ensures Header(path) == DefaultHeader
  {
  }

  // ---------------------------------------------------------------------
  // The usage banner
  // ---------------------------------------------------------------------

  /**
   * `completedInterviews >= interviewCount && isUsageBannerVisible`: an
   * unknown count or an unknown quota compares false.
   */
  predicate BannerShows(completed: Option<nat>, quota: Option<int>, visible: bool)
  {
    completed.Some? && QuotaReached(completed.value, quota) && visible
  }

  /**
   * Until dismissed, the banner shows exactly when the study context's
   * usage gate makes its calls for the same count and quota.
   */
  lemma BannerMatchesGate(count: nat, quota: Option<int>, sub: Option<string>, blockedAt: Value, nowMs: nat)
    ensures BannerShows(Some(count), quota, true) <==> GateCalls(count, quota, sub, blockedAt, nowMs) != []
  {
  }

  class UsageBanner {
    var visible: bool
    /** The session-storage item `usageBannerDismissed`. */
    var dismissedFlag: Option<string>

    /** Mounting: the banner is visible exactly when no dismissal is stored. */
    constructor(stored: Option<string>)
      ensures dismissedFlag == stored
      ensures visible <==> stored.None?
    {
      dismissedFlag := stored;
      visible := stored.None?;
    }

    /** Dismissing hides the banner and stores the dismissal. */
    method Dismiss()
      modifies this
      ensures !visible && dismissedFlag == Some("true")
      ensures forall completed, quota :: !BannerShows(completed, quota, visible)
    {
      visible := false;
      dismissedFlag := Some("true");
    }
  }

  /** Dismissal is one way: once stored, a later mount starts hidden and the banner never shows. */
  method DismissThenRemount(stored: Option<string>, completed: Option<nat>, quota: Option<int>)
    returns (shows: bool)
    ensures !shows
  {
    var banner := new UsageBanner(stored);
    banner.Dismiss();
    var again := new UsageBanner(banner.dismissedFlag);
    shows := BannerShows(completed, quota, again.visible);
  }

  // ---------------------------------------------------------------------
  // classNames
  // ---------------------------------------------------------------------

  /** The text of each truthy entry, in order. */
  function Kept(classes: seq<Value>): (r: seq<string>)
    ensures |r| <= |classes|
  {
    if classes == [] then []
    else (if Truthy(classes[0]) then [Text(classes[0])] else []) + Kept(classes[1..])
  }

  /** `classes.filter(Boolean).join(' ')` */
  function ClassNames(classes: seq<Value>): string
  {
    Join(Kept(classes), " ")
  }

  /** One step of `Kept`. */
  lemma KeptStep(classes: seq<Value>)
    requires classes != []
    ensures Kept(classes) == (if Truthy(classes[0]) then [Text(classes[0])] else []) + Kept(classes[1..])
  {
  }

  /** Filtering distributes over concatenation: the kept names keep their order. */
  lemma {:induction false} KeptAppend(a: seq<Value>, b: seq<Value>)
    ensures Kept(a + b) == Kept(a) + Kept(b)
    decreases |a|
  {
    if a == [] {
      assert a + b == b;
    } else {
      var head := if Truthy(a[0]) then [Text(a[0])] else [];
      assert Kept(a + b) == head + Kept(a[1..] + b) by {
        KeptStep(a + b);
        assert (a + b)[0] == a[0];
        assert (a + b)[1..] == a[1..] + b;
      }
      KeptStep(a);
      KeptAppend(a[1..], b);
    }
  }

  /** A falsy entry contributes nothing, wherever it stands. */
  lemma ClassNamesDropsFalsy(a: seq<Value>, x: Value, b: seq<Value>)
    requires !Truthy(x)
    ensures ClassNames(a + [x] + b) == ClassNames(a + b)
  {
    KeptAppend(a + [x], b);
    KeptAppend(a, [x]);
    KeptAppend(a, b);
    assert Kept([x]) == [] by {
      assert [x][1..] == [];
    }
    assert Kept(a) + [] == Kept(a);
  }

  /**
   * When no kept class name holds a space, splitting the result on spaces
   * gives back the kept names: the join loses nothing.
   */
  lemma ClassNamesSplit(classes: seq<Value>)
    requires |Kept(classes)| >= 1
    requires forall k :: 0 <= k < |Kept(classes)| ==> ' ' !in Kept(classes)[k]
    ensures Split(ClassNames(classes), " ") == Kept(classes)
  {
    SplitJoin(Kept(classes), ' ');
  }
}
