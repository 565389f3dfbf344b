/**
 * The insight modal: `formatContent`, a fixed chain of substitutions that
 * turns the plain-text summary into HTML; the mount-time guard that decides
 * whether the summary is computed remotely; and `renderContent`, which shows
 * a spinner while loading and otherwise picks the text to show by priority.
 */
module Insight {
  import opened Strings
  import opened Records

  const SummaryHeading := "<b>Executive Summary:</b>"
  const KeyPointsHeading := "<b>Key Points:</b>"
  const QuotesHeading := "<b>Notable Quotes:</b>"
  const NextStepsHeading := "<b>Suggested Next Steps:</b>"
  const Break := "<br>"
  const DefaultMessage := "Default Message"

  // ---------------------------------------------------------------------
  // formatContent
  // ---------------------------------------------------------------------

  /** A digit followed by '.' starts at index `i`: a match of `/\d\./`. */
  predicate DigitDotAt(s: string, i: nat)
  {
    i + 1 < |s| && IsDigit(s[i]) && s[i + 1] == '.'
  }

  /** `s.replace(/\d\./g, '<br>$&')`: a break before every digit followed by '.'. */
  function InsertBreaks(s: string): (r: string)
    ensures |r| >= |s|
    decreases |s|
  {
    if |s| < 2 then s
    else if DigitDotAt(s, 0) then Break + s[..2] + InsertBreaks(s[2..])
    else [s[0]] + InsertBreaks(s[1..])
  }

  /** Drops every `<br>` that stands right before a digit followed by '.'. */
  function RemoveBreaks(t: string): string
    decreases |t|
  {
    if |t| < 6 then t
    else if t[..4] == Break && DigitDotAt(t, 4) then t[4..6] + RemoveBreaks(t[6..])
    else [t[0]] + RemoveBreaks(t[1..])
  }

  /** `s.replace(h, '<br>' + h)`: the first occurrence of heading `h` gets a break before it. */
  function PrefixFirst(s: string, h: string): string
    requires |h| > 0
  {
    ReplaceFirst(s, h, Break + h)
  }

  /** The four heading substitutions, in source order. */
  function Headings(s: string): string
  {
    var s1 := ReplaceFirst(s, SummaryHeading, SummaryHeading);
    var s2 := ReplaceFirst(s1, KeyPointsHeading, KeyPointsHeading);
    PrefixFirst(PrefixFirst(s2, QuotesHeading), NextStepsHeading)
  }

  /** The three global substitutions, in source order. */
  function Breaks(s: string): string
  {
    ReplaceAll(InsertBreaks(ReplaceAll(s, "- ", Break + "- ")), "\n", Break)
  }

  /** `formatContent(content)`: nothing for empty content, the HTML otherwise. */
  function FormatContent(content: string): (r: Option<string>)
    ensures r.None? <==> content == ""
  {
    if content == "" then None else Some(Breaks(Headings(content)))
  }

  /** The first heading substitutions replace a heading by itself: they change nothing. */
  lemma HeadingsOnlyPrefix(s: string)
    ensures Headings(s) == PrefixFirst(PrefixFirst(s, QuotesHeading), NextStepsHeading)
  {
    ReplaceFirstBySelf(s, SummaryHeading);
    ReplaceFirstBySelf(s, KeyPointsHeading);
  }

  /**
   * Only the first occurrence of a heading gets a break: the text is
   * `a + h + b` with `h` absent from `a`, and the result is
   * `a + "<br>" + h + b` with `b`, and any later heading in it, untouched.
   */
  lemma PrefixFirstOnly(s: string, h: string)
    requires |h| > 0
    ensures !Contains(s, h) ==> PrefixFirst(s, h) == s
    ensures Contains(s, h) ==>
      (exists a, b :: s == a + h + b && !Contains(a, h) && PrefixFirst(s, h) == a + Break + h + b)
  {
    ReplaceFirstAtFirst(s, h, Break + h);
    if Contains(s, h) {
      var a, b :| s == a + h + b && !Contains(a, h) && ReplaceFirst(s, h, Break + h) == a + (Break + h) + b;
      assert a + (Break + h) + b == a + Break + h + b;
    }
  }

  /** The formatted text holds no newline: the last substitution replaces every one. */
  lemma FormatNoNewline(content: string)
    ensures FormatContent(content).Some? ==> '\n' !in FormatContent(content).value
  {
    var t := InsertBreaks(ReplaceAll(Headings(content), "- ", Break + "- "));
    ReplaceAllRemovesChar(t, '\n', Break);
  }

  /** Every dash followed by a space gets a break before it: the text is re-joined with `<br>- `. */
  lemma DashesBroken(s: string)
    ensures ReplaceAll(s, "- ", Break + "- ") == Join(Split(s, "- "), Break + "- ")
  {
    ReplaceAllIsSplitJoin(s, "- ", Break + "- ");
  }

  /** Formatting non-empty content gives non-empty HTML. */
  lemma FormatNonEmpty(content: string)
    requires content != ""
    ensures |FormatContent(content).value| >= |content|
  {
    var s1 := ReplaceFirst(content, SummaryHeading, SummaryHeading);
    var s2 := ReplaceFirst(s1, KeyPointsHeading, KeyPointsHeading);
    var s3 := PrefixFirst(s2, QuotesHeading);
    var s4 := PrefixFirst(s3, NextStepsHeading);
    ReplaceFirstLonger(content, SummaryHeading, SummaryHeading);
    ReplaceFirstLonger(s1, KeyPointsHeading, KeyPointsHeading);
    ReplaceFirstLonger(s2, QuotesHeading, Break + QuotesHeading);
    ReplaceFirstLonger(s3, NextStepsHeading, Break + NextStepsHeading);
    var d := ReplaceAll(s4, "- ", Break + "- ");
    ReplaceAllLonger(s4, "- ", Break + "- ");
    ReplaceAllLonger(InsertBreaks(d), "\n", Break);
  }

  /** `InsertBreaks` never yields a digit followed by '.' at its very start. */
  lemma NoLeadingDigitDot(x: string)
    ensures !DigitDotAt(InsertBreaks(x), 0)
  {
    if |x| >= 2 && !DigitDotAt(x, 0) {
      var y := InsertBreaks(x);
      assert y == [x[0]] + InsertBreaks(x[1..]);
      assert y[1] == InsertBreaks(x[1..])[0];
      if IsDigit(x[0]) {
        assert x[1] != '.';
        assert x[1..][0] == x[1];
        assert y[1] != '.';
      }
    }
  }

  /** A text whose `InsertBreaks` does not start with '<' keeps its first character, with no break. */
  lemma Peel(x: string)
    requires |x| >= 1 && InsertBreaks(x)[0] != '<'
    ensures InsertBreaks(x) == [x[0]] + InsertBreaks(x[1..])
  {
    if |x| >= 2 {
      assert !DigitDotAt(x, 0);
    }
  }

  /** `InsertBreaks` never yields `br>` followed by a digit and '.'. */
  lemma NoHiddenBreak(x: string)
    ensures var y := InsertBreaks(x);
      !(|y| >= 5 && y[..3] == "br>" && DigitDotAt(y, 3))
  {
    var y := InsertBreaks(x);
    if |y| >= 5 && y[..3] == "br>" {
      Peel(x);
      var x1 := x[1..];
      assert InsertBreaks(x1) == y[1..];
      Peel(x1);
      var x2 := x1[1..];
      assert InsertBreaks(x2) == y[2..];
      Peel(x2);
      var x3 := x2[1..];
      assert InsertBreaks(x3) == y[3..];
      NoLeadingDigitDot(x3);
    }
  }

  /** Removing the inserted breaks gives the text back: nothing but breaks is added. */
  lemma {:induction false} BreaksRoundTrip(s: string)
    ensures RemoveBreaks(InsertBreaks(s)) == s
    decreases |s|
  {
    if |s| < 2 {
    } else if DigitDotAt(s, 0) {
      var t := InsertBreaks(s);
      assert t[..4] == Break && DigitDotAt(t, 4);
      assert t[6..] == InsertBreaks(s[2..]);
      BreaksRoundTrip(s[2..]);
      assert s == s[..2] + s[2..];
    } else {
      var x := InsertBreaks(s[1..]);
      var t := [s[0]] + x;
      BreaksRoundTrip(s[1..]);
      if |t| >= 6 {
        NoHiddenBreak(s[1..]);
        assert t[1..4] == x[..3] && t[4..6] == x[3..5];
        assert !(t[..4] == Break && DigitDotAt(t, 4));
        assert t[1..] == x;
      }
      assert s == [s[0]] + s[1..];
    }
  }

  /** Scanning `a + b` is scanning `a` then `b` when no digit-'.' match straddles the seam. */
  lemma {:induction false} InsertBreaksAppend(a: string, b: string)
    requires |a| > 0 && |b| > 0 ==> !(IsDigit(a[|a| - 1]) && b[0] == '.')
    ensures InsertBreaks(a + b) == InsertBreaks(a) + InsertBreaks(b)
    decreases |a|
  {
    if |a| == 0 {
      assert a + b == b;
    } else if |a| == 1 {
      if |b| > 0 {
        assert !DigitDotAt(a + b, 0);
        InsertBreaksOther(a + b);
        assert (a + b)[1..] == b;
      }
    } else if DigitDotAt(a, 0) {
      InsertBreaksAppend(a[2..], b);
      var ab := a + b;
      DropAppend(a, b, 2);
      TakeAppend(a, b, 2);
      assert DigitDotAt(ab, 0);
      InsertBreaksMatch(ab);
      InsertBreaksMatch(a);
      Associate(Break + a[..2], InsertBreaks(a[2..]), InsertBreaks(b));
    } else {
      InsertBreaksAppend(a[1..], b);
      var ab := a + b;
      DropAppend(a, b, 1);
      assert !DigitDotAt(ab, 0) && ab[0] == a[0];
      InsertBreaksOther(ab);
      InsertBreaksOther(a);
      Associate([a[0]], InsertBreaks(a[1..]), InsertBreaks(b));
    }
  }

  /** One step of `InsertBreaks` at a digit followed by '.'. */
  lemma InsertBreaksMatch(s: string)
    requires DigitDotAt(s, 0)
    ensures InsertBreaks(s) == Break + s[..2] + InsertBreaks(s[2..])
  {
  }

  /** One step of `InsertBreaks` at any other character. */
  lemma InsertBreaksOther(s: string)
    requires |s| > 0 && !DigitDotAt(s, 0)
    ensures InsertBreaks(s) == [s[0]] + InsertBreaks(s[1..])
  {
    if |s| == 1 {
      InsertBreaksSingle(s);
    } else {
      InsertBreaksPlain(s);
    }
  }

  /** A single character is left as it is. */
  lemma InsertBreaksSingle(s: string)
    requires |s| == 1
    ensures InsertBreaks(s) == [s[0]] + InsertBreaks(s[1..])
  {
    assert s[1..] == [];
    assert s == [s[0]];
  }

  /** A first character that does not start a digit-dot pair is copied. */
  lemma InsertBreaksPlain(s: string)
    requires |s| >= 2 && !DigitDotAt(s, 0)
    ensures InsertBreaks(s) == [s[0]] + InsertBreaks(s[1..])
  {
  }

  lemma Associate(x: string, y: string, z: string)
    ensures x + (y + z) == (x + y) + z
  {
  }

  /** Every digit followed by '.' gets a break right before it, wherever it stands. */
  lemma BreakBeforeDigitDot(a: string, d: char, b: string)
    requires IsDigit(d)
    ensures InsertBreaks(a + [d, '.'] + b) == InsertBreaks(a) + Break + [d, '.'] + InsertBreaks(b)
  {
    var m := [d, '.'] + b;
    assert a + [d, '.'] + b == a + m;
    InsertBreaksAppend(a, m);
    assert DigitDotAt(m, 0) && m[..2] == [d, '.'] && m[2..] == b;
  }

  /** Text without a digit followed by '.' is left as it is. */
  lemma {:induction false} NoDigitDotUnchanged(s: string)
    requires forall i: nat :: !DigitDotAt(s, i)
    ensures InsertBreaks(s) == s
    decreases |s|
  {
    if |s| >= 2 {
      forall i: nat ensures !DigitDotAt(s[1..], i) {
        assert !DigitDotAt(s, i + 1);
      }
      NoDigitDotUnchanged(s[1..]);
      assert !DigitDotAt(s, 0);
      assert s == [s[0]] + s[1..];
    }
  }

  /** The digit substitution changes the text exactly when it holds a digit followed by '.'. */
  lemma InsertBreaksUnchangedIff(s: string)
    ensures InsertBreaks(s) == s <==> forall i: nat :: !DigitDotAt(s, i)
  {
    if forall i: nat :: !DigitDotAt(s, i) {
      NoDigitDotUnchanged(s);
    } else {
      var i: nat :| DigitDotAt(s, i);
      var a, b := s[..i], s[i + 2..];
      assert s == a + [s[i], '.'] + b;
      BreakBeforeDigitDot(a, s[i], b);
      assert |InsertBreaks(s)| > |s|;
    }
  }

  // ---------------------------------------------------------------------
  // The mount-time guard
  // ---------------------------------------------------------------------

  /** A call to `computeInsights(content, sessionId, chatId)`. */
  datatype Request = Request(content: string, sessionId: Option<string>, chatId: string)

  /** Some stored insight carries this chat's id. */
  predicate StoredFor(insights: Option<seq<Record>>, chatId: string)
  {
    insights.Some? && exists x :: x in insights.value && Field(x, "ChatSessionId") == Str(chatId)
  }

  /**
   * The mount effect: it returns early when a stored insight carries the
   * chat's id or a computed message exists, and otherwise issues exactly one
   * request to compute the summary. `insights` is `None` when the prop is
   * absent; `message` is `insight?.message`.
   */
  method Mount(content: string, sessionId: Option<string>, chatId: string,
               insights: Option<seq<Record>>, message: Value)
    returns (call: Option<Request>)
    ensures call.Some? <==> !StoredFor(insights, chatId) && !Truthy(message)
    ensures call.Some? ==> call.value == Request(content, sessionId, chatId)
  {
    if insights.Some? && FindByField(insights.value, "ChatSessionId", Str(chatId)).Some? {
      return None;
    }
    if Truthy(message) {
      return None;
    }
    call := Some(Request(content, sessionId, chatId));
  }

  // ---------------------------------------------------------------------
  // renderContent
  // ---------------------------------------------------------------------

  /** The `Insights` field of the first stored insight for the chat, or `undefined`. */
  function StoredMessage(insights: Option<seq<Record>>, chatId: string): (v: Value)
    ensures !StoredFor(insights, chatId) ==> v == Undefined
    ensures StoredFor(insights, chatId) ==>
      exists k :: IsFirstMatch(insights.value, "ChatSessionId", Str(chatId), k) &&
        v == Field(insights.value[k], "Insights")
  {
    if insights.None? then Undefined
    else
      FindByFieldIsFirst(insights.value, "ChatSessionId", Str(chatId));
      match FindByField(insights.value, "ChatSessionId", Str(chatId))
      case None => Undefined
      case Some(x) => Field(x, "Insights")
  }

  /** `matchingInsight?.fields?.Insights || insight?.message || 'Default Message'` */
  function ChooseMessage(insights: Option<seq<Record>>, chatId: string, message: Value): (r: Value)
    ensures Truthy(r)
    ensures Truthy(StoredMessage(insights, chatId)) ==> r == StoredMessage(insights, chatId)
    ensures !Truthy(StoredMessage(insights, chatId)) && Truthy(message) ==> r == message
    ensures !Truthy(StoredMessage(insights, chatId)) && !Truthy(message) ==> r == Str(DefaultMessage)
  {
    var stored := StoredMessage(insights, chatId);
    if Truthy(stored) then stored else if Truthy(message) then message else Str(DefaultMessage)
  }

  /** What the modal body shows. */
  datatype View = Spinner | Html(html: string) | TypeError

  /**
   * `renderContent()`: the spinner while loading; otherwise the chosen
   * message formatted, or `''` when formatting gives nothing. A chosen value
   * that is not a string makes `replace` throw.
   */
  function RenderContent(isLoading: bool, insights: Option<seq<Record>>, chatId: string,
                         message: Value): (r: View)
    ensures r.Spinner? <==> isLoading
  {
    if isLoading then Spinner
    else match ChooseMessage(insights, chatId, message)
      case Str(s) => Html(match FormatContent(s) case Some(h) => h case None => "")
      case _ => TypeError
  }

  /** A stored insight with text wins over the computed message, whatever that is. */
  lemma StoredWins(insights: Option<seq<Record>>, chatId: string, m1: Value, m2: Value)
    requires Truthy(StoredMessage(insights, chatId))
    ensures ChooseMessage(insights, chatId, m1) == ChooseMessage(insights, chatId, m2)
      == StoredMessage(insights, chatId)
  {
  }

  /**
   * Only the first stored insight for the chat is consulted: when it has no
   * text, the computed message (or the default) is shown even if a later
   * insight for the same chat has text.
   */
  lemma OnlyFirstStoredCounts(chatId: string)
    ensures var first := Record("i1", map["ChatSessionId" := Str(chatId)]);
      var later := Record("i2", map["ChatSessionId" := Str(chatId), "Insights" := Str("Later")]);
      ChooseMessage(Some([first, later]), chatId, Undefined) == Str(DefaultMessage)
  {
  }

  /** The default text is shown exactly when neither a stored text nor a computed message exists (or one of them is that text). */
  lemma DefaultWhenNothing(insights: Option<seq<Record>>, chatId: string, message: Value)
    ensures !Truthy(StoredMessage(insights, chatId)) && !Truthy(message) ==>
      ChooseMessage(insights, chatId, message) == Str(DefaultMessage)
    ensures ChooseMessage(insights, chatId, message) == Str(DefaultMessage) ==>
      (!Truthy(StoredMessage(insights, chatId)) && !Truthy(message)) ||
      StoredMessage(insights, chatId) == Str(DefaultMessage) || message == Str(DefaultMessage)
  {
  }

  /**
   * When nothing is stored for the chat and nothing was computed, mounting
   * requests the computation and, until it finishes, the default text is
   * what the modal would show.
   */
  lemma FreshChatShowsDefault(content: string, sessionId: Option<string>, chatId: string,
                              insights: Option<seq<Record>>)
    requires !StoredFor(insights, chatId)
    ensures ChooseMessage(insights, chatId, Undefined) == Str(DefaultMessage)
    ensures RenderContent(false, insights, chatId, Undefined) == Html(Breaks(Headings(DefaultMessage)))
  {
  }

  /** Outside loading a string message always gives non-empty HTML: the `|| ''` fallback never applies. */
  lemma HtmlNeverEmpty(insights: Option<seq<Record>>, chatId: string, message: Value)
    requires ChooseMessage(insights, chatId, message).Str?
    ensures RenderContent(false, insights, chatId, message).Html?
    ensures RenderContent(false, insights, chatId, message).html != ""
  {
    FormatNonEmpty(ChooseMessage(insights, chatId, message).s);
  }
}
