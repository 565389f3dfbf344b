/**
 * `ParseConversation` of the transcript modal: a stored interview
 * transcript is cut at every `**Assistant**: ` marker, each part is cut
 * again at every `**User**: ` marker, the parts are flattened in order,
 * the first part (the text before any marker) is dropped, and the rest
 * are shown as turns labelled by their position alone: odd positions
 * "Assistant", even positions "User".
 */
module Transcript {
  import opened Strings

  const AssistantMarker := "**Assistant**: "
  const UserMarker := "**User**: "

  datatype Speaker = Assistant | User

  /** One displayed paragraph: its bold label and its text. */
  datatype Turn = Turn(speaker: Speaker, text: string)

  /** `parts.map(p => p.split(d))` */
  function SplitEach(ps: seq<string>, d: string): (r: seq<seq<string>>)
    requires |d| > 0
    ensures |r| == |ps|
    ensures forall k :: 0 <= k < |ps| ==> r[k] == Split(ps[k], d)
  {
    if ps == [] then [] else [Split(ps[0], d)] + SplitEach(ps[1..], d)
  }

  /** `parts.map(p => p.join(d))` */
  function JoinEach(xss: seq<seq<string>>, d: string): (r: seq<string>)
    ensures |r| == |xss|
    ensures forall k :: 0 <= k < |xss| ==> r[k] == Join(xss[k], d)
  {
    if xss == [] then [] else [Join(xss[0], d)] + JoinEach(xss[1..], d)
  }

  /** `xss.flat()` */
  function Flatten(xss: seq<seq<string>>): seq<string>
  {
    if xss == [] then [] else xss[0] + Flatten(xss[1..])
  }

  /** The nested split: on the assistant marker, then each part on the user marker. */
  function Nested(conversation: string): seq<seq<string>>
  {
    SplitEach(Split(conversation, AssistantMarker), UserMarker)
  }

  /** `flattenedSplit` */
  function Pieces(conversation: string): seq<string>
  {
    Flatten(Nested(conversation))
  }

  /** The label the modal gives the piece at `index` (the piece at 0 is never shown). */
  function LabelAt(index: nat): Speaker
  {
    if index % 2 == 1 then Assistant else User
  }

  /** The turns `ParseConversation` renders, in order. */
  function ParseConversation(conversation: string): seq<Turn>
  {
    var ps := Pieces(conversation);
    seq(|ps| - 1, k requires 0 <= k < |ps| - 1 => Turn(LabelAt(k + 1), ps[k + 1]))
  }

  // ---------------------------------------------------------------------
  // Split / flatten laws
  // ---------------------------------------------------------------------

  lemma {:induction false} FlattenAppend(a: seq<seq<string>>, b: seq<seq<string>>)
    ensures Flatten(a + b) == Flatten(a) + Flatten(b)
    decreases |a|
  {
    if a == [] {
      assert a + b == b;
    } else {
      assert (a + b)[1..] == a[1..] + b;
      FlattenAppend(a[1..], b);
    }
  }

  /** An element of the flattening comes from one of the inner lists. */
  lemma {:induction false} FlattenMember(xss: seq<seq<string>>, i: nat)
    requires i < |Flatten(xss)|
    ensures exists k, j :: 0 <= k < |xss| && 0 <= j < |xss[k]| && Flatten(xss)[i] == xss[k][j]
    decreases |xss|
  {
    if i < |xss[0]| {
      assert Flatten(xss)[i] == xss[0][i];
    } else {
      FlattenMember(xss[1..], i - |xss[0]|);
      var k, j :| 0 <= k < |xss[1..]| && 0 <= j < |xss[1..][k]| &&
        Flatten(xss[1..])[i - |xss[0]|] == xss[1..][k][j];
      assert Flatten(xss)[i] == xss[k + 1][j];
    }
  }

  /** Flattening lists that each hold at least one piece keeps at least one piece per list. */
  lemma {:induction false} FlattenLength(xss: seq<seq<string>>)
    requires forall k :: 0 <= k < |xss| ==> |xss[k]| >= 1
    ensures |Flatten(xss)| >= |xss|
    decreases |xss|
  {
    if xss != [] {
      FlattenLength(xss[1..]);
    }
  }

  /** There is always at least one piece, so `ParseConversation` shows one turn fewer than there are pieces. */
  lemma TurnCount(conversation: string)
    ensures |Pieces(conversation)| >= 1
    ensures |ParseConversation(conversation)| == |Pieces(conversation)| - 1
  {
    FlattenLength(Nested(conversation));
  }

  /**
   * Re-joining each part with the user marker and then all parts with the
   * assistant marker reconstructs the transcript exactly.
   */
  lemma Reassemble(conversation: string)
    ensures Join(JoinEach(Nested(conversation), UserMarker), AssistantMarker) == conversation
  {
    var outer := Split(conversation, AssistantMarker);
    var inner := JoinEach(Nested(conversation), UserMarker);
    forall k | 0 <= k < |outer| ensures inner[k] == outer[k] {
      JoinSplit(outer[k], UserMarker);
    }
    assert inner == outer;
    JoinSplit(conversation, AssistantMarker);
  }

  /** No piece contains either marker. */
  lemma PiecesFree(conversation: string)
    ensures forall i :: 0 <= i < |Pieces(conversation)| ==>
      !Contains(Pieces(conversation)[i], AssistantMarker) &&
      !Contains(Pieces(conversation)[i], UserMarker)
  {
    var outer := Split(conversation, AssistantMarker);
    var nested := Nested(conversation);
    SplitPiecesFree(conversation, AssistantMarker);
    forall i | 0 <= i < |Pieces(conversation)|
      ensures !Contains(Pieces(conversation)[i], AssistantMarker)
      ensures !Contains(Pieces(conversation)[i], UserMarker)
    {
      FlattenMember(nested, i);
      var k, j :| 0 <= k < |nested| && 0 <= j < |nested[k]| && Pieces(conversation)[i] == nested[k][j];
      SplitPiecesFree(outer[k], UserMarker);
      SplitKeepsAbsence(outer[k], UserMarker, AssistantMarker);
    }
  }

  /** Nothing is shown exactly when the transcript holds neither marker. */
  lemma NothingShownIff(conversation: string)
    ensures ParseConversation(conversation) == [] <==>
      !Contains(conversation, AssistantMarker) && !Contains(conversation, UserMarker)
  {
    TurnCount(conversation);
    var outer := Split(conversation, AssistantMarker);
    var nested := Nested(conversation);
    SplitSingleIff(conversation, AssistantMarker);
    FlattenLength(nested);
    if |outer| == 1 {
      assert conversation == outer[0] by {
        SplitWithoutSeparatorIff(conversation, AssistantMarker);
      }
      assert nested == [nested[0]];
      assert Flatten(nested) == nested[0] + Flatten([]);
      SplitSingleIff(outer[0], UserMarker);
    }
  }

  lemma SplitWithoutSeparatorIff(s: string, d: string)
    requires |d| > 0 && |Split(s, d)| == 1
    ensures Split(s, d) == [s]
  {
    SplitSingleIff(s, d);
    SplitWithoutSeparator(s, d);
  }

  // ---------------------------------------------------------------------
  // Alternating transcripts
  // ---------------------------------------------------------------------

  /** The marker that introduces turn `k` of an alternating transcript, assistant first. */
  function MarkerAt(k: nat): string
  {
    if k % 2 == 0 then AssistantMarker else UserMarker
  }

  /** The speaker whose marker introduces turn `k`. */
  function SpeakerAt(k: nat): Speaker
  {
    if k % 2 == 0 then Assistant else User
  }

  /** Turns `k..` of an alternating transcript. */
  function RenderTurns(texts: seq<string>, k: nat): string
    decreases |texts|
  {
    if texts == [] then "" else MarkerAt(k) + texts[0] + RenderTurns(texts[1..], k + 1)
  }

  /** An introduction followed by alternating assistant and user turns, as the interview writes it. */
  function Render(intro: string, texts: seq<string>): string
  {
    intro + RenderTurns(texts, 0)
  }

  /** Each text labelled with the speaker whose marker introduced it. */
  function Written(texts: seq<string>): (r: seq<Turn>)
    ensures |r| == |texts|
  {
    seq(|texts|, k requires 0 <= k < |texts| => Turn(SpeakerAt(k), texts[k]))
  }

  /** The text holds neither marker. */
  predicate Plain(t: string)
  {
    !Contains(t, AssistantMarker) && !Contains(t, UserMarker)
  }

  /** Neither marker can begin inside a text and run into an assistant marker after it. */
  lemma AssistantMarkerClear()
    ensures Clear(AssistantMarker, AssistantMarker)
  {
    var m := AssistantMarker;
    forall i | 0 < i < |m| ensures !Overlaps(m, m, i) {
      if i == 1 || i == 12 {
        assert m[i + 1] != m[1];
      } else if i == 11 {
        assert m[i + 2] != m[2];
      } else {
        assert m[i + 0] != m[0];
      }
    }
  }

  /** An assistant marker cannot begin inside a text and run into a user marker after it. */
  lemma AssistantBeforeUserClear()
    ensures Clear(AssistantMarker, UserMarker)
  {
    var m := AssistantMarker;
    forall i | 0 < i < |m| ensures !Overlaps(m, UserMarker, i) {
      if i == 1 || i == 12 {
        assert m[i + 1] != UserMarker[1];
      } else if i == 11 {
        assert m[i + 2] != UserMarker[2];
      } else {
        assert m[i + 0] != UserMarker[0];
      }
    }
  }

  /** User markers never overlap one another. */
  lemma UserMarkerClear()
    ensures Clear(UserMarker, UserMarker)
  {
    var m := UserMarker;
    forall i | 0 < i < |m| ensures !Overlaps(m, m, i) {
      if i == 1 || i == 7 {
        assert m[i + 1] != m[1];
      } else if i == 6 {
        assert m[i + 2] != m[2];
      } else {
        assert m[i + 0] != m[0];
      }
    }
  }

  /** An exchange of two plain texts holds no assistant marker. */
  lemma ExchangeFree(t0: string, t1: string)
    requires Plain(t0) && Plain(t1)
    ensures !Contains(t0 + UserMarker + t1, AssistantMarker)
  {
    var x := t0 + UserMarker + t1;
    var o := |t0| + |UserMarker|;
    AssistantBeforeUserClear();
    NoOccurrenceBefore(t0, AssistantMarker, UserMarker, t1);
    forall j: nat | j <= |x| ensures !OccursAt(x, AssistantMarker, j) {
      if |t0| <= j < o && j + |AssistantMarker| <= |x| {
        var m := j - |t0|;
        var w := x[j..j + |AssistantMarker|];
        if m == 0 || m == 6 {
          assert w[2] == x[j + 2] == UserMarker[m + 2] != AssistantMarker[2];
        } else if m == 1 || m == 7 {
          assert w[1] == x[j + 1] == UserMarker[m + 1] != AssistantMarker[1];
        } else {
          assert w[0] == x[j] == UserMarker[m] != AssistantMarker[0];
        }
      } else if o <= j && j + |AssistantMarker| <= |x| {
        assert !OccursAt(t1, AssistantMarker, j - o);
        assert x[o..] == t1;
        assert x[j..j + |AssistantMarker|] == x[o..][j - o..j - o + |AssistantMarker|];
      }
    }
  }

  /** The parts between assistant markers of an alternating transcript. */
  function Exchanges(texts: seq<string>): seq<string>
    decreases |texts|
  {
    if |texts| == 0 then []
    else if |texts| == 1 then [texts[0]]
    else [texts[0] + UserMarker + texts[1]] + Exchanges(texts[2..])
  }

  lemma {:induction false} RenderTurnsParity(texts: seq<string>, k: nat)
    ensures RenderTurns(texts, k + 2) == RenderTurns(texts, k)
    decreases |texts|
  {
    if texts != [] {
      assert MarkerAt(k + 2) == MarkerAt(k) by {
        assert (k + 2) % 2 == k % 2;
      }
      RenderTurnsParity(texts[1..], k + 1);
    }
  }

  /** Splitting an alternating transcript on the assistant marker yields the exchanges. */
  lemma {:induction false} SplitRendered(a: string, texts: seq<string>)
    requires !Contains(a, AssistantMarker) && forall k :: 0 <= k < |texts| ==> Plain(texts[k])
    ensures Split(a + RenderTurns(texts, 0), AssistantMarker) == [a] + Exchanges(texts)
    decreases |texts|
  {
    if texts == [] {
      assert a + RenderTurns(texts, 0) == a;
      SplitWithoutSeparator(a, AssistantMarker);
    } else {
      SplitAfterIntro(a, texts);
      var rest := RenderTurns(texts[1..], 1);
      if |texts| == 1 {
        assert texts[0] + rest == texts[0];
        SplitWithoutSeparator(texts[0], AssistantMarker);
      } else {
        var exchange := texts[0] + UserMarker + texts[1];
        ExchangeThenTurns(texts);
        ExchangeFree(texts[0], texts[1]);
        SplitRendered(exchange, texts[2..]);
      }
    }
  }

  /** The text before the first assistant marker is the introduction. */
  lemma SplitAfterIntro(a: string, texts: seq<string>)
    requires !Contains(a, AssistantMarker) && |texts| >= 1
    ensures Split(a + RenderTurns(texts, 0), AssistantMarker) ==
      [a] + Split(texts[0] + RenderTurns(texts[1..], 1), AssistantMarker)
  {
    var b := texts[0] + RenderTurns(texts[1..], 1);
    assert a + RenderTurns(texts, 0) == a + AssistantMarker + b by {
      assert RenderTurns(texts, 0) == AssistantMarker + b;
    }
    AssistantMarkerClear();
    NoOccurrenceBefore(a, AssistantMarker, AssistantMarker, b);
    SplitAtFirst(a, AssistantMarker, b);
  }

  /** From the first turn on, a transcript of two or more turns is an exchange and then the rest. */
  lemma ExchangeThenTurns(texts: seq<string>)
    requires |texts| >= 2
    ensures texts[0] + RenderTurns(texts[1..], 1) ==
      texts[0] + UserMarker + texts[1] + RenderTurns(texts[2..], 0)
  {
    assert texts[1..][1..] == texts[2..];
    RenderTurnsParity(texts[2..], 0);
  }

  /** Splitting the exchanges on the user marker and flattening gives the texts back. */
  lemma {:induction false} FlattenExchanges(texts: seq<string>)
    requires forall k :: 0 <= k < |texts| ==> Plain(texts[k])
    ensures Flatten(SplitEach(Exchanges(texts), UserMarker)) == texts
    decreases |texts|
  {
    var es := Exchanges(texts);
    if |texts| == 0 {
    } else if |texts| == 1 {
      SplitWithoutSeparator(texts[0], UserMarker);
      assert SplitEach(es, UserMarker) == [[texts[0]]];
    } else {
      var t0, t1 := texts[0], texts[1];
      SplitExchange(t0, t1);
      FlattenExchanges(texts[2..]);
      var more := SplitEach(Exchanges(texts[2..]), UserMarker);
      assert es == [t0 + UserMarker + t1] + Exchanges(texts[2..]);
      assert SplitEach(es, UserMarker) == [[t0, t1]] + more;
      FlattenAppend([[t0, t1]], more);
      assert texts == [t0, t1] + texts[2..];
    }
  }

  /** An exchange splits on the user marker into its two texts. */
  lemma SplitExchange(t0: string, t1: string)
    requires Plain(t0) && Plain(t1)
    ensures Split(t0 + UserMarker + t1, UserMarker) == [t0, t1]
  {
    UserMarkerClear();
    NoOccurrenceBefore(t0, UserMarker, UserMarker, t1);
    SplitAtFirst(t0, UserMarker, t1);
    SplitWithoutSeparator(t1, UserMarker);
  }

  /**
   * A transcript written as an introduction followed by alternating
   * assistant and user turns, none of whose texts contains either marker, is
   * shown as exactly those turns, each labelled with the speaker whose marker
   * introduced it. Bold text such as `**Summary**` is allowed.
   */
  lemma ParseRendered(intro: string, texts: seq<string>)
    requires Plain(intro) && forall k :: 0 <= k < |texts| ==> Plain(texts[k])
    ensures ParseConversation(Render(intro, texts)) == Written(texts)
  {
    var c := Render(intro, texts);
    PiecesRendered(intro, texts);
    var ps := Pieces(c);
    var r := ParseConversation(c);
    assert |r| == |texts|;
    forall k | 0 <= k < |texts| ensures r[k] == Written(texts)[k] {
      assert ps[k + 1] == texts[k];
    }
  }

  /** The pieces of a rendered transcript are the introduction and the texts, in order. */
  lemma PiecesRendered(intro: string, texts: seq<string>)
    requires Plain(intro) && forall k :: 0 <= k < |texts| ==> Plain(texts[k])
    ensures Pieces(Render(intro, texts)) == [intro] + texts
  {
    var c := Render(intro, texts);
    var es := Exchanges(texts);
    SplitRendered(intro, texts);
    SplitWithoutSeparator(intro, UserMarker);
    var inner := SplitEach(es, UserMarker);
    assert Nested(c) == [[intro]] + inner by {
      assert Split(c, AssistantMarker) == [intro] + es;
    }
    FlattenExchanges(texts);
    FlattenAppend([[intro]], inner);
    assert Flatten([[intro]]) == [intro];
  }

  /** Bold text inside a turn is kept, and the turn is still labelled by its marker. */
  lemma BoldTurnShown()
    ensures ParseConversation(Render("", ["**Hi**", "ok"])) ==
      [Turn(Assistant, "**Hi**"), Turn(User, "ok")]
  {
    var texts := ["**Hi**", "ok"];
    forall k | 0 <= k < |texts| ensures Plain(texts[k]) {
      assert |texts[k]| < |UserMarker| < |AssistantMarker|;
    }
    assert Plain("") by {
      assert |""| < |UserMarker|;
    }
    ParseRendered("", texts);
  }

  /**
   * The label depends on position only: a transcript that opens with a user
   * turn has that turn shown as the assistant's.
   */
  lemma LabelIgnoresMarker()
    ensures ParseConversation(UserMarker + "hi") == [Turn(Assistant, "hi")]
  {
    var c := UserMarker + "hi";
    assert |c| < |AssistantMarker|;
    SplitWithoutSeparator(c, AssistantMarker);
    assert Split(c, AssistantMarker) == [c];
    assert c == "" + UserMarker + "hi";
    SplitAtFirst("", UserMarker, "hi");
    assert !Contains("hi", UserMarker) by {
      assert |"hi"| < |UserMarker|;
    }
    SplitWithoutSeparator("hi", UserMarker);
    assert Split(c, UserMarker) == ["", "hi"];
    assert Nested(c) == SplitEach([c], UserMarker);
    assert Nested(c) == [["", "hi"]];
    assert Pieces(c) == ["", "hi"] + Flatten([]);
  }
}
