/**
  The chat page's own logic around a turn: which avatar a role gets, what the
  history display shows for each stored message, clearing the history, and
  which chat inputs are turned into a prompt.
*/
module Chat {
  import opened Wrappers
  import opened PyStr
  import opened Content
  import opened Prompt

  /** The avatar image for a message role; None for any role but the two known ones. */
  function RoleName(role: string): (avatar: Option<string>)
    ensures avatar == Some("bot.png") <==> role == "model"
    ensures avatar == Some("user.png") <==> role == "user"
    ensures avatar.None? <==> role != "model" && role != "user"
  {
    if role == "model" then Some("bot.png")
    else if role == "user" then Some("user.png")
    else None
  }

  /** The word whose presence in a message's first part makes the display
      recover a question instead of showing the text. */
  const ContentProbe: string := "content"

  /** What the history display writes inside a message's bubble (None: nothing).
      A first part mentioning "content" makes it show the recovered question,
      and only when that is non-empty; otherwise the first part's text is shown
      as it is. */
  function DisplayedText(m: Message): (shown: Option<string>)
    requires |m.parts| > 0
    ensures shown.None? ==> Contains(m.parts[0].text, ContentProbe)
    ensures shown.Some? ==> shown.value == m.parts[0].text || (shown.value != [] && Stripped(shown.value))
  {
    if Contains(m.parts[0].text, ContentProbe) then
      match ExtractUserQuestion(m.parts)
      case Some(question) => if question != "" then Some(question) else None
      case None => None
    else
      Some(m.parts[0].text)
  }

  /** The display rule: a first part without "content" is shown as it is; with
      it, something is shown exactly when some part holds the marker and the
      recovered question is not empty, and what is shown is that question, with
      no whitespace at either end. */
  lemma DisplayRule(m: Message)
    requires |m.parts| > 0
    ensures !Contains(m.parts[0].text, ContentProbe) ==> DisplayedText(m) == Some(m.parts[0].text)
    ensures Contains(m.parts[0].text, ContentProbe) ==>
              (DisplayedText(m).Some?
               <==> (exists k | 0 <= k < |m.parts| :: Contains(m.parts[k].text, QuestionMarker))
                    && ExtractUserQuestion(m.parts) != Some(""))
    ensures Contains(m.parts[0].text, ContentProbe) && DisplayedText(m).Some? ==>
              DisplayedText(m) == ExtractUserQuestion(m.parts)
              && DisplayedText(m).value != [] && Stripped(DisplayedText(m).value)
  {
    ExtractNoneIffUnmarked(m.parts);
  }

  /** One chat bubble of the history display. */
  datatype Bubble = Bubble(role: string, avatar: string, shown: Option<string>)

  /** Every stored message the display reaches the text of, one with a known
      role, has at least one part. */
  ghost predicate WellFormed(history: seq<Message>)
  {
    forall k | 0 <= k < |history| :: history[k].role in {"model", "user"} ==> |history[k].parts| > 0
  }

  /** The bubble a message gets, if its role has an avatar. */
  function Render(m: Message): (bubbles: seq<Bubble>)
    requires m.role in {"model", "user"} ==> |m.parts| > 0
    ensures |bubbles| == 1 <==> m.role in {"model", "user"}
    ensures |bubbles| <= 1
    ensures |bubbles| == 1 ==> bubbles[0].role == m.role && RoleName(m.role) == Some(bubbles[0].avatar)
    ensures |bubbles| == 1 ==> |m.parts| > 0 && bubbles[0].shown == DisplayedText(m)
  {
    match RoleName(m.role)
    case None => []
    case Some(avatar) => [Bubble(m.role, avatar, DisplayedText(m))]
  }

  /** The bubbles of a whole history, in history order. */
  function Rendered(history: seq<Message>): (bubbles: seq<Bubble>)
    requires WellFormed(history)
    ensures |bubbles| <= |history|
    decreases |history|
  {
    if history == [] then []
    else Rendered(history[..|history| - 1]) + Render(history[|history| - 1])
  }

  /** Rendering distributes over concatenation of histories: bubbles keep the
      order of their messages. */
  lemma {:induction false} RenderedConcat(h1: seq<Message>, h2: seq<Message>)
    requires WellFormed(h1) && WellFormed(h2)
    ensures WellFormed(h1 + h2)
    ensures Rendered(h1 + h2) == Rendered(h1) + Rendered(h2)
    decreases |h2|
  {
    var h := h1 + h2;
    WellFormedConcat(h1, h2);
    if h2 == [] {
      assert h == h1;
    } else {
      var front := h2[..|h2| - 1];
      var last := h2[|h2| - 1];
      assert h[..|h| - 1] == h1 + front;
      assert h[|h| - 1] == last;
      RenderedConcat(h1, front);
      assert WellFormed(front);
      assert Rendered(h) == Rendered(h1 + front) + Render(last);
      assert Rendered(h2) == Rendered(front) + Render(last);
      assert Rendered(h) == Rendered(h1) + Rendered(front) + Render(last);
    }
  }

  lemma WellFormedConcat(h1: seq<Message>, h2: seq<Message>)
    requires WellFormed(h1) && WellFormed(h2)
    ensures WellFormed(h1 + h2)
  {
    var h := h1 + h2;
    forall k | 0 <= k < |h| ensures h[k].role in {"model", "user"} ==> |h[k].parts| > 0 {
      if k >= |h1| { assert h[k] == h2[k - |h1|]; }
    }
  }

  /** Only messages whose role has an avatar get a bubble, and a bubble carries
      its message's role and that role's avatar. */
  lemma {:induction false} RenderedRoles(history: seq<Message>, i: int)
    requires WellFormed(history) && 0 <= i < |Rendered(history)|
    ensures Rendered(history)[i].role in {"model", "user"}
    ensures RoleName(Rendered(history)[i].role) == Some(Rendered(history)[i].avatar)
    decreases |history|
  {
    var front := history[..|history| - 1];
    if i < |Rendered(front)| {
      RenderedRoles(front, i);
    }
  }

  /** When every role is known, message `k` gets bubble `k`, with its avatar and
      the text the display rule picks. */
  lemma {:induction false} RenderedKnownRoles(history: seq<Message>, k: int)
    requires WellFormed(history)
    requires forall j | 0 <= j < |history| :: history[j].role in {"model", "user"}
    requires 0 <= k < |history|
    ensures |Rendered(history)| == |history|
    ensures Rendered(history)[k]
            == Bubble(history[k].role, RoleName(history[k].role).value, DisplayedText(history[k]))
    decreases |history|
  {
    var front := history[..|history| - 1];
    if k < |front| {
      RenderedKnownRoles(front, k);
    } else if front != [] {
      RenderedKnownRoles(front, 0);
    }
  }

  /** The chat object kept in the session: it owns the message history. */
  class ChatSession {
    var history: seq<Message>

    ghost predicate Valid()
      reads this
    {
      WellFormed(history)
    }

    /** A chat started with an empty history. */
    constructor ()
      ensures Valid() && history == []
    {
      history := [];
    }

    /** The "clear chat history" button: the history becomes empty and nothing
        else on the chat changes. */
    method ClearChatConvo()
      modifies this`history
      ensures Valid() && history == []
    {
      history := [];
    }

    /** Walks the history in order and lays out one bubble per message whose
        role has an avatar. */
    method RenderHistory() returns (bubbles: seq<Bubble>)
      requires Valid()
      ensures bubbles == Rendered(history)
      ensures |bubbles| <= |history|
      ensures forall b | b in bubbles :: b.avatar in {"bot.png", "user.png"}
    {
      bubbles := [];
      for i := 0 to |history|
        invariant WellFormed(history[..i])
        invariant bubbles == Rendered(history[..i])
        invariant |bubbles| <= i
      {
        var m := history[i];
        assert history[..i + 1] == history[..i] + [m];
        RenderedConcat(history[..i], [m]);
        match RoleName(m.role) {
          case None =>
          case Some(avatar) =>
            bubbles := bubbles + [Bubble(m.role, avatar, DisplayedText(m))];
        }
      }
      assert history[..|history|] == history;
      forall b | b in bubbles ensures b.avatar in {"bot.png", "user.png"} {
        var i :| 0 <= i < |bubbles| && bubbles[i] == b;
        RenderedRoles(history, i);
      }
    }
  }

  /** The input guard: a chat input is answered only when there is one and it
      is not blank. */
  function AcceptsQuestion(input: Option<string>): (ok: bool)
    ensures ok <==> input.Some? && exists i | 0 <= i < |input.value| :: !IsWhitespace(input.value[i])
  {
    input.Some? && Strip(input.value) != ""
  }

  /** The prompt a chat input leads to, given the chunks the search returned for
      it; None when the input is ignored. */
  function PromptForInput(input: Option<string>, contexts: seq<string>): (prompt: Option<string>)
    ensures prompt.None? <==> input.None? || AllWhitespace(input.value)
    ensures prompt.Some? ==> input.Some? && |prompt.value| >= |PromptHead| + |input.value|
    ensures prompt.Some? ==> prompt.value[..|PromptHead|] == PromptHead
    ensures prompt.Some? ==> prompt.value[|prompt.value| - |input.value|..] == input.value
  {
    if AcceptsQuestion(input) then Some(AssemblePrompt(contexts, input.value)) else None
  }

  /** A question that passed the guard comes back from its stored prompt as a
      non-empty question, when neither it nor the chunks hold the marker. */
  lemma AcceptedQuestionRecoverable(input: Option<string>, contexts: seq<string>)
    requires PromptForInput(input, contexts).Some?
    requires !Contains(input.value, QuestionMarker)
    requires forall k | 0 <= k < |contexts| :: !Contains(contexts[k], QuestionMarker)
    ensures ExtractUserQuestion([Part(PromptForInput(input, contexts).value)]) == Some(Strip(input.value))
    ensures Strip(input.value) != ""
  {
    assert AcceptsQuestion(input);
    assert Strip(input.value) != "";
    assert PromptForInput(input, contexts).value == AssemblePrompt(contexts, input.value);
    StoredPromptRoundTrip(contexts, input.value);
  }

  /** As written, the display test looks for lower-case "content" while the
      template says "Context": a stored prompt whose chunks and question do not
      mention "content" is shown whole, template and chunks included. */
  lemma PromptShownWhole(role: string, contexts: seq<string>, question: string)
    requires forall k | 0 <= k < |contexts| :: !Contains(contexts[k], ContentProbe)
    requires !Contains(question, ContentProbe)
    ensures DisplayedText(Message(role, [Part(AssemblePrompt(contexts, question))]))
            == Some(AssemblePrompt(contexts, question))
  {
    TemplateLacksProbe(contexts);
    var front := PromptHead + Join(contexts, ContextSeparator) + QuestionHeader;
    assert front[|front| - 1] == '\n';
    NoMarkerAcrossSeam(front, question, ContentProbe);
  }

  lemma ProbeLacks()
    ensures |ContentProbe| == 7 && ContentProbe[0] == 'c' && '\n' !in ContentProbe && '?' !in ContentProbe
  {
  }

  /** The template itself never says "content". */
  lemma TemplateLacksProbe(contexts: seq<string>)
    requires forall k | 0 <= k < |contexts| :: !Contains(contexts[k], ContentProbe)
    ensures !Contains(PromptHead + Join(contexts, ContextSeparator) + QuestionHeader, ContentProbe)
  {
    var block := PromptHead + Join(contexts, ContextSeparator);
    HeadLacks('c');
    ProbeLacks();
    ContextBlockLacks(contexts, ContentProbe);
    HeaderLacks('c');
    NoMarkerWithoutItsHead(QuestionHeader, ContentProbe);
    NoMarkerAcrossSeam(block, QuestionHeader, ContentProbe);
  }

  /** A stored prompt whose question mentions "content" is shown as the
      recovered question, when neither the chunks nor the question hold the
      marker and the question is not blank. */
  lemma QuestionShownWhenItSaysContent(role: string, contexts: seq<string>, question: string)
    requires forall k | 0 <= k < |contexts| :: !Contains(contexts[k], QuestionMarker)
    requires !Contains(question, QuestionMarker) && Contains(question, ContentProbe)
    requires Strip(question) != ""
    ensures DisplayedText(Message(role, [Part(AssemblePrompt(contexts, question))])) == Some(Strip(question))
  {
    var prompt := AssemblePrompt(contexts, question);
    ContainsAfterPrefix(PromptHead + Join(contexts, ContextSeparator) + QuestionHeader, question, ContentProbe);
    StoredPromptRoundTrip(contexts, question);
    ShownWhenRecovered(Message(role, [Part(prompt)]), Strip(question));
  }

  /** Helper step: a first part mentioning "content" and a non-empty recovered
      question, so the question is what is shown. */
  lemma ShownWhenRecovered(m: Message, q: string)
    requires |m.parts| > 0 && Contains(m.parts[0].text, ContentProbe)
    requires ExtractUserQuestion(m.parts) == Some(q) && q != ""
    ensures DisplayedText(m) == Some(q)
  {
  }

  /** The display rule applies to every message, answers included: a message
      whose first part mentions "content" and none of whose parts holds the
      marker gets a bubble with nothing written in it. */
  lemma ContentWithoutMarkerShowsNothing(m: Message)
    requires |m.parts| > 0 && Contains(m.parts[0].text, ContentProbe)
    requires forall k | 0 <= k < |m.parts| :: !Contains(m.parts[k].text, QuestionMarker)
    ensures DisplayedText(m) == None
  {
    ExtractNoneIffUnmarked(m.parts);
  }

  /** An illustration: a bot answer reading just "content" is shown as an empty bubble. */
  lemma ContentAnswerShowsNothing()
    ensures DisplayedText(Message("model", [Part("content")])) == None
  {
    var m := Message("model", [Part("content")]);
    assert OccursAt(m.parts[0].text, ContentProbe, 0);
    assert !Contains(m.parts[0].text, QuestionMarker);
    ContentWithoutMarkerShowsNothing(m);
  }
}
