/**
  Building the retrieval-augmented prompt from the search results and the
  user's question, and recovering the question from a stored prompt.
*/
module Prompt {
  import opened Wrappers
  import opened PyStr
  import opened Content

  /** Put between two retrieved chunk texts. */
  const ContextSeparator: string := "\n\n--\n\n"

  /** The template's text before the retrieved chunks. */
  const PromptHead: string := "Answer this query based on the Context: \n"

  /** The marker the question is recovered by. */
  const QuestionMarker: string := "Question:"

  /** The template's text between the retrieved chunks and the question. */
  const QuestionHeader: string := "?\nQuestion: \n"

  /** The prompt sent for one question: the template wrapped around the chunk
      texts in the order the search returned them, with the question last. */
  function AssemblePrompt(contexts: seq<string>, question: string): (prompt: string)
    ensures |prompt| >= |PromptHead| + |QuestionHeader| + |question|
    ensures prompt[..|PromptHead|] == PromptHead
    ensures prompt[|prompt| - |question|..] == question
  {
    PromptHead + Join(contexts, ContextSeparator) + QuestionHeader + question
  }

  /** The text after the first `Question:` of `text`, up to the next one or to
      the end, with surrounding whitespace stripped (`text.split("Question:")[1].strip()`). */
  function QuestionAfterMarker(text: string): (q: string)
    requires Contains(text, QuestionMarker)
    ensures Stripped(q)
  {
    SplitHasSecondField(text, QuestionMarker);
    Strip(Split(text, QuestionMarker)[1])
  }

  /** The recovered question is the stripped text between the first marker and
      the next one, or the end of the text. */
  lemma QuestionBetweenMarkers(text: string)
    requires Contains(text, QuestionMarker)
    ensures exists b, e :: SecondFieldSpan(text, QuestionMarker, b, e) && QuestionAfterMarker(text) == Strip(text[b..e])
  {
    SecondFieldBetweenMarkers(text, QuestionMarker);
  }

  /** `text[b..e]` lies between the first occurrence of `m` and the next one
      (or the end of `text`). */
  ghost predicate SecondFieldSpan(text: string, m: string, b: int, e: int)
  {
    b >= |m| && FirstOccurrence(text, m, b - |m|) && NextOccurrenceOrEnd(text, m, b, e)
  }

  /** The second field of `text.split(m)` runs from the end of the first
      occurrence of `m` to the next occurrence, or to the end of `text`. */
  lemma SecondFieldBetweenMarkers(text: string, m: string)
    requires |m| > 0 && Contains(text, m)
    ensures |Split(text, m)| >= 2
    ensures exists b, e :: SecondFieldSpan(text, m, b, e) && Strip(Split(text, m)[1]) == Strip(text[b..e])
  {
    var i := IndexOf(text, m).value;
    var b := i + |m|;
    SplitUnfold(text, m, i);
    assert Split(text, m)[1] == Split(text[b..], m)[0];
    var e := FirstFieldOfSuffix(text, m, b);
    assert SecondFieldSpan(text, m, b, e);
  }

  /** The first field of `text[b..].split(m)` ends at the next occurrence of `m`
      at or after `b`, or at the end of `text`. */
  lemma FirstFieldOfSuffix(text: string, m: string, b: nat) returns (e: int)
    requires |m| > 0 && b <= |text|
    ensures NextOccurrenceOrEnd(text, m, b, e) && Split(text[b..], m)[0] == text[b..e]
  {
    var rest := text[b..];
    SplitFirstField(rest, m);
    forall j | 0 <= j ensures OccursAt(rest, m, j) <==> OccursAt(text, m, b + j) {
      OccursInSuffix(text, m, b, j);
    }
    match IndexOf(rest, m) {
      case None =>
        e := |text|;
        assert rest == text[b..e];
      case Some(k) =>
        e := b + k;
        assert rest[..k] == text[b..e];
    }
    forall j | b <= j < e ensures !OccursAt(text, m, j) {
      OccursInSuffix(text, m, b, j - b);
    }
  }

  /** Part `k` is the last part of `parts` whose text holds the marker. */
  ghost predicate LastMarkedPart(parts: seq<Part>, k: int)
  {
    0 <= k < |parts| && Contains(parts[k].text, QuestionMarker)
    && forall j | k < j < |parts| :: !Contains(parts[j].text, QuestionMarker)
  }

  /** Scans the parts from last to first and returns the question held by the
      first one found with the marker; None when no part has it. */
  function ExtractUserQuestion(parts: seq<Part>): (r: Option<string>)
    ensures r.Some? ==> Stripped(r.value)
    decreases |parts|
  {
    if parts == [] then None
    else
      var last := parts[|parts| - 1];
      if Contains(last.text, QuestionMarker) then Some(QuestionAfterMarker(last.text))
      else ExtractUserQuestion(parts[..|parts| - 1])
  }

  /** Nothing is recovered exactly when no part holds the marker; what is
      recovered is stripped. */
  lemma {:induction false} ExtractNoneIffUnmarked(parts: seq<Part>)
    ensures ExtractUserQuestion(parts).None?
            <==> forall k | 0 <= k < |parts| :: !Contains(parts[k].text, QuestionMarker)
    ensures ExtractUserQuestion(parts).Some? ==> Stripped(ExtractUserQuestion(parts).value)
    decreases |parts|
  {
    if parts != [] && !Contains(parts[|parts| - 1].text, QuestionMarker) {
      var earlier := parts[..|parts| - 1];
      ExtractNoneIffUnmarked(earlier);
      assert forall k | 0 <= k < |earlier| :: earlier[k] == parts[k];
    }
  }

  /** The question returned is the one held by the last part in list order
      whose text has the marker. */
  lemma {:induction false} ExtractFromLastMarkedPart(parts: seq<Part>, k: int)
    requires LastMarkedPart(parts, k)
    ensures ExtractUserQuestion(parts) == Some(QuestionAfterMarker(parts[k].text))
    decreases |parts|
  {
    var last := parts[|parts| - 1];
    if k < |parts| - 1 {
      var earlier := parts[..|parts| - 1];
      assert !Contains(last.text, QuestionMarker);
      assert ExtractUserQuestion(parts) == ExtractUserQuestion(earlier);
      assert earlier[k] == parts[k];
      assert LastMarkedPart(earlier, k);
      ExtractFromLastMarkedPart(earlier, k);
    }
  }

  /** Characters the template's fixed texts lack, which keep the marker and the
      word "content" from occurring in them. */
  lemma HeadLacks(c: char)
    requires c in {'Q', 'c'}
    ensures c !in PromptHead
  {
  }

  lemma HeaderLacks(c: char)
    requires c == 'c'
    ensures c !in QuestionHeader
  {
  }

  /** The prompt's text up to the question header holds no `m` when the
      retrieved chunks do not and `m` cannot straddle the template's seams. */
  lemma ContextBlockLacks(contexts: seq<string>, m: string)
    requires |m| > |ContextSeparator| && m[0] !in PromptHead && '\n' !in m
    requires forall k | 0 <= k < |contexts| :: !Contains(contexts[k], m)
    ensures !Contains(PromptHead + Join(contexts, ContextSeparator), m)
  {
    NoMarkerWithoutItsHead(PromptHead, m);
    assert ContextSeparator[0] == ContextSeparator[|ContextSeparator| - 1] == '\n';
    JoinLacksMarker(contexts, ContextSeparator, m);
    NoMarkerAcrossSeam(PromptHead, Join(contexts, ContextSeparator), m);
  }

  /** The question header is "?\n", the marker, then " \n". */
  lemma PromptLayout(contexts: seq<string>, question: string)
    ensures AssemblePrompt(contexts, question)
            == PromptHead + Join(contexts, ContextSeparator) + "?\n" + QuestionMarker + " \n" + question
  {
    assert QuestionHeader == "?\n" + QuestionMarker + " \n";
  }

  /** In an assembled prompt whose chunks lack the marker, the first marker is
      the template's own, right after the chunks and "?\n". */
  lemma PromptMarkerIndex(contexts: seq<string>, question: string)
    requires forall k | 0 <= k < |contexts| :: !Contains(contexts[k], QuestionMarker)
    ensures IndexOf(AssemblePrompt(contexts, question), QuestionMarker)
            == Some(|PromptHead + Join(contexts, ContextSeparator) + "?\n"|)
  {
    var m := QuestionMarker;
    var a := PromptHead + Join(contexts, ContextSeparator) + "?\n";
    MarkerFreeBeforeHeader(contexts);
    var q := " \n" + question;
    PromptLayout(contexts, question);
    assert AssemblePrompt(contexts, question) == a + (m + q);
    MarkerRightAfter(a, q, m);
  }

  /** Behind a marker-free prefix ending in a character foreign to `m`, an `m`
      placed right after the prefix is the first occurrence. */
  lemma MarkerRightAfter(a: string, q: string, m: string)
    requires |m| > 0 && |a| > 0 && a[|a| - 1] !in m && !Contains(a, m)
    ensures IndexOf(a + (m + q), m) == Some(|a|)
  {
    var tail := m + q;
    assert tail[..|m|] == m;
    FirstOccurrenceIsIndexOf(tail, m, 0);
    IndexOfAfterPrefix(a, tail, m);
  }

  /** The prompt's text before the template's marker holds no marker and ends
      in a character foreign to it. */
  lemma MarkerFreeBeforeHeader(contexts: seq<string>)
    requires forall k | 0 <= k < |contexts| :: !Contains(contexts[k], QuestionMarker)
    ensures var a := PromptHead + Join(contexts, ContextSeparator) + "?\n";
            a[|a| - 1] == '\n' && '\n' !in QuestionMarker && !Contains(a, QuestionMarker)
  {
    var block := PromptHead + Join(contexts, ContextSeparator);
    HeadLacks('Q');
    ContextBlockLacks(contexts, QuestionMarker);
    NoMarkerAcrossSeam(block, "?\n", QuestionMarker);
  }

  /** What follows the template's marker is " \n" and the question. */
  lemma PromptAfterMarker(contexts: seq<string>, question: string)
    ensures var i := |PromptHead + Join(contexts, ContextSeparator) + "?\n"|;
            AssemblePrompt(contexts, question)[i + |QuestionMarker|..] == " \n" + question
  {
    var front := PromptHead + Join(contexts, ContextSeparator) + "?\n" + QuestionMarker;
    PromptLayout(contexts, question);
    assert AssemblePrompt(contexts, question) == front + (" \n" + question);
  }

  /** A blank prefix ending in a newline does not move the first marker. */
  lemma FirstFieldAfterBlank(question: string)
    ensures Split(" \n" + question, QuestionMarker)[0] == " \n" + Split(question, QuestionMarker)[0]
  {
    IndexOfAfterPrefix(" \n", question, QuestionMarker);
    SplitFirstField(" \n" + question, QuestionMarker);
    SplitFirstField(question, QuestionMarker);
  }

  /** So the prompt's second field is the header's trailing " \n" followed by
      the question's first field. */
  lemma PromptSecondField(contexts: seq<string>, question: string)
    requires forall k | 0 <= k < |contexts| :: !Contains(contexts[k], QuestionMarker)
    ensures Contains(AssemblePrompt(contexts, question), QuestionMarker)
    ensures |Split(AssemblePrompt(contexts, question), QuestionMarker)| >= 2
    ensures Split(AssemblePrompt(contexts, question), QuestionMarker)[1]
            == " \n" + Split(question, QuestionMarker)[0]
  {
    var prompt := AssemblePrompt(contexts, question);
    var i := |PromptHead + Join(contexts, ContextSeparator) + "?\n"|;
    PromptMarkerIndex(contexts, question);
    SplitUnfold(prompt, QuestionMarker, i);
    PromptAfterMarker(contexts, question);
    FirstFieldAfterBlank(question);
  }

  /** Recovering the question from a stored prompt: when no retrieved chunk holds
      the marker, the recovered text is the question up to its own first marker
      (if any), stripped. */
  lemma ExtractFromAssembledPrompt(earlier: seq<Part>, contexts: seq<string>, question: string)
    requires forall k | 0 <= k < |contexts| :: !Contains(contexts[k], QuestionMarker)
    ensures ExtractUserQuestion(earlier + [Part(AssemblePrompt(contexts, question))])
            == Some(Strip(Split(question, QuestionMarker)[0]))
  {
    var prompt := AssemblePrompt(contexts, question);
    PromptSecondField(contexts, question);
    StripAfterWhitespace(" \n", Split(question, QuestionMarker)[0]);
    var parts := earlier + [Part(prompt)];
    assert LastMarkedPart(parts, |parts| - 1);
    ExtractFromLastMarkedPart(parts, |parts| - 1);
  }

  /** Round trip: when neither the retrieved chunks nor the question hold the
      marker, the question recovered from the stored prompt is the question as
      asked, stripped. */
  lemma QuestionRoundTrip(earlier: seq<Part>, contexts: seq<string>, question: string)
    requires forall k | 0 <= k < |contexts| :: !Contains(contexts[k], QuestionMarker)
    requires !Contains(question, QuestionMarker)
    ensures ExtractUserQuestion(earlier + [Part(AssemblePrompt(contexts, question))]) == Some(Strip(question))
  {
    ExtractFromAssembledPrompt(earlier, contexts, question);
    SplitFirstField(question, QuestionMarker);
  }

  /** The round trip for a message holding the prompt alone. */
  lemma StoredPromptRoundTrip(contexts: seq<string>, question: string)
    requires forall k | 0 <= k < |contexts| :: !Contains(contexts[k], QuestionMarker)
    requires !Contains(question, QuestionMarker)
    ensures ExtractUserQuestion([Part(AssemblePrompt(contexts, question))]) == Some(Strip(question))
  {
    var parts: seq<Part> := [];
    QuestionRoundTrip(parts, contexts, question);
    assert parts + [Part(AssemblePrompt(contexts, question))] == [Part(AssemblePrompt(contexts, question))];
  }
}
