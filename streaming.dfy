/**
  Word-by-word delivery of an answer: the answer text is split on single
  spaces and each word is handed out with a space after it. The pause between
  fragments is timing only and is not modelled.
*/
module Streaming {
  import opened PyStr

  /** Each word followed by one space, in order. */
  function Spaced(words: seq<string>): (fragments: seq<string>)
    ensures |fragments| == |words|
    ensures forall k | 0 <= k < |words| :: fragments[k] == words[k] + " "
  {
    seq(|words|, k requires 0 <= k < |words| => words[k] + " ")
  }

  /** The fragments the generator yields for `text`. */
  function Fragments(text: string): (fragments: seq<string>)
    ensures |fragments| >= 1
    ensures forall k | 0 <= k < |fragments| :: |fragments[k]| >= 1 && fragments[k][|fragments[k]| - 1] == ' '
  {
    Spaced(Split(text, " "))
  }

  /** All fragments glued together, as the display shows them in the end. */
  function Concat(fragments: seq<string>): string
  {
    if fragments == [] then "" else fragments[0] + Concat(fragments[1..])
  }

  /** Gluing spaced words gives the words joined by spaces, plus one space. */
  lemma {:induction false} ConcatSpaced(words: seq<string>)
    requires |words| >= 1
    ensures Concat(Spaced(words)) == Join(words, " ") + " "
    decreases |words|
  {
    if |words| >= 2 {
      ConcatSpaced(words[1..]);
      assert Spaced(words)[1..] == Spaced(words[1..]);
    }
  }

  /** The fragments glue back to the answer with one trailing space. */
  lemma FragmentsRoundTrip(text: string)
    ensures Concat(Fragments(text)) == text + " "
  {
    ConcatSpaced(Split(text, " "));
    JoinSplit(text, " ");
  }

  /** There is one fragment per space in the answer, plus one. */
  lemma FragmentCount(text: string)
    ensures |Fragments(text)| == multiset(text)[' '] + 1
  {
    SplitCount(text, ' ');
  }

  /** Every fragment is a space-free word followed by one space. */
  lemma FragmentShape(text: string, k: int)
    requires 0 <= k < |Fragments(text)|
    ensures |Fragments(text)[k]| >= 1
    ensures Fragments(text)[k][|Fragments(text)[k]| - 1] == ' '
    ensures ' ' !in Fragments(text)[k][..|Fragments(text)[k]| - 1]
  {
    var word := Split(text, " ")[k];
    SplitFieldsLackSeparator(text, " ", k);
    CharNotContained(word, ' ');
    assert Fragments(text)[k][..|Fragments(text)[k]| - 1] == word;
  }

  /** The generator: walks the words of the answer in order and emits each one
      with a trailing space. */
  method Stream(text: string) returns (fragments: seq<string>)
    ensures fragments == Fragments(text)
    ensures |fragments| == |Split(text, " ")|
    ensures forall k | 0 <= k < |fragments| :: fragments[k] == Split(text, " ")[k] + " "
    ensures |fragments| == multiset(text)[' '] + 1
    ensures Concat(fragments) == text + " "
    ensures forall k | 0 <= k < |fragments| ::
              |fragments[k]| >= 1 && fragments[k][|fragments[k]| - 1] == ' '
              && ' ' !in fragments[k][..|fragments[k]| - 1]
  {
    var words := Split(text, " ");
    fragments := [];
    for i := 0 to |words|
      invariant |fragments| == i
      invariant forall k | 0 <= k < i :: fragments[k] == words[k] + " "
    {
      fragments := fragments + [words[i] + " "];
    }
    FragmentsRoundTrip(text);
    FragmentCount(text);
    forall k | 0 <= k < |fragments|
      ensures |fragments[k]| >= 1 && fragments[k][|fragments[k]| - 1] == ' '
              && ' ' !in fragments[k][..|fragments[k]| - 1]
    {
      FragmentShape(text, k);
    }
  }
}
