/**
  The two word-limit truncations of the simulator: the narration text built
  for the speech service and the image prompt shown to the user together
  with its word count.
 */
module Truncation {
  import opened WordSplit

  /** Both truncations keep at most this many words. */
  const WordLimit: nat := 100

  /** Marker glued to the last kept word of a truncated image prompt. */
  const Ellipsis: string := "..."

  /** The words of the closing notice read after a narration cut at the
      word limit. */
  const ClosingWords: seq<string> := ["You", "can", "read", "further", "by", "yourself."]

  /** The closing notice, `"You can read further by yourself."`. */
  const ClosingNotice: string := Join(ClosingWords)

  /** Text appended to a narration cut at the word limit:
      `"... You can read further by yourself."`. */
  const NarrationSuffix: string := Ellipsis + (" " + ClosingNotice)

  /** The narration text: the explanation itself when it has at most
      `WordLimit` words, otherwise its first `WordLimit` words joined by
      single spaces followed by the closing notice. An explanation within
      the limit keeps its original whitespace. */
  function Narration(text: string): (n: string)
    ensures |Split(text)| <= WordLimit ==> n == text
    ensures |Split(text)| > WordLimit ==>
              n == Join(Split(text)[..WordLimit]) + NarrationSuffix
    ensures |Split(text)| > WordLimit ==>
              Split(n) == Split(text)[..WordLimit - 1]
                          + [Split(text)[WordLimit - 1] + Ellipsis]
                          + ClosingWords
  {
    var words := Split(text);
    if |words| > WordLimit then
      var limited := Join(words[..WordLimit]);
      NarrationWords(words[..WordLimit]);
      limited + NarrationSuffix
    else
      text
  }

  /** Splitting a truncated narration: the kept words, the last one carrying
      the ellipsis, then the words of the closing notice. */
  lemma {:induction false} NarrationWords(kept: seq<string>)
    requires WellFormed(kept) && |kept| > 0
    ensures Split(Join(kept) + NarrationSuffix)
            == kept[..|kept| - 1] + [kept[|kept| - 1] + Ellipsis] + ClosingWords
  {
    ClosingWordsWellFormed();
    VisibleNoSpace(Ellipsis);
    SplitGluedThenJoined(kept, Ellipsis, ClosingWords);
  }

  lemma ClosingWordsWellFormed()
    ensures WellFormed(ClosingWords)
  {
    forall i | 0 <= i < |ClosingWords|
      ensures IsWord(ClosingWords[i])
    {
      VisibleNoSpace(ClosingWords[i]);
    }
  }

  /** Printable ASCII other than the space is never whitespace. */
  lemma {:induction false} VisibleNoSpace(w: string)
    requires forall i :: 0 <= i < |w| ==> '!' <= w[i] <= '~'
    ensures NoSpace(w)
  {
  }

  /** A narration cut at the limit has the kept words plus the notice. */
  lemma {:induction false} NarrationLength(text: string)
    requires |Split(text)| > WordLimit
    ensures |Split(Narration(text))| == WordLimit + |ClosingWords|
  {
  }

  /** What the page shows about the image prompt: the (possibly truncated)
      prompt and the word count reported next to it. */
  datatype PromptDisplay = PromptDisplay(prompt: string, wordCount: nat)

  /** The image prompt limit: a prompt of more than `WordLimit` words becomes
      its first `WordLimit` words joined by single spaces with `Ellipsis`
      glued on; the reported count is always that of the original prompt. */
  function TruncatePrompt(p: string): (r: PromptDisplay)
    ensures r.wordCount == |Split(p)|
    ensures |Split(p)| <= WordLimit ==> r.prompt == p
    ensures |Split(p)| > WordLimit ==> r.prompt == Join(Split(p)[..WordLimit]) + Ellipsis
    ensures |Split(p)| > WordLimit ==>
              Split(r.prompt) == Split(p)[..WordLimit - 1] + [Split(p)[WordLimit - 1] + Ellipsis]
    ensures |Split(r.prompt)| <= WordLimit
  {
    var words := Split(p);
    if |words| > WordLimit then
      SplitJoinGlued(words[..WordLimit], Ellipsis);
      PromptDisplay(Join(words[..WordLimit]) + Ellipsis, |words|)
    else
      PromptDisplay(p, |words|)
  }

  /** The reported count matches the displayed prompt exactly when no
      truncation happened. */
  lemma {:induction false} ReportedCountMatchesIffUntruncated(p: string)
    ensures TruncatePrompt(p).wordCount == |Split(TruncatePrompt(p).prompt)|
            <==> |Split(p)| <= WordLimit
  {
  }

  /** Truncating an already displayed prompt changes nothing. */
  lemma {:induction false} TruncatePromptIdempotent(p: string)
    ensures TruncatePrompt(TruncatePrompt(p).prompt).prompt == TruncatePrompt(p).prompt
  {
  }
}
