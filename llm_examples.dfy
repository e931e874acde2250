/**
 * Concrete replies and what the service makes of them, each derived from the
 * general lemmas about StripThink and Strip.
 */
module LlmExamples {
  import opened Text
  import opened LlmService

  /** A reply that opens with one reasoning block:
      `<think>internal</think>Paris is the capital.` is answered
      `Paris is the capital.`. */
  lemma ExampleLeadingBlock(thought: string, answer: string)
    requires thought == "internal" && answer == "Paris is the capital."
    ensures CleanAnswer(OpenTag + thought + CloseTag + answer) == answer
  {
    NoAngleNoTag(thought, CloseTag);
    NoAngleNoTag(answer, OpenTag);
    LeadingBlockAnswer(thought, answer);
    StripTrimmed(answer);
  }

  /** Removal is non-greedy: the text between two blocks survives. */
  lemma ExampleTwoBlocks(reply: string)
    requires reply == "<think>a</think>X<think>b</think>Y"
    ensures CleanAnswer(reply) == "XY"
  {
    NoAngleNoTag("a", CloseTag);
    NoAngleNoTag("X", OpenTag);
    NoAngleNoTag("b", CloseTag);
    NoAngleNoTag("Y", OpenTag);
    TextBetweenBlocksKept("a", "X", "b", "Y");
    SplitExampleTwoBlocks();
    StripTrimmed("XY");
  }

  lemma SplitExampleTwoBlocks()
    ensures "<think>a</think>X<think>b</think>Y" == OpenTag + "a" + CloseTag + "X" + OpenTag + "b" + CloseTag + "Y"
    ensures "X" + "Y" == "XY"
  {
  }

  /** A block may span lines, and the whitespace left around the answer is
      trimmed: `<think>step 1\nstep 2</think>\nAnswer\n` is answered `Answer`. */
  lemma ExampleMultiline(thought: string, newline: string, answer: string)
    requires thought == "step 1\nstep 2" && newline == "\n" && answer == "Answer"
    ensures CleanAnswer(OpenTag + thought + CloseTag + newline + answer + newline) == answer
  {
    var x := OpenTag + thought + CloseTag;
    var y := newline + answer + newline;
    assert x + newline + answer + newline == x + y;
    NoAngleNoTag(thought, CloseTag);
    NoAngleNoTag(y, OpenTag);
    LeadingBlockAnswer(thought, y);
    StripSurrounded(newline, answer, newline);
  }

  /** A `<think>` that is never closed stays in the answer. */
  lemma ExampleUnclosed(reply: string)
    requires reply == "<think>unfinished"
    ensures CleanAnswer(reply) == reply
  {
    var s := reply;
    SplitExampleUnclosed();
    NoAngleNoTag("unfinished", CloseTag);
    forall k | |OpenTag| <= k ensures !OccursAt(s, CloseTag, k) {
      OccursAtShift(s, CloseTag, |OpenTag|, k - |OpenTag|);
    }
    UnclosedOpenTagKept(s, 0);
    StripTrimmed(s);
  }

  lemma SplitExampleUnclosed()
    ensures "<think>unfinished"[..|OpenTag|] == OpenTag
    ensures "<think>unfinished"[|OpenTag|..] == "unfinished"
  {
  }
}
