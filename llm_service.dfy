/**
 * The answer-generation service: it builds a fixed system prompt and a user
 * prompt embedding the question and the retrieved context, sends the two to
 * the language-model backend, removes `<think>...</think>` reasoning blocks
 * from the reply and trims it. Any failure of the backend, or a reply without
 * `message.content`, yields a fixed apology instead of an exception.
 *
 * The backend is a parameter of type ChatBackend: whatever it returns for a
 * given model name and message list. The admission semaphore and the thread
 * offload around the call are not modelled.
 */
module LlmService {
  import opened Wrappers
  import opened Text

  const OpenTag: string := "<think>"
  const CloseTag: string := "</think>"

  /** The system instruction, with the indentation the triple-quoted literal carries. */
  const SystemPrompt: string :=
    "你是一个专业的AI助手。请基于提供的上下文回答问题。\n"
    + "            - 回答要简洁明了，避免重复\n"
    + "            - 如果上下文中没有相关信息，请直接说明\n"
    + "            - 保持回答的连贯性和逻辑性\n"
    + "            - 请用中文回答"

  /** The user prompt is UserPromptHead + question + UserPromptMid + context. */
  const UserPromptHead: string := "基于以下信息回答问题：\n            问题："
  const UserPromptMid: string := "\n            相关上下文："

  /** What the service answers whenever generation fails. */
  const GenerationFallback: string := "抱歉，生成回答时出现错误，请稍后重试。"

  /** One chat message as sent to the backend: `{"role": ..., "content": ...}`. */
  datatype Message = Message(role: string, content: string)

  /** One past exchange of the conversation, `(user message, assistant answer)`. */
  datatype Turn = Turn(user: string, assistant: string)

  /** Whatever the backend raised. */
  datatype BackendError = BackendError(reason: string)

  /** The backend's reply, as the nested mapping it is indexed as
      (`response["message"]["content"]`). */
  type Response = map<string, map<string, string>>

  /** `ollama.chat(model=..., messages=...)`: a reply or a raised error. */
  type ChatBackend = (string, seq<Message>) -> Result<Response, BackendError>

  /** The service object: its model name and the backend it talks to. */
  datatype Service = Service(model: string, chat: ChatBackend)

  /** The user prompt. The question and the context appear in it verbatim, the
      question right after the fixed head and the context at the very end. */
  function UserPrompt(question: string, context: string): (p: string)
    ensures |p| == |UserPromptHead| + |question| + |UserPromptMid| + |context|
    ensures p[..|UserPromptHead|] == UserPromptHead
    ensures OccursAt(p, question, |UserPromptHead|)
    ensures OccursAt(p, context, |p| - |context|)
    ensures p[|UserPromptHead| + |question|..|p| - |context|] == UserPromptMid
  {
    var p := UserPromptHead + question + UserPromptMid + context;
    assert p[|UserPromptHead|..|UserPromptHead| + |question|] == question;
    assert p[|UserPromptHead| + |question|..|p| - |context|] == UserPromptMid;
    assert p[|p| - |context|..] == context;
    p
  }

  /** The message list sent to the backend: exactly two messages, the constant
      system prompt first and the user prompt second. */
  function Messages(question: string, context: string): (ms: seq<Message>)
    ensures |ms| == 2
    ensures ms[0] == Message("system", SystemPrompt)
    ensures ms[1] == Message("user", UserPrompt(question, context))
  {
    [Message("system", SystemPrompt), Message("user", UserPrompt(question, context))]
  }

  /** `response["message"]["content"]`, or None where either lookup raises KeyError. */
  function Content(response: Response): (c: Option<string>)
    ensures c.Some? <==> "message" in response && "content" in response["message"]
    ensures c.Some? ==> c.value == response["message"]["content"]
  {
    if "message" in response && "content" in response["message"]
    then Some(response["message"]["content"])
    else None
  }

  /** `re.sub(r"<think>.*?</think>", "", s, flags=re.DOTALL)`: scanning from
      the left, each `<think>` together with the nearest `</think>` after it,
      and everything in between (newlines included), is deleted. A `<think>`
      that no later `</think>` closes ends the scan: the rest is kept. */
  function StripThink(s: string): (r: string)
    ensures |r| <= |s|
    decreases |s|
  {
    match FirstBlock(s)
    case None => s
    case Some(b) => s[..b.start] + StripThink(s[b.end..])
  }

  /** A removed span: `start` is where its `<think>` begins, `end` is just
      past its `</think>`. */
  datatype Span = Span(start: nat, end: nat)

  /** The first span the pattern matches: the first `<think>` and the nearest
      `</think>` after it. There is none exactly when no `<think>` is followed,
      anywhere later, by a `</think>`. */
  function FirstBlock(s: string): (r: Option<Span>)
    ensures r.Some? ==> r.value.start + |OpenTag| + |CloseTag| <= r.value.end <= |s|
  {
    match Find(s, OpenTag, 0)
    case None => None
    case Some(i) =>
      match Find(s, CloseTag, i + |OpenTag|)
      case None => None
      case Some(k) => Some(Span(i, k + |CloseTag|))
  }

  /** What FirstBlock finds: a `<think>` at `start` with no earlier one, a
      `</think>` ending at `end` with no earlier one after that `<think>`; and
      it finds nothing exactly when no `<think>` is followed, anywhere later,
      by a `</think>`. */
  lemma FirstBlockSpec(s: string)
    ensures var r := FirstBlock(s);
      r.Some? ==> OccursAt(s, OpenTag, r.value.start) && OccursAt(s, CloseTag, r.value.end - |CloseTag|)
    ensures var r := FirstBlock(s);
      r.Some? ==> forall j :: 0 <= j < r.value.start ==> !OccursAt(s, OpenTag, j)
    ensures var r := FirstBlock(s);
      r.Some? ==> forall k :: r.value.start + |OpenTag| <= k < r.value.end - |CloseTag| ==> !OccursAt(s, CloseTag, k)
    ensures FirstBlock(s).None? <==>
              forall j, k :: j + |OpenTag| <= k && OccursAt(s, OpenTag, j) ==> !OccursAt(s, CloseTag, k)
  {
    FindLeast(s, OpenTag, 0);
    var f := Find(s, OpenTag, 0);
    if f.Some? {
      FindLeast(s, CloseTag, f.value + |OpenTag|);
    }
  }

  /** The post-processing of the raw reply: reasoning removed, then trimmed. */
  function CleanAnswer(content: string): (answer: string)
    ensures IsTrimmed(answer)
  {
    Strip(StripThink(content))
  }

  /** `LLMService.generate_response`. The answer never starts or ends with
      whitespace; a raised backend error or a reply without content gives the
      fixed fallback; otherwise it is the cleaned content of the reply. The
      chat history is accepted and not used. */
  function GenerateResponse(svc: Service, question: string, context: string, chatHistory: seq<Turn>): (answer: string)
    ensures IsTrimmed(answer)
    ensures svc.chat(svc.model, Messages(question, context)).Failure? ==> answer == GenerationFallback
    ensures svc.chat(svc.model, Messages(question, context)).Success? ==>
              var c := Content(svc.chat(svc.model, Messages(question, context)).value);
              answer == if c.Some? then CleanAnswer(c.value) else GenerationFallback
  {
    match svc.chat(svc.model, Messages(question, context))
    case Failure(_) => GenerationFallback
    case Success(response) =>
      match Content(response)
      case None => GenerationFallback
      case Some(content) => CleanAnswer(content)
  }

  /** The answer does not depend on the chat history. */
  lemma HistoryIgnored(svc: Service, question: string, context: string, h1: seq<Turn>, h2: seq<Turn>)
    ensures GenerateResponse(svc, question, context, h1) == GenerateResponse(svc, question, context, h2)
  {
  }

  /** A reply without `<think>` comes back only trimmed. */
  lemma NoOpenTagUnchanged(s: string)
    requires forall j :: !OccursAt(s, OpenTag, j)
    ensures StripThink(s) == s
    ensures CleanAnswer(s) == Strip(s)
  {
    FirstBlockSpec(s);
  }

  /** Whatever is removed, the characters that remain appear in the reply in
      the same order. */
  lemma {:induction false} StripThinkSubsequence(s: string)
    ensures IsSubsequence(StripThink(s), s)
    decreases |s|
  {
    match FirstBlock(s)
    case None => SubsequenceRefl(s);
    case Some(b) =>
      var t := s[b.end..];
      StripThinkSubsequence(t);
      SubsequenceSkip(StripThink(t), s[b.start..b.end], t);
      SubsequenceKeep(s[..b.start], StripThink(t), s[b.start..b.end] + t);
      Rejoin(s, b.start, b.end);
      StripThinkStep(s, b);
  }

  /** The cleaned answer is a subsequence of the raw reply, hence no longer. */
  lemma CleanAnswerSubsequence(content: string)
    ensures IsSubsequence(CleanAnswer(content), content)
    ensures |CleanAnswer(content)| <= |content|
  {
    var t := StripThink(content);
    StripSubsequence(t);
    StripThinkSubsequence(content);
    SubsequenceTrans(Strip(t), t, content);
    SubsequenceLength(Strip(t), content);
  }

  /** Neither tag can overlap the other: `</think>` and `<think>` share no
      border, so an occurrence of one lies wholly before or after the other. */
  lemma TagsDisjoint(s: string, j: int, k: int)
    requires OccursAt(s, OpenTag, j)
    ensures OccursAt(s, CloseTag, k) ==> k + |CloseTag| <= j || j + |OpenTag| <= k
  {
    if j <= k < j + |OpenTag| && k + |CloseTag| <= |s| {
      if k == j {
        assert s[k..k + |CloseTag|][1] == s[k + 1] == s[j..j + |OpenTag|][1];
      } else {
        assert s[k..k + |CloseTag|][0] == s[k] == s[j..j + |OpenTag|][k - j];
        assert OpenTag[k - j] == OpenTag[1..][k - j - 1];
      }
    } else if 0 <= k < j < k + |CloseTag| && k + |CloseTag| <= |s| {
      assert s[j] == s[j..j + |OpenTag|][0];
      assert s[k..k + |CloseTag|][j - k] == s[j];
      assert CloseTag[j - k] == CloseTag[1..][j - k - 1];
    }
  }

  /** One removal step: the first `<think>` at `i`, the first `</think>` after
      it at `k`, and what follows the `</think>` processed again. */
  lemma StripThinkStep(s: string, b: Span)
    requires FirstBlock(s) == Some(b)
    ensures StripThink(s) == s[..b.start] + StripThink(s[b.end..])
  {
  }

  /** `y` ends `x`. */
  predicate IsSuffix(y: string, x: string) {
    |y| <= |x| && x[|x| - |y|..] == y
  }

  /** A `<think>` that no later `</think>` closes is kept, together with
      everything after it: that part of the reply ends the result unchanged. */
  lemma {:induction false} UnclosedOpenTagKept(s: string, j: nat)
    requires OccursAt(s, OpenTag, j)
    requires forall k :: j + |OpenTag| <= k ==> !OccursAt(s, CloseTag, k)
    ensures IsSuffix(s[j..], StripThink(s))
    decreases |s|
  {
    var f := FirstBlock(s);
    FirstBlockSpec(s);
    if f.Some? {
      var i := f.value.start;
      var m := f.value.end;
      var k := m - |CloseTag|;
      TagsDisjoint(s, j, k);
      var t := s[m..];
      var j' := j - m;
      OccursAtShift(s, OpenTag, m, j');
      forall k' | j' + |OpenTag| <= k' ensures !OccursAt(t, CloseTag, k') {
        OccursAtShift(s, CloseTag, m, k');
      }
      UnclosedOpenTagKept(t, j');
      assert t[j'..] == s[j..];
      StripThinkStep(s, f.value);
      SuffixPrepend(s[j..], StripThink(t), s[..i]);
    }
  }

  lemma SuffixPrepend(y: string, x: string, p: string)
    requires IsSuffix(y, x)
    ensures IsSuffix(y, p + x)
  {
    assert (p + x)[|p + x| - |y|..] == x[|x| - |y|..];
  }

  /** Non-greedy removal: the first `<think>` is removed together with the
      first `</think>` after it, everything between them (newlines included),
      and the scan resumes right after that `</think>`. */
  lemma RemovesFirstBlock(a: string, b: string, c: string)
    requires forall j :: !OccursAt(a, OpenTag, j)
    requires forall k :: !OccursAt(b, CloseTag, k)
    ensures StripThink(a + OpenTag + b + CloseTag + c) == a + StripThink(c)
  {
    var s := a + OpenTag + b + CloseTag + c;
    var e := |a| + |OpenTag| + |b| + |CloseTag|;
    FirstBlockOf(a, b, c);
    StripThinkStep(s, Span(|a|, e));
    assert s[..|a|] == a;
    assert s[e..] == c;
  }

  /** The first block of `a<think>b</think>c` is the one written out, when `a`
      holds no `<think>` and `b` no `</think>`. */
  lemma FirstBlockOf(a: string, b: string, c: string)
    requires forall j :: !OccursAt(a, OpenTag, j)
    requires forall k :: !OccursAt(b, CloseTag, k)
    ensures FirstBlock(a + OpenTag + b + CloseTag + c)
            == Some(Span(|a|, |a| + |OpenTag| + |b| + |CloseTag|))
  {
    var s := a + OpenTag + b + CloseTag + c;
    var rest := b + CloseTag + c;
    TagHeadsUnique();
    assert s == a + OpenTag + rest;
    FirstOccurrence(a, OpenTag, rest);
    assert s[|a| + |OpenTag|..] == rest;
    FoundAfter(s, CloseTag, |a| + |OpenTag|, b, c);
    FirstBlockAt(s, |a|, |a| + |OpenTag| + |b|);
  }

  /** The first character of either tag does not recur in it. */
  lemma TagHeadsUnique()
    ensures |OpenTag| > 0 && OpenTag[0] !in OpenTag[1..]
    ensures |CloseTag| > 0 && CloseTag[0] !in CloseTag[1..]
  {
  }

  lemma FirstBlockAt(s: string, i: nat, k: nat)
    requires Find(s, OpenTag, 0) == Some(i)
    requires Find(s, CloseTag, i + |OpenTag|) == Some(k)
    ensures FirstBlock(s) == Some(Span(i, k + |CloseTag|))
  {
  }

  /** A string without `<` contains neither tag. */
  lemma NoAngleNoTag(s: string, pat: string)
    requires |pat| > 0 && pat[0] == '<'
    requires '<' !in s
    ensures forall j :: !OccursAt(s, pat, j)
  {
  }

  /** A reply without `</think>` is left as it is. */
  lemma NoCloseTagUnchanged(s: string)
    requires forall k :: !OccursAt(s, CloseTag, k)
    ensures StripThink(s) == s
  {
    FirstBlockSpec(s);
  }

  /** A leading block is removed whole when nothing inside it looks like
      `</think>`. */
  lemma RemovesLeadingBlock(b: string, c: string)
    requires forall k :: !OccursAt(b, CloseTag, k)
    ensures StripThink(OpenTag + b + CloseTag + c) == StripThink(c)
  {
    assert "" + OpenTag + b + CloseTag + c == OpenTag + b + CloseTag + c;
    NoAngleNoTag("", OpenTag);
    RemovesFirstBlock("", b, c);
  }

  /** A reply that opens with one reasoning block is answered by what follows
      the block, trimmed. */
  lemma LeadingBlockAnswer(b: string, y: string)
    requires forall k :: !OccursAt(b, CloseTag, k)
    requires forall j :: !OccursAt(y, OpenTag, j)
    ensures CleanAnswer(OpenTag + b + CloseTag + y) == Strip(y)
  {
    RemovesLeadingBlock(b, y);
    NoOpenTagUnchanged(y);
  }

  /** Two blocks are removed separately, not as one span from the first
      `<think>` to the last `</think>`: the text between them survives. */
  lemma TextBetweenBlocksKept(b1: string, x: string, b2: string, y: string)
    requires forall k :: !OccursAt(b1, CloseTag, k)
    requires forall j :: !OccursAt(x, OpenTag, j)
    requires forall k :: !OccursAt(b2, CloseTag, k)
    requires forall j :: !OccursAt(y, OpenTag, j)
    ensures StripThink(OpenTag + b1 + CloseTag + x + OpenTag + b2 + CloseTag + y) == x + y
  {
    var rest := x + OpenTag + b2 + CloseTag + y;
    assert OpenTag + b1 + CloseTag + x + OpenTag + b2 + CloseTag + y == OpenTag + b1 + CloseTag + rest;
    RemovesLeadingBlock(b1, rest);
    RemovesFirstBlock(x, b2, y);
    NoOpenTagUnchanged(y);
  }
}
