# r1-rag-project: answer post-processing and the conversation history

This project models two parts of the r1-rag-project question-answering demo.
It proves properties of each.

- **The answer service** (`LLMService.generate_response`). It builds a fixed
  system prompt and a user prompt around the question and the retrieved context.
  It sends the two messages to the language-model backend. It removes every
  `<think>...</think>` reasoning block from the reply, as
  `re.sub(r"<think>.*?</think>", "", content, flags=re.DOTALL)` does, and trims
  the result with `str.strip()`. Any backend error, or a reply without
  `message.content`, yields a fixed apology.
- **The conversation history** (`ChatInterface._respond` and `_regenerate`).
  A message that is empty or all whitespace changes nothing. Any other message
  appends exactly one `(message, answer)` turn to the caller's list. Plain
  mode (no uploaded file) answers with an empty context. Retrieval mode answers
  with the retrieved page contents joined by `"\n\n"`, or with a fixed apology
  when retrieval fails. Regenerating drops the last turn, answers its question
  again against the shorter history, and appends the new turn. When retrieval
  fails during a regeneration, the shortened history is returned as it is.

Both backends are parameters of function type:
- `ChatBackend`: model name and messages to a reply or an error;
- `Retriever`: query to documents or an error.

A turn therefore works with whatever the backends return for its inputs.

Files:
- `wrappers.dfy`: `Option` and `Result`.
- `text.dfy` (module `Text`): Python's `str.isspace`, `str.strip()`, and
  searching for a fixed pattern, together with their lemmas.
- `llm_service.dfy` (module `LlmService`): prompts, reasoning removal and
  `GenerateResponse`.
- `llm_examples.dfy` (module `LlmExamples`): concrete replies and their
  cleaned answers.
- `chat_interface.dfy` (module `ChatInterface`): the context join, the turn
  functions, the `HistoryList` class (the Python list the chat widget holds)
  and the `Respond` and `Regenerate` methods that change it.

A retrieval failure during a regeneration records no new turn: the history
without its last turn is returned (`chat_interface.py:148`, `154`, `160-162`).
`RegeneratedTurns` and `RegenerateAfterRespond` state this.

## Model

| member | source | states |
|---|---|---|
| Text.IsSpace | r1-rag-project/core/llm_service.py:63 | Python's `str.isspace` on one character: exactly the Unicode whitespace characters, the ASCII separators U+001C..U+001F included; the same set decides `message.strip()` at `chat_interface.py:110` |
| Text.LeadingSpaces | r1-rag-project/core/llm_service.py:63 | the length of the longest all-whitespace prefix: that prefix is blank and the next character is not whitespace |
| Text.TrailingSpaces | r1-rag-project/core/llm_service.py:63 | the length of the longest all-whitespace suffix: that suffix is blank and the character before it is not whitespace |
| Text.Strip | r1-rag-project/core/llm_service.py:63 | `str.strip()`: the result neither starts nor ends with a `str.isspace` character |
| Text.StripInfix | r1-rag-project/core/llm_service.py:63 | the stripped text is the slice of the input between its leading and trailing whitespace, and only whitespace is removed on both sides |
| Text.StripEmptyIffBlank | r1-rag-project/fronted/chat_interface.py:110 | `not message.strip()` holds exactly when every character of the message is whitespace, empty message included |
| Text.StripTrimmed | r1-rag-project/core/llm_service.py:63 | stripping text that neither starts nor ends with whitespace changes nothing |
| Text.StripIdempotent | r1-rag-project/core/llm_service.py:63 | stripping twice is stripping once |
| Text.StripSubsequence | r1-rag-project/core/llm_service.py:63 | the stripped text is a subsequence of the input |
| Text.StripSurrounded | r1-rag-project/core/llm_service.py:63 | surrounding a trimmed non-empty text with whitespace and stripping gives the text back |
| Text.Find | r1-rag-project/core/llm_service.py:63 | a found position lies at or after the start position, with the whole pattern inside the text |
| Text.FindLeast | r1-rag-project/core/llm_service.py:63 | a found position holds the pattern and no earlier position from the start does; nothing is found only when no position from the start holds it |
| Text.FindFirstOccurrence | r1-rag-project/core/llm_service.py:63 | conversely, the first position holding the pattern is what the search finds |
| LlmService.UserPrompt | r1-rag-project/core/llm_service.py:43-45 | the user prompt starts with the fixed head, holds the question verbatim right after it and ends with the context verbatim; its length is the sum of its parts |
| LlmService.Messages | r1-rag-project/core/llm_service.py:54-57 | exactly two messages are sent: the constant system prompt first, then the user prompt |
| LlmService.Content | r1-rag-project/core/llm_service.py:61 | content is present exactly when both `response["message"]` and its `"content"` exist, and it is that value |
| LlmService.StripThink | r1-rag-project/core/llm_service.py:63 | removing reasoning blocks never lengthens the reply |
| LlmService.FirstBlock | r1-rag-project/core/llm_service.py:63 | a matched block lies inside the reply and is at least as long as the two tags |
| LlmService.FirstBlockSpec | r1-rag-project/core/llm_service.py:63 | the first match starts at the first `<think>` and ends at the nearest `</think>` after it; there is no match exactly when no `<think>` is followed by a `</think>` |
| LlmService.CleanAnswer | r1-rag-project/core/llm_service.py:63 | the returned answer never begins or ends with whitespace |
| LlmService.GenerateResponse | r1-rag-project/core/llm_service.py:50-72 | the answer is always trimmed; a backend error or a reply without `message.content` gives the fixed fallback, and otherwise the answer is the cleaned content |
| LlmService.HistoryIgnored | r1-rag-project/core/llm_service.py:19-58 | the answer is the same whatever chat history is passed |
| LlmService.NoOpenTagUnchanged | r1-rag-project/core/llm_service.py:63 | a reply without `<think>` is only trimmed |
| LlmService.NoCloseTagUnchanged | r1-rag-project/core/llm_service.py:63 | a reply without `</think>` keeps every character |
| LlmService.StripThinkSubsequence | r1-rag-project/core/llm_service.py:63 | the characters that remain appear in the reply in the same order |
| LlmService.CleanAnswerSubsequence | r1-rag-project/core/llm_service.py:63 | the answer is a subsequence of the raw reply and no longer than it |
| LlmService.TagsDisjoint | r1-rag-project/core/llm_service.py:63 | an occurrence of `</think>` lies wholly before or wholly after an occurrence of `<think>` |
| LlmService.UnclosedOpenTagKept | r1-rag-project/core/llm_service.py:63 | a `<think>` that no later `</think>` closes is kept, with everything after it, as the end of the result |
| LlmService.FirstBlockOf | r1-rag-project/core/llm_service.py:63 | in `a<think>b</think>c`, with no `<think>` in `a` and no `</think>` in `b`, the first match is the written block |
| LlmService.RemovesFirstBlock | r1-rag-project/core/llm_service.py:63 | such a block, newlines included, is deleted and the scan resumes right after its `</think>` |
| LlmService.RemovesLeadingBlock | r1-rag-project/core/llm_service.py:63 | a block at the start of the reply is deleted whole |
| LlmService.LeadingBlockAnswer | r1-rag-project/core/llm_service.py:63 | a reply opening with one block is answered by the trimmed text after it |
| LlmService.TextBetweenBlocksKept | r1-rag-project/core/llm_service.py:63 | removal is non-greedy: with two blocks, the text between them survives |
| LlmExamples.ExampleLeadingBlock | r1-rag-project/core/llm_service.py:63 | `<think>internal</think>Paris is the capital.` is answered `Paris is the capital.` |
| LlmExamples.ExampleTwoBlocks | r1-rag-project/core/llm_service.py:63 | `<think>a</think>X<think>b</think>Y` is answered `XY` |
| LlmExamples.ExampleMultiline | r1-rag-project/core/llm_service.py:63 | a block spanning lines is removed and the newlines around the answer are trimmed |
| LlmExamples.ExampleUnclosed | r1-rag-project/core/llm_service.py:63 | `<think>unfinished` is answered unchanged |
| ChatInterface.JoinContents | r1-rag-project/fronted/chat_interface.py:124 | no documents give the empty context and one document gives its own text |
| ChatInterface.JoinLength | r1-rag-project/fronted/chat_interface.py:124 | the context is as long as the texts plus one `"\n\n"` between each two consecutive documents |
| ChatInterface.JoinPieces | r1-rag-project/fronted/chat_interface.py:124 | each document's text appears verbatim at its offset, in retrieval order, followed by `"\n\n"` unless it is the last one |
| ChatInterface.JoinAppend | r1-rag-project/fronted/chat_interface.py:124 | joining two non-empty lists puts exactly one separator between their joined texts |
| ChatInterface.TurnContext | r1-rag-project/fronted/chat_interface.py:113-124 | plain mode uses the empty context; retrieval mode fails exactly when there is no retriever or the retriever raises, and otherwise the context is the retrieved page contents joined by `"\n\n"` |
| ChatInterface.RespondAnswer | r1-rag-project/fronted/chat_interface.py:113-130 | the recorded answer is trimmed; plain mode generates with context `""`; a retrieval failure records the fixed apology; otherwise it is the answer generated against the joined context |
| ChatInterface.RespondTurns | r1-rag-project/fronted/chat_interface.py:110-133 | a blank message leaves the turns unchanged; any other message keeps every earlier turn and adds exactly one, holding the message and its answer |
| ChatInterface.RegeneratedTurns | r1-rag-project/fronted/chat_interface.py:144-162 | an empty history stays empty; every turn but the last is kept; a retrieval failure drops the last turn; otherwise the length and the last question are kept and the last answer is generated again against the shorter history |
| ChatInterface.RespondPreservesWellFormed | r1-rag-project/fronted/chat_interface.py:110-133 | if every question is non-blank and every answer trimmed, that stays so after a message |
| ChatInterface.RegeneratePreservesWellFormed | r1-rag-project/fronted/chat_interface.py:144-162 | the same holds after a regeneration |
| ChatInterface.RegenerateIsUndoThenRespond | r1-rag-project/fronted/chat_interface.py:147-158 | when the last question is not blank and retrieval succeeds, regenerating equals dropping the last turn and sending its question again |
| ChatInterface.RegenerateAfterRespond | r1-rag-project/fronted/chat_interface.py:141-162 | regenerating right after a message gives the same turns when retrieval succeeds, and loses that message's turn when retrieval fails; both parts assume the backends answer a repeated request the same way |
| ChatInterface.RegenerateIdempotent | r1-rag-project/fronted/chat_interface.py:141-162 | when the last question is not blank and retrieval succeeds, regenerating twice equals regenerating once, provided the backends answer a repeated request the same way |
| ChatInterface.HistoryList.Append | r1-rag-project/fronted/chat_interface.py:132 | `list.append` adds the turn at the end and changes nothing else |
| ChatInterface.Respond | r1-rag-project/fronted/chat_interface.py:107-133 | the input is cleared and the caller's list is handed back; a blank message leaves it unchanged, and any other message appends exactly one `(message, answer)` turn to it in place |
| ChatInterface.Regenerate | r1-rag-project/fronted/chat_interface.py:141-162 | an empty history is handed back as the same object; otherwise a new list holding the regenerated turns is returned and the caller's list is not changed |

## Left out

- The admission semaphore and the thread offload (`llm_service.py:16`, `48-58`, `chat_interface.py:120`): they only limit and schedule concurrent calls.
- Logging (`logger.info`, `logger.error`): it has no effect on results.
- The language model and the retriever are not modelled beyond their results. Each is a fixed function of its inputs, so the model does not capture a backend answering the same input differently on two calls.
- `retriever.get_relevant_documents` in `_respond` and `retriever.ainvoke` in `_regenerate` are modelled as the same retriever. In the source they take different paths (`r1-rag-project/core/vector_store.py:29-42`): the first reaches the inner retriever's public `get_relevant_documents`, the second its private `_get_relevant_documents` through a thread. Both end in library code outside this model, so the model assumes the two calls agree.
- The outer `except` of `_respond` (`chat_interface.py:135-139`): nothing inside its `try` can raise in the model. The message is always a string, the history always a list, and generation and retrieval errors are caught further in.
- Content, question and context that are not strings, and a reply whose `"message"` is not a mapping: the model's types rule these out.
- The Gradio interface, the clear button (which replaces the history with `None`), `_process_file` and the CSS: they are interface wiring.
- PDF loading and splitting, the vector store and the configuration module are not part of this model. The model name is a field of the service value, not a configured constant.
- ChatInterface.Respond: its contract does not restate that well-formed turns stay well-formed. `RespondPreservesWellFormed` proves that about the function its contract uses.
- ChatInterface.Regenerate: likewise, `RegeneratePreservesWellFormed` carries the well-formedness proof.
