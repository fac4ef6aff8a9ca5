# `!гпт` chat relay — a verified model of its message handler

The repository is a Telegram bot that relays questions to a language model
through OpenRouter. Its only piece with behaviour of its own is the message
handler `handle_message` in `main3.py`. The handler ignores every message whose
lower-cased text does not start with `!гпт`. It takes the rest of the message,
stripped of surrounding whitespace and in its original case, as the question. It
answers an empty question with a fixed usage text. Otherwise it makes one
completion request (system instruction, then the question). It sends the answer
back in slices of at most 4000 characters. Any exception inside its `try` block
turns into one error reply that carries at most 300 characters of the exception
text.

The model has three modules:

- `Strings` (`strings.dfy`): the parts of Python's `str` the handler uses.
  These are clamped slicing (`Take`, `Drop`), `strip()` with Python's
  `isspace()` set (`Strip`), and `lower()` (`LowerChar`, `Lower`).
- `Chunking` (`chunking.dfy`): the split of an answer into replies.
  `Chunks` is the split into 4000-character slices. `Replies` chooses between
  that split and the whole answer, as the `if len(answer) > 4000` does. The
  lemmas prove that the split is lossless and has the stated bounds, that its
  k-th part is Python's `answer[4000k:4000k+4000]`, and that no other split has
  that shape.
- `Handler` (`handler.dfy`): the handler itself. `Handle` is a function from the
  message text, the result of the completion call (`ApiOutcome`: `Ok(answer)` or
  `Err(detail)`) and the behaviour of the transport (`Delivery`: every send goes
  through, or send number `index` raises). It returns the outcome kind
  (`Ignored`, `UsageError`, `Asked`), the request made (if any) and the replies
  sent, in order. `HandleMessage` and `SendReplies` carry out the same steps
  imperatively: the loop over `range(0, len(answer), 4000)` appends one reply per
  iteration. `HandleMessage` is proved equal to `Handle`, and `SendReplies` to
  `Relay`, the part of `Handle` that describes the `try` block. The lemmas state
  the handler's promises case by case.

Three details of `main3.py` shape the model:

- The command is the Cyrillic `!гпт` (line 36).
- The reply sends on lines 85 and 87 sit inside the `try` block (lines 57-96).
  A failed send of a slice is therefore caught like an API failure. One error
  reply follows the slices already delivered (`Delivery.FailsOnSend`).
- The typing indicator (lines 52-55) is sent before the `try` block, so nothing
  catches its failure.

## Model

| member | source | states |
|---|---|---|
| `Strings.Take` | main3.py:94 | `s[:n]` has length min(n, len(s)) and is a prefix of `s` |
| `Strings.Drop` | main3.py:40 | `s[n:]` is what follows `s[:n]`, so the two put back together give `s` |
| `Strings.IsSpace` | main3.py:40 | the whitespace set of `strip()`, which is Python's `isspace()`; specified by the `Strip`, `StripBordered` and `StripCharacterized` rows |
| `Strings.TrimStart` | main3.py:40 | the leading-whitespace half of `strip()`: the result is a suffix of `s`, what it drops is all whitespace, and it does not start with whitespace |
| `Strings.TrimEnd` | main3.py:40 | the trailing-whitespace half of `strip()`: the result is a prefix of `s`, what it drops is all whitespace, and it does not end with whitespace |
| `Strings.Strip` | main3.py:40 | `strip()` gives a text no longer than `s` that neither starts nor ends with whitespace, and is empty exactly when `s` is all whitespace; that it is the whitespace-bordered core of `s` is the `StripBordered` row |
| `Strings.StripBordered` | main3.py:40 | `strip()` removes whitespace only: the text is whitespace, then its stripped form, then whitespace |
| `Strings.StripCharacterized` | main3.py:40 | for whitespace `a` and `b` and a text `r` that neither starts nor ends with whitespace, `strip(a + r + b) == r` (the contract of `Strip` determines it) |
| `Strings.LowerChar` | main3.py:36 | `lower()` on one character; its effect on the command test is specified by the `CommandCaseInsensitive` and `CapitalCommand` rows |
| `Strings.Lower` | main3.py:36 | lower-casing keeps the length, so the four-character prefix test and the slice `[4:]` speak of the same positions |
| `Chunking.Chunks` | main3.py:83-85 | the split has ceil(L/4000) parts; each is non-empty and at most 4000 long; all but the last are exactly 4000 long |
| `Chunking.ConcatChunks` | main3.py:83-85 | the parts put back together in order give the answer |
| `Chunking.ChunkAt` | main3.py:84-85 | the k-th part is `answer[i:i+4000]` for the k-th index `i = 4000k` of `range(0, len(answer), 4000)`, and that index is below `len(answer)` |
| `Chunking.ChunksCharacterized` | main3.py:84-85 | any list of parts with that shape whose concatenation is the answer is the split itself |
| `Chunking.Replies` | main3.py:83-87 | the texts sent for a delivered answer, from the two branches of line 83; specified by the `RepliesSplit` row |
| `Chunking.RepliesSplit` | main3.py:83-87 | for every answer: one reply for the empty answer, else ceil(L/4000); each at most 4000 long, all but the last exactly 4000; the concatenation is the answer; for a non-empty answer both branches give the same replies |
| `Handler.IsCommand` | main3.py:36 | `message_text.lower().startswith("!гпт")`; specified by the `CommandCaseInsensitive` row |
| `Handler.Question` | main3.py:40 | `message_text[4:].strip()`; specified by the `QuestionKeepsCase` and `QuestionBetweenSpaces` rows |
| `Handler.AskFor` | main3.py:59-72 | the one completion request; specified by the `AskedIffQuestion` row |
| `Handler.Relay` | main3.py:57-96 | the replies of the `try` block; specified by the `SendReplies`, `RelayOutcomes`, `AnswerRelayed` and `SendFailureReply` rows |
| `Handler.Handle` | main3.py:30-96 | the handler as a function; specified by the `IgnoredIffNotCommand`, `UsageIffBlankQuestion` and `AskedIffQuestion` rows |
| `Handler.ErrorReply` | main3.py:93-96 | the error reply starts with the fixed head and ends with a backtick; between them is a prefix of the exception text of length min(len, 300) |
| `Handler.HandleMessage` | main3.py:30-96 | the step-by-step handler gives exactly what `Handle` gives, for every text, API result and transport behaviour |
| `Handler.SendReplies` | main3.py:57-96 | the send loop over `range(0, len(answer), 4000)` (or the single send), cut short by the error reply at the first failure, gives exactly the replies `Relay` describes |
| `Handler.CommandCaseInsensitive` | main3.py:36 | the command test holds iff the text has at least four characters: `!`, then г/Г, п/П, т/Т |
| `Handler.QuestionKeepsCase` | main3.py:36-40 | for the command in any case followed by any text, the message is a command and its question is that text stripped, with its case unchanged |
| `Handler.IgnoredIffNotCommand` | main3.py:36-37 | the message is ignored iff it is not a command; an ignored message sends nothing and makes no request, whatever the API and transport |
| `Handler.UsageIffBlankQuestion` | main3.py:40-49 | the outcome is a usage error iff the message is a command followed only by whitespace; then there is exactly one reply, the usage text, and no request |
| `Handler.AskedIffQuestion` | main3.py:40-72 | a question is asked iff the message is a command with non-whitespace after it; then `create` is called exactly once, with this request: the model id, the system instruction, then the non-empty question as the only user message |
| `Handler.AnswerRelayed` | main3.py:80-87 | with every send delivered, the replies concatenate to the answer; an answer of at most 4000 characters (empty or exactly 4000 included) is one reply equal to it; a longer one is ceil(L/4000) non-empty replies, all but the last exactly 4000, the k-th being `answer[4000k:4000k+4000]` |
| `Handler.SendFailureReply` | main3.py:83-96 | when send number `index` fails, the chat has the first `index` replies (the first 4000·`index` characters of the answer) followed by exactly one error reply, and nothing else |
| `Handler.RelayOutcomes` | main3.py:57-96 | the `try` block always sends at least one reply: a failed completion call gets exactly the error reply for its exception text; an answer gets either all of its replies, or a proper prefix of them followed by one error reply as the last message |
| `Handler.CommandThenQuestion` | main3.py:36-87 | the command in any case, then whitespace, a question and whitespace, with a delivered answer of at most 4000 characters, makes exactly one request carrying that question and sends exactly one reply, the answer (for example `"!гпт hello"` answered `"world"`) |
| `Handler.QuestionBetweenSpaces` | main3.py:36-40 | the command in any case, then whitespace, a question that neither starts nor ends with whitespace, and whitespace, is a command whose question is exactly that question |
| `Handler.CommandThenBlank` | main3.py:36-49 | the command in any case followed by whitespace only makes no request and sends exactly one reply, the usage text (for example `"!ГПТ "`) |
| `Handler.CapitalCommand` | main3.py:36 | `"!ГПТ"` lower-cases to the command |
| `Handler.NineThousandCharacters` | main3.py:83-85 | a 9000-character answer goes out as replies of 4000, 4000 and 1000 characters |

## Left out

- `main()`, the application builder, handler registration and polling (main3.py:99-113): transport plumbing with no behaviour of its own.
- The OpenRouter client and the HTTP call (main3.py:15-18, 59-77): a foreign library call. Its result is the input `ApiOutcome`. The exception text is `Err(detail)`. A response without content, which makes `len(answer)` raise, is also an `Err`.
- The OpenAI client (main3.py:15-18) keeps the library's default automatic retries. So "exactly one request" in the `AskedIffQuestion` row means one call of `create`, not one HTTP request. The retries happen inside the foreign call.
- Telegram refuses a reply with empty text. So an empty answer is not delivered as one empty reply, as `AnswerRelayed` and `RepliesSplit` describe under `AllDelivered`. It fails on its first send. The model covers that as `FailsOnSend(0, detail)`, which gives the error reply.
- The sampling temperature 0.7 and the extra HTTP headers of the request (main3.py:72-76): opaque request parameters. The temperature is a float and is not reasoned about. The model id, the two messages and `max_tokens=2048` are modelled.
- The typing indicator (main3.py:52-55): a content-free side effect. It is sent exactly when a question is asked, before the request. It is not an element of `Handled`, and its failure, which would propagate, is not modelled.
- Failures of the usage reply (main3.py:44-48) and of the error reply itself (main3.py:93-96): they are outside the `try` block and would propagate to the transport. The model takes those two sends as delivered.
- Logging (main3.py:8-12, 89, 92) and the Markdown `parse_mode`: presentation only.
- `async`/`await` scheduling and concurrency between handlers: each call of `Handle` is one message handled on its own, with no shared state.
- Messages without text: the transport's `filters.TEXT` keeps them from reaching the handler.
- `Strings.LowerChar`: models Python's `lower()` only for Basic Latin and the Cyrillic capitals U+0400-U+042F, and leaves every other character unchanged. Full Unicode lowering differs for other scripts and can lengthen a string (U+0130). Neither affects the command test, because only `!`, г/Г, п/П and т/Т lower to the command's four characters.
- Python strings may hold lone surrogate code points; Dafny's `char` cannot. A text containing one is outside the model.
