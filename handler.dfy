/** The chat message handler `handle_message` (main3.py lines 30-96): recognise the
    `!гпт` command, extract the question, ask the completion API once, and relay
    the answer in replies of at most 4000 characters, or one error reply. */
module Handler {
  import opened Strings
  import opened Chunking

  datatype Option<T> = None | Some(value: T)

  /** The command a message must start with, compared in lower case. */
  const CommandPrefix: string := "!гпт"
  /** The model named in every completion request. */
  const ModelId: string := "deepseek/deepseek-chat"
  /** The system instruction sent before the question ("you are a helpful assistant,
      answer in Russian"). */
  const SystemInstruction: string := "Ты полезный ассистент. Отвечай на русском языке."
  /** The output bound sent with every completion request. */
  const MaxTokens: nat := 2048
  /** The reply to a command without a question. */
  const UsageText: string := "\U{274C} Укажите вопрос после команды.\nПример: `!гпт Как работает Python?`"
  /** The text before the error detail in an error reply; the detail is followed by a backtick. */
  const ErrorHead: string := "\U{26A0}\U{FE0F} Ошибка при обращении к API:\n`"
  /** How many characters of the error detail an error reply carries at most. */
  const ErrorDetailLimit: nat := 300

  datatype Role = System | User
  datatype ChatMessage = ChatMessage(role: Role, content: string)
  /** A chat-completion request; the sampling temperature and the extra HTTP headers
      are not modelled. */
  datatype CompletionRequest = CompletionRequest(model: string, messages: seq<ChatMessage>, maxTokens: nat)

  /** What the completion call gives: the answer's text, or the text of the
      exception it raised (network or API error, or a response without content). */
  datatype ApiOutcome = Ok(answer: string) | Err(detail: string)

  /** What the chat transport does with the replies sent inside the `try` block:
      deliver them all, or raise, with the given text, on the send numbered
      `index` (from 0), after delivering the ones before it. */
  datatype Delivery = AllDelivered | FailsOnSend(index: nat, detail: string)

  /** How the handling of one message ended. */
  datatype Kind = Ignored | UsageError | Asked

  /** The completion request made, if any, and the replies sent, in order. */
  datatype Handled = Handled(kind: Kind, request: Option<CompletionRequest>, replies: seq<string>)

  /** Whether the lower-cased text starts with the command. */
  predicate IsCommand(text: string) {
    CommandPrefix <= Lower(text)
  }

  /** The question: the text after the first four characters, taken from the text as
      it was (not lower-cased), without surrounding whitespace. */
  function Question(text: string): string {
    Strip(Drop(text, |CommandPrefix|))
  }

  /** The one request made for a question: the system instruction first, then the
      question as the only user message. */
  function AskFor(question: string): (req: CompletionRequest) {
    CompletionRequest(ModelId,
                      [ChatMessage(System, SystemInstruction), ChatMessage(User, question)],
                      MaxTokens)
  }

  /** The error reply for an exception with text `detail`: it carries at most the
      first ErrorDetailLimit characters of the detail, between ErrorHead and a
      closing backtick. */
  function ErrorReply(detail: string): (r: string)
    ensures ErrorHead <= r && r[|r| - 1] == '`'
    ensures |r| == |ErrorHead| + Min(|detail|, ErrorDetailLimit) + 1
    ensures r[|ErrorHead| .. |r| - 1] <= detail
  {
    var shown := Take(detail, ErrorDetailLimit);
    assert (ErrorHead + shown + "`")[|ErrorHead| .. |ErrorHead| + |shown|] == shown;
    ErrorHead + shown + "`"
  }

  /** The replies sent inside the `try` block once a question has been asked: the
      error reply when the call failed; otherwise the answer's replies, cut short by
      the error reply at the first send that fails. */
  function Relay(api: ApiOutcome, delivery: Delivery): seq<string> {
    match api
    case Err(detail) => [ErrorReply(detail)]
    case Ok(answer) =>
      var texts := Replies(answer);
      if delivery.FailsOnSend? && delivery.index < |texts| then
        texts[..delivery.index] + [ErrorReply(delivery.detail)]
      else
        texts
  }

  /** The handler as a function of the message text, the result of the completion
      call and the behaviour of the transport. */
  function Handle(text: string, api: ApiOutcome, delivery: Delivery): Handled {
    if !IsCommand(text) then Handled(Ignored, None, [])
    else if Question(text) == [] then Handled(UsageError, None, [UsageText])
    else Handled(Asked, Some(AskFor(Question(text))), Relay(api, delivery))
  }

  /** The handler step by step: the command test, the question, the request, then
      the sends of the `try` block. */
  method HandleMessage(text: string, api: ApiOutcome, delivery: Delivery) returns (h: Handled)
    ensures h == Handle(text, api, delivery)
  {
    if !(CommandPrefix <= Lower(text)) {
      return Handled(Ignored, None, []);
    }
    var question := Strip(Drop(text, |CommandPrefix|));
    if question == [] {
      return Handled(UsageError, None, [UsageText]);
    }
    var request := AskFor(question);
    var sent := SendReplies(api, delivery);
    return Handled(Asked, Some(request), sent);
  }

  /** The `try` block after the request: one send per slice `answer[i:i+4000]` for
      `i` in `range(0, len(answer), 4000)` when the answer is longer than 4000
      characters, else one send of the whole answer; the first send that fails, or a
      failed call, ends the sends with the error reply. */
  method SendReplies(api: ApiOutcome, delivery: Delivery) returns (sent: seq<string>)
    ensures sent == Relay(api, delivery)
  {
    sent := [];
    match api {
      case Err(detail) =>
        sent := [ErrorReply(detail)];
      case Ok(answer) =>
        if |answer| > ChunkLimit {
          var i := 0;
          while i < |answer|
            invariant i == |sent| * ChunkLimit
            invariant |sent| <= |Chunks(answer)|
            invariant sent == Chunks(answer)[..|sent|]
            invariant !(delivery.FailsOnSend? && delivery.index < |sent|)
            decreases |answer| - i
          {
            if delivery.FailsOnSend? && delivery.index == |sent| {
              return sent + [ErrorReply(delivery.detail)];
            }
            ChunkAt(answer, |sent|);
            sent := sent + [answer[i .. Min(i + ChunkLimit, |answer|)]];
            i := i + ChunkLimit;
          }
        } else if delivery.FailsOnSend? && delivery.index == 0 {
          sent := [ErrorReply(delivery.detail)];
        } else {
          sent := [answer];
        }
    }
  }

  /** The command test is case-insensitive on exactly the four command characters:
      `!`, then г, п, т in either case. */
  lemma CommandCaseInsensitive(text: string)
    ensures IsCommand(text) <==>
      && |text| >= 4
      && text[0] == '!'
      && (text[1] == 'г' || text[1] == 'Г')
      && (text[2] == 'п' || text[2] == 'П')
      && (text[3] == 'т' || text[3] == 'Т')
  {
    if |text| >= 4 {
      var low := Lower(text);
      assert CommandPrefix == ['!', 'г', 'п', 'т'];
      assert IsCommand(text) <==>
        low[0] == '!' && low[1] == 'г' && low[2] == 'п' && low[3] == 'т';
    }
  }

  /** Whatever the case of the command, the question is the rest of the message with
      its own case: for a command written `p` and any text `rest` after it, the
      question is `rest` stripped. */
  lemma QuestionKeepsCase(p: string, rest: string)
    requires |p| == |CommandPrefix| && Lower(p) == CommandPrefix
    ensures IsCommand(p + rest)
    ensures Question(p + rest) == Strip(rest)
  {
    assert Lower(p + rest)[..4] == Lower(p);
    assert Drop(p + rest, 4) == rest;
  }

  /** A message that does not start with the command is ignored: nothing is sent and
      nothing is asked, whatever the API and the transport would have done. */
  lemma IgnoredIffNotCommand(text: string, api: ApiOutcome, delivery: Delivery)
    ensures Handle(text, api, delivery).kind == Ignored <==> !IsCommand(text)
    ensures !IsCommand(text) ==> Handle(text, api, delivery) == Handled(Ignored, None, [])
  {
  }

  /** A command followed by whitespace only gets exactly one reply, the usage text,
      and no request. */
  lemma UsageIffBlankQuestion(text: string, api: ApiOutcome, delivery: Delivery)
    ensures Handle(text, api, delivery).kind == UsageError
        <==> IsCommand(text) && AllSpace(Drop(text, |CommandPrefix|))
    ensures Handle(text, api, delivery).kind == UsageError ==>
      Handle(text, api, delivery).request == None && Handle(text, api, delivery).replies == [UsageText]
  {
  }

  /** A command with a question makes exactly one request: the system instruction,
      then the question, without surrounding whitespace and with its case, as the
      only user message; the replies are then those of the `try` block. */
  lemma AskedIffQuestion(text: string, api: ApiOutcome, delivery: Delivery)
    ensures Handle(text, api, delivery).kind == Asked
        <==> IsCommand(text) && !AllSpace(Drop(text, |CommandPrefix|))
    ensures Handle(text, api, delivery).kind == Asked ==>
      && Question(text) != []
      && Handle(text, api, delivery).request
         == Some(CompletionRequest(ModelId,
                                   [ChatMessage(System, SystemInstruction), ChatMessage(User, Question(text))],
                                   MaxTokens))
      && Handle(text, api, delivery).replies == Relay(api, delivery)
  {
  }

  /** When the answer arrives and every send goes through, the replies are the
      answer: one reply equal to it when it is at most ChunkLimit long (empty or not),
      else ceil(L / ChunkLimit) non-empty replies, all but the last exactly ChunkLimit
      long, the k-th being `answer[4000k : 4000k + 4000]`, which put back together
      give the answer. */
  lemma {:induction false} AnswerRelayed(answer: string, delivery: Delivery)
    requires !(delivery.FailsOnSend? && delivery.index < |Replies(answer)|)
    ensures var rs := Relay(Ok(answer), delivery);
      && Concat(rs) == answer
      && (|answer| <= ChunkLimit ==> rs == [answer])
      && (|answer| > ChunkLimit ==>
            && |rs| == ChunkCount(|answer|)
            && (forall k :: 0 <= k < |rs| ==> 0 < |rs[k]| <= ChunkLimit)
            && (forall k :: 0 <= k < |rs| - 1 ==> |rs[k]| == ChunkLimit)
            && (forall k :: 0 <= k < |rs| ==>
                  rs[k] == answer[k * ChunkLimit .. Min(k * ChunkLimit + ChunkLimit, |answer|)]))
  {
    RepliesSplit(answer);
    if |answer| > ChunkLimit {
      forall k | 0 <= k < |Chunks(answer)|
        ensures Chunks(answer)[k] == answer[k * ChunkLimit .. Min(k * ChunkLimit + ChunkLimit, |answer|)]
      {
        ChunkAt(answer, k);
      }
    }
  }

  /** Whatever the API and the transport do, the `try` block sends at least one
      reply: a failed call gets exactly the error reply; an answer gets either all of
      its replies, or a proper prefix of them followed by exactly one error reply. */
  lemma RelayOutcomes(api: ApiOutcome, delivery: Delivery)
    ensures var rs := Relay(api, delivery);
      && |rs| >= 1
      && (api.Err? ==> rs == [ErrorReply(api.detail)])
      && (api.Ok? ==>
            || rs == Replies(api.answer)
            || (rs[..|rs| - 1] < Replies(api.answer) && rs[|rs| - 1] == ErrorReply(delivery.detail)))
  {
    if api.Ok? && delivery.FailsOnSend? && delivery.index < |Replies(api.answer)| {
      var rs := Relay(api, delivery);
      assert rs[..|rs| - 1] == Replies(api.answer)[..delivery.index];
    }
  }

  /** A send that fails part-way ends the replies: the chat has received the first
      `index` replies, which together are the first 4000 * `index` characters of the
      answer, followed by exactly one error reply. */
  lemma {:induction false} SendFailureReply(answer: string, index: nat, detail: string)
    requires index < |Replies(answer)|
    ensures var rs := Relay(Ok(answer), FailsOnSend(index, detail));
      && |rs| == index + 1
      && rs[..index] == Replies(answer)[..index]
      && rs[index] == ErrorReply(detail)
      && Concat(rs[..index]) == answer[..index * ChunkLimit]
  {
    var texts := Replies(answer);
    RepliesSplit(answer);
    ConcatAppend(texts[..index], texts[index..]);
    assert texts == texts[..index] + texts[index..];
    ConcatPrefixLength(texts, index);
  }

  /** Helper for SendFailureReply: the first `n` replies of a split hold exactly
      4000 * `n` characters. */
  lemma {:induction false} ConcatPrefixLength(texts: seq<string>, n: nat)
    requires n < |texts|
    requires forall k :: 0 <= k < |texts| - 1 ==> |texts[k]| == ChunkLimit
    ensures |Concat(texts[..n])| == n * ChunkLimit
    decreases n
  {
    if n > 0 {
      ConcatPrefixLength(texts, n - 1);
      assert texts[..n] == texts[..n - 1] + [texts[n - 1]];
      ConcatAppend(texts[..n - 1], [texts[n - 1]]);
      assert Concat([texts[n - 1]]) == texts[n - 1] + Concat([]);
    }
  }

  /** The command, in any case, followed by a question between whitespace, with a
      short answer that is delivered: exactly one request, carrying that question,
      and exactly one reply, the answer (for example "!гпт hello" and "world"). */
  lemma CommandThenQuestion(p: string, before: string, q: string, after: string, answer: string)
    requires |p| == |CommandPrefix| && Lower(p) == CommandPrefix
    requires AllSpace(before) && AllSpace(after)
    requires q != [] && !IsSpace(q[0]) && !IsSpace(q[|q| - 1])
    requires |answer| <= ChunkLimit
    ensures Handle(p + before + q + after, Ok(answer), AllDelivered)
         == Handled(Asked, Some(AskFor(q)), [answer])
  {
    var text := p + before + q + after;
    QuestionBetweenSpaces(p, before, q, after);
    assert Relay(Ok(answer), AllDelivered) == [answer];
    AskedIffQuestion(text, Ok(answer), AllDelivered);
  }

  /** The command, in any case, then a question between whitespace: the message is a
      command and its question is exactly that question. */
  lemma QuestionBetweenSpaces(p: string, before: string, q: string, after: string)
    requires |p| == |CommandPrefix| && Lower(p) == CommandPrefix
    requires AllSpace(before) && AllSpace(after)
    requires q != [] && !IsSpace(q[0]) && !IsSpace(q[|q| - 1])
    ensures IsCommand(p + before + q + after) && Question(p + before + q + after) == q
  {
    assert p + before + q + after == p + (before + q + after);
    QuestionKeepsCase(p, before + q + after);
    StripCharacterized(before, q, after);
  }

  /** The command, in any case, followed by whitespace only: no request and exactly
      one reply, the usage text (for example "!ГПТ "). */
  lemma CommandThenBlank(p: string, rest: string, api: ApiOutcome, delivery: Delivery)
    requires |p| == |CommandPrefix| && Lower(p) == CommandPrefix
    requires AllSpace(rest)
    ensures Handle(p + rest, api, delivery) == Handled(UsageError, None, [UsageText])
  {
    QuestionKeepsCase(p, rest);
  }

  /** "!ГПТ" is the command in capitals. */
  lemma CapitalCommand()
    ensures Lower("!ГПТ") == CommandPrefix
  {
    assert LowerChar('Г') == 'г' && LowerChar('П') == 'п' && LowerChar('Т') == 'т';
  }

  /** A 9000-character answer goes out as three replies of 4000, 4000 and 1000
      characters. */
  lemma NineThousandCharacters(answer: string)
    requires |answer| == 9000
    ensures var rs := Relay(Ok(answer), AllDelivered);
      |rs| == 3 && |rs[0]| == 4000 && |rs[1]| == 4000 && |rs[2]| == 1000
  {
    AnswerRelayed(answer, AllDelivered);
    ChunkAt(answer, 2);
  }
}
