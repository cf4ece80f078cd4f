/**
 * Research topic extraction (`get_research_topic`): a conversation is flattened into
 * the single string the prompts are built from.
 */
module Topic {
  import opened Text

  /** A conversation entry. Only human and AI messages are rendered; any other kind
      (system, tool, ...) is kept as `OtherMessage`. */
  datatype Message =
    | HumanMessage(content: string)
    | AIMessage(content: string)
    | OtherMessage(content: string)

  /** The line a message contributes to a multi-message topic. */
  function Line(m: Message): string {
    match m
    case HumanMessage(c) => "User: " + c + "\n"
    case AIMessage(c) => "Assistant: " + c + "\n"
    case OtherMessage(_) => ""
  }

  /** The lines of all messages, in conversation order. */
  function Transcript(ms: seq<Message>): string {
    if ms == [] then "" else Transcript(ms[..|ms| - 1]) + Line(ms[|ms| - 1])
  }

  /** The research topic: a single message is taken verbatim, whatever its kind;
      any other number of messages gives the transcript. */
  function ResearchTopic(ms: seq<Message>): string {
    if |ms| == 1 then ms[0].content else Transcript(ms)
  }

  /** The conversation with every message that is neither human nor AI removed. */
  function Dialogue(ms: seq<Message>): (r: seq<Message>)
    ensures forall m :: m in r ==> m in ms && !m.OtherMessage?
    ensures forall m :: m in ms && !m.OtherMessage? ==> m in r
  {
    if ms == [] then []
    else if ms[|ms| - 1].OtherMessage? then Dialogue(ms[..|ms| - 1])
    else Dialogue(ms[..|ms| - 1]) + [ms[|ms| - 1]]
  }

  /** The loop of `get_research_topic`. */
  method GetResearchTopic(messages: seq<Message>) returns (topic: string)
    ensures topic == ResearchTopic(messages)
    ensures |messages| == 1 ==> topic == messages[0].content
    ensures messages == [] ==> topic == ""
  {
    if |messages| == 1 {
      topic := messages[|messages| - 1].content;
    } else {
      topic := "";
      for i := 0 to |messages|
        invariant topic == Transcript(messages[..i])
      {
        assert messages[..i + 1][..i] == messages[..i];
        match messages[i]
        case HumanMessage(c) =>
          var line := "User: " + c + "\n";
          topic := topic + line;
        case AIMessage(c) =>
          var line := "Assistant: " + c + "\n";
          topic := topic + line;
        case OtherMessage(_) =>
      }
      assert messages[..|messages|] == messages;
    }
  }

  /** The transcript of a concatenation is the concatenation of the transcripts:
      each message's line depends on that message alone and lines keep their order. */
  lemma {:induction false} TranscriptAppend(a: seq<Message>, b: seq<Message>)
    ensures Transcript(a + b) == Transcript(a) + Transcript(b)
    decreases |b|
  {
    if b == [] {
      assert a + b == a;
    } else {
      var b' := b[..|b| - 1];
      var last := b[|b| - 1];
      assert (a + b)[..|a + b| - 1] == a + b';
      TranscriptAppend(a, b');
      SeqAssoc(Transcript(a), Transcript(b'), Line(last));
    }
  }

  /** Filtering keeps order: the dialogue of a concatenation is the concatenation of the dialogues. */
  lemma {:induction false} DialogueAppend(a: seq<Message>, b: seq<Message>)
    ensures Dialogue(a + b) == Dialogue(a) + Dialogue(b)
    decreases |b|
  {
    if b == [] {
      assert a + b == a;
    } else {
      var b' := b[..|b| - 1];
      assert (a + b)[..|a + b| - 1] == a + b';
      assert (a + b)[|a + b| - 1] == b[|b| - 1];
      DialogueAppend(a, b');
    }
  }

  /** Messages that are neither human nor AI contribute nothing to the transcript. */
  lemma {:induction false} TranscriptIgnoresOthers(ms: seq<Message>)
    ensures Transcript(ms) == Transcript(Dialogue(ms))
  {
    if ms != [] {
      var init := ms[..|ms| - 1];
      TranscriptIgnoresOthers(init);
      if !ms[|ms| - 1].OtherMessage? {
        TranscriptAppend(Dialogue(init), [ms[|ms| - 1]]);
        assert [ms[|ms| - 1]][..0] == [];
      }
    }
  }
}
