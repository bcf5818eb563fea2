/** The text sent to the language models in `app/llm.py`: the knowledge-base
    context built from the entries a search returned, the user message that
    carries the question and that context, and the two provider payloads. */
module Prompt {
  import opened Text
  import opened KnowledgeIndex

  /** `SYSTEM_PROMPT`, as left by `strip()` on the triple-quoted literal. */
  const SystemPrompt: string :=
    "Вы — профессиональный консультант по клиентским вопросам, знакомый с проектами нашей фирмы.\n"
    + "Отвечайте точно, понятно и по существу. Не отвечайте на вопросы, не связанные с деятельностью компании."

  /** Placed between context blocks, and between the system prompt and the
      user text of the GigaChat prompt. */
  const Separator: string := "\n\n---\n\n"

  const QuestionHeader: string := "Вопрос клиента:\n"

  const ContextHeader: string := "\n\nОтветь на основе базы знаний:\n"

  /** One message of the YandexGPT completion request. */
  datatype Message = Message(role: string, text: string)

  // ---------------------------------------------------------------------------
  // Context

  /** The text one entry contributes, before blank ones are dropped: empty,
      or without whitespace at either end. */
  function EntryText(e: Entry): (r: string)
    ensures r == [] || Trimmed(r)
  {
    Strip(e.title + "\n" + e.body)
  }

  /** The `blocks` list of `_build_context` once it has seen `entries`: the
      entry texts that are not empty, in input order. */
  function ContextBlocks(entries: seq<Entry>): (r: seq<string>)
    ensures |r| <= |entries|
    decreases |entries|
  {
    if entries == [] then []
    else
      var init := ContextBlocks(entries[..|entries| - 1]);
      var text := EntryText(entries[|entries| - 1]);
      if text != [] then init + [text] else init
  }

  /** What `_build_context` returns: empty exactly when no entry has text. */
  function Context(entries: seq<Entry>): (r: string)
    ensures r == [] <==> ContextBlocks(entries) == []
  {
    var blocks := ContextBlocks(entries);
    assert blocks != [] ==> Join(blocks, Separator) != [] by {
      if blocks != [] {
        assert blocks[0] in blocks;
        ContextBlocksMembers(entries, blocks[0]);
        JoinNonEmpty(blocks, Separator);
      }
    }
    Join(blocks, Separator)
  }

  /** `_build_context`: a loop that collects the non-empty entry texts, then
      one join. */
  method BuildContext(entries: seq<Entry>) returns (context: string)
    ensures context == Context(entries)
  {
    var blocks: seq<string> := [];
    for i := 0 to |entries|
      invariant blocks == ContextBlocks(entries[..i])
    {
      assert entries[..i + 1][..i] == entries[..i];
      var e := entries[i];
      var text := Strip(e.title + "\n" + e.body);
      if text != [] {
        blocks := blocks + [text];
      }
    }
    assert entries[..|entries|] == entries;
    context := Join(blocks, Separator);
  }

  /** Every kept block is a non-empty entry text, and every non-empty entry
      text is kept. */
  lemma {:induction false} ContextBlocksMembers(entries: seq<Entry>, b: string)
    ensures b in ContextBlocks(entries) <==> b != [] && exists k :: 0 <= k < |entries| && EntryText(entries[k]) == b
    decreases |entries|
  {
    if entries != [] {
      var n := |entries|;
      var init := entries[..n - 1];
      ContextBlocksMembers(init, b);
      if b != [] && exists k :: 0 <= k < n && EntryText(entries[k]) == b {
        var k :| 0 <= k < n && EntryText(entries[k]) == b;
        if k < n - 1 {
          assert init[k] == entries[k];
        }
      }
      if exists k :: 0 <= k < n - 1 && EntryText(init[k]) == b {
        var k :| 0 <= k < n - 1 && EntryText(init[k]) == b;
        assert entries[k] == init[k];
      }
    }
  }

  /** Dropping blank entries commutes with concatenation, so the blocks of a
      longer list start with the blocks of its prefix: input order is kept. */
  lemma {:induction false} ContextBlocksAppend(a: seq<Entry>, b: seq<Entry>)
    ensures ContextBlocks(a + b) == ContextBlocks(a) + ContextBlocks(b)
    decreases |b|
  {
    if b == [] {
      assert a + b == a;
    } else {
      var n := |b|;
      assert (a + b)[..|a + b| - 1] == a + b[..n - 1];
      assert (a + b)[|a + b| - 1] == b[n - 1];
      ContextBlocksAppend(a, b[..n - 1]);
    }
  }

  /** The context is empty exactly when every entry text is empty (and so
      for an empty list of entries). */
  lemma ContextEmpty(entries: seq<Entry>)
    ensures Context(entries) == [] <==> forall k :: 0 <= k < |entries| ==> EntryText(entries[k]) == []
  {
    var blocks := ContextBlocks(entries);
    if blocks != [] {
      assert blocks[0] in blocks;
      ContextBlocksMembers(entries, blocks[0]);
      JoinNonEmpty(blocks, Separator);
    } else if exists k :: 0 <= k < |entries| && EntryText(entries[k]) != [] {
      var k :| 0 <= k < |entries| && EntryText(entries[k]) != [];
      ContextBlocksMembers(entries, EntryText(entries[k]));
    }
  }

  /** A further entry with some text is joined on after exactly one
      separator. */
  lemma ContextSnoc(entries: seq<Entry>, e: Entry)
    requires Context(entries) != [] && EntryText(e) != []
    ensures Context(entries + [e]) == Context(entries) + Separator + EntryText(e)
  {
    var all := entries + [e];
    assert all[..|all| - 1] == entries;
    JoinSnoc(ContextBlocks(entries), EntryText(e), Separator);
  }

  /** An entry whose body is empty contributes its stripped title alone. */
  lemma EntryTextEmptyBody(e: Entry)
    requires e.body == []
    ensures EntryText(e) == Strip(e.title)
  {
    assert e.title + "\n" + e.body == e.title + ['\n'];
    StripAppendSpace(e.title, '\n');
  }

  // ---------------------------------------------------------------------------
  // User text and provider payloads

  /** The user message both providers send. */
  function UserText(question: string, context: string): (r: string)
    ensures |r| >= |QuestionHeader| + |question|
    ensures context != [] <==> |r| > |QuestionHeader| + |question|
  {
    QuestionHeader + question + (if context != [] then ContextHeader + context else [])
  }

  /** The user text always opens with the question header and the question;
      the knowledge-base part follows exactly when the context is non-empty. */
  lemma UserTextShape(question: string, context: string)
    ensures var head, r := QuestionHeader + question, UserText(question, context);
      && |head| <= |r| && r[..|head|] == head
      && (context == [] <==> r == head)
      && (context != [] ==> r[|head|..] == ContextHeader + context)
  {
    var head, r := QuestionHeader + question, UserText(question, context);
    if context != [] {
      assert r == head + (ContextHeader + context);
      assert |r| > |head|;
    } else {
      assert r == head + [];
    }
  }

  /** The `user_text` lines of `ask_yandex` and `ask_gigachat`: the question
      part, grown by the knowledge-base part when the context has text. */
  method BuildUserText(question: string, entries: seq<Entry>) returns (userText: string)
    ensures userText == UserText(question, Context(entries))
  {
    var context := BuildContext(entries);
    userText := QuestionHeader + question;
    if context != [] {
      userText := userText + ContextHeader + context;
    }
  }

  /** The `messages` of the YandexGPT request. */
  method YandexMessages(question: string, entries: seq<Entry>) returns (messages: seq<Message>)
    ensures messages == [Message("system", SystemPrompt), Message("user", UserText(question, Context(entries)))]
  {
    var userText := BuildUserText(question, entries);
    messages := [Message("system", SystemPrompt), Message("user", userText)];
  }

  /** The single prompt string given to GigaChat. */
  method GigaChatPrompt(question: string, entries: seq<Entry>) returns (prompt: string)
    ensures prompt == SystemPrompt + Separator + UserText(question, Context(entries))
  {
    var userText := BuildUserText(question, entries);
    prompt := SystemPrompt + Separator + userText;
  }

  /** For the same question and entries the two providers carry the same
      user text: GigaChat's prompt is YandexGPT's system message, the
      separator and YandexGPT's user message. */
  method BothProviders(question: string, entries: seq<Entry>) returns (messages: seq<Message>, prompt: string)
    ensures |messages| == 2 && messages[0].role == "system" && messages[1].role == "user"
    ensures prompt == messages[0].text + Separator + messages[1].text
  {
    messages := YandexMessages(question, entries);
    prompt := GigaChatPrompt(question, entries);
  }
}
