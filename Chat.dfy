// One turn of the career chatbot (app.py:574-593): the transcript, the
// history prompt built from it, the attachment handling and the reply.
module Chat {
  import opened Wrappers
  import opened Sequences
  import opened Gateway

  datatype Role = User | Assistant

  /** One entry of `st.session_state.messages`. */
  datatype Message = Message(role: Role, content: string)

  const PREAMBLE := "You are an expert AI Career Coach. Keep answers short.\n\nHistory:\n"
  const PDF_HEADER := "\n\n[ATTACHED PDF CONTENT]:\n"
  const PDF_TYPE := "application/pdf"

  /** `role.upper()` for the two roles the transcript holds. */
  function RoleLabel(r: Role): string
  {
    match r
    case User => "USER"
    case Assistant => "ASSISTANT"
  }

  /** The line one message adds to the history. */
  function HistoryLine(m: Message): string
  {
    RoleLabel(m.role) + ": " + m.content + "\n"
  }

  /** The history part of the prompt: one line per message, oldest first. */
  function History(messages: seq<Message>): string
  {
    if messages == [] then [] else History(messages[..|messages| - 1]) + HistoryLine(messages[|messages| - 1])
  }

  /** The loop that accumulates `context_prompt`. */
  method ContextPrompt(messages: seq<Message>) returns (p: string)
    ensures p == PREAMBLE + History(messages)
  {
    p := PREAMBLE;
    var i := 0;
    while i < |messages|
      invariant 0 <= i <= |messages|
      invariant p == PREAMBLE + History(messages[..i])
    {
      assert messages[..i + 1] == messages[..i] + [messages[i]];
      HistoryAppend(messages[..i], messages[i]);
      ConcatAssoc(PREAMBLE, History(messages[..i]), HistoryLine(messages[i]));
      p := p + HistoryLine(messages[i]);
      i := i + 1;
    }
    assert messages[..i] == messages;
  }

  /** Appending a message appends its line. */
  lemma HistoryAppend(messages: seq<Message>, m: Message)
    ensures History(messages + [m]) == History(messages) + HistoryLine(m)
  {
    assert (messages + [m])[..|messages|] == messages;
  }

  /** The history of a longer transcript extends the history of its prefix. */
  lemma {:induction false} HistoryExtends(messages: seq<Message>, more: seq<Message>)
    ensures |History(messages)| <= |History(messages + more)|
    ensures History(messages + more)[..|History(messages)|] == History(messages)
    decreases |more|
  {
    if more == [] {
      assert messages + more == messages;
    } else {
      var front := more[..|more| - 1];
      var m := more[|more| - 1];
      assert messages + more == (messages + front) + [m];
      HistoryExtends(messages, front);
      HistoryAppend(messages + front, m);
    }
  }

  /**
   * A file attached to the turn, with what the application gets from it:
   * the text of a PDF (None when reading it failed) and an opened image
   * (None when opening it failed).
   */
  datatype Attachment = NoFile | Upload(mime: string, pdfText: Option<string>, image: Option<Image>)

  predicate IsImageType(mime: string)
  {
    mime == "image/png" || mime == "image/jpeg" || mime == "image/jpg"
  }

  /** An image attachment that could not be opened: the turn stops with an error shown. */
  predicate ImageFailed(a: Attachment)
  {
    a.Upload? && IsImageType(a.mime) && a.image.None?
  }

  /** The image passed to the model with the prompt. */
  function ImageOf(a: Attachment): Option<Image>
  {
    if a.Upload? && IsImageType(a.mime) then a.image else None
  }

  /** The user's text, followed by the PDF text for a PDF attachment (`None` printed when it was unreadable). */
  function FinalPrompt(prompt: string, a: Attachment): string
  {
    if a.Upload? && a.mime == PDF_TYPE then
      prompt + PDF_HEADER + (match a.pdfText case None => "None" case Some(t) => t)
    else prompt
  }

  /** The prompt of one turn: preamble, history including the new user message, then the user's text again. */
  function TurnPrompt(transcript: seq<Message>, prompt: string, a: Attachment): string
  {
    PREAMBLE + History(transcript + [Message(User, prompt)]) + "\nUSER: " + FinalPrompt(prompt, a)
  }

  /**
   * The user's message reaches the model twice: once as the last history
   * line, once after it as the turn's own `USER:` line.
   */
  lemma PromptRepeatsMessage(transcript: seq<Message>, prompt: string, a: Attachment)
    ensures TurnPrompt(transcript, prompt, a)
         == PREAMBLE + History(transcript) + ("USER: " + prompt + "\n") + ("\nUSER: " + FinalPrompt(prompt, a))
  {
    var m := Message(User, prompt);
    HistoryAppend(transcript, m);
    assert HistoryLine(m) == "USER: " + prompt + "\n";
    ConcatAssoc(PREAMBLE, History(transcript), HistoryLine(m));
  }

  /** Without a PDF attachment the user's text is sent as typed; with one, the PDF text follows a header. */
  lemma FinalPromptShape(prompt: string, a: Attachment)
    ensures !(a.Upload? && a.mime == PDF_TYPE) ==> FinalPrompt(prompt, a) == prompt
    ensures a.Upload? && a.mime == PDF_TYPE && a.pdfText.Some? ==>
      FinalPrompt(prompt, a) == prompt + PDF_HEADER + a.pdfText.value
    ensures |FinalPrompt(prompt, a)| >= |prompt| && FinalPrompt(prompt, a)[..|prompt|] == prompt
  {
  }

  /** The chat transcript of one session. */
  class ChatSession {
    var messages: seq<Message>

    /** Every assistant message answers the user message just before it. */
    ghost predicate Valid()
      reads this
    {
      forall i :: 0 <= i < |messages| && messages[i].role == Assistant ==> 0 < i && messages[i - 1].role == User
    }

    constructor ()
      ensures Valid() && messages == []
    {
      messages := [];
    }

    /**
     * One turn: the user message is recorded; unless an attached image
     * cannot be opened, the model is asked and its reply recorded.
     */
    method Turn(prompt: string, upload: Attachment, modelName: string, hasGroqClient: bool, respond: Call -> Outcome)
      returns (reply: Option<string>)
      requires Valid()
      modifies this
      ensures Valid()
      ensures reply.None? <==> ImageFailed(upload)
      ensures reply.Some? ==>
        reply.value == QueryLlm(TurnPrompt(old(messages), prompt, upload), modelName, ImageOf(upload), hasGroqClient, respond).text
      ensures messages == old(messages) + [Message(User, prompt)] + (if reply.Some? then [Message(Assistant, reply.value)] else [])
    {
      messages := messages + [Message(User, prompt)];
      var context := ContextPrompt(messages);
      var imageData: Option<Image> := None;
      if upload.Upload? && IsImageType(upload.mime) {
        if upload.image.None? {
          // Image.open raised: the error is shown and no reply is recorded.
          reply := None;
          return;
        }
        imageData := upload.image;
      }
      var finalPrompt := prompt;
      if upload.Upload? && upload.mime == PDF_TYPE {
        finalPrompt := prompt + PDF_HEADER + (if upload.pdfText.Some? then upload.pdfText.value else "None");
      }
      var aiReply := QueryLlm(context + "\nUSER: " + finalPrompt, modelName, imageData, hasGroqClient, respond).text;
      messages := messages + [Message(Assistant, aiReply)];
      reply := Some(aiReply);
    }
  }
}
