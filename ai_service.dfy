/**
 * The AI service: two locally loaded language models tried in order
 * (DialoGPT-medium, then GPT-2), each behind its own output extraction and
 * the shared post-processor, and a fixed apology when neither yields text.
 *
 * Loading a model and running `generate` are foreign computations; they
 * enter the model as oracle values (`LoadAttempt`, `ModelOutput`).
 */
module AiService {
  import opened Wrappers
  import opened Text
  import opened PostProcessor

  /** A tokenizer as far as the service touches it: its padding and end-of-sequence tokens. */
  datatype Tokenizer = Tokenizer(padToken: Option<string>, eosToken: string)

  /** A loaded causal language model; its weights are out of scope. */
  datatype Model = Model(name: string)

  /**
   * What `from_pretrained` gives for one model: the tokenizer, then the
   * model, each `None` where loading raised. The model is not loaded when
   * the tokenizer fails, so `model` is then ignored.
   */
  datatype LoadAttempt = LoadAttempt(tokenizer: Option<Tokenizer>, model: Option<Model>)

  /** What one tokenise-generate-decode round of a tier gives: the decoded text, or an exception raised anywhere in it. */
  datatype ModelOutput = Decoded(text: string) | Raised

  /** The two generation tiers, in the order they are tried. */
  datatype Tier = DialoGPT | GPT2

  /** The answer when no tier yields text. */
  const FallbackMessage: string :=
    "Desculpe, n\U{C3}\U{A3}o consigo processar sua pergunta no momento. Tente novamente mais tarde."

  /** The tag after which GPT-2's answer starts. */
  const AnswerMarker: string := "Resposta:"

  /** The padding token falls back to the end-of-sequence token when the tokenizer has none. */
  function WithPadToken(t: Tokenizer): (r: Tokenizer)
    ensures r.eosToken == t.eosToken && r.padToken.Some?
    ensures t.padToken.Some? ==> r == t
    ensures t.padToken.None? ==> r.padToken == Some(t.eosToken)
  {
    if t.padToken.None? then t.(padToken := Some(t.eosToken)) else t
  }

  /**
   * The model and tokenizer fields one load attempt leaves behind: both when
   * tokenizer and model load (the tokenizer with its pad token set), neither
   * otherwise.
   */
  function Install(a: LoadAttempt): (h: (Option<Model>, Option<Tokenizer>))
    ensures h.0.Some? <==> h.1.Some?
    ensures h.0.Some? <==> a.tokenizer.Some? && a.model.Some?
    ensures h.0.Some? ==> h.0 == a.model && h.1.value == WithPadToken(a.tokenizer.value)
    ensures h.1.Some? ==> h.1.value.padToken.Some?
  {
    match a.tokenizer
    case None => (None, None)
    case Some(t) =>
      match a.model
      case None => (None, None)
      case Some(m) => (Some(m), Some(WithPadToken(t)))
  }

  /**
   * DialoGPT's echo removal: when the question occurs in the decoded text,
   * every occurrence of it is deleted (Python's `replace(question, "")`) and
   * the rest is stripped; otherwise the text is left as it is.
   */
  function StripEcho(question: string, decoded: string): (r: string)
    ensures !Contains(decoded, question) ==> r == decoded
    ensures Contains(decoded, question) && question == [] ==> r == Strip(decoded)
    ensures Contains(decoded, question) && question != [] ==>
      r == Strip(Join(Split(decoded, question), [])) && |r| + |question| <= |decoded|
  {
    if Contains(decoded, question) then
      RemoveAllShorter(decoded, question);
      if question != [] then
        RemoveAllIsJoinOfPieces(decoded, question);
        var k :| PaddedBy(RemoveAll(decoded, question), Strip(RemoveAll(decoded, question)), k);
        Strip(RemoveAll(decoded, question))
      else
        Strip(RemoveAll(decoded, question))
    else
      decoded
  }

  /** The prompt GPT-2 continues: the question after its tag, then the answer marker. */
  function Gpt2Prompt(question: string): (p: string)
    ensures |p| == |question| + 20
    ensures OccursAt(p, question, 10)
    ensures EndsWith(p, AnswerMarker)
  {
    "Pergunta: " + question + "\nResposta:"
  }

  /** The prompt ends with the answer marker, so text holding the prompt holds the marker. */
  lemma PromptHoldsMarker(question: string, full: string)
    requires Contains(full, Gpt2Prompt(question))
    ensures Contains(full, AnswerMarker)
  {
    var p := Gpt2Prompt(question);
    var i :| 0 <= i <= |full| - |p| && OccursAt(full, p, i);
    var j := i + |p| - |AnswerMarker|;
    assert p[|p| - |AnswerMarker|..] == AnswerMarker;
    assert full[j..j + |AnswerMarker|] == full[i..i + |p|][|p| - |AnswerMarker|..];
    assert OccursAt(full, AnswerMarker, j);
  }

  /** `tail` is what follows an occurrence of the marker at the end of `full`, and it holds no further marker. */
  predicate AnswerTail(full: string, tail: string) {
    |tail| + |AnswerMarker| <= |full| && tail == full[|full| - |tail|..]
    && EndsWith(full[..|full| - |tail|], AnswerMarker) && !Contains(tail, AnswerMarker)
  }

  /**
   * GPT-2's extraction: the stripped text after the last "Resposta:", or,
   * when there is none, the output with the prompt deleted and stripped.
   * Without a marker the prompt cannot occur either, so that branch only
   * strips.
   */
  function ExtractAnswer(question: string, full: string): (r: string)
    ensures Contains(full, AnswerMarker) ==> exists tail :: AnswerTail(full, tail) && r == Strip(tail)
    ensures !Contains(full, AnswerMarker) ==> r == Strip(full)
  {
    if Contains(full, AnswerMarker) then
      var tail := AfterLast(full, AnswerMarker);
      assert AnswerTail(full, tail);
      Strip(tail)
    else
      if Contains(full, Gpt2Prompt(question)) then
        PromptHoldsMarker(question, full);
        Strip(RemoveAll(full, Gpt2Prompt(question)))
      else
        RemoveAllAbsent(full, Gpt2Prompt(question));
        Strip(RemoveAll(full, Gpt2Prompt(question)))
  }

  /** A text within the post-processor's bounds. */
  predicate InBounds(s: string) {
    MinLength <= |s| <= MaxLength
  }

  /** What a tier yields when it runs, given what each of the two yields. */
  function Yield(t: Tier, dialog: Option<string>, gpt2: Option<string>): Option<string> {
    match t
    case DialoGPT => dialog
    case GPT2 => gpt2
  }

  /** `response if response else None`: the empty text counts as no text. */
  function Truthy(r: Option<string>): (t: Option<string>)
    ensures t.Some? <==> r.Some? && r.value != []
    ensures t.Some? ==> t == r
  {
    if r.Some? && r.value != [] then r else None
  }

  /**
   * `_generate_dialog_response`: an exception gives `None`; otherwise the
   * echo-stripped, cleaned text, with empty and rejected text as `None`.
   */
  function DialogTier(question: string, out: ModelOutput): (r: Option<string>)
    ensures out.Raised? ==> r.None?
    ensures out.Decoded? ==> r == Truthy(CleanResponse(StripEcho(question, out.text)))
    ensures r.Some? ==> MinLength <= |r.value| <= MaxLength
  {
    match out
    case Raised => None
    case Decoded(text) => Truthy(CleanResponse(StripEcho(question, text)))
  }

  /**
   * `_generate_gpt2_response`: an exception gives `None`; otherwise the
   * extracted, cleaned answer, with empty and rejected text as `None`.
   */
  function Gpt2Tier(question: string, out: ModelOutput): (r: Option<string>)
    ensures out.Raised? ==> r.None?
    ensures out.Decoded? ==> r == Truthy(CleanResponse(ExtractAnswer(question, out.text)))
    ensures r.Some? ==> MinLength <= |r.value| <= MaxLength
  {
    match out
    case Raised => None
    case Decoded(full) => Truthy(CleanResponse(ExtractAnswer(question, full)))
  }

  /** A tier's text is already in cleaned form: the post-processor would return it unchanged. */
  lemma TierOutputIsClean(t: Tier, question: string, dialogOut: ModelOutput, gpt2Out: ModelOutput)
    requires Yield(t, DialogTier(question, dialogOut), Gpt2Tier(question, gpt2Out)).Some?
    ensures var r := Yield(t, DialogTier(question, dialogOut), Gpt2Tier(question, gpt2Out));
      CleanResponse(r.value) == r
  {
    match t
    case DialoGPT => CleanResponseFixedPoint(StripEcho(question, dialogOut.text));
    case GPT2 => CleanResponseFixedPoint(ExtractAnswer(question, gpt2Out.text));
  }

  /** The answer `generate_response` gives and the tiers it ran, in order. */
  datatype Reply = Reply(text: string, attempted: seq<Tier>)

  /**
   * The chain of `generate_response` once the models are loaded, over what
   * each tier yields when run: a tier runs only when its model and tokenizer
   * are present, DialoGPT before GPT-2; the first tier that yields text
   * answers and no later tier runs; with no text from any tier run the fixed
   * message answers.
   */
  function Respond(dialogReady: bool, gpt2Ready: bool, dialog: Option<string>, gpt2: Option<string>): (r: Reply)
    ensures r.attempted in {[], [DialoGPT], [GPT2], [DialoGPT, GPT2]}
    ensures DialoGPT in r.attempted <==> dialogReady
    ensures GPT2 in r.attempted <==> gpt2Ready && !(dialogReady && dialog.Some?)
    ensures forall i :: 0 <= i < |r.attempted| - 1 ==> Yield(r.attempted[i], dialog, gpt2).None?
    ensures r.attempted != [] && Yield(r.attempted[|r.attempted| - 1], dialog, gpt2).Some? ==>
      Some(r.text) == Yield(r.attempted[|r.attempted| - 1], dialog, gpt2)
    ensures r.attempted == [] || Yield(r.attempted[|r.attempted| - 1], dialog, gpt2).None? ==>
      r.text == FallbackMessage
    ensures (dialog.Some? ==> InBounds(dialog.value)) && (gpt2.Some? ==> InBounds(gpt2.value)) ==> InBounds(r.text)
  {
    if dialogReady && dialog.Some? then Reply(dialog.value, [DialoGPT])
    else
      var attempted :=
        if dialogReady && gpt2Ready then [DialoGPT, GPT2]
        else if dialogReady then [DialoGPT]
        else if gpt2Ready then [GPT2]
        else [];
      if gpt2Ready && gpt2.Some? then Reply(gpt2.value, attempted)
      else Reply(FallbackMessage, attempted)
  }

  /** The chain when DialoGPT runs and yields text. */
  lemma RespondByDialog(dialogReady: bool, gpt2Ready: bool, dialog: Option<string>, gpt2: Option<string>)
    requires dialogReady && dialog.Some?
    ensures Respond(dialogReady, gpt2Ready, dialog, gpt2) == Reply(dialog.value, [DialoGPT])
  {
  }

  /** The chain when DialoGPT yields nothing or cannot run, and GPT-2 runs and yields text. */
  lemma RespondByGpt2(dialogReady: bool, gpt2Ready: bool, dialog: Option<string>, gpt2: Option<string>)
    requires !(dialogReady && dialog.Some?) && gpt2Ready && gpt2.Some?
    ensures Respond(dialogReady, gpt2Ready, dialog, gpt2)
      == Reply(gpt2.value, if dialogReady then [DialoGPT, GPT2] else [GPT2])
  {
  }

  /** The chain when no tier that runs yields text. */
  lemma RespondByFallback(dialogReady: bool, gpt2Ready: bool, dialog: Option<string>, gpt2: Option<string>)
    requires !(dialogReady && dialog.Some?) && !(gpt2Ready && gpt2.Some?)
    ensures Respond(dialogReady, gpt2Ready, dialog, gpt2)
      == Reply(FallbackMessage, (if dialogReady then [DialoGPT] else []) + (if gpt2Ready then [GPT2] else []))
  {
  }

  /**
   * With the real tiers plugged in, the chain is total: whatever the models
   * output or raise, the answer is 10 to 300 characters long, and it is a
   * tier's cleaned output or the fixed message.
   */
  lemma RespondTotal(dialogReady: bool, gpt2Ready: bool, question: string,
                     dialogOut: ModelOutput, gpt2Out: ModelOutput)
    ensures var r := Respond(dialogReady, gpt2Ready, DialogTier(question, dialogOut), Gpt2Tier(question, gpt2Out));
      InBounds(r.text)
      && (r.text == FallbackMessage
          || (dialogReady && DialogTier(question, dialogOut) == Some(r.text))
          || (gpt2Ready && Gpt2Tier(question, gpt2Out) == Some(r.text)))
  {
    var d := DialogTier(question, dialogOut);
    var g := Gpt2Tier(question, gpt2Out);
    assert d.Some? ==> InBounds(d.value);
    assert g.Some? ==> InBounds(g.value);
  }

  /**
   * The service object: its model and tokenizer fields and the flag that
   * guards initialisation.
   */
  class AIService {
    var dialogModel: Option<Model>
    var dialogTokenizer: Option<Tokenizer>
    var gpt2Model: Option<Model>
    var gpt2Tokenizer: Option<Tokenizer>
    var modelsLoaded: bool

    /**
     * Each model and its tokenizer are present together and with a pad
     * token, and nothing is present before initialisation.
     */
    ghost predicate Valid()
      reads this
    {
      && (dialogModel.Some? <==> dialogTokenizer.Some?)
      && (gpt2Model.Some? <==> gpt2Tokenizer.Some?)
      && (dialogTokenizer.Some? ==> dialogTokenizer.value.padToken.Some?)
      && (gpt2Tokenizer.Some? ==> gpt2Tokenizer.value.padToken.Some?)
      && (!modelsLoaded ==> dialogModel.None? && gpt2Model.None?)
    }

    /**
     * DialoGPT may run: model and tokenizer are both present. Under the
     * invariant the model alone decides it, and a ready tokenizer has its
     * pad token.
     */
    predicate DialogReady(): (b: bool)
      reads this
      ensures Valid() ==> (b <==> dialogModel.Some?)
      ensures Valid() && b ==> dialogTokenizer.value.padToken.Some?
    {
      dialogModel.Some? && dialogTokenizer.Some?
    }

    /**
     * GPT-2 may run: model and tokenizer are both present. Under the
     * invariant the model alone decides it, and a ready tokenizer has its
     * pad token.
     */
    predicate Gpt2Ready(): (b: bool)
      reads this
      ensures Valid() ==> (b <==> gpt2Model.Some?)
      ensures Valid() && b ==> gpt2Tokenizer.value.padToken.Some?
    {
      gpt2Model.Some? && gpt2Tokenizer.Some?
    }

    constructor ()
      ensures Valid() && !modelsLoaded
      ensures dialogModel.None? && dialogTokenizer.None? && gpt2Model.None? && gpt2Tokenizer.None?
    {
      dialogModel, dialogTokenizer := None, None;
      gpt2Model, gpt2Tokenizer := None, None;
      modelsLoaded := false;
    }

    /**
     * `initialize_models`: does nothing once loaded; otherwise loads each
     * model on its own (a failure clears only that model's fields and does
     * not stop the other load) and sets the flag whatever happened.
     */
    method InitializeModels(dialogLoad: LoadAttempt, gpt2Load: LoadAttempt)
      requires Valid()
      modifies this
      ensures Valid() && modelsLoaded
      ensures old(modelsLoaded) ==> unchanged(this)
      ensures !old(modelsLoaded) ==> (dialogModel, dialogTokenizer) == Install(dialogLoad)
      ensures !old(modelsLoaded) ==> (gpt2Model, gpt2Tokenizer) == Install(gpt2Load)
    {
      if modelsLoaded {
        return;
      }
      match dialogLoad.tokenizer {
        case None =>
          dialogModel, dialogTokenizer := None, None;
        case Some(t) =>
          dialogTokenizer := Some(t);
          match dialogLoad.model {
            case None =>
              dialogModel, dialogTokenizer := None, None;
            case Some(m) =>
              dialogModel := Some(m);
              dialogTokenizer := Some(WithPadToken(t));
          }
      }
      match gpt2Load.tokenizer {
        case None =>
          gpt2Model, gpt2Tokenizer := None, None;
        case Some(t) =>
          gpt2Tokenizer := Some(t);
          match gpt2Load.model {
            case None =>
              gpt2Model, gpt2Tokenizer := None, None;
            case Some(m) =>
              gpt2Model := Some(m);
              gpt2Tokenizer := Some(WithPadToken(t));
          }
      }
      modelsLoaded := true;
    }

    /**
     * The tier part of `generate_response` (its lines after initialisation):
     * runs DialoGPT, then GPT-2, each only when its model and tokenizer are
     * present, and stops at the first that yields text. Returns the answer
     * and the tiers it ran; changes no field.
     */
    method RunTiers(question: string, dialogOut: ModelOutput, gpt2Out: ModelOutput)
      returns (answer: string, attempted: seq<Tier>)
      ensures Reply(answer, attempted)
        == Respond(DialogReady(), Gpt2Ready(), DialogTier(question, dialogOut), Gpt2Tier(question, gpt2Out))
    {
      ghost var d, g := DialogTier(question, dialogOut), Gpt2Tier(question, gpt2Out);
      attempted := [];
      if dialogModel.Some? && dialogTokenizer.Some? {
        attempted := [DialoGPT];
        var response := DialogTier(question, dialogOut);
        if response.Some? && response.value != [] {
          answer := response.value;
          RespondByDialog(DialogReady(), Gpt2Ready(), d, g);
          return;
        }
      }
      if gpt2Model.Some? && gpt2Tokenizer.Some? {
        attempted := if attempted == [] then [GPT2] else [DialoGPT, GPT2];
        var response := Gpt2Tier(question, gpt2Out);
        if response.Some? && response.value != [] {
          answer := response.value;
          RespondByGpt2(DialogReady(), Gpt2Ready(), d, g);
          return;
        }
      }
      answer := FallbackMessage;
      RespondByFallback(DialogReady(), Gpt2Ready(), d, g);
    }

    /**
     * `generate_response`: initialises first if needed, then runs the tiers
     * over the fields as they are after initialisation. The load oracles
     * matter only on the first call.
     */
    method GenerateResponse(question: string, dialogLoad: LoadAttempt, gpt2Load: LoadAttempt,
                            dialogOut: ModelOutput, gpt2Out: ModelOutput)
      returns (answer: string, attempted: seq<Tier>)
      requires Valid()
      modifies this
      ensures Valid() && modelsLoaded
      ensures old(modelsLoaded) ==> unchanged(this)
      ensures !old(modelsLoaded) ==> (dialogModel, dialogTokenizer) == Install(dialogLoad)
      ensures !old(modelsLoaded) ==> (gpt2Model, gpt2Tokenizer) == Install(gpt2Load)
      ensures Reply(answer, attempted)
        == Respond(DialogReady(), Gpt2Ready(), DialogTier(question, dialogOut), Gpt2Tier(question, gpt2Out))
      ensures MinLength <= |answer| <= MaxLength
    {
      if !modelsLoaded {
        InitializeModels(dialogLoad, gpt2Load);
      }
      answer, attempted := RunTiers(question, dialogOut, gpt2Out);
      RespondTotal(DialogReady(), Gpt2Ready(), question, dialogOut, gpt2Out);
    }
  }

  /**
   * A failed load is not retried: when both loads fail on the first call, a
   * second call with loads that would succeed still answers with the fixed
   * message and runs no tier.
   */
  method FailedLoadIsPermanent(question: string, good: LoadAttempt, out: ModelOutput)
    returns (first: string, second: string, secondTiers: seq<Tier>)
    ensures first == FallbackMessage && second == FallbackMessage && secondTiers == []
  {
    var service := new AIService();
    var failed := LoadAttempt(None, None);
    var tiers;
    first, tiers := service.GenerateResponse(question, failed, failed, out, out);
    second, secondTiers := service.GenerateResponse(question, good, good, out, out);
  }
}
