# Tiered answer generation and document serialization, in Dafny

This project models the answering core of a question-and-answer backend for
live rooms.

- **The AI service** (`backend/ai_service.py`) loads two local language
  models, DialoGPT-medium and GPT-2.
  - Each model is loaded on its own. A load failure clears only that model's
    fields, and a failed load is never retried.
  - Questions go to DialoGPT first and then to GPT-2. Each tier runs only
    when its model and tokenizer are present. Its decoded output is cleaned:
    DialoGPT's echo of the question is removed, and GPT-2's answer is cut out
    after its `Resposta:` marker.
  - The first tier that yields text answers. When none does, a fixed
    apology message answers.
- **`_clean_response`** is the shared post-processor. It strips whitespace,
  drops an unfinished sentence after the last full stop, and caps the length
  at 300 characters (297 plus `...`). It rejects anything shorter than 10.
- **`serialize_doc`** (`backend/server.py`) turns the ObjectId values of a
  stored document into strings before the document is returned.
- **The audio upload** accepts only `.webm`, `.wav` and `.mp3` file names.
  It takes the audio format from the text after the file name's last full
  stop.

Files:

- `wrappers.dfy`: the `Option` type, which stands for Python's `None`.
- `text.dfy` (module `Text`): the Python `str` operations the code relies
  on, written out with their edge cases:
  - `strip()`, which drops exactly the code points CPython's `isspace()`
    accepts;
  - `endswith` with a tuple;
  - the `in` operator;
  - `split(sep)`, `sep.join`, `replace(p, "")` and `split(sep)[-1]`.
- `post_processor.dfy` (module `PostProcessor`): `_clean_response`.
- `ai_service.dfy` (module `AiService`): the two tiers, the chain, and the
  `AIService` class.
  - The class has the model and tokenizer fields and the `models_loaded`
    flag.
  - `InitializeModels` and `GenerateResponse` update those fields in place.
- `server.dfy` (module `Server`): `serialize_doc` and the upload checks.

Model loading and text generation are not computed by the model. They
become parameters that say what happened:
- a `LoadAttempt` says which of tokenizer and model loaded;
- a `ModelOutput` is the decoded text, or `Raised` when tokenising,
  generating or decoding raised.

The fixed message is the string literal exactly as the source file holds it.
The file stores the `ã` of `não` as the two characters `Ã£`, and the model
uses those two characters.

Two facts about the code that the model keeps as written:
- `_clean_response` splits only on `.` (`backend/ai_service.py:176`). `!`
  and `?` only decide whether the piece after the last `.` is a finished
  sentence (`backend/ai_service.py:177`).
- When no tier yields text, the chain ends in one fixed message
  (`backend/ai_service.py:90`).

## Model

| member | source | states |
|---|---|---|
| Text.Strip | backend/ai_service.py:173 | `strip()` leaves a text with no whitespace at either end, found at some offset of the input with only whitespace around it |
| Text.StripIdempotent | backend/ai_service.py:173 | stripping twice is stripping once |
| Text.EndsWithAny | backend/server.py:226 | `endswith` with a tuple: the empty tuple matches nothing, a tuple holding `""` matches every text; `EndsWithAnyIff` gives the full characterisation |
| Text.EndsWithAnyIff | backend/server.py:226 | `endswith` with a tuple holds exactly when the text ends with one of the tuple's members |
| Text.EndsWithAnyChar | backend/ai_service.py:177 | against one-character suffixes, `endswith` holds exactly when the last character is one of them; it never holds for the empty text |
| Text.Split | backend/ai_service.py:176 | `split(sep)` for a non-empty separator, scanning for the leftmost non-overlapping occurrences, always gives at least one piece; `JoinSplit`, `SplitPiecesFree` and `SplitManyIffContains` state what the pieces are |
| Text.Join | backend/ai_service.py:178 | `sep.join([])` is the empty text; `JoinSplit` and `LastSentence` state how joining undoes `split` |
| Text.Contains | backend/ai_service.py:115 | Python's `in`: the empty pattern is in every text, and a pattern that is in a text is no longer than it |
| Text.JoinSplit | backend/ai_service.py:176-178 | `sep.join(s.split(sep)) == s` |
| Text.SplitManyIffContains | backend/ai_service.py:176-177 | `split` gives more than one piece exactly when the separator occurs |
| Text.SplitPiecesFree | backend/ai_service.py:176 | no piece of `split` holds the separator |
| Text.AfterLast | backend/ai_service.py:154 | `split(sep)[-1]` is a suffix with no separator in it, preceded by the separator when the separator occurs, and the whole text when it does not |
| Text.RemoveAll | backend/ai_service.py:116 | `replace(p, "")`: an empty pattern leaves the text unchanged, and removal never lengthens it; `RemoveAllIsJoinOfPieces` states which characters remain |
| Text.RemoveAllIsJoinOfPieces | backend/ai_service.py:116 | `replace(p, "")` leaves exactly the pieces between the occurrences of `p`, in order |
| Text.RemoveAllAbsent | backend/ai_service.py:156 | replacing a pattern that does not occur changes nothing |
| Text.RemoveAllShorter | backend/ai_service.py:116 | removal never lengthens the text, and removes at least the pattern's length when the pattern occurs |
| PostProcessor.LastSentence | backend/ai_service.py:176-178 | the last piece of `split('.')` is the text after the last `.`; the other pieces joined with `.`, plus a `.`, are everything before it |
| PostProcessor.TerminatedIff | backend/ai_service.py:177 | `endswith(('!', '?', '.'))` holds exactly when the last character is one of the three |
| PostProcessor.TrimIncompleteSentence | backend/ai_service.py:176-178 | the result is a prefix of the input; it equals the input exactly when the input has no `.` or ends in `.`, `!` or `?`; otherwise it ends in the input's last `.` and drops everything after it |
| PostProcessor.TrimIncompleteSentenceIdempotent | backend/ai_service.py:176-178 | trimming an already trimmed text changes nothing |
| PostProcessor.TrimDropsRest | backend/ai_service.py:176-178 | for a dot-free first part, a `.` and a dot-free unfinished rest, the trim keeps the first part and its `.` |
| PostProcessor.CleanResponse | backend/ai_service.py:167-188 | empty input gives the empty string and nothing else does; any other accepted text is 10 to 300 characters long and does not start with whitespace |
| PostProcessor.CleanResponseLengthRules | backend/ai_service.py:180-186 | after strip and trim: shorter than 10 is rejected exactly; 10 to 300 is returned as is; longer is cut to 297 characters plus `...`, 300 in all |
| PostProcessor.CleanResponseRejectsShort | backend/ai_service.py:184-186 | every non-empty input shorter than 10 characters is rejected |
| PostProcessor.CleanResponseDropsUnfinishedSentence | backend/ai_service.py:173-188 | the general form of "This is a complete sentence. This is incomplete": only the first sentence and its `.` are returned |
| PostProcessor.CleanResponseKeeps | backend/ai_service.py:167-188 | an in-range, unpadded, already trimmed text is returned unchanged |
| PostProcessor.CleanedForm | backend/ai_service.py:167-188 | a non-empty cleaned result is in range, has no whitespace at either end, and survives the trim |
| PostProcessor.CleanResponseFixedPoint | backend/ai_service.py:167-188 | cleaning a cleaned text gives the same result |
| AiService.WithPadToken | backend/ai_service.py:36-37 | the tokenizer ends up with a pad token: its own when it has one, otherwise its end-of-sequence token |
| AiService.Install | backend/ai_service.py:29-44 | a load leaves model and tokenizer both present (tokenizer with pad token) exactly when both loaded, and neither otherwise |
| AiService.StripEcho | backend/ai_service.py:114-116 | without the question in the output the text is untouched; with it, every occurrence is removed and the rest is stripped, at least the question's length shorter |
| AiService.Gpt2Prompt | backend/ai_service.py:131 | the prompt is 20 characters longer than the question, holds the question after the 10-character tag `Pergunta: `, and ends with `Resposta:` |
| AiService.PromptHoldsMarker | backend/ai_service.py:131 | text containing the GPT-2 prompt contains `Resposta:` |
| AiService.ExtractAnswer | backend/ai_service.py:152-156 | with the marker, the stripped text after its last occurrence; without it, the stripped output, since the prompt cannot occur either |
| AiService.Truthy | backend/ai_service.py:121 | `response if response else None`: text is kept exactly when present and non-empty, and then unchanged |
| AiService.DialogTier | backend/ai_service.py:92-125 | an exception gives `None`; decoded output gives the echo-stripped cleaned text, where empty or rejected text gives `None`; any text it gives is 10 to 300 characters long |
| AiService.Gpt2Tier | backend/ai_service.py:127-165 | an exception gives `None`; decoded output gives the extracted cleaned answer, where empty or rejected text gives `None`; any text it gives is 10 to 300 characters long |
| AiService.TierOutputIsClean | backend/ai_service.py:119-121 | text a tier yields is its own cleaned form |
| AiService.Respond | backend/ai_service.py:71-90 | DialoGPT runs exactly when present, and GPT-2 exactly when present and DialoGPT yielded nothing. Every tier run before the last yielded nothing. The answer is the last tier's text, or the fixed message when that tier yielded nothing or no tier ran. In-range tier text gives an in-range answer |
| AiService.RespondTotal | backend/ai_service.py:66-90 | whatever the models output or raise, the answer is 10 to 300 characters long, and it is the fixed message or the text of a tier that ran |
| AiService.AIService.constructor | backend/ai_service.py:13-20 | a new service has no models and is not loaded |
| AiService.AIService.InitializeModels | backend/ai_service.py:22-64 | if already loaded, nothing changes; otherwise each model's fields are what its own load left, and the flag is set whatever happened |
| AiService.AIService.DialogReady | backend/ai_service.py:72 | under the invariant, DialoGPT is ready exactly when its model is present, and its tokenizer then has a pad token |
| AiService.AIService.Gpt2Ready | backend/ai_service.py:81 | under the invariant, GPT-2 is ready exactly when its model is present, and its tokenizer then has a pad token |
| AiService.AIService.RunTiers | backend/ai_service.py:71-90 | the answer and the tiers run are those of `Respond` over the present fields and the two tiers; no field changes |
| AiService.AIService.GenerateResponse | backend/ai_service.py:66-90 | initialises only when not yet loaded, then answers as `Respond` does over the fields as initialisation left them; the answer is 10 to 300 characters long |
| AiService.FailedLoadIsPermanent | backend/ai_service.py:22-25 | after both loads fail on the first call, a later call with loads that would succeed still runs no tier and gives the fixed message |
| Server.Converted | backend/server.py:74-80 | in a dict, an ObjectId value becomes its string, a dict or list value is serialized, and any other value stays |
| Server.Serialize | backend/server.py:68-81 | a list maps element-wise to a list of the same length; a dict keeps its keys in order and converts each value; anything else, including `None` and a bare ObjectId, is returned unchanged |
| Server.SerializeDoc | backend/server.py:68-81 | the loop and in-place overwrite version computes `Serialize` |
| Server.SerializeIsClean | backend/server.py:73-81 | after serialization no dict reachable through dicts and lists holds an ObjectId value |
| Server.SerializeKeepsClean | backend/server.py:68-81 | a document with no ObjectId left in a dict is returned unchanged |
| Server.SerializeIdempotent | backend/server.py:73-81 | serializing twice is serializing once |
| Server.AudioFormat | backend/server.py:233 | the format is the suffix after the last `.`, contains no `.`, and is the whole name when there is no `.` |
| Server.FormatOfExtension | backend/server.py:233 | a name ending in `.` plus a dot-free extension has that extension as format |
| Server.IsSupportedAudio | backend/server.py:226 | the name is accepted exactly when it ends with one of `.webm`, `.wav` and `.mp3` |
| Server.ValidateAudioUpload | backend/server.py:220-233 | a missing room gives 404, then a name without a supported suffix gives 400; accepted exactly when the room exists and the suffix is supported, with the name's format |
| Server.AcceptedFormat | backend/server.py:226-233 | accepted exactly when the room exists and the name ends in `.webm`, `.wav` or `.mp3`, and then the format is `webm`, `wav` or `mp3` to match |

## Left out

- Model inference, tokenisation and decoding (`transformers`, `torch`): the model takes their outcome as a parameter, `ModelOutput`, and a load's outcome as `LoadAttempt`.
- The sampling parameters and `max_length`: they only feed the library's generate call.
- Logging, `async`/`await` and concurrency: the model is sequential.
- The `dialog_pipeline` and `gpt2_pipeline` fields: they are set to `None` and never used.
- AiService.AIService.GenerateResponse: Python's truthiness of models and tokenizers is modelled as presence; an object that is present but falsy is not modelled.
- AiService.AIService.GenerateResponse: the `try`/`except` around each tier call cannot fire, because each tier catches every exception itself, so it is not modelled.
- AiService.Respond: a tier's answer is not checked for emptiness, because a tier never yields empty text; `RespondTotal` and the tiers' contracts show this.
- AiService.AIService.RunTiers: the 10-to-300 bound is stated on `GenerateResponse` and `RespondTotal`, not on this method.
- Transcription: the upload route calls `transcribe_audio` (`backend/server.py:237`), but the AI service does not define it, so speech transcription is not part of this model. That call raises `AttributeError`, which `backend/server.py:287-288` turns into HTTP 500, so an upload that `ValidateAudioUpload` accepts still ends in a 500 response from the route.
- The FastAPI routes, MongoDB queries, uuid and timestamp generation in `backend/server.py`: the upload checks take "the room exists" as a parameter.
- Server.SerializeDoc: it is modelled on values. The dict case's in-place overwrite is a loop over a local copy of the entries, so aliasing between the input and the returned dict is not modelled; `SerializeIdempotent` shows that serializing the shared object again does no harm. Cyclic dicts are not modelled.
- Server.Value: a dict is a sequence of entries in insertion order; duplicate keys are not excluded.
- ObjectIds are modelled by their hexadecimal string, so `str(ObjectId)` is that string.
