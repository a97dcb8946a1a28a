# A verified model of the chat and upload logic of a retrieval-augmented assistant

The application is a small Flask/SocketIO server. It answers questions about
a folder of PDFs and transcribes spoken questions. Its own logic sits in `app.py`, and this
project models that logic in Dafny. Every library it calls is taken as an
input: PDF loading, embedding, FAISS search, the `llama3` model served by
ollama, the speech recogniser and ffmpeg.

- **`Chat`** (`chat.dfy`) models the socket `request` handler.
  - The parsed JSON reply of `check_relevance` is a `Grade`. The documents it
    retrieved are a `seq<Doc>`, and what the answer generator streams is a
    sequence of fragments.
  - `HandleRequest` is the handler as written. It applies the relevance gate,
    then runs a loop that grows `generation` and emits one event per fragment.
    After that it runs the nested references loop and emits the final event.
  - `HandleRequest` returns the ordered sequence of emitted `response` events,
    or the exception raised before any event. Its result is proved equal to
    the specification function `Respond`.
  - `BuildReferences` is proved equal to `References`, which is the in-order
    concatenation of one block per document.
  - Lemmas state what the event sequence means. They cover the irrelevant gate
    (an if-and-only-if), the event count, the growing streamed messages, the
    final event, and the shape of the references.
- **`Upload`** (`upload.dfy`) models the `/upload` route and `speech_to_text`.
  - `Decide` checks the form in the source's order: first a missing `audio`
    field, then an empty filename. It then computes the saved path and the
    path the recogniser reads, which is rewritten from `.webm` to `.wav` for
    `.webm` uploads.
  - `UploadFile` builds the response. What the recogniser makes of a path is a
    function parameter.
  - The `.webm` → `.wav` rewrite is Python `str.replace`, which replaces every
    occurrence. The model proves that the rewritten path ends in `.wav` and
    contains no `.webm` at all.
- **`PyText`** (`pytext.dfy`) holds the Python behaviour the two modules rely
  on:
  - `str.split` on one character, with its join round trips;
  - `str.replace` for a non-empty pattern, scanning left to right without
    overlaps;
  - `str.endswith` and `in`;
  - the decimal rendering of a non-negative `int` in an f-string, with a
    parse-back round trip;
  - two-argument `os.path.join` on POSIX.

The page number is modelled as a `nat`, as PyPDF's 0-based `metadata["page"]`
gives it. `Decimal` renders it into the header.

## Model

| member | source | states |
|---|---|---|
| Chat.HandleRequest | app.py:131-155 | The handler's loops produce exactly `Respond`: an unscorable reply raises before any event; the score `'irrelevant'` gives the single notice event; otherwise one event per fragment, then a final event carrying the whole answer and the references |
| Chat.BuildReferences | app.py:146-152 | The nested `+=` loops build exactly `References(docs)`: for each document, the header, then each piece of `split('\n')` followed by `<br>\n`, then `<br>\n` |
| Chat.IrrelevantIffNotice | app.py:137-139 | The outcome is the single event `("The question is considered irrelevant.", "N/A")` if and only if the score is exactly the string `'irrelevant'` |
| Chat.UnscoredRaises | app.py:135-137 | The handler raises if and only if `relevance['score']` cannot be looked up |
| Chat.RelevantEventCount | app.py:141-154 | Any score other than `'irrelevant'` leads to generation, with one event per fragment plus one final event |
| Chat.StreamedMessagesGrow | app.py:141-144 | Streamed event `k` is `(first k+1 fragments concatenated, "N/A")`, and each earlier message is a prefix of each later one |
| Chat.Respond | app.py:135-154 | Every outcome that emits anything emits at least one event, and every event but the last carries `"N/A"` as its references |
| Chat.FinalEvent | app.py:146-154 | For every fragment sequence, the empty one included, the final event is `(all fragments concatenated, References(docs))` built from the documents of `check_relevance`; its references are never `"N/A"`; it extends every streamed message |
| Chat.ReferencesInOrder | app.py:146-152 | No documents give `""`; adding a document before or after the others adds its block at that end |
| Chat.LinesOfContent | app.py:150-151 | The lines part of a block is the content with every newline turned into `<br>\n`, followed by one more `<br>\n` |
| Chat.Header | app.py:149 | The header starts with the source and ` 第`, ends with `頁:<br>\n`, and has at least one character between them |
| Chat.HeaderReadsBack | app.py:149 | The text of the header between ` 第` and `頁:` is all digits and reads back as the page |
| Chat.HeaderNewlines | app.py:149 | A header holds the newlines of the source plus exactly one |
| Chat.LinesCount | app.py:150-151 | Rendering newline-free pieces puts exactly one newline after each piece |
| Chat.DocBlockLineEntries | app.py:147-152 | The rendered lines of a document hold one newline per piece, that is its content's newlines plus one; its whole block holds the newlines of source and content plus three |
| Chat.ReferencesNotPlaceholder | app.py:144-154 | A references block is never the string `"N/A"` that the streamed events carry |
| Chat.ConcatAppend | app.py:141-143 | Accumulating fragments distributes over splitting the fragment sequence |
| PyText.Split | app.py:150 | `split('\n')` gives one more piece than there are newlines, and no piece contains a newline |
| PyText.SplitThenJoin | app.py:150 | Joining the pieces with the separator gives back the original content |
| PyText.JoinThenSplit | app.py:150 | Splitting a join of separator-free pieces (at least one) gives back the pieces |
| PyText.Decimal | app.py:149 | The f-string rendering of the page is a non-empty string of digits with no leading zero except for 0 itself |
| PyText.DecimalRoundTrip | app.py:149 | Reading the rendered page back as an integer gives the page |
| PyText.PathJoin | app.py:167 | The joined path ends with the filename; an absolute filename is the whole path; otherwise what precedes the filename is the folder, followed by one `/` exactly when the folder is non-empty and does not already end with one, and is either empty or ends with `/` |
| PyText.ReplaceAll | app.py:172 | `replace` with a replacement no longer than the pattern never makes the string longer |
| PyText.ReplaceAllAbsent | app.py:172 | `replace` leaves a string without the pattern unchanged |
| PyText.ReplaceAllTrailing | app.py:171-172 | For a pattern that cannot overlap itself, a trailing occurrence is always replaced: `replace(s + pat) == replace(s) + rep` |
| Upload.SpeechText | app.py:119-125 | A recognised text is returned as is; `UnknownValueError` gives `"Speech not recognized"`; `RequestError` gives the service error string |
| Upload.SpeechBodyRoundTrip | app.py:119-125 | The body identifies the outcome if and only if the recognised text is not one of the two failure strings |
| Upload.Decide | app.py:159-174 | The form is rejected with status 400 if and only if the `audio` field is missing or its filename is empty; otherwise the saved path ends with the filename |
| Upload.UploadFile | app.py:157-178 | A missing field gives `("No audio file provided", 400)` and is checked first; an empty filename gives `("No selected file", 400)`; otherwise status 200 with the recogniser's body for the decided audio path |
| Upload.WebmUploadIsConverted | app.py:166-174 | A `.webm` upload is read from the saved path with every `.webm` replaced by `.wav`; that path ends in `.wav` and contains no `.webm` |
| Upload.OtherUploadIsUnchanged | app.py:166-177 | Any other upload is read from the saved path unchanged |
| Upload.WavPath | app.py:172 | The rewrite of `.webm` to `.wav` never makes the path longer |
| Upload.WavPathWithoutWebm | app.py:172 | A path without `.webm` is left unchanged by the rewrite |
| Upload.WavPathHasNoWebm | app.py:172 | After the rewrite, `.webm` occurs nowhere in the path |
| Upload.TrailingWebmBecomesWav | app.py:171-172 | A path ending in `.webm` is rewritten to one ending in `.wav` |

## Left out

- Module-level startup (app.py:14-47) is left out. Loading the PDFs, token-based chunking (size 500, overlap 250), embedding and building the FAISS index are library calls over floating-point vectors.
- `retrieve_context` (app.py:49-53) is left out. The FAISS L2 search is opaque, so its result is the `docs` input. FAISS pads a short result with index `-1`, which Python reads as the last chunk; that is not modelled.
- `check_relevance` and `retrieve_answer` (app.py:57-110) are left out. The ollama calls and `json.loads` are taken as their results: the `Grade` and the fragment sequence.
- The message (`data.get('message')`, app.py:133) only matters through those library calls, so the model has no question parameter.
- Exceptions other than the `score` lookup are not modelled. These include a missing `message`/`content` key in a stream chunk, a failure inside the stream, and a missing `page`/`source` metadata key. So the model has no outcome with events emitted and then an exception.
- Chat.Grade: a non-object JSON reply and a missing `score` key are both `Unscored`. The model does not tell which exception Python raises.
- `file.save`, the ffmpeg `subprocess.run`, `sr.AudioFile`/`record`, and any recogniser exception other than the two caught ones (app.py:115-120, 168, 173) are left out. The recogniser's result is the `recognise` parameter.
- Upload.Decide: `request.files` is a map from field name to the filename of the first file under that name. Repeated fields of the multidict are not modelled.
- PyText.PathJoin: this is POSIX `posixpath.join` only; Windows path rules are not modelled.
- PyText.ReplaceAll: this is defined only for a non-empty pattern. An empty pattern, which Python treats differently, never occurs here because the only pattern is `.webm`.
- Upload.WavPath: the rewrite changes every `.webm` in the saved path, including any in the upload folder or earlier in the filename. The model keeps that behaviour rather than a change of the extension only.
- The unreachable `redirect(url_for('index'))` (app.py:180) is left out. A non-empty upload is always truthy, and there is no `index` endpoint.
- The `/` route (app.py:127-129) is left out; it only renders a template.
- The `/files` and `/download` routes (app.py:182-200) are left out as filesystem I/O. Note that `abort(404)` raises an `Exception`, which the surrounding handler catches, so a missing file gets status 500.
- The SocketIO/Flask transport and `static/js/script.js` (browser UI) are left out.
