# Catsplainer slide assembly and error-message extraction

Catsplainer asks an image-generating chat model to explain a topic as a
series of small illustrated slides. The model's reply arrives as a stream of
chunks. Each chunk holds candidates, each candidate holds content parts, and
each part carries text, inline image data or neither. Two pieces of
`src/components/catsplainer.tsx` are modelled here.

- **Slide assembly**, in `generate`. The loop keeps two slots: the caption
  text gathered so far and the pending image. A part with truthy text is
  appended to the caption. Otherwise, a part with inline data replaces the
  pending image. After every part, once both slots are filled, a slide is
  emitted and both slots are cleared. When the stream ends, a pending image
  becomes one last slide. A chunk with no `candidates` field throws inside the
  loop: the slides already shown stay, and no final slide is added.
- **`parseError`**, which turns a failed request's error text into a
  readable message. It runs the regular expression `/{"error":(.*)}/gm`, gives
  the captured group to `JSON.parse` and returns the parsed value's
  `message`. If anything on the way throws, the input text is returned.

The model has three modules:

- `SlideAssembly` (`slide_assembly.dfy`) defines the wire shape of chunks and
  the reducer as the fold `Reduce`, with `Assemble` adding the end-of-stream
  flush. It also holds the imperative loop of `generate`: `Generate`,
  `HandleParts` and `HandlePart` are proved against the fold.
- `SlideProperties` (`slide_properties.dfy`) proves what the fold guarantees.
  It relates the reducer to an independent reference definition: the parts
  split into runs, one per mid-stream slide, followed by the pending parts.
  Each run is the shortest stretch since the
  previous slide that holds both text and an image. Its slide carries all of
  the run's text and its most recent image. This split exists
  (`SlidesAreSegments`) and is unique (`SegmentationUnique`).
- `ErrorMessage` (`error_message.dfy`) models the regular expression exactly.
  A match starts at the leftmost index where one exists. The greedy group runs
  to the last `}` before the first line terminator. `JSON.parse` is a
  parameter of the model.

Three behaviours of the code are worth stating plainly. All three are proved.

- The end-of-stream slide always has an empty caption: text and an image are
  never both held once a part has been handled (`NeverBothFilled`,
  `FinalFlushHasEmptyCaption`). Every slide emitted mid-stream has a non-empty
  caption. The last slide does not.
- Text that arrives after the last mid-stream slide, with no image after it,
  is never shown (`CaptionsThenHeldText`, `HeldTextFollowsEveryImage`).
- `parseError` returns its input only when there is no match, when the group
  does not parse, or when it parses to `null`. A group that parses to a
  number, string, boolean, array, or object without `message` yields
  `undefined`, not the input (`NumberGroupYieldsUndefinedExample` shows it
  for a number).

## Model

| member | source | states |
|---|---|---|
| SlideAssembly.Classify | src/components/catsplainer.tsx:92-106 | a part is text exactly when its text is present and non-empty (truthy); it is an image exactly when it has no truthy text but has inline data; otherwise it is ignored |
| SlideAssembly.Classified | src/components/catsplainer.tsx:91 | the parts of a candidate are handled one for one, in order |
| SlideAssembly.PartsOf | src/components/catsplainer.tsx:91 | a candidate's parts are its content's parts when both are present, and none when either the content or its parts are missing |
| SlideAssembly.FirstBroken | src/components/catsplainer.tsx:89-90 | the index of the first chunk with no `candidates` field: every earlier chunk has the field, and the chunk at that index (if any) lacks it |
| SlideAssembly.OneCandidateParts | src/components/catsplainer.tsx:91 | a single candidate contributes exactly its own parts, classified in order |
| SlideAssembly.CandidatePartsSnoc | src/components/catsplainer.tsx:90-91 | the parts of a chunk's candidates are taken candidate by candidate: one more candidate appends its parts after those of the earlier ones |
| SlideAssembly.PartlessCandidatesGiveNothing | src/components/catsplainer.tsx:90-91 | candidates whose content or parts are missing or empty contribute no parts |
| SlideAssembly.OneChunkParts | src/components/catsplainer.tsx:89-90 | a single chunk contributes exactly the parts of its candidates |
| SlideAssembly.ChunkPartsSnoc | src/components/catsplainer.tsx:89-90 | the parts of the stream are taken chunk by chunk: one more chunk appends its candidates' parts after those of the earlier chunks |
| SlideAssembly.EmptyChunksGiveNothing | src/components/catsplainer.tsx:89-90 | chunks whose `candidates` list is empty contribute no parts and do not throw |
| SlideAssembly.Received | src/components/catsplainer.tsx:89-91 | the parts handled are those of every chunk before the first one without a `candidates` field, chunk by chunk and candidate by candidate; all chunks' parts when none lacks it, and none when the first chunk lacks it |
| SlideAssembly.Absorb | src/components/catsplainer.tsx:92-105 | taking in a part never touches the slides; text is appended to the held caption (the old caption stays a prefix) and leaves the image; an image replaces the pending one and leaves the caption; an ignored part changes nothing |
| SlideAssembly.Settle | src/components/catsplainer.tsx:107-112 | after the check, both slots are never filled together; when both were filled, exactly one slide (held text, pending image) is appended and both slots are cleared; otherwise nothing changes |
| SlideAssembly.Reduce | src/components/catsplainer.tsx:86-113 | after any sequence of parts, the caption and the pending image are never both held, and there are no more slides than parts |
| SlideAssembly.Flush | src/components/catsplainer.tsx:116-120 | the flush keeps every slide shown so far and adds one exactly when an image is pending: that image with the held text |
| SlideAssembly.Assemble | src/components/catsplainer.tsx:86-120 | a stream that ends normally shows the fold's slides, then at most one more; there is one more exactly when an image is pending, and it is that image with an empty caption |
| SlideAssembly.Step | src/components/catsplainer.tsx:92-112 | after one pass of the loop body, the caption and the pending image are never both held |
| SlideAssembly.StepAppendsAtMostOne | src/components/catsplainer.tsx:92-112 | one pass keeps the slides shown so far and appends at most one; an appended slide has a non-empty caption and leaves both slots empty |
| SlideAssembly.HandlePart | src/components/catsplainer.tsx:92-112 | one pass of the inner loop body is one step of the fold on the classified part |
| SlideAssembly.HandleParts | src/components/catsplainer.tsx:91-113 | the loop over a candidate's parts leaves the state the fold reaches after all parts seen so far followed by this candidate's parts |
| SlideAssembly.Generate | src/components/catsplainer.tsx:86-120 | the stream fails exactly when some chunk has no `candidates` field; a normal end shows the fold's slides plus the flush, over all parts received; a failure shows only the fold's slides over the parts before the broken chunk, with no flush |
| SlideProperties.NeverBothFilled | src/components/catsplainer.tsx:107-112 | after any prefix of the parts, caption text and a pending image are never held together |
| SlideProperties.IgnoredPartChangesNothing | src/components/catsplainer.tsx:95-105 | a part with no truthy text and no inline data leaves the whole state unchanged |
| SlideProperties.TruthyTextWins | src/components/catsplainer.tsx:92-94 | a part carrying both truthy text and inline data counts as text only; its image is never taken |
| SlideProperties.MidStreamCaptionsNonEmpty | src/components/catsplainer.tsx:107-108 | every slide emitted before the end of the stream has a non-empty caption |
| SlideProperties.FinalFlushHasEmptyCaption | src/components/catsplainer.tsx:116-120 | the flush adds a slide exactly when an image is pending, and that slide's caption is empty |
| SlideProperties.SlidesBoundedByImages | src/components/catsplainer.tsx:86-120 | no more slides are shown than image parts arrive, counting the pending image |
| SlideProperties.CaptionsThenHeldText | src/components/catsplainer.tsx:86-120 | the captions shown, in order, followed by the text still held, are exactly all the text of the stream: no text is reordered, duplicated or lost except the held text |
| SlideProperties.SlidesAreSegments | src/components/catsplainer.tsx:86-113 | the parts split into runs followed by pending parts; each run is the first stretch since the previous slide holding text and an image, and its slide is all its text with its most recent image; the pending parts never hold both, and the slots hold their text and their most recent image |
| SlideProperties.SegmentationUnique | src/components/catsplainer.tsx:107-112 | two such splits of the same parts are the same split |
| SlideProperties.PairingRule | src/components/catsplainer.tsx:86-113 | for any split into first-closing runs and a never-closing tail, the fold's slides are exactly one per run (its text, its last image) and the slots hold the tail's text and last image |
| SlideProperties.HeldTextFollowsEveryImage | src/components/catsplainer.tsx:107-120 | when text is still held, no image is pending, and the held text is the text of a suffix of the stream that has no image part |
| SlideProperties.PendingIsSuffix | src/components/catsplainer.tsx:86-113 | the text and image held at any point are the text and most recent image of a suffix of the parts: those since the last mid-stream slide |
| SlideProperties.EmptyStreamShowsNothing | src/components/catsplainer.tsx:86-120 | a stream without parts shows no slide |
| SlideProperties.AlternatingExample | src/components/catsplainer.tsx:86-120 | text, image, text, image gives two slides in arrival order |
| SlideProperties.ImageFirstExample | src/components/catsplainer.tsx:86-120 | an image that arrives before any text waits for the text |
| SlideProperties.LastImageWinsExample | src/components/catsplainer.tsx:96-99 | an unpaired image is replaced by the next one |
| SlideProperties.TrailingTextExample | src/components/catsplainer.tsx:86-120 | text after the last slide with no image after it is dropped |
| SlideProperties.TrailingImageExample | src/components/catsplainer.tsx:116-120 | an image after the last slide is shown with an empty caption |
| ErrorMessage.LineEnd | src/components/catsplainer.tsx:47 | the first line terminator at or after a position (what `.` cannot cross), or the end of the text |
| ErrorMessage.LastBrace | src/components/catsplainer.tsx:47 | the last `}` in a range, with none after it in the range, or none at all |
| ErrorMessage.CaptureEndAt | src/components/catsplainer.tsx:47 | the greedy `(.*)}` at a start position ends at a match, and no longer match exists there; no result means no match starts there |
| ErrorMessage.ExecFrom | src/components/catsplainer.tsx:47-48 | the leftmost start at or after a position where the pattern matches, with its greedy end; no result means no match at or after it |
| ErrorMessage.Exec | src/components/catsplainer.tsx:47-48 | `exec` finds no match exactly when the pattern matches nowhere; otherwise the match is leftmost and greedy |
| ErrorMessage.Group | src/components/catsplainer.tsx:50 | the matched text is the opening `{"error":`, then the group, then `}` |
| ErrorMessage.MessageOf | src/components/catsplainer.tsx:52 | reading `message` throws exactly on `null`; an object with the member gives it; anything else gives `undefined` |
| ErrorMessage.ParseError | src/components/catsplainer.tsx:46-56 | the input comes back when there is no match, when the group does not parse or when reading `message` throws; otherwise the result is the parsed value's `message` |
| ErrorMessage.NoOpeningKeepsInput | src/components/catsplainer.tsx:46-56 | text that never contains `{"error":` comes back unchanged, whatever the parser does |
| ErrorMessage.MessageMemberReturned | src/components/catsplainer.tsx:46-56 | when the leftmost greedy group parses to an object with `message`, that member is returned |
| ErrorMessage.QuotaExceededExample | src/components/catsplainer.tsx:46-56 | `{"error":{"message":"quota exceeded"}}` yields `quota exceeded` |
| ErrorMessage.PlainFailureExample | src/components/catsplainer.tsx:46-56 | a plain failure text without the pattern comes back unchanged |
| ErrorMessage.NumberGroupYieldsUndefinedExample | src/components/catsplainer.tsx:46-56 | `{"error":5}`, whose group parses to a number, yields `undefined` rather than the input |
| ErrorMessage.GroupStaysOnOneLineExample | src/components/catsplainer.tsx:47-50 | the group stops at the last `}` of its line; a `}` on a later line is not taken |

## Left out

- SlideAssembly.Generate: one call is modelled running alone. The example buttons (lines 139-143) stay enabled while a stream runs, so a second `generate` can start; it clears the shared slideshow (line 71), and both calls then append to it through `addSlide` (line 43). Overlapping calls and their interleaved slides are not modelled.
- The network client (`ai.chats.create`, `sendMessageStream`): the stream is given as a finite sequence of chunks, and a network error in the middle of the stream is not modelled.
- Rendering: `marked`, `addSlide`'s DOM work, `slideshow.removeAttribute('hidden')`, the `data:image/png;base64,` URL of an image element, `console.log`, and enabling or disabling the input. A slide is modelled as its caption text and its inline data.
- The click, key and example-button handlers and the API key setup around `generate`: these are user-interface wiring.
- A part, candidate or chunk that is itself `null` (reading `part.text` at line 92, `candidate.content` at line 91 or `chunk.candidates` at line 90 throws), and a throw from `addSlide` or `marked`: the model covers only a missing `candidates` field as the failure of the loop. A missing or `null` `content` or `parts` is modelled: it gives no parts.
- ErrorMessage.ParseError: the caught value is treated as its string form. The source returns the caught error object itself, and `exec` reads that object's string conversion.
- ErrorMessage.ParseError: `JSON.parse` is a parameter (`parse`), so which texts parse and to what is not modelled; text is a sequence of Unicode characters rather than UTF-16 code units.
- The `Something went wrong:` banner that shows the result of `parseError` is rendering; a returned `message` member may be any JSON value.
