# ws_ai_tool core, modelled in Dafny

ws_ai_tool is a local screenshot-summarising service. An HTTP server takes an
uploaded image or a pasted `data:` URL and saves it. A job manager queues the
image for one worker thread. The worker runs OCR and a local language model and
writes the result back. A browser polls the job's status as JSON.

This project models the parts of that core that are plain logic:

- the job manager's state machine and its status JSON (`job_manager.dfy`);
- the JSON string escaper, which the source defines twice with the same body (`json_escape.dfy`);
- the request helpers of the HTTP server (`http_server.dfy`): MIME-to-suffix mapping, the naive
  `"key":"value"` extractor, the `data:` URL split (section 3 of RFC 2397), the upload-part fold,
  the suffix choice and the two handlers' decision chains;
- the base64 decoder and its alphabet (section 4 of RFC 4648) (`base64.dfy`);
- the path, MIME and uuid helpers (`util.dfy`);
- the whitespace trim and the llama batch writes (`llm_runner.dfy`);
- the chat prompt template (`prompt.dfy`);
- the OCR text cleaner of the Python script (`infer_image.dfy`).

`text.dfy` holds the shared string helpers: C-locale `tolower`, `std::string::find`,
`find_last_of`, and the hex and decimal formatting of iostreams. `wrappers.dfy` holds `Option`.

A `std::string` is a Dafny `string` whose characters stand for the string's bytes. Every rule
modelled here distinguishes only ASCII characters, so the per-character reading matches the
per-byte code on UTF-8 text. There are two exceptions. The Python strings of `infer_image.py` are
sequences of code points, so there a character is a code point. The prompt template of
`prompt.cpp` holds Chinese text, and its constants in `prompt.dfy` are written as code points,
so the template's non-ASCII characters are code points and the lengths stated about the prompt
count code points, not the UTF-8 bytes that `std::string::size` counts.

Each operation has an inverse, a reader or a reference definition, and the lemmas connect the two:

- the escaper has a reader of RFC 8259 string bodies (section 7) with lowercase `\u` digits and no surrogates, and reading an escaped string back gives the string;
- the status JSON has a reader, and reading it back gives the job's view;
- the base64 decoder has the padded RFC 4648 encoder, and decoding an encoding gives the bytes back;
- the field extractor and the `data:` URL split have layouts that they read back;
- the uuid text splits back into its five groups and determines the two words;
- each loop (the escaper, the decoder, the upload fold, the lowercasing copy, the trim,
  de-duplication and merging) is proved equal to a recursive specification, and the specification's
  properties are lemmas;
- the batch fill is proved to leave every prompt slot as the per-slot predicate `PromptSlot` describes.

The job manager is a class. `SubmitImage`, `StartNext`, `Finish` and `RequestStop` change its fields:

- `jobs`, a map from id to record;
- `queue`, a sequence of ids;
- `stop`;
- `current`, the id the worker holds between its two halves.

Each of them keeps `Valid()`: every queued id and the held id are keys, and progress agrees with state.
While ids are fresh they also keep `Orderly()`, which adds no duplicates in the queue, queued jobs
exactly in the queue, at most one running job held by the worker, and result or error filled only in
their terminal state. States only move forward (`Advances`).

Two behaviours of the code are kept as written:

- The comment at src/include/ws_ai/job_manager.h:78-79 says the worker's progress is copied back
  into the record. The code copies the clamped value at src/src/job_manager.cpp:161, but both
  branches after it overwrite it with 100. So a running job always shows 5, and the model follows the code.
- The worker exits on `stop` even when jobs are still queued.

## Model

| member | source | states |
|---|---|---|
| JobManager.StateName | src/src/job_manager.cpp:37-45 | each of the four states has its own lowercase name, which `StateFromName` maps back to that state |
| JobManager.ProgressOf | src/include/ws_ai/job_manager.h:25 | the progress shown in each state lies in 0..100 and is 100 exactly in the two terminal states |
| JobManager.DefaultJob | src/include/ws_ai/job_manager.h:20-29 | a default record is queued with progress 0 and empty id, path, result and error |
| JobManager.NewJob | src/src/job_manager.cpp:72-78 | the record of a submitted job has the given id and path, state queued and progress 0 |
| JobManager.StatusJsonReadsBack | src/src/job_manager.cpp:89-121 | reading the status text back gives the job's id, state, progress and the result for done, the error for error and an empty result otherwise; it gives "missing" for an unknown id |
| JobManager.StatusNotFoundIff | src/src/job_manager.cpp:101-103 | the answer is the fixed not-found object exactly when the id is unknown |
| JobManager.ReadLayout | src/src/job_manager.cpp:105-120 | the found-job object, with an escaped id and text, is read back field by field |
| JobManager.LayoutIsFound | src/src/job_manager.cpp:101-107 | a found-job object never equals the not-found object |
| JobManager.Manager.constructor | src/include/ws_ai/job_manager.h:69-76 | the manager starts with no jobs, an empty queue and no stop request |
| JobManager.Manager.SubmitImage | src/src/job_manager.cpp:72-87 | inserts the new record unless the id is already a key, in which case the old record stays; appends the id to the queue in both cases; returns the id; keeps the invariants and changes nothing else |
| JobManager.Manager.GetStatusJson | src/src/job_manager.cpp:89-103 | the answer is the not-found object exactly when the id is not a job |
| JobManager.Manager.StartNext | src/src/job_manager.cpp:123-138 | with stop set it returns Stopped and changes nothing, even with jobs queued; with an empty queue it waits; otherwise it pops exactly the front id and marks that job running with progress 5; states only advance |
| JobManager.Manager.Finish | src/src/job_manager.cpp:155-171 | a non-empty error gives state error and that error, otherwise state done and the result, even when both are empty; progress is 100 and no other record changes |
| JobManager.Manager.RequestStop | src/src/job_manager.cpp:20-21 | sets stop and changes nothing else |
| JsonEscape.JsonEscape | src/src/job_manager.cpp:47-70 | the appending loop computes `Escaped`, the per-byte escape of the input |
| JsonEscape.EscapedConcat | src/src/http_server.cpp:27-50 | escaping works per byte, so it distributes over concatenation |
| JsonEscape.EscapedPlain | src/src/http_server.cpp:44-46 | a string without '"', '\\' or control bytes is its own escape |
| JsonEscape.EscapedHasNoControl | src/src/http_server.cpp:39-43 | the output holds no raw byte below 0x20 |
| JsonEscape.ReadEscaped | src/src/http_server.cpp:27-50 | reading an escaped string and its closing quote back as an RFC 8259 string gives the string and what follows |
| JsonEscape.EscapedInjective | src/src/job_manager.cpp:47-70 | different strings have different escapes |
| HttpServer.MimeSuffix | src/src/http_server.cpp:62-66 | the result is one of .png, .jpg, .webp, .heic and .bin, and each named suffix is given exactly for its MIME types |
| HttpServer.SuffixFromMime | src/src/http_server.cpp:59-67 | the lowercasing loop and the comparisons give MimeSuffix of the lowered MIME type |
| HttpServer.JsonGetStringField | src/src/http_server.cpp:70-81 | no quoted key gives none; a value found holds no '"' and occurs between two quotes in the body |
| HttpServer.ReadField | src/src/http_server.cpp:70-81 | a body laid out as a first quoted key, a gap without ':', a ':', a gap without '"' and a quoted value without '"' gives back exactly that value |
| HttpServer.FieldAt | src/src/http_server.cpp:72-80 | the field is the text strictly between the two quotes found after the first ':' after the key |
| HttpServer.JsonFieldNone | src/src/http_server.cpp:72-79 | the result is none exactly when the quoted key, the ':' after it, or the opening or closing '"' after that is not found |
| HttpServer.ParseDataUrl | src/src/http_server.cpp:84-96 | none exactly when "base64," does not occur; the payload is everything after its first occurrence; a non-default MIME lies between a leading "data:" and the first ';'; without "data:" the MIME is application/octet-stream |
| HttpServer.DataUrlMime | src/src/http_server.cpp:85-95 | when the part before the first "base64," starts with "data:" and holds a ';', the MIME is the text from index 5 up to that first ';' |
| HttpServer.DataUrlDefault | src/src/http_server.cpp:85-95 | when the part before the first "base64," does not start with "data:" or holds no ';', the MIME is application/octet-stream |
| HttpServer.ReadDataUrl | src/src/http_server.cpp:84-96 | `data:<mime>;base64,<payload>` splits back into that MIME and payload |
| HttpServer.LastFileHeader | src/src/http_server.cpp:310-316 | finds the last header of a part named "file", or states that none exists |
| HttpServer.Collected | src/src/http_server.cpp:309-323 | a file was seen exactly when some header names the part "file" |
| HttpServer.CollectedSnoc | src/src/http_server.cpp:309-323 | a file header resets the name, type and bytes; another header changes nothing; a chunk is appended only once a file was seen |
| HttpServer.ReadUpload | src/src/http_server.cpp:304-323 | running the two callbacks over the events gives Collected of the events |
| HttpServer.CollectedBytes | src/src/http_server.cpp:315-320 | the bytes are exactly the data chunks after the last file header |
| HttpServer.ChooseSuffix | src/src/http_server.cpp:331-334 | the suffix starts with '.'; it is the filename from its last '.' when there is one, else the content type's suffix when the type is non-empty, else .bin |
| HttpServer.HandleUpload | src/src/http_server.cpp:325-334 | "missing file" exactly when the reader failed, no file part came or its bytes are empty; otherwise the collected bytes and the chosen suffix are saved |
| HttpServer.HandleClipboard | src/src/http_server.cpp:357-390 | empty body, missing field and invalid URL each answer exactly in their case; "decode failed" is never answered; otherwise the decoded payload is saved with the suffix of its MIME type |
| Base64.B64Value | src/src/http_server.cpp:98-105 | the value is -1 or a sextet that the RFC 4648 alphabet maps back to the character |
| Base64.B64ValueOfEncodeChar | src/src/http_server.cpp:99-103 | every alphabet character has its table value |
| Base64.B64ValueNegative | src/src/http_server.cpp:104 | the value is -1 exactly for characters outside the alphabet |
| Base64.Base64Decode | src/src/http_server.cpp:107-125 | always succeeds, and gives the bytes of the alphabet characters before the first '=', with other characters skipped |
| Base64.DecodeLength | src/src/http_server.cpp:117-122 | n consumed characters give floor(6n/8) bytes |
| Base64.DecodeEncode | src/src/http_server.cpp:107-125 | decoding the padded encoding of any byte string gives that byte string |
| Base64.SextetsConcat | src/src/http_server.cpp:113-116 | before the first '=' the skipped and kept characters split over concatenation |
| Util.GuessMime | src/src/util.cpp:47-64 | each of the six answers is given exactly when the lowered path ends with its suffix (.jpg or .jpeg for image/jpeg); every other path is application/octet-stream |
| Util.GuessMimeShort | src/src/util.cpp:51-63 | a path shorter than three characters, the length of the shortest suffix ".js", is application/octet-stream |
| Util.GuessMimeIgnoresCase | src/src/util.cpp:48-49 | two paths that lower to the same text get the same MIME type, so the match ignores ASCII case |
| Util.SuffixesExclusive | src/src/util.cpp:51-62 | a path ends with at most one of the recognised suffixes, so the order of the tests does not matter |
| Util.JoinPath | src/src/util.cpp:66-70 | an empty `a` gives `b`; otherwise the result starts with `a`, ends with `b` and has one '/' before `b`, added only when `a` does not end in '/' |
| Util.JoinPathSplit | src/src/util.cpp:66-70 | with `a` non-empty the result starts with `a` and ends with a '/' followed by `b`; that '/' is `a`'s own last character when `a` ends in '/' |
| Util.UuidSplits | src/src/util.cpp:18-22 | the id is five lowercase hex groups separated by exactly four '-' |
| Util.UuidWidths | src/src/util.cpp:20-21 | the groups take at most 8, 4, 4, 4 and 12 digits |
| Util.UuidInjective | src/src/util.cpp:18-22 | the text determines both 64-bit words |
| Util.GroupsAddUp | src/src/util.cpp:20-21 | the five shifted and masked groups add back up to the two words |
| LlmRunner.TrimEnd | src/src/llm_runner.cpp:14-15 | the result is a prefix whose removed tail is all whitespace and whose last character is not whitespace |
| LlmRunner.TrimStart | src/src/llm_runner.cpp:16-18 | the result is a suffix whose removed head is all whitespace and whose first character is not whitespace |
| LlmRunner.TrimInPlace | src/src/llm_runner.cpp:13-19 | the two loops compute Trimmed of the input |
| LlmRunner.TrimmedEnds | src/src/llm_runner.cpp:13-19 | the result neither starts nor ends with ' ', '\n', '\r' or '\t' |
| LlmRunner.TrimmedSlice | src/src/llm_runner.cpp:13-19 | the result is a contiguous slice of the input with only whitespace outside it |
| LlmRunner.TrimIdempotent | src/src/llm_runner.cpp:13-19 | trimming twice gives the same as trimming once |
| LlmRunner.TrimmedEmpty | src/src/llm_runner.cpp:13-19 | the result is empty exactly when the input is all whitespace |
| LlmRunner.Batch.Init | src/src/llm_runner.cpp:117-118 | a fresh batch of the given capacity with no slot in use |
| LlmRunner.Batch.BatchAdd | src/src/llm_runner.cpp:56-64 | writes token, position, one sequence id, the sequence and the logits flag into slot n_tokens, leaves every other slot unchanged and adds one to n_tokens |
| LlmRunner.FillPromptBatch | src/src/llm_runner.cpp:117-122 | n_tokens is the prompt length; slot i holds token i at position i of sequence 0; only the last slot asks for logits |
| LlmRunner.StepBatch | src/src/llm_runner.cpp:174-176 | the one-token batch holds the sampled token at n_past with logits |
| LlmRunner.OneOutput | src/src/llm_runner.cpp:116-122 | exactly one prompt slot asks for logits, the last |
| Prompt.PromptFrame | src/src/prompt.cpp:8-15 | the prompt starts with the system turn's opening and ends with the assistant turn's opening |
| Prompt.PromptCarriesText | src/src/prompt.cpp:6-17 | the OCR text sits verbatim at a fixed offset, followed immediately by "\n<\|im_end\|>\n<\|im_start\|>assistant\n", and the length is the fixed template length plus the text's |
| Prompt.PromptInjective | src/src/prompt.cpp:6-17 | different OCR texts give different prompts |
| InferImage.NoiseLineIff | scripts/infer_image.py:71-84 | a line is noise exactly when it has at most one character, consists only of non-word characters and '_', or contains one of the noise literals |
| InferImage.KeepLines | scripts/infer_image.py:108-109 | a line is kept exactly when it is an input line that is non-empty and not noise |
| InferImage.KeepLinesOrder | scripts/infer_image.py:109 | the kept lines are the input lines at strictly increasing indices, and an index is among them exactly when its line is non-empty and not noise |
| InferImage.DedupLines | scripts/infer_image.py:111-117 | the loop over `seen` computes the first occurrences in original order |
| InferImage.FirstOccurrencesSpec | scripts/infer_image.py:111-117 | the de-duplicated lines have no duplicates and are exactly the lines of the input |
| InferImage.FirstOccurrencesOrder | scripts/infer_image.py:111-117 | the de-duplicated lines are the input lines at strictly increasing indices, and an index is among them exactly when no earlier line equals its line |
| InferImage.SelectCount | scripts/infer_image.py:119-121 | selection keeps exactly as many lines as the slice `[:max_lines]` keeps, negative bounds included |
| InferImage.PickedBeatsRest | scripts/infer_image.py:119-121 | every picked line has a higher score than every dropped one, or the same score and an earlier index |
| InferImage.SelectInOrder | scripts/infer_image.py:122 | the picked lines come out in their original order, and they are exactly the lines ranked below the keep count |
| InferImage.SelectAll | scripts/infer_image.py:119-122 | with a bound at least the number of lines, every line is kept in order |
| InferImage.MergeLines | scripts/infer_image.py:127-137 | the loop over `buf` and `merged` computes Merge of the lines |
| InferImage.MergeKeepsText | scripts/infer_image.py:127-137 | merging loses no character and creates no empty line |
| InferImage.Truncate | scripts/infer_image.py:140-141 | a text within the limit is unchanged; a longer one is its first max_chars characters followed by the truncation mark |
| InferImage.CleanOcrText | scripts/infer_image.py:107-142 | the cleaner is filter, de-duplication, selection, merge, join and truncation, in that order |

## Left out

- Threads, the mutex, the condition variable and the destructor's join are not modelled. Each method is one critical section, and the worker's two halves are the methods `StartNext` and `Finish`.
- `new_id`, `make_tmp_path`, the RNG of `uuid4` and the clocks are not modelled. Ids, creation times and the two random words are inputs.
- `Pipeline::run` and `make_pipeline` are not part of this model. The pipeline's result, error and progress are arguments of `Finish`.
- JobManager.Manager.SubmitImage: keeps `Orderly()` only for a fresh id. A reused id is pushed onto the queue a second time, as `emplace` plus `push` do.
- JobManager.Manager.StartNext: requires that the worker holds no id, which is the sequential reading of the loop. The `continue` for a missing record cannot happen, by `Valid()`.
- The llama.cpp calls are left out: tokenising, decoding, sampling with its EOS resampling, and token-to-piece. They are foreign code with floating-point sampling.
- LlmRunner.Batch.Init: the contents of a freshly allocated batch's slots are unspecified, as after an allocation, and the batch's `embd` field is not modelled.
- LlmRunner.TrimInPlace: takes the string by value and returns the trimmed string instead of erasing in place.
- HTTP plumbing is left out: httplib, routes, responses, temp-file writes, port parsing and `main`. The handlers are modelled as their decisions up to the file write.
- The embedded HTML page and `src/web/app.js` are not modelled. They are UI.
- The macOS Vision OCR, the PIL preprocessing, the llama-cpp generation in the scripts, `screen_cap.py` and `run.py` are left out. They are tool-dependent I/O.
- InferImage.CleanOcrText: `_line_score` is an abstract `score` function and `\W` an abstract `isWord` predicate. The input is lines that `splitlines` and `strip` already produced, so the method requires that no line holds a character at which `splitlines` breaks (`LineBreak`). Under that requirement the join and re-split before merging is the identity.
- InferImage.Select: the two sorts are modelled by rank: the number of lines that sort before a line under (-score, index). Both sorts are stable, and (-score, index) keys are pairwise distinct, so this is the same selection.
- `ensure_dir`, `write_file_binary` and `read_file_binary` are left out. They are file I/O.
- The configuration headers are parameter bags with no behaviour.
- Base64.Base64Decode: keeps the accumulator `val` modulo 4096. The 32-bit `int` in the source overflows on long input, but only its low 12 bits are ever read.
- JsonEscape.JsonEscape: the source defines it twice with the same body (src/src/job_manager.cpp:47-70 and src/src/http_server.cpp:27-50), and it is modelled once.
- Util.GuessMime: lowers only 'A'..'Z', as `tolower` does in the "C" locale. The behaviour of `tolower` on a negative `char` is not modelled.
