# XCAOpenAIClient: a verified model of the request/response core

`OpenAIClient` is a Swift SDK for the OpenAI HTTP API. Most of it sends requests
through URLSession or through a generated OpenAPI client. This project models
the sequential logic inside those calls and proves its properties in Dafny:

- **Streamed speech** (`streamingGenerateSpeechFrom`). The response status must be in
  [200, 300) before a stream exists. The task then reads the response one byte
  at a time into a buffer and yields the buffer each time it reaches 1024 bytes.
  When the source ends, it yields a non-empty leftover and then finishes. When
  the source fails, it finishes with the error and drops the leftover.
  Module `SpeechStream` (`speech_stream.dfy`) has this loop as a method. The method
  is proved against a specification function. Lemmas prove that the chunks
  concatenate back to the input and that they form the only valid partition of it.
- **Chat completion** (`promptChatGPT`, `promptChatGPTVision`). The message list is
  the assistant message, then the caller's history verbatim, then the user's prompt.
  The optional response-format object and the handling of the generated client's
  `.ok` / `.undocumented` outcomes are also in module `Chat` (`chat.dfy`). Both chat
  paths share the same result handling.
- **Transcription** (`generateAudioTransciptions`). This covers the ordered
  multipart/form-data entry list and the status and UTF-8 checks on the response,
  in module `Transcription` (`transcription.dfy`). UTF-8 validity follows section 3 of
  RFC 3629, in module `Utf8` (`utf8.dfy`). It is proved to be exactly "the body is
  the UTF-8 form of some text", and the decoded text is proved to re-encode to
  the body.

`common.dfy` (module `Common`) holds bytes, `Option`, `Result` and `ClientError`.
`ClientError` has one case for each kind of error the modelled paths throw. Network I/O is
replaced by parameters. The status code is an `Option<int>`, where `None` means
the response was not an HTTP response. The streamed body is a `ByteSource`: the
bytes it delivers, then `Completed` or `Failed(error)`. A source that fails
after k bytes is one whose byte list has length k.

Three behaviours of the code worth noting:
- `promptChatGPT` does not reject a response-format tag that names no schema case.
  `init(rawValue:)` gives nil, and the request carries a format object with no type
  (`Chat.ComposeResponseFormat`).
- Transcription accepts only status 200, not the whole 2xx range.
- A bad status before streaming throws `URLError(.badServerResponse)` (`BadServerResponse`).

## Model

| member | source | states |
|---|---|---|
| `SpeechStream.StreamChunks` | Sources/XCAOpenAIClient/XCAOpenAIClient.swift:100-121 | the loop's yielded chunks and terminal signal are `ExpectedRun(src)`: all chunks of the bytes and `Finished` when the source completes, only the full chunks and `FinishedThrowing(e)` when it fails |
| `SpeechStream.StreamingGenerateSpeech` | Sources/XCAOpenAIClient/XCAOpenAIClient.swift:93-97 | the stream is produced iff the response is HTTP with a status in [200, 300); otherwise `BadServerResponse` is thrown |
| `SpeechStream.ReadByte` | Sources/XCAOpenAIClient/XCAOpenAIClient.swift:105-110 | reading one byte either completes a 1024-byte chunk from the buffer plus that byte and empties the buffer, or only appends the byte to the buffer |
| `SpeechStream.RemainderLength` | Sources/XCAOpenAIClient/XCAOpenAIClient.swift:103-110 | between iterations the buffer holds fewer than 1024 bytes, namely `|s| % 1024` |
| `SpeechStream.FullChunkSizes` | Sources/XCAOpenAIClient/XCAOpenAIClient.swift:107-110 | every chunk yielded inside the loop has exactly 1024 bytes, and there are floor(N/1024) of them |
| `SpeechStream.FullChunksThenRemainder` | Sources/XCAOpenAIClient/XCAOpenAIClient.swift:105-110 | the full chunks followed by the buffer are exactly the bytes read so far |
| `SpeechStream.ChunksConcatenate` | Sources/XCAOpenAIClient/XCAOpenAIClient.swift:102-116 | for a source that completes, the chunks concatenated in order equal the bytes read |
| `SpeechStream.ChunkShape` | Sources/XCAOpenAIClient/XCAOpenAIClient.swift:107-115 | no chunk is empty, all but the last have 1024 bytes, the leftover has 1 to 1023 bytes and comes last, and N bytes give ceil(N/1024) chunks |
| `SpeechStream.ChunksAreChunking` | Sources/XCAOpenAIClient/XCAOpenAIClient.swift:102-116 | the chunks of a completing source partition its bytes into chunks of 1..1024 bytes where only the last may be short |
| `SpeechStream.ChunkingIsUnique` | Sources/XCAOpenAIClient/XCAOpenAIClient.swift:102-116 | any such partition of the bytes is the one the loop yields |
| `SpeechStream.FailedRunDropsBuffer` | Sources/XCAOpenAIClient/XCAOpenAIClient.swift:105-118 | a source failing after k bytes yields exactly the floor(k/1024) full chunks of those bytes and then the error; the partial buffer is dropped |
| `SpeechStream.FullChunksGrow` | Sources/XCAOpenAIClient/XCAOpenAIClient.swift:105-110 | chunks already yielded for a prefix of the source stay the first chunks for the whole source, so nothing is reordered or retracted |
| `Chat.ComposeMessages` | Sources/XCAOpenAIClient/XCAOpenAIClient.swift:49-51 | the list has length |prev| + 2: the assistant message with the assistant prompt first, the history unchanged and in order at 1..|prev|, and the user message with the prompt last |
| `Chat.SplitComposed` | Sources/XCAOpenAIClient/XCAOpenAIClient.swift:49-51 | the assistant prompt, history and prompt are recovered from the composed list |
| `Chat.ComposedSplit` | Sources/XCAOpenAIClient/XCAOpenAIClient.swift:49-51 | every list beginning with an assistant message and ending with a user message is the composition of its own parts |
| `Chat.HistoryIsStable` | Sources/XCAOpenAIClient/XCAOpenAIClient.swift:49-51 | extending the history keeps the earlier part of the list at the same positions |
| `Chat.ComposeResponseFormat` | Sources/XCAOpenAIClient/XCAOpenAIClient.swift:42-45 | a format object is present iff a tag is given, and it has a type iff the tag is one of the schema's values, in which case the type is that tag |
| `Chat.ComposeChatRequest` | Sources/XCAOpenAIClient/XCAOpenAIClient.swift:42-54 | the request carries the chosen model, the composed message list, and exactly the format object `ComposeResponseFormat` builds (present iff a tag is given, typeless for a tag the schema does not know) |
| `Chat.ResolveChatResponse` | Sources/XCAOpenAIClient/XCAOpenAIClient.swift:58-66 | succeeds iff the outcome is `.ok` with a first choice that has content, and then returns that content; `.ok` without it fails with `NoResponse`; `.undocumented` fails with its status and payload |
| `Chat.EmptyTextIsContent` | Sources/XCAOpenAIClient/XCAOpenAIClient.swift:61-64 | an empty string is returned only when the first choice's content is the empty string, never for missing content |
| `Chat.OnlyFirstChoiceCounts` | Sources/XCAOpenAIClient/XCAOpenAIClient.swift:61 | choices after the first never change the result |
| `Transcription.TranscriptionEntries` | Sources/XCAOpenAIClient/XCAOpenAIClient.swift:162-170 | entries are file (audio/mpeg, fileName, data), model "gpt-4o-transcribe", response_format "text", prompt, plus language last iff the code is present and non-empty (length 5, else 4); names are distinct and a lookup by name finds file, prompt and language as given |
| `Transcription.ResolveTranscription` | Sources/XCAOpenAIClient/XCAOpenAIClient.swift:175-183 | succeeds iff the status is exactly 200 and the body is UTF-8, returning the text whose UTF-8 form is the body; otherwise `InvalidStatusCode` (with -1 when there is no HTTP response) or `InvalidFormat` |
| `Transcription.TranscriptionRoundTrip` | Sources/XCAOpenAIClient/XCAOpenAIClient.swift:179-183 | a 200 response carrying the UTF-8 form of a text returns that text |
| `Utf8.DecodeEncode` | Sources/XCAOpenAIClient/XCAOpenAIClient.swift:179 | decoding the UTF-8 form of any text gives that text back |
| `Utf8.EncodeDecode` | Sources/XCAOpenAIClient/XCAOpenAIClient.swift:179 | a body that decodes is exactly the UTF-8 form of the decoded text |
| `Utf8.ValidIffEncoding` | Sources/XCAOpenAIClient/XCAOpenAIClient.swift:179 | a body is accepted as UTF-8 iff it is the UTF-8 form of some text |

## Left out

- Network I/O is not modelled: URLSession requests, `URLSession.shared.bytes`, the 30-second timeout, and the fixed endpoint URLs. Statuses and bodies are parameters instead.
- The request headers (`Authorization: Bearer …`, `Content-Type`) and the `UUID()` multipart boundary are not modelled. Both are fixed strings or randomness.
- `AsyncThrowingStream`, `Task`, the continuation and consumer cancellation are not modelled. They are concurrency plumbing; only the sequential buffer logic inside the task is modelled.
- The calls into the generated OpenAPI client (`createChatCompletion`, `createSpeech`, `createImage`) and `AuthMiddleware` are not modelled: their code is not part of this model. `ChatCompletionOutput` stands for their result. Its `.ok` body is assumed to be the JSON case, so `body.body.json` throwing is not modelled.
- `MultipartFormDataBodyBuilder.build()` is not part of this model. Its byte layout (RFC 7578) is not invented here; only the entry list given to it is modelled.
- The JSON body of the streamed speech request (`JSONSerialization`) is not modelled. Neither is the vision request's base64 data URL: both are foreign library calls.
- The request shapes of image generation and vision are not modelled. They are fixed schema constructors without logic. The vision path's result handling is modelled by `Chat.ResolveChatResponse`, which is the same code.
- `generateSpeechFrom` and `generateDallE3Image` are not modelled. They are outside the core modelled here: thin wrappers over the generated client.
- `promptChatGPT4oMini` is not modelled separately. It only calls `promptChatGPT` with the model fixed to `Gpt4oMini`, which is a parameter of `Chat.ComposeChatRequest`.
- Default argument values (the assistant prompt "You are a helpful assistant", the file name "recording.m4a", the `Gpt4o` model) are not modelled: Dafny members here take every argument explicitly.
- `URLError(.badURL)` in `streamingGenerateSpeechFrom` has no `ClientError` case: the URL is a constant that always parses, so it cannot be thrown.
- The image path's "Unknown response" error has no `ClientError` case, because `generateDallE3Image` is not modelled.
- The response-format enum's raw values belong to the generated schema, which is not part of this model. They are the parameter `knownTypes`.
- `Transcription.ResolveTranscription`: Foundation's `String(data:encoding:)` is modelled by strict RFC 3629 decoding. Any byte-order-mark handling of that library is not captured.
- The error message strings and how a payload is rendered in them are not modelled. Each error is a `ClientError` case carrying the same data.
