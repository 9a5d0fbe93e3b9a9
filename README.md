# Blog generator endpoint — a Dafny model

The repository is a small web service with one endpoint, `POST /api/generate-blog`.
It takes a topic and an optional word count. It checks the topic and builds a fixed
single-shot prompt. It sends that prompt to the Gemini generative-language service and
pulls the text out of the loosely shaped reply. It answers 200 with `{topic, markdown}`,
400 for a bad topic, or 500 with an error message.

This project models that decision path in `api/index.js` as pure Dafny functions and
proves what it promises:

- `text.dfy` (module `Text`): JavaScript's `String.prototype.trim`. It is built over the
  ECMAScript WhiteSpace and LineTerminator characters, so that "blank" and "already
  trimmed" can be stated. Trimming is proved idempotent. Its result is
  proved to be the middle of a cut of the string into a blank prefix, a trimmed middle and
  a blank suffix, and every such cut is proved to have that same middle.
- `gemini_response.dfy` (module `GeminiResponse`): the reply envelope as tagged datatypes,
  with `Extract` modelling `extractTextFromGeminiResponse`. `Extract` is proved equal to
  an independent definition: "the first non-blank of the sources, in precedence order,
  trimmed". From that the precedence rules follow: top-level text, then the joined parts
  of the first candidate, then that candidate's own text.
- `blog_prompt.dfy` (module `BlogPrompt`): the `SINGLE_SHOT_PROMPT` template, with its
  full text. Proved: the prompt quotes the topic and asks for `~<wordCount> words`, or
  fails when the word count cannot be converted to a string. For a
  given word count the prompt fixes the topic, and for a given topic it fixes the word
  count.
- `generate_blog.dfy` (module `GenerateBlog`): `callGeminiPrompt` and the handler. The
  service client global becomes a `configured` flag. The remote call becomes a `Reply`
  parameter: either a returned response or a thrown message. The outbound call is
  recorded in the result as `sent`, so the order of the checks can be stated: no call is
  made unless the topic is valid and the client is configured.
- `wrappers.dfy` (module `Wrappers`): `Option` (JavaScript's `null`) and `Result`.

The code never checks `wordCount` (api/index.js:60, 94). It uses 1000 only when the
field is absent; any other value goes through the template literal's string conversion,
so an explicit `null` is rendered as `null` and `{}` as `[object Object]`. That
conversion throws a TypeError for an object whose `toString` and `valueOf` yield no
primitive, such as `{"toString": 0}`. The prompt is then never built, no call is made,
and the catch answers 500 with the error's message. The model keeps either the rendered
text or that message (`BlogPrompt.WordCount`), and `SingleShotPrompt` fails exactly for
the second.

## Model

| member | source | states |
|---|---|---|
| `Text.IsWhitespace` | api/index.js:30 | the characters `trim()` removes: the ECMAScript WhiteSpace and LineTerminator sets |
| `Text.TrimStart` | api/index.js:30 | the result is the suffix of the input after a blank prefix, and begins with a non-whitespace character when non-empty |
| `Text.TrimEnd` | api/index.js:30 | the result is the prefix of the input before a blank suffix, and ends with a non-whitespace character when non-empty |
| `Text.Trim` | api/index.js:30 | `trim()` gives a trimmed string no longer than its input, empty exactly when the input is blank |
| `Text.TrimStartAt` | api/index.js:30 | leading-whitespace removal stops exactly at the first non-whitespace character |
| `Text.TrimEndAt` | api/index.js:30 | trailing-whitespace removal stops exactly after the last non-whitespace character |
| `Text.TrimOfTrimmed` | api/index.js:30-39 | trimming an already trimmed string changes nothing |
| `Text.TrimIdempotent` | api/index.js:30-39 | `s.trim().trim() == s.trim()` |
| `Text.TrimIsCut` | api/index.js:30 | `trim()` is the middle of a cut of the input into a blank prefix, itself and a blank suffix |
| `Text.TrimUnique` | api/index.js:30 | any cut into blank prefix, trimmed middle and blank suffix has `trim()` as its middle |
| `GeminiResponse.Contribution` | api/index.js:35 | plain definition, no contract: a string part contributes itself; an object part contributes its text, or "" when it has none |
| `GeminiResponse.Joined` | api/index.js:34-36 | joining no parts gives ""; parts whose contributions are all blank join to a blank text |
| `GeminiResponse.UsableText` | api/index.js:30 | a field yields text exactly when it is a string that is not blank, and then yields its trim |
| `GeminiResponse.Extract` | api/index.js:28-42 | a non-null result is non-empty and equal to its own trim; an absent response yields null |
| `GeminiResponse.FirstNonBlank` | api/index.js:30-39 | the index found is that of the first non-blank source, with every earlier source blank |
| `GeminiResponse.FirstNonBlankAppend` | api/index.js:30-39 | in a concatenation of source lists the first non-blank source lies in the first list if it has one |
| `GeminiResponse.FirstUsableAppend` | api/index.js:30-39 | a later source is consulted only when every earlier one is blank |
| `GeminiResponse.FirstUsableOfOne` | api/index.js:39 | a single source is usable exactly when it is a non-blank string |
| `GeminiResponse.CandidateFirstUsable` | api/index.js:33-39 | within the first candidate, the joined parts take precedence over the candidate's own text |
| `GeminiResponse.ExtractIsFirstUsable` | api/index.js:28-42 | extraction returns the trim of the first non-blank source in the order top-level text, joined parts, candidate text |
| `GeminiResponse.ExtractNullIffAllBlank` | api/index.js:29-41 | the result is null exactly when every source is blank (or the response is absent and there are none) |
| `GeminiResponse.TopLevelTextWins` | api/index.js:30 | a non-blank top-level string is the result, trimmed, whatever the candidates hold |
| `GeminiResponse.OnlyFirstCandidateCounts` | api/index.js:31-32 | candidates after the first never change the result |
| `GeminiResponse.PartsBeforeCandidateText` | api/index.js:33-37 | with an unusable top-level text, non-blank joined parts are the result, whatever the candidate's text |
| `GeminiResponse.CandidateTextLast` | api/index.js:37-39 | the candidate's own text is used only when the parts are missing or join to a blank text |
| `GeminiResponse.JoinedAppend` | api/index.js:34-36 | joining the parts distributes over concatenation, so contributions appear in order |
| `GeminiResponse.TextlessPartIsIgnored` | api/index.js:35 | an object part without a text contributes nothing to the joined text |
| `GeminiResponse.ContributionIsJoinedOfOne` | api/index.js:34-36 | joining a single part gives exactly what that part contributes |
| `GeminiResponse.EmptyTextPartIsIgnored` | api/index.js:35 | an object part whose text is "" joins like one without text, so it contributes nothing |
| `GeminiResponse.DirectTextExample` | api/index.js:30 | a direct text "Hello" is extracted as "Hello" |
| `GeminiResponse.TwoStringParts` | api/index.js:33-37 | with no top-level text, two string parts of the first candidate give their concatenation, trimmed, when it is not blank |
| `GeminiResponse.PartsExample` | api/index.js:33-37 | parts "Foo" and "Bar" are extracted as "FooBar" |
| `GeminiResponse.NoTextExample` | api/index.js:31-41 | no direct text and an empty candidate list give null |
| `BlogPrompt.Rendered` | api/index.js:87 | plain definition, no contract: an omitted word count renders as "1000"; a given one renders as given; an unrenderable one fails with its conversion message |
| `BlogPrompt.OccursBetween` | api/index.js:63 | a string occurs in any concatenation that places it between two others |
| `BlogPrompt.MiddleDetermined` | api/index.js:63 | equal strings with the same prefix and suffix have equal middles |
| `BlogPrompt.Assemble` | api/index.js:61-89 | the spliced-in pieces occur in the assembled text, which starts and ends with the fixed text |
| `BlogPrompt.AssembleDeterminesSecond` | api/index.js:63 | the assembled text fixes the piece spliced in second |
| `BlogPrompt.AssembleDeterminesFourth` | api/index.js:87 | the assembled text fixes the piece spliced in fourth |
| `BlogPrompt.SingleShotPrompt` | api/index.js:60-90 | building the prompt fails, with the conversion's message, exactly when the word count cannot be rendered; otherwise the prompt contains the quoted topic line and `- Length: ~<wordCount> words`, opens with the writer's role and closes with the content rule |
| `BlogPrompt.PromptDeterminesTopic` | api/index.js:63 | for the same renderable word count, equal prompts have equal topics |
| `BlogPrompt.PromptDeterminesWordCount` | api/index.js:87 | for the same topic, equal outcomes of building the prompt have equal renderings of the word count: the same text or the same conversion failure |
| `BlogPrompt.OmittedMeansThousand` | api/index.js:60 | omitting the word count gives the same prompt as giving 1000 |
| `BlogPrompt.GivenOtherThanThousand` | api/index.js:60 | a given word count that renders other than "1000" gives a different prompt from omitting it |
| `GenerateBlog.TopicOf` | api/index.js:94 | plain definition, no contract: the body's `topic`, missing when there is no body |
| `GenerateBlog.WordCountOf` | api/index.js:94 | plain definition, no contract: the body's `wordCount`, omitted (so defaulting to 1000) when there is no body or no such field |
| `GenerateBlog.TopicRejected` | api/index.js:95 | the guard as written rejects exactly the topics that are not strings of trimmed length at least 3 |
| `GenerateBlog.CallGeminiPrompt` | api/index.js:44-58 | one request (model and prompt) is sent exactly when the client is configured; unconfigured fails with the configuration message; a thrown call fails with its message; a returned response without usable text fails with "Gemini produced no usable text."; otherwise the result is the extracted text, non-empty and trimmed |
| `GenerateBlog.ErrorMessage` | api/index.js:104 | the error text is never empty and is the thrown message whenever that is non-empty |
| `GenerateBlog.Respond` | api/index.js:99-104 | past the guard: 200 with the echoed topic and extracted text exactly when configured and text was extracted, else 500 with a non-empty error; the call is sent exactly when configured |
| `GenerateBlog.HandleGenerateBlog` | api/index.js:92-106 | the status is 200, 400 or 500; 400 exactly for an invalid topic; 200 exactly with a blog body; a call is sent exactly for a valid topic, a renderable word count and a configured client |
| `GenerateBlog.InvalidTopicIsRejectedFirst` | api/index.js:94-96 | an invalid topic gets 400 with the fixed message and no call is sent |
| `GenerateBlog.GuardPassed` | api/index.js:94-104 | past the guard, an unrenderable word count gives 500 with the conversion's message and no call; otherwise the handler responds through the service call with the single-shot prompt of that topic and word count |
| `GenerateBlog.RespondUnconfigured` | api/index.js:45-49 | without a client the answer is 500 with the configuration message and no call |
| `GenerateBlog.RespondNoUsableText` | api/index.js:55-56 | a reply without usable text gives 500 with the no-usable-text message, after one call |
| `GenerateBlog.RespondThrown` | api/index.js:102-104 | a thrown call gives 500 with its message, or "Internal server error" when the message is empty |
| `GenerateBlog.UnconfiguredClientFails` | api/index.js:45-49 | a valid topic with no client gets 500 and no call; the message is the configuration message, or the conversion's message when the word count cannot be rendered, since the prompt is built first |
| `GenerateBlog.ValidRequestSendsPrompt` | api/index.js:94-100 | a valid topic with a client sends a request exactly when the word count can be rendered, and then one: the fixed model and a prompt quoting the topic and asking for the given word count, 1000 when omitted |
| `GenerateBlog.NoUsableTextFails` | api/index.js:55-56 | a returned response without usable text gets 500 "Gemini produced no usable text.", or the conversion's message when the word count cannot be rendered |
| `GenerateBlog.ThrownMessageSurfaces` | api/index.js:102-104 | a thrown call gets 500 with the thrown message, or the conversion's message when the word count cannot be rendered, or the fallback text when that message is empty |
| `GenerateBlog.SuccessIff` | api/index.js:99-101 | 200 exactly for a valid topic, a renderable word count, a configured client and a reply with usable text; the body echoes the topic and carries that text |
| `GenerateBlog.UnrenderableWordCountFails` | api/index.js:99-104 | a valid topic with an unrenderable word count gets 500 with the conversion's message (or the fallback when it is empty) and no call, whatever the client and the reply |
| `GenerateBlog.HelloExample` | api/index.js:92-101 | a direct text "Hello" answers `{topic, markdown: "Hello"}` |

## Left out

- Express wiring: CORS, body parsing, static file serving, the catch-all route (api/index.js:108-111) and `app.listen` (api/index.js:113-115). This is HTTP plumbing. A request body that is missing or not a JSON object is modelled as `NoBody`.
- Loading dotenv and constructing the `GoogleGenAI` client (api/index.js:9, 16-26). This is environment and foreign-library setup. It is reduced to the `configured` flag.
- The `generateContent` network call (api/index.js:51-54). It is a remote service. It is replaced by the `Reply` parameter, and the request it receives is recorded in `sent`.
- Logging through `console.warn`, `console.error` and `console.log`. It is a side effect with no behavioural contract.
- The `isConfigError` flag set at api/index.js:47. Nothing reads it.
- `GenerateBlog.ValidTopic`: JavaScript measures `trim().length` in UTF-16 code units; the model counts characters. They differ only for characters outside the Basic Multilingual Plane.
- `GeminiResponse.Part`: an object part whose `text` is a truthy non-string value is converted to a string by `join`. The model has no such value: a part's text is a string (an empty one contributes as nothing does) or nothing.
- `GeminiResponse.Response`: every falsy response value (`null`, `undefined`, `false`, `0`, `""`) is the single case `Absent`. Likewise, a `candidates` or `parts` value that is not an array is `None`.
- A thrown value with no `message` (not an `Error`) is represented as a `Threw` with an empty message. Both produce the fallback text.
- `BlogPrompt.WordCount`: which values fail to convert, and the text of the TypeError, depend on the JavaScript engine's conversion rules; the model takes the outcome, rendered text or error message, as given rather than computing it from a JSON value.
- `BlogPrompt.SingleShotPrompt`: its contract covers the topic line, the length rule, the opening and the closing. The rest of the fixed wording is in the model, but nothing is proved about it.
- The `model` default parameter of `callGeminiPrompt` (api/index.js:44). The handler always passes the model explicitly, so `CallGeminiPrompt` takes the model as an ordinary argument.
- The `!text` test at api/index.js:56 is modelled as a null test. `Extract` never returns an empty string, so the two tests agree.
- client/src/App.jsx is not part of this model. It is the React interface: state hooks, a `fetch` to the server, Markdown rendering, and a blank-topic check before sending.
