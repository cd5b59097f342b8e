# Jekyll shiki-twoslash plugin: a Dafny model

The site highlights TypeScript and JavaScript code blocks with shiki-twoslash.
This project models the string logic that links its two halves:

- `_plugins/shiki.rb` is a Jekyll plugin.
  - A pre-render hook rewrites every ```` ```lang twoslash ```` fence of a post into a `{% shiki lang %}` Liquid block.
  - The block keeps its language stripped of whitespace.
  - It sends `lang;escaped-code` as one line to a long-lived Node process.
  - It reads one line back, decodes it, and wraps it with a "TypeScript" or "JavaScript" label.
- `_scripts/shiki.js` is that Node process.
  - For each input line it splits at the first `;` and decodes the code.
  - It runs the highlighter and prints the HTML, with its line terminators escaped, as one line.

Both directions write every real line terminator as the two characters backslash and `n`. Literal backslashes are not escaped. So the round trip is exact only for text without a literal backslash-`n` pair. The lemmas below prove that exact condition, and show the counterexample.

Files and modules:

- `text.dfy` (`Text`): `Option`, `Find` and a few sequence facts.
- `wire.dfy` (`Wire`): the escape and unescape pair, and how each side splits a stream into lines. Node's `readline` interface gives `Lines`; Ruby's `IO#readline` gives `ReadLine`.
- `worker.dfy` (`Worker`): the Node worker.
  - JavaScript's `indexOf` and `substring`, with its index clamping.
  - Request decoding and the per-line response.
  - The `for await` loop, as the method `Serve`.
- `plugin.dfy` (`Plugin`): the Liquid block.
  - `strip` and the label.
  - The request frame.
  - The pipe, as what was written to the worker and what it printed but was not yet read.
  - The `@@shiki` class variable, as the class `WorkerHandle` with an optional pipe.
  - The block, as the class `HighlightBlock`.
- `fences.dfy` (`Fences`): the pattern ``/```(\w+) twoslash([^\0]*?)\n?```/``, written out as the matcher it stands for.
  - `gsub` is a left-to-right rewrite.
  - The hook is a method that reassigns a page's content.

The highlighter itself (`runTwoSlash` and `renderCodeToHTML`) is a parameter, `Engine = (string, string) -> string`.

## Model

| member | source | states |
|---|---|---|
| Wire.Escape | _plugins/shiki.rb:21 | each terminator becomes two characters, so the result is longer by the number of terminators, and it holds no terminator at all |
| Wire.EscapeAppend | _plugins/shiki.rb:21 | escaping works character by character: escaping a concatenation is escaping each part |
| Wire.EscapeIdentity | _plugins/shiki.rb:21 | text without terminators, existing backslashes included, is written unchanged |
| Wire.EscapeConflates | _scripts/shiki.js:18 | a terminator and a literal backslash-`n` escape to the same two characters |
| Wire.Unescape | _scripts/shiki.js:11 | decoding never lengthens the text |
| Wire.UnescapeAppend | _scripts/shiki.js:11 | decoding a concatenation decodes each part, unless the cut splits a backslash-`n` pair |
| Wire.UnescapeKeepsTerminator | _plugins/shiki.rb:22 | the terminator `readline` keeps survives decoding |
| Wire.UnescapeShrinks | _scripts/shiki.js:11 | a backslash-`n` pair anywhere makes the decoded text shorter |
| Wire.UnescapeIdentity | _scripts/shiki.js:11 | decoding leaves a text unchanged exactly when it has no backslash-`n` pair |
| Wire.EscapeThenUnescape | _plugins/shiki.rb:21-22 | decoding an escaped text gives the same as decoding the original |
| Wire.RoundTrip | _scripts/shiki.js:11 | decoding an escaped text restores it exactly when it has no backslash-`n` pair |
| Wire.ResponseRoundTrip | _plugins/shiki.rb:22 | escaped HTML plus the `console.log` terminator decodes to the HTML plus the terminator, for HTML without a backslash-`n` pair |
| Wire.LossyRoundTrip | _scripts/shiki.js:11 | backslash, `n`, `x` comes back as terminator, `x`: the round trip fails |
| Wire.Lines | _scripts/shiki.js:7-8 | no line holds a terminator, a non-empty stream has at least one line, and an unterminated stream is one line of its own |
| Wire.LinesAppend | _scripts/shiki.js:8 | complete lines followed by more text split into the lines of each part |
| Wire.LinesOfLine | _scripts/shiki.js:8 | one terminated line without another terminator is one line to the reader |
| Wire.ReadLine | _plugins/shiki.rb:22 | `None` (`EOFError`) exactly on an empty stream; otherwise the line and the rest make up the stream, the line ends at the first terminator, and without a terminator the whole stream is read and nothing is left |
| Wire.ReadLineOfLine | _plugins/shiki.rb:22 | a response that is one terminated line is read whole, and what follows it stays unread |
| Worker.IndexOf | _scripts/shiki.js:9 | -1 exactly when `;` is absent; otherwise the position of its first occurrence |
| Worker.Substring | _scripts/shiki.js:10-11 | in-range ends give the slice between them; an end below zero gives everything before the start, as the swapped arguments do; ends covering the string give all of it |
| Worker.DecodeRequest | _scripts/shiki.js:9-11 | the language holds no `;`; with a `;` the language is the text before the first one and the code is the rest decoded; without one the language is empty and the code is the whole line decoded |
| Worker.Respond | _scripts/shiki.js:12-18 | one response is exactly one terminated line, and it decodes to the engine's HTML plus the terminator, up to backslash-`n` pairs |
| Worker.Reply | _scripts/shiki.js:8-19 | the worker prints exactly one line per request line it reads |
| Worker.ReplyEndsLine | _scripts/shiki.js:8-19 | the output for at least one request ends with a terminator |
| Worker.ReplyAppend | _scripts/shiki.js:8-19 | the output for two batches of lines is the output for each in turn |
| Worker.Serve | _scripts/shiki.js:8-19 | one response per request line, in order: the k-th output is the response to the k-th input, and all of them one after another are the worker's output `Reply` |
| Worker.PrintedResponses | _scripts/shiki.js:8-19 | responses printed in the order of their requests make up the worker's output |
| Plugin.LeadingSpace | _plugins/shiki.rb:7 | the count of leading whitespace stops at the first non-whitespace character |
| Plugin.TrimStart | _plugins/shiki.rb:7 | `lstrip`'s result is no longer than its input and does not start with whitespace; `LeadingSpaceIsSpace` says only whitespace was removed |
| Plugin.LeadingSpaceIsSpace | _plugins/shiki.rb:7 | what `lstrip` removes is whitespace |
| Plugin.TrimEnd | _plugins/shiki.rb:7 | `rstrip`'s result is no longer than its input and does not end with whitespace; `ContentEndIsSpace` says only whitespace was removed |
| Plugin.ContentEndIsSpace | _plugins/shiki.rb:7 | what `rstrip` removes is whitespace |
| Plugin.Strip | _plugins/shiki.rb:7 | the stored language is no longer than the markup, and neither starts nor ends with whitespace |
| Plugin.StripParts | _plugins/shiki.rb:7 | the stripped language is a slice of the markup with only whitespace before and after it |
| Plugin.StripPadded | _plugins/shiki.rb:7 | a token that neither starts nor ends with whitespace, padded with whitespace, strips back to the token |
| Plugin.StripIdempotent | _plugins/shiki.rb:7 | stripping the stored language again changes nothing |
| Plugin.Label | _plugins/shiki.rb:24 | the label is "TypeScript" exactly when the language is `ts`, and "JavaScript" otherwise |
| Plugin.RequestLine | _plugins/shiki.rb:21 | the request line is as long as language, separator and code plus one per terminator in the code, and holds no terminator when the language holds none |
| Plugin.Frame | _plugins/shiki.rb:21 | the frame ends with a terminator, which is its only one when the language holds none |
| Plugin.FrameLines | _plugins/shiki.rb:21 | without a terminator in the language, the worker reads the frame as exactly the request line |
| Plugin.FrameIsOneLine | _plugins/shiki.rb:21 | the frame is one line to the worker exactly when the language holds no terminator |
| Plugin.RoundTripRequest | _scripts/shiki.js:9-11 | for a language without `;` the worker reads back that language and the decoded code, which is the original code exactly when it has no backslash-`n` pair |
| Plugin.LossyRequest | _scripts/shiki.js:11 | code backslash, `n`, `x` reaches the highlighter as terminator, `x` |
| Plugin.DecodeAtFirstSeparator | _scripts/shiki.js:9-11 | the worker cuts a request line at its first `;` |
| Plugin.SeparatorInLanguage | _scripts/shiki.js:9-11 | with a `;` in the language, only the part before it reaches the highlighter as language, and the rest goes into the code |
| Plugin.HighlightRoundTrip | _plugins/shiki.rb:20-23 | without `;` in the language and backslash-`n` pairs in code and HTML, the plugin gets the engine's HTML for its own language and code, with the kept terminator |
| Plugin.Deliver | _plugins/shiki.rb:22 | writing keeps the command and appends the frame; the line read and what stays unread make up the old unread text plus the answer; an answer that ends a line gives a whole line |
| Plugin.DeliverKeepsTail | _plugins/shiki.rb:22 | what stays unread is still a tail of everything the worker printed |
| Plugin.PipeHolds | _plugins/shiki.rb:14 | the pipe invariant: started with the worker's command, only complete lines written, and what is unread is a tail of the worker's output for them |
| Plugin.OrSpawn | _plugins/shiki.rb:14 | the open pipe when there is one, otherwise a newly started worker with nothing written and nothing unread |
| Plugin.OrSpawnHolds | _plugins/shiki.rb:14 | the pipe line 14 yields, the open one or a newly started worker, is consistent with its worker's output |
| Plugin.Send | _plugins/shiki.rb:20-23 | one exchange appends the frame to what was written and reads exactly one terminated line; the line read followed by what stays unread is what was unread before followed by the worker's answer to the frame |
| Plugin.SendKeepsPipe | _plugins/shiki.rb:20-23 | an exchange keeps the pipe consistent with the worker's output |
| Plugin.SendInStep | _plugins/shiki.rb:20-23 | with nothing unread and no terminator in the language, the line read is the worker's response to this request, and nothing stays unread |
| Plugin.DeliverStale | _plugins/shiki.rb:22 | with whole lines unread, `readline` takes the first of them and the new answer is queued behind the rest |
| Plugin.SendStale | _plugins/shiki.rb:22 | when an earlier block left whole lines unread, the block reads the first of them, an answer to an earlier request, and its own answer is queued behind the rest |
| Plugin.SendOutOfStep | _plugins/shiki.rb:20-23 | a terminator in the language splits the frame into two or more lines; the worker answers once per line, the plugin reads only the answer to the first, and the answers to the others stay unread for the next block |
| Plugin.ReplyAfterWrite | _plugins/shiki.rb:21 | a frame written after complete lines adds its own answers to the worker's output, ending with a terminator |
| Plugin.AnswerToFrame | _plugins/shiki.rb:21 | for a language without terminator, the worker's whole answer to a frame is one response |
| Plugin.WorkerHandle.constructor | _plugins/shiki.rb:10 | there is no worker until a block needs one |
| Plugin.WorkerHandle.Open | _plugins/shiki.rb:14 | the first use starts the worker and later uses reuse it, and the pipe stays consistent |
| Plugin.WorkerHandle.Exchange | _plugins/shiki.rb:20-23 | the handle moves to the pipe after the exchange, and the output is the decoded line read |
| Plugin.HighlightBlock.constructor | _plugins/shiki.rb:5-8 | the block keeps its markup stripped as its language |
| Plugin.HighlightBlock.Render | _plugins/shiki.rb:18-42 | the rendered block carries the language, its label, and the decoded line from the shared worker, and the worker handle stays consistent |
| Fences.WordRunMaximal | _plugins/shiki.rb:48 | `\w+` is greedy: the run holds only word characters and stops at the first other character |
| Fences.BodyLengthSpec | _plugins/shiki.rb:48 | the lazy body is the shortest NUL-free run after which `\n?```` matches, and there is none when a NUL or the end comes first |
| Fences.Opening | _plugins/shiki.rb:48 | an opening is the fence, a non-empty run of word characters, then ` twoslash` |
| Fences.BodyLength | _plugins/shiki.rb:48 | the lazy body never runs past the text; `BodyLengthSpec` states it is the shortest one |
| Fences.MatchAt | _plugins/shiki.rb:48 | a match starts with the fence and covers a non-empty part of the text; `MatchShape` states its exact shape |
| Fences.MatchShape | _plugins/shiki.rb:48 | a match is backticks, a non-empty word language, the marker, then the shortest NUL-free body before the first closer; it covers exactly that much |
| Fences.Replacement | _plugins/shiki.rb:50 | the expansion opens with `{% shiki ` and is 26 characters longer than the language and body it carries |
| Fences.RewriteFences | _plugins/shiki.rb:50 | the rewrite never shortens a page; `RewriteUnchangedIff`, `RewriteBlock`, `RewriteTwoslashBlock` and `MatchShape` state what it does |
| Fences.RewriteUnchangedIff | _plugins/shiki.rb:50 | the rewrite leaves a text unchanged exactly when the pattern matches nowhere in it |
| Fences.WithoutFenceUnchanged | _plugins/shiki.rb:50 | text without three backticks in a row is never changed |
| Fences.DropNewline | _plugins/shiki.rb:48 | at most one character is dropped, and it is dropped exactly when the body ends with a terminator |
| Fences.RewriteBlock | _plugins/shiki.rb:48-50 | a well-formed block becomes `{% shiki lang %}`, the body without one terminator before the closing fence, `{% endshiki %}`, and rewriting resumes after it |
| Fences.RewriteTwoslashBlock | _plugins/shiki.rb:48-50 | a block whose body holds neither three backticks in a row nor NUL, closed by a terminator and the fence, becomes `{% shiki lang %}`, the whole body, `{% endshiki %}`, and rewriting resumes after it |
| Fences.NoMarkerNoMatch | _plugins/shiki.rb:48 | a fence whose language is not followed by ` twoslash` does not match |
| Fences.RewrittenLanguageIsSafe | _plugins/shiki.rb:48 | the language a rewritten block hands on survives `strip` and holds neither `;` nor a terminator |
| Fences.PreRender | _plugins/shiki.rb:49-50 | the hook replaces the page's content by its rewrite |

## Left out

- Process spawning and the pipe are not modelled as I/O. `IO.popen` is the record `Pipe`: the command, everything written and what is unread. The worker always answers every complete line it has received.
- The `@@mutex` (`_plugins/shiki.rb:11-15`) is left out. The model is sequential, which is what the mutex ensures.
- The shiki-twoslash calls (`_scripts/shiki.js:1`, `6`, `12-17`) are the `Engine` parameter.
- The stdin and readline wiring (`_scripts/shiki.js:2-7`) is the function `Wire.Lines` over the text written so far.
- Liquid and Jekyll registration and the `super` body rendering (`_plugins/shiki.rb:4-6`, `19`, `46`, `49`) are framework glue. The block's code is a parameter of `Render`.
- The HTML wrapper (`_plugins/shiki.rb:25-41`) is presentation markup. It is reduced to the three values it interpolates (`Rendered`).
- Node's readline also splits at `'\r'`; only `'\n'` is treated as a terminator here.
- Ruby's regex engine in general is left out. Only the one pattern of line 48 is written out, with `\w` as ASCII letters, digits and underscore.
- Characters are Dafny `char`s; encodings and Unicode are not modelled.
- Fences.RewriteBlock: requires the body to hold no backtick at all, so that it also covers a body closed directly by the fence. `Fences.RewriteTwoslashBlock` covers bodies with single backticks, closed by a terminator and the fence. The exact shape of every match is `Fences.MatchShape`.
- Fences.WithoutFenceUnchanged: requires no three backticks anywhere, narrower than "no opener"; the exact condition is `Fences.RewriteUnchangedIff`.
- Plugin.Deliver: Ruby's `EOFError` on an empty stream is not raised; an empty line is read instead. That case cannot arise, because every answer ends with a terminator (`Plugin.Send`).
- Worker.Serve: takes all input lines as one sequence, not as an asynchronous stream.
- Worker.Respond: the engine is a total function and is assumed never to throw. Nothing in the worker catches an exception from `runTwoSlash` or `renderCodeToHTML` (`_scripts/shiki.js:12-17`). Such an exception ends the loop and the worker. The block whose request ended the worker would get `EOFError` from `readline` (line 22 of `_plugins/shiki.rb`) once it has read any lines left unread. `@@shiki` keeps the dead pipe (line 14), so the next block's `write` (line 21) goes to a pipe with no reader and raises `Errno::EPIPE` before its `readline` is reached. Neither the worker's death nor these exceptions are modelled.
