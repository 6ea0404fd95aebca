# cget, modelled in Dafny

`cget` fetches one URL and writes what comes back to standard output. When
the body is textual and decodes, it is printed as text. Otherwise it is
printed in base 64, wrapped at 64 characters. In both cases a MIME-style
header comes first unless `--suppress-header` is given. Fatal conditions end
the process with return code 10 (the URL does not parse), 11 (the transfer
failed) or 12 (there is no response).

The model covers the logic the program owns, which is the data task's
completion handler and the return codes. The handler checks the error, then
the response, then the body. It then classifies the content and emits the
lines.

- `wrappers.dfy`: `Option`, which stands for Swift's optionals.
- `strings.dfy`: concatenation, joining, and `components(separatedBy:)` with
  a one-character separator, with its characterisation as "the part before
  the first separator".
- `base64.dfy`: the encoding of section 4 of RFC 4648. It has a strict
  decoder that is proved inverse to it in both directions, the 64-character
  line wrapping, and the test vectors of section 10 of RFC 4648.
- `cget.dfy`: `ReturnCode`, the content classifier (`HaveText`,
  `ResolveEncoding`, `ChooseRendering`), the formatter's specification
  (`Formatted`, `CompletionOutcome`), the completion handler as a method that
  prints one line at a time (`HandleCompletion`), the command
  (`RunCommand`), and the lemmas about them.

Output is modelled as the sequence of arguments of successive `print` calls.
`Stdout` renders that sequence as characters, adding the newline each
`print` appends. The foreign calls are fields of `Foundation`, and the model assumes
nothing about them:
- the IANA charset lookup;
- the conversion to `String.Encoding`;
- `String(data:encoding:)`;
- the separator Foundation puts between base 64 lines.

`URL(string:)` is the parameter `parseUrl`. The network request is the
parameter `fetch`, which gives the completion for a URL.

The handler stops silently only when the body is absent (`data == nil`,
Sources/main.swift:41-44). An empty but present body is still printed,
header and all: 3 or 4 lines with the header, 1 without it
(`EmptyBodyStillPrints`).

## Model

| member | source | states |
|---|---|---|
| Cget.ReturnCodeValues | Sources/main.swift:8-10 | the raw values are 10, 11 and 12 (the first is 10 and Swift numbers the later cases on from it), and no two cases share a value |
| Cget.ExitStatus | Sources/main.swift:20-43 | the process status is 0 exactly when the handler returns normally; after `exit` it is the raw value of the return code passed to it |
| Cget.HandleCompletion | Sources/main.swift:33-79 | the handler issues its prints in source order, with the `Content-Type` line printed before the branch is chosen, and its output and termination are exactly those of the specification `CompletionOutcome` |
| Cget.RunCommand | Sources/main.swift:16-82 | a URL argument that does not parse gives no output and status 10; otherwise the output and the exit status are those of handling the fetched completion |
| Cget.ErrorWins | Sources/main.swift:33-36 | whenever the completion carries an error, whatever the response and body, nothing is printed and the status is 11 |
| Cget.MissingResponse | Sources/main.swift:37-40 | with no error and no response, whatever the body, nothing is printed and the status is 12 |
| Cget.NoDataIsSilent | Sources/main.swift:41-44 | a response with no body prints nothing and ends normally with status 0 |
| Cget.OutputOnlyWithBody | Sources/main.swift:33-79 | something is printed if and only if there is no error, there is a response and there is a body, and then the handler returns normally |
| Cget.MainType | Sources/main.swift:48 | `response.mimeType?.components(separatedBy: "/").first`: present exactly when the MIME type is, and then the part of the type before its first `/` |
| Cget.HaveText | Sources/main.swift:47-52 | `haveText`: the first `/`-separated component of the MIME type equals "text", false without a MIME type; characterised by `HaveTextIff` and the examples below |
| Cget.HaveTextIff | Sources/main.swift:47-52 | `haveText` holds if and only if a MIME type is present and its part before the first `/` is "text" (the type is "text" or starts with "text/"); an absent MIME type gives false |
| Cget.TextMimeTypes | Sources/main.swift:47-52 | "text" and "text/plain" are text |
| Cget.OctetStreamIsNotText | Sources/main.swift:47-52 | "application/octet-stream" is not text |
| Cget.TextualIsNotText | Sources/main.swift:47-52 | "textual/plain" is not text: the whole part before the first `/` must be "text" |
| Cget.MissingMimeTypes | Sources/main.swift:47-52 | an empty MIME type and an absent one are not text |
| Cget.ResolveEncoding | Sources/main.swift:54-60 | `encoding`: present exactly when a charset name is given and the IANA lookup does not return `kCFStringEncodingInvalidId`, and then the conversion of the looked-up value to `String.Encoding` |
| Cget.ChooseRendering | Sources/main.swift:66 | the branch condition: text with the decoded string when `haveText` holds, an encoding resolved and the body decodes, base 64 otherwise; characterised by `RenderingChoice` |
| Cget.RenderingChoice | Sources/main.swift:54-66 | the text branch is taken if and only if the type is text, the charset name is present and known to the lookup (not `kCFStringEncodingInvalidId`), and the whole body decodes with that encoding; the printed text is then the decoded body; otherwise the base 64 branch is taken, so exactly one branch runs |
| Cget.ContentTypeLine | Sources/main.swift:64 | "Content-Type: " followed by the MIME type, or by "application/octet-stream" when there is none; characterised by `ContentTypeLineFirst` |
| Cget.Formatted | Sources/main.swift:63-79 | the lines printed for a response with a body: the header unless suppressed, then the one body line; characterised by `HeaderOnlyPrefix`, `TextStdout`, `Base64Stdout` and `Base64Body` |
| Cget.CompletionOutcome | Sources/main.swift:33-79 | the handler's output and termination: an error, then a missing response, then a missing body decide first, and only a response with a body prints; characterised by `ErrorWins`, `MissingResponse`, `NoDataIsSilent` and `OutputOnlyWithBody`, and implemented by `HandleCompletion` |
| Cget.Stdout | Sources/main.swift:63-78 | standard output as the `print` calls leave it: each argument followed by the newline `print` adds; characterised by `TextStdout` and `Base64Stdout` |
| Cget.ContentTypeLineFirst | Sources/main.swift:63-65 | without suppression the first line is "Content-Type: " followed by the MIME type, or by "application/octet-stream" when there is none; with suppression only the body line is printed |
| Cget.HeaderOnlyPrefix | Sources/main.swift:63-79 | the output with the header is the output without it plus a prefix of 2 lines in the text branch or 3 in the base 64 branch, ending in a blank line; the body is printed either way |
| Cget.TextStdout | Sources/main.swift:63-71 | in the text branch the lines are [Content-Type line, "", text], or [text] when suppressed, and standard output is exactly those lines each followed by a newline |
| Cget.Base64Stdout | Sources/main.swift:63-79 | in the base 64 branch the lines are [Content-Type line, "Content-Transfer-Encoding: base64", "", encoded body], or [encoded body] when suppressed, and standard output is exactly those lines each followed by a newline |
| Cget.Base64Body | Sources/main.swift:78 | in the base 64 branch the body line joins wrapped lines of at most 64 characters, all but the last exactly 64, with ⌈length/64⌉ lines; put together they are the RFC 4648 encoding of the body, 4·⌈n/3⌉ long, and they decode back to the body |
| Cget.EmptyBodyStillPrints | Sources/main.swift:41-79 | an empty but present body is still printed and the handler returns: in the base 64 branch the lines are [Content-Type line, "Content-Transfer-Encoding: base64", "", ""], or [""] when suppressed; in the text branch they are [Content-Type line, "", t], or [t] when suppressed, where t is what the decoder makes of no bytes |
| Strings.Components | Sources/main.swift:48 | `components(separatedBy:)` gives at least one piece, no piece contains the separator, and joining the pieces with it restores the string |
| Strings.FirstComponent | Sources/main.swift:48 | the first component is the part of the string before its first separator, or the whole string when it has none |
| Strings.PartBeforeFirstUnique | Sources/main.swift:48 | the part before the first separator is unique |
| Strings.JoinWithoutSeparator | Sources/main.swift:78 | joining lines with the empty separator is concatenation |
| Base64.IndexOf | Sources/main.swift:78 | decoding a character of the alphabet gives the 6-bit value that Table 1 of RFC 4648 encodes as that character |
| Base64.CharOfIndexOf | Sources/main.swift:78 | every 6-bit value is encoded by a character of the alphabet, and decoding that character gives the value back |
| Base64.ToBytesToSextets | Sources/main.swift:78 | splitting three bytes into four 6-bit groups, most significant bits first, and joining the groups again gives the bytes |
| Base64.ToSextetsToBytes | Sources/main.swift:78 | joining four 6-bit groups into three bytes and splitting the bytes again gives the groups |
| Base64.Encode | Sources/main.swift:78 | the encoding of n bytes is 4·⌈n/3⌉ characters long |
| Base64.Decode | Sources/main.swift:78 | the strict decoder, the encoder's partner: `None` for a length that is not a multiple of 4, a character outside the alphabet, padding before the last quantum or non-zero pad bits; characterised by `DecodeEncode` and `EncodeDecode` |
| Base64.DecodeQuantumOne | Sources/main.swift:78 | the quantum of a final single byte (two characters and two pads) decodes to that byte |
| Base64.DecodeQuantumTwo | Sources/main.swift:78 | the quantum of two final bytes (three characters and a pad) decodes to those bytes |
| Base64.DecodeQuantumThree | Sources/main.swift:78 | the quantum of a full group of three bytes decodes to those bytes |
| Base64.EncodeDecodeQuantum | Sources/main.swift:78 | any quantum the decoder accepts is the encoding of the bytes it decodes to, so a quantum has only one accepted spelling |
| Base64.DecodeEncode | Sources/main.swift:78 | round trip: decoding the encoding of any bytes gives those bytes |
| Base64.EncodeDecode | Sources/main.swift:78 | the strict decoder accepts only canonical encodings: whatever it accepts is exactly the encoding of its result |
| Base64.Wrap | Sources/main.swift:78 | wrapped lines are non-empty and at most the line length, all but the last exactly the line length, and together they are the input |
| Base64.WrapCount | Sources/main.swift:78 | wrapping at 64 gives ⌈length/64⌉ lines |
| Base64.EncodedText | Sources/main.swift:78 | `base64EncodedString(options: .lineLength64Characters)`: the encoding wrapped at 64 characters, with the separator between lines; characterised by `Base64Body`, `ShortEncodingIsOneLine` and `DeadBeef` |
| Base64.ShortEncodingIsOneLine | Sources/main.swift:78 | a body of at most 48 bytes is printed as its encoding on one line, whatever the separator |
| Base64.TestVectorsUpToThree | Sources/main.swift:78 | the RFC 4648 section 10 vectors "", "f", "fo", "foo" encode as "", "Zg==", "Zm8=", "Zm9v" |
| Base64.TestVectorFoob | Sources/main.swift:78 | "foob" encodes as "Zm9vYg==" (RFC 4648, section 10) |
| Base64.TestVectorFooba | Sources/main.swift:78 | "fooba" encodes as "Zm9vYmE=" (RFC 4648, section 10) |
| Base64.TestVectorFoobar | Sources/main.swift:78 | "foobar" encodes as "Zm9vYmFy" (RFC 4648, section 10) |
| Base64.DeadBeef | Sources/main.swift:78 | the bytes DE AD BE EF are printed as the single line "3q2+7w==" |

## Left out

- URL parsing (`URL(string:)`, Sources/main.swift:18): a foreign parser. Only its outcome is modelled, as the parameter `parseUrl`.
- The data task, `URLSession` and `task.resume()` (Sources/main.swift:27-28, 81): network I/O. The completion triple arrives as a value through `fetch`.
- `DispatchSemaphore`, `defer { semaphore.signal() }` and `semaphore.wait()` (Sources/main.swift:24, 30, 82): these only synchronise two threads. The model runs the handler to completion in line, and `exit` is modelled as ending the handler with a return code.
- The charset table (`CFStringConvertIANACharSetNameToEncoding`), the conversion to `String.Encoding` and `String(data:encoding:)` (Sources/main.swift:56-57, 66): foreign tables and decoders. They are uninterpreted fields of `Foundation`, so every property holds for every such table and decoder.
- The line separator inside `base64EncodedString(options: .lineLength64Characters)`: it is not visible in the code, so it is the parameter `base64LineSeparator`, and the lines are stated before they are joined. The separator is assumed to go only between lines, none after the last; `EncodedText`, `ShortEncodingIsOneLine` and `DeadBeef` rest on that assumption.
- The Commander command-line wiring and `main.run()` (Sources/main.swift:13-16, 84): library glue. The flag and the argument are the parameters of `RunCommand`.
- HeliumLogger and the `Log` calls (Sources/main.swift:12, 19, 34, 38, 42): log output is not modelled. The model's `stdout` holds only the program's own `print` calls; the real standard output also carries the log lines of Sources/main.swift:19, 34, 38 and 42, written by the logger that `HeliumLogger.use()` installs.
- String semantics: strings are sequences of Unicode scalar values, and `==`, `components(separatedBy:)` and prefix tests compare scalar by scalar. Swift compares by grapheme cluster and canonical equivalence, so a `/` followed by a combining mark (say `"text/\u{301}plain"`) is a separator in the model but not in Swift. MIME types are ASCII, where the two agree. Character encoding of standard output (UTF-8 bytes) is not modelled either: `Stdout` is a string of characters.
- Package.swift: a package manifest with no logic.
