/**
 * cget: fetch one URL and write the body to standard output, as text when
 * it is textual and decodes, otherwise as base 64, optionally behind a
 * MIME-style header.
 *
 * The network, the charset tables and the text decoder are not modelled:
 * the completion of the data task arrives as a value (`Completion`), and
 * the Foundation calls the handler makes are parameters (`Foundation`).
 * What is printed is modelled as the sequence of arguments of successive
 * `print` calls, one string per call.
 */
module Cget {
  import opened Wrappers
  import opened Strings
  import opened Base64

  type Int32 = x: int | -0x8000_0000 <= x < 0x8000_0000
  type UInt32 = x: int | 0 <= x < 0x1_0000_0000

  // ---------------------------------------------------------------------
  // Return codes

  /** The raw value of the first case; Swift numbers the later cases on from it. */
  const FIRST_RAW_VALUE: Int32 := 10

  /** Potential command-line return values. */
  datatype ReturnCode = BadUrlString | RetrievalError | NoResponse
  {
    /** The position of the case in the declaration. */
    function Position(): nat
    {
      match this
      case BadUrlString => 0
      case RetrievalError => 1
      case NoResponse => 2
    }

    /** The `Int32` raw value: each case's is one more than the previous case's. */
    function RawValue(): Int32
    {
      FIRST_RAW_VALUE + Position()
    }
  }

  /** The codes are 10, 11 and 12, and no two cases share one. */
  lemma ReturnCodeValues()
    ensures BadUrlString.RawValue() == 10
    ensures RetrievalError.RawValue() == 11
    ensures NoResponse.RawValue() == 12
    ensures forall a: ReturnCode, b: ReturnCode :: a.RawValue() == b.RawValue() ==> a == b
  {
  }

  // ---------------------------------------------------------------------
  // What the data task hands to its completion handler

  /** The parts of a `URLResponse` the handler reads. */
  datatype Response = Response(mimeType: Option<string>, textEncodingName: Option<string>)

  /** The three optionals of the completion: body, response and error (its description). */
  datatype Completion = Completion(data: Option<seq<Byte>>, response: Option<Response>, error: Option<string>)

  /**
   * The Foundation calls that the model does not see into, with `E`
   * standing for `String.Encoding`:
   * `CFStringConvertIANACharSetNameToEncoding`; the conversion of a
   * CoreFoundation encoding to a `String.Encoding`; `String(data:encoding:)`;
   * and the separator that `base64EncodedString` puts between lines.
   */
  datatype Foundation<!E> = Foundation(
    charsetToCF: string -> UInt32,
    cfToEncoding: UInt32 -> E,
    decode: (seq<Byte>, E) -> Option<string>,
    base64LineSeparator: string)

  /** `kCFStringEncodingInvalidId`: what the charset lookup answers for a name it does not know. */
  const INVALID_CF_ENCODING: UInt32 := 0xFFFF_FFFF

  // ---------------------------------------------------------------------
  // Content classifier

  /** `first` of a Swift array. */
  function First<T>(s: seq<T>): Option<T>
  {
    if |s| == 0 then None else Some(s[0])
  }

  /**
   * `response.mimeType?.components(separatedBy: "/").first`: present exactly
   * when the MIME type is, and then the part of it before the first `/`.
   */
  function MainType(mimeType: Option<string>): (r: Option<string>)
    ensures r.Some? <==> mimeType.Some?
    ensures r.Some? ==> IsPartBeforeFirst(mimeType.value, '/', r.value)
  {
    match mimeType
    case None => None
    case Some(m) =>
      FirstComponent(m, '/');
      First(Components(m, '/'))
  }

  /** `haveText`: the main type is present and equals "text". */
  function HaveText(mimeType: Option<string>): bool
  {
    match MainType(mimeType)
    case Some(mainType) => mainType == "text"
    case None => false
  }

  /**
   * `haveText` holds exactly when there is a MIME type and the part before
   * its first `/` is "text": the type is "text" itself or starts with
   * "text/". An absent MIME type is not text.
   */
  lemma HaveTextIff(mimeType: Option<string>)
    ensures HaveText(mimeType) <==> mimeType.Some? && (mimeType.value == "text" || "text/" <= mimeType.value)
    ensures mimeType.None? ==> !HaveText(mimeType)
  {
    if mimeType.Some? {
      var m := mimeType.value;
      FirstComponent(m, '/');
      var c := Components(m, '/')[0];
      assert HaveText(mimeType) == (c == "text");
      assert IsPartBeforeFirst(m, '/', "text") <==> m == "text" || "text/" <= m;
      if IsPartBeforeFirst(m, '/', "text") {
        PartBeforeFirstUnique(m, '/', c, "text");
      }
    }
  }

  /**
   * `encoding`: the declared charset name looked up in the IANA table; an
   * absent name or one the table does not know resolves to nothing.
   */
  function ResolveEncoding<E>(textEncodingName: Option<string>, f: Foundation<E>): (r: Option<E>)
    ensures r.Some? <==> textEncodingName.Some? && f.charsetToCF(textEncodingName.value) != INVALID_CF_ENCODING
    ensures r.Some? ==> r.value == f.cfToEncoding(f.charsetToCF(textEncodingName.value))
  {
    match textEncodingName
    case None => None
    case Some(name) =>
      var cf := f.charsetToCF(name);
      if cf == INVALID_CF_ENCODING then None else Some(f.cfToEncoding(cf))
  }

  /** How the body is printed. */
  datatype Rendering = AsText(text: string) | AsBase64

  /**
   * The text branch is taken when the content is text, an encoding was
   * resolved and the whole body decodes with it; otherwise the base 64
   * branch.
   */
  function ChooseRendering<E>(response: Response, data: seq<Byte>, f: Foundation<E>): Rendering
  {
    var encoding := ResolveEncoding(response.textEncodingName, f);
    if HaveText(response.mimeType) && encoding.Some? && f.decode(data, encoding.value).Some?
    then AsText(f.decode(data, encoding.value).value)
    else AsBase64
  }

  /**
   * Exactly one branch is taken: the text branch precisely when the MIME
   * type's main type is "text", the charset name is present and known, and
   * decoding the whole body with that encoding succeeds (and then the text
   * printed is the decoded body); the base 64 branch in every other case.
   */
  lemma RenderingChoice<E>(response: Response, data: seq<Byte>, f: Foundation<E>)
    ensures var m := response.mimeType;
      var r := ChooseRendering(response, data, f);
      (r.AsText? <==>
         m.Some? && (m.value == "text" || "text/" <= m.value) &&
         response.textEncodingName.Some? &&
         f.charsetToCF(response.textEncodingName.value) != INVALID_CF_ENCODING &&
         f.decode(data, f.cfToEncoding(f.charsetToCF(response.textEncodingName.value))).Some?) &&
      (r.AsText? ==> Some(r.text) == f.decode(data, f.cfToEncoding(f.charsetToCF(response.textEncodingName.value)))) &&
      (r.AsText? != r.AsBase64?)
  {
    HaveTextIff(response.mimeType);
  }

  // ---------------------------------------------------------------------
  // Output formatter

  /** The MIME type printed when the response declares none. */
  const DEFAULT_MIME_TYPE: string := "application/octet-stream"

  const CONTENT_TYPE_PREFIX: string := "Content-Type: "

  const TRANSFER_ENCODING_LINE: string := "Content-Transfer-Encoding: base64"

  function ContentTypeLine(mimeType: Option<string>): string
  {
    CONTENT_TYPE_PREFIX + match mimeType case Some(m) => m case None => DEFAULT_MIME_TYPE
  }

  /** The metadata lines, with the blank line that ends them. */
  function Header(mimeType: Option<string>, rendering: Rendering): seq<string>
  {
    match rendering
    case AsText(_) => [ContentTypeLine(mimeType), ""]
    case AsBase64 => [ContentTypeLine(mimeType), TRANSFER_ENCODING_LINE, ""]
  }

  /** The body as printed: the decoded text as it is, or its base 64 encoding in lines. */
  function Body(rendering: Rendering, data: seq<Byte>, lineSeparator: string): string
  {
    match rendering
    case AsText(text) => text
    case AsBase64 => EncodedText(data, lineSeparator)
  }

  /** What is printed for a response with a body: the header unless suppressed, then the body. */
  function Formatted<E>(suppressHeader: bool, response: Response, data: seq<Byte>, f: Foundation<E>): seq<string>
  {
    var rendering := ChooseRendering(response, data, f);
    (if suppressHeader then [] else Header(response.mimeType, rendering))
      + [Body(rendering, data, f.base64LineSeparator)]
  }

  // ---------------------------------------------------------------------
  // The completion handler and the command

  /** How the handler ends: through `exit` with a return code, or by returning. */
  datatype Termination = Exited(code: ReturnCode) | Returned

  /** What the handler prints and how it ends. */
  datatype Outcome = Outcome(stdout: seq<string>, termination: Termination)

  /**
   * The handler's specification: an error wins over everything, then a
   * missing response, then a missing body; only a response with a body
   * produces output.
   */
  function CompletionOutcome<E>(suppressHeader: bool, c: Completion, f: Foundation<E>): Outcome
  {
    if c.error.Some? then Outcome([], Exited(RetrievalError))
    else if c.response.None? then Outcome([], Exited(NoResponse))
    else if c.data.None? then Outcome([], Returned)
    else Outcome(Formatted(suppressHeader, c.response.value, c.data.value, f), Returned)
  }

  /** The process exit status: the raw return code, or 0 when the handler returned. */
  function ExitStatus(t: Termination): (status: Int32)
    ensures status == 0 <==> t.Returned?
    ensures t.Exited? ==> status == t.code.RawValue()
  {
    match t
    case Exited(code) => code.RawValue()
    case Returned => 0
  }

  /**
   * The data task's completion handler, one `print` at a time in the order
   * the source issues them (the `Content-Type` line goes out before the
   * branch is chosen).
   */
  method HandleCompletion<E>(suppressHeader: bool, c: Completion, f: Foundation<E>)
      returns (stdout: seq<string>, termination: Termination)
    ensures Outcome(stdout, termination) == CompletionOutcome(suppressHeader, c, f)
  {
    stdout := [];
    if c.error.Some? {
      return stdout, Exited(RetrievalError);
    }
    if c.response.None? {
      return stdout, Exited(NoResponse);
    }
    if c.data.None? {
      return stdout, Returned;
    }
    var response, data := c.response.value, c.data.value;

    var haveText := HaveText(response.mimeType);
    var encoding := ResolveEncoding(response.textEncodingName, f);

    if !suppressHeader {
      stdout := stdout + [ContentTypeLine(response.mimeType)];
    }
    if haveText && encoding.Some? && f.decode(data, encoding.value).Some? {
      var dataString := f.decode(data, encoding.value).value;
      if !suppressHeader {
        stdout := stdout + [""];
      }
      stdout := stdout + [dataString];
    } else {
      if !suppressHeader {
        stdout := stdout + [TRANSFER_ENCODING_LINE];
        stdout := stdout + [""];
      }
      stdout := stdout + [EncodedText(data, f.base64LineSeparator)];
    }
    termination := Returned;
  }

  /**
   * The command: a URL argument that does not parse ends the process with
   * return code 10 before anything is fetched; otherwise the one request's
   * completion is handled and decides what is printed and the exit status.
   * `parseUrl` stands for `URL(string:)` and `fetch` for the data task.
   */
  method RunCommand<U, E>(suppressHeader: bool, urlArgument: string,
                          parseUrl: string -> Option<U>, fetch: U -> Completion, f: Foundation<E>)
      returns (stdout: seq<string>, status: Int32)
    ensures parseUrl(urlArgument).None? ==> stdout == [] && status == BadUrlString.RawValue()
    ensures parseUrl(urlArgument).Some? ==>
      var o := CompletionOutcome(suppressHeader, fetch(parseUrl(urlArgument).value), f);
      stdout == o.stdout && status == ExitStatus(o.termination)
  {
    var url := parseUrl(urlArgument);
    if url.None? {
      return [], BadUrlString.RawValue();
    }
    var termination;
    stdout, termination := HandleCompletion(suppressHeader, fetch(url.value), f);
    status := ExitStatus(termination);
  }

  /** Standard output: every `print` ends its argument with a newline. */
  function Stdout(prints: seq<string>): string
  {
    if |prints| == 0 then "" else prints[0] + "\n" + Stdout(prints[1..])
  }

  // ---------------------------------------------------------------------
  // Properties of the handler

  /** An error decides the outcome, whatever the response and the body: nothing is printed and the exit status is 11. */
  lemma ErrorWins<E>(suppressHeader: bool, c: Completion, f: Foundation<E>)
    requires c.error.Some?
    ensures CompletionOutcome(suppressHeader, c, f) == Outcome([], Exited(RetrievalError))
    ensures ExitStatus(CompletionOutcome(suppressHeader, c, f).termination) == 11
  {
  }

  /** Without an error, a missing response decides next, whatever the body: nothing is printed and the exit status is 12. */
  lemma MissingResponse<E>(suppressHeader: bool, c: Completion, f: Foundation<E>)
    requires c.error.None? && c.response.None?
    ensures CompletionOutcome(suppressHeader, c, f) == Outcome([], Exited(NoResponse))
    ensures ExitStatus(CompletionOutcome(suppressHeader, c, f).termination) == 12
  {
  }

  /** A response without a body prints nothing and ends normally. */
  lemma NoDataIsSilent<E>(suppressHeader: bool, c: Completion, f: Foundation<E>)
    requires c.error.None? && c.response.Some? && c.data.None?
    ensures CompletionOutcome(suppressHeader, c, f) == Outcome([], Returned)
    ensures ExitStatus(CompletionOutcome(suppressHeader, c, f).termination) == 0
  {
  }

  /**
   * Output is printed exactly when there is no error, there is a response
   * and there is a body, and then the handler returns normally.
   */
  lemma OutputOnlyWithBody<E>(suppressHeader: bool, c: Completion, f: Foundation<E>)
    ensures var o := CompletionOutcome(suppressHeader, c, f);
      (o.stdout != [] <==> c.error.None? && c.response.Some? && c.data.Some?) &&
      (o.stdout != [] ==> o.termination == Returned)
  {
    if c.error.None? && c.response.Some? && c.data.Some? {
      assert |Formatted(suppressHeader, c.response.value, c.data.value, f)| >= 1;
    }
  }

  /**
   * With the header, the first line printed is "Content-Type: " followed by
   * the MIME type, or by "application/octet-stream" when the response has
   * none; with the header suppressed that line is absent and only the body
   * is printed.
   */
  lemma ContentTypeLineFirst<E>(suppressHeader: bool, c: Completion, f: Foundation<E>)
    requires c.error.None? && c.response.Some? && c.data.Some?
    ensures var out := CompletionOutcome(suppressHeader, c, f).stdout;
      var m := c.response.value.mimeType;
      var rendering := ChooseRendering(c.response.value, c.data.value, f);
      (!suppressHeader ==>
         |out| >= 3 && out[0] == "Content-Type: " + (if m.Some? then m.value else "application/octet-stream")) &&
      (suppressHeader ==> out == [Body(rendering, c.data.value, f.base64LineSeparator)])
  {
  }

  /**
   * Suppressing the header removes only the metadata lines and the blank
   * line after them: the unsuppressed output is the suppressed output with
   * two lines in front of it in the text branch and three in the base 64
   * branch, and the body is printed either way.
   */
  lemma HeaderOnlyPrefix<E>(response: Response, data: seq<Byte>, f: Foundation<E>)
    ensures var rendering := ChooseRendering(response, data, f);
      var withHeader := Formatted(false, response, data, f);
      var withoutHeader := Formatted(true, response, data, f);
      var header := Header(response.mimeType, rendering);
      withHeader == header + withoutHeader &&
      |header| == (if rendering.AsText? then 2 else 3) &&
      header[|header| - 1] == "" &&
      withoutHeader == [Body(rendering, data, f.base64LineSeparator)]
  {
  }

  /**
   * In the base 64 branch the body is the RFC 4648 encoding of the bytes,
   * 4 * ceil(n / 3) characters long, in lines of at most 64 characters, all
   * but the last exactly 64, joined with Foundation's line separator; the
   * lines put together decode back to the bytes.
   */
  lemma Base64Body<E>(suppressHeader: bool, response: Response, data: seq<Byte>, f: Foundation<E>)
    requires ChooseRendering(response, data, f).AsBase64?
    ensures var out := Formatted(suppressHeader, response, data, f);
      var lines := Wrap(Encode(data), LINE_LENGTH);
      out[|out| - 1] == Join(lines, f.base64LineSeparator) &&
      (forall i :: 0 <= i < |lines| ==> 0 < |lines[i]| <= 64) &&
      (forall i :: 0 <= i < |lines| - 1 ==> |lines[i]| == 64) &&
      |lines| == (|Encode(data)| + 63) / 64 &&
      Concat(lines) == Encode(data) &&
      |Concat(lines)| == 4 * ((|data| + 2) / 3) &&
      Decode(Concat(lines)) == Some(data) &&
      (f.base64LineSeparator == "" ==> out[|out| - 1] == Encode(data))
  {
    JoinWithoutSeparator(Wrap(Encode(data), LINE_LENGTH));
    WrapCount(Encode(data));
    DecodeEncode(data);
  }

  /**
   * The handler keys the "no data" case on a missing body, not on an empty
   * one: an empty body is still printed, header and all. In the base 64
   * branch the body line is empty; in the text branch it is whatever the
   * decoder makes of no bytes.
   */
  lemma EmptyBodyStillPrints<E>(response: Response, f: Foundation<E>)
    ensures
      var c := Completion(Some([]), Some(response), None);
      var m := response.mimeType;
      var r := ChooseRendering(response, [], f);
      CompletionOutcome(false, c, f).termination == Returned &&
      CompletionOutcome(true, c, f).termination == Returned &&
      (r.AsBase64? ==>
         CompletionOutcome(false, c, f).stdout == [ContentTypeLine(m), TRANSFER_ENCODING_LINE, "", ""] &&
         CompletionOutcome(true, c, f).stdout == [""]) &&
      (r.AsText? ==>
         response.textEncodingName.Some? &&
         Some(r.text) == f.decode([], f.cfToEncoding(f.charsetToCF(response.textEncodingName.value))) &&
         CompletionOutcome(false, c, f).stdout == [ContentTypeLine(m), "", r.text] &&
         CompletionOutcome(true, c, f).stdout == [r.text])
  {
    RenderingChoice(response, [], f);
    EmptyEncodedText(f.base64LineSeparator);
  }

  // ---------------------------------------------------------------------
  // Standard output, character for character

  /** One line on standard output. */
  lemma StdoutOneLine(line: string)
    ensures Stdout([line]) == line + "\n"
  {
  }

  /** A line, a blank line and a last line on standard output. */
  lemma StdoutThreeLines(first: string, last: string)
    ensures Stdout([first, "", last]) == first + "\n\n" + last + "\n"
  {
    var lines := [first, "", last];
    assert lines[1..] == ["", last] && lines[1..][1..] == [last];
    assert Stdout([last]) == last + "\n" + "" == last + "\n";
    assert Stdout(["", last]) == "" + "\n" + (last + "\n") == "\n" + (last + "\n");
    assert first + "\n" + ("\n" + (last + "\n")) == first + "\n\n" + last + "\n";
  }

  /** Two lines, a blank line and a last line on standard output. */
  lemma StdoutFourLines(first: string, second: string, last: string)
    ensures Stdout([first, second, "", last]) == first + "\n" + second + "\n\n" + last + "\n"
  {
    var lines := [first, second, "", last];
    assert lines[1..] == [second, "", last];
    StdoutThreeLines(second, last);
  }

  /**
   * Text branch: with the header, standard output is the Content-Type line,
   * a blank line and the decoded text; without it, the text alone. Each
   * ends with the newline `print` adds.
   */
  lemma TextStdout<E>(response: Response, data: seq<Byte>, f: Foundation<E>, text: string)
    requires ChooseRendering(response, data, f) == AsText(text)
    ensures Formatted(false, response, data, f) == [ContentTypeLine(response.mimeType), "", text]
    ensures Formatted(true, response, data, f) == [text]
    ensures Stdout(Formatted(false, response, data, f)) == ContentTypeLine(response.mimeType) + "\n\n" + text + "\n"
    ensures Stdout(Formatted(true, response, data, f)) == text + "\n"
  {
    StdoutThreeLines(ContentTypeLine(response.mimeType), text);
    StdoutOneLine(text);
  }

  /**
   * Base 64 branch: with the header, standard output is the Content-Type
   * line, the transfer-encoding line, a blank line and the wrapped
   * encoding; without it, the wrapped encoding alone.
   */
  lemma Base64Stdout<E>(response: Response, data: seq<Byte>, f: Foundation<E>)
    requires ChooseRendering(response, data, f) == AsBase64
    ensures var body := EncodedText(data, f.base64LineSeparator);
      Formatted(false, response, data, f) == [ContentTypeLine(response.mimeType), TRANSFER_ENCODING_LINE, "", body] &&
      Formatted(true, response, data, f) == [body] &&
      Stdout(Formatted(false, response, data, f)) ==
        ContentTypeLine(response.mimeType) + "\n" + TRANSFER_ENCODING_LINE + "\n\n" + body + "\n" &&
      Stdout(Formatted(true, response, data, f)) == body + "\n"
  {
    var body := EncodedText(data, f.base64LineSeparator);
    StdoutFourLines(ContentTypeLine(response.mimeType), TRANSFER_ENCODING_LINE, body);
    StdoutOneLine(body);
  }

  /** A MIME type that is "text" or starts with "text/" makes the content text; e.g. "text/plain". */
  lemma TextMimeTypes()
    ensures HaveText(Some("text"))
    ensures HaveText(Some("text/plain"))
  {
    HaveTextIff(Some("text"));
    HaveTextIff(Some("text/plain"));
    assert "text/" <= "text/plain";
  }

  /** The fallback type "application/octet-stream" is not text. */
  lemma OctetStreamIsNotText()
    ensures !HaveText(Some(DEFAULT_MIME_TYPE))
  {
    HaveTextIff(Some(DEFAULT_MIME_TYPE));
    assert DEFAULT_MIME_TYPE[0] == 'a';
  }

  /** A type that merely starts with the letters "text" is not text. */
  lemma TextualIsNotText()
    ensures !HaveText(Some("textual/plain"))
  {
    HaveTextIff(Some("textual/plain"));
    assert "textual/plain"[4] == 'u';
  }

  /** An empty MIME type, and no type at all, are not text. */
  lemma MissingMimeTypes()
    ensures !HaveText(Some(""))
    ensures !HaveText(None)
  {
    HaveTextIff(Some(""));
  }
}
