/** Reading the status line of a response and deciding what the response means. */
module Status {
  import opened Strings
  import opened Results

  /** The only content type the client renders. */
  const Gemtext: string := "text/gemini"

  /** The first two space-separated tokens of the status line. */
  datatype StatusLine = StatusLine(code: string, meta: string)

  /** What a well-formed response asks the client to do. */
  datatype Outcome =
    | Display(body: seq<string>)   // class 2: show these lines
    | Redirect(target: string)     // class 3: request this reference instead
    | TempFailure                  // class 4
    | PermFailure                  // class 5

  /** `line` is `code`, a space, `meta`, and then either nothing or a further space-separated part. */
  predicate Tokens(line: string, code: string, meta: string, rest: string) {
    && line == code + " " + meta + rest
    && ' ' !in code && ' ' !in meta
    && (rest == [] || rest[0] == ' ')
  }

  /**
   * `Split(' ')` of the status line, keeping the tokens at indices 0 and 1.
   * It fails exactly when the line holds no space; otherwise the two tokens
   * are the text before the first space and the text up to the next space.
   */
  function ParseStatusLine(line: string): (r: Result<StatusLine>)
    ensures r.Err? <==> ' ' !in line
    ensures r.Err? ==> r.error == MalformedStatusLine
    ensures r.Ok? ==> exists rest :: Tokens(line, r.value.code, r.value.meta, rest)
  {
    var tokens := Split(line, ' ');
    if |tokens| < 2 then Err(MalformedStatusLine)
    else
      var rest := if |tokens| == 2 then "" else " " + Join(tokens[2..], ' ');
      assert Tokens(line, tokens[0], tokens[1], rest) by {
        assert tokens[1..][0] == tokens[1];
        assert |tokens| > 2 ==> tokens[1..][1..] == tokens[2..];
      }
      Ok(StatusLine(tokens[0], tokens[1]))
  }

  /** A line that splits as `Tokens` says parses to exactly those two tokens. */
  lemma ParseTokens(line: string, code: string, meta: string, rest: string)
    requires Tokens(line, code, meta, rest)
    ensures ParseStatusLine(line) == Ok(StatusLine(code, meta))
  {
    SplitFirstTwo(line, ' ', code, meta, rest);
  }

  /** The class digit an outcome stands for. */
  function ClassOf(o: Outcome): char {
    match o
    case Display(_) => '2'
    case Redirect(_) => '3'
    case TempFailure => '4'
    case PermFailure => '5'
  }

  /**
   * `Response`: parse the status line, refuse every non-redirect whose meta
   * token is not `text/gemini...`, then act on the code's first character.
   * A successful outcome always has the class of the code's first character;
   * a displayed body is the response without its status line, and a
   * redirect goes to the meta token.
   */
  function Respond(lines: seq<string>): (r: Result<Outcome>)
    requires |lines| > 0
    ensures r.Ok? ==> ParseStatusLine(lines[0]).Ok?
    ensures r.Ok? ==>
              var s := ParseStatusLine(lines[0]).value;
              && |s.code| > 0 && s.code[0] == ClassOf(r.value)
              && (!r.value.Redirect? ==> StartsWith(s.meta, Gemtext))
              && (r.value.Redirect? ==> r.value.target == s.meta)
    ensures r.Ok? && r.value.Display? ==> r.value.body == lines[1..]
  {
    match ParseStatusLine(lines[0])
    case Err(e) => Err(e)
    case Ok(StatusLine(code, meta)) =>
      if |code| == 0 then Err(MissingStatusCode)
      else if !StartsWith(meta, Gemtext) && code[0] != '3' then Err(UnsupportedContentType)
      else if code[0] == '2' then Ok(Display(lines[1..]))
      else if code[0] == '3' then Ok(Redirect(meta))
      else if code[0] == '4' then Ok(TempFailure)
      else if code[0] == '5' then Ok(PermFailure)
      else Err(UnknownResponseCode)
  }

  /** A status line with no space has no meta token, and the response is refused. */
  lemma NoSpaceIsMalformed(lines: seq<string>)
    requires |lines| > 0 && ' ' !in lines[0]
    ensures Respond(lines) == Err(MalformedStatusLine)
  {
  }

  /** An empty code token has no first character, whatever the meta token says. */
  lemma EmptyCodeFails(lines: seq<string>, meta: string, rest: string)
    requires |lines| > 0 && Tokens(lines[0], "", meta, rest)
    ensures Respond(lines) == Err(MissingStatusCode)
  {
  }

  /**
   * The content-type check comes before the switch and spares only class 3:
   * a class 4 or 5 response whose meta token is not `text/gemini...` is
   * refused instead of reported.
   */
  lemma ContentTypeGate(lines: seq<string>, code: string, meta: string, rest: string)
    requires |lines| > 0 && Tokens(lines[0], code, meta, rest)
    requires |code| > 0 && code[0] != '3' && !StartsWith(meta, Gemtext)
    ensures Respond(lines) == Err(UnsupportedContentType)
  {
    ParseTokens(lines[0], code, meta, rest);
  }

  /** Class 2 with a gemtext meta token displays lines 1 to the end, never the status line. */
  lemma SuccessDisplaysBody(lines: seq<string>, code: string, meta: string, rest: string)
    requires |lines| > 0 && Tokens(lines[0], code, meta, rest)
    requires |code| > 0 && code[0] == '2' && StartsWith(meta, Gemtext)
    ensures Respond(lines) == Ok(Display(lines[1..]))
    ensures |Respond(lines).value.body| == |lines| - 1
  {
    ParseTokens(lines[0], code, meta, rest);
  }

  /** Class 3 redirects to the meta token, whatever it is. */
  lemma RedirectToMeta(lines: seq<string>, code: string, meta: string, rest: string)
    requires |lines| > 0 && Tokens(lines[0], code, meta, rest)
    requires |code| > 0 && code[0] == '3'
    ensures Respond(lines) == Ok(Redirect(meta))
  {
    ParseTokens(lines[0], code, meta, rest);
  }

  /** Classes 4 and 5 with a gemtext meta token are reported as failures, with no body. */
  lemma FailuresReported(lines: seq<string>, code: string, meta: string, rest: string)
    requires |lines| > 0 && Tokens(lines[0], code, meta, rest)
    requires |code| > 0 && StartsWith(meta, Gemtext)
    ensures code[0] == '4' ==> Respond(lines) == Ok(TempFailure)
    ensures code[0] == '5' ==> Respond(lines) == Ok(PermFailure)
  {
    ParseTokens(lines[0], code, meta, rest);
  }

  /** Any other first character, past the content-type check, is an unknown code. */
  lemma UnknownClassFails(lines: seq<string>, code: string, meta: string, rest: string)
    requires |lines| > 0 && Tokens(lines[0], code, meta, rest)
    requires |code| > 0 && code[0] !in "2345" && StartsWith(meta, Gemtext)
    ensures Respond(lines) == Err(UnknownResponseCode)
  {
    ParseTokens(lines[0], code, meta, rest);
  }

  /** `DisplayContent`: the lines from index 1 to the end, in order. */
  method DisplayContent(lines: seq<string>) returns (shown: seq<string>)
    ensures |shown| == if |lines| == 0 then 0 else |lines| - 1
    ensures forall k :: 0 <= k < |shown| ==> shown[k] == lines[k + 1]
  {
    shown := [];
    var i := 1;
    while i < |lines|
      invariant (1 <= i <= |lines|) || (|lines| == 0 && i == 1)
      invariant |shown| == i - 1
      invariant forall k :: 0 <= k < |shown| ==> shown[k] == lines[k + 1]
    {
      shown := shown + [lines[i]];
      i := i + 1;
    }
  }

  /**
   * The console lines of an accepted response: the body for class 2, the
   * failure message for classes 4 and 5, and nothing for a redirect, whose
   * output comes from the next exchange.
   */
  lemma ResponseOutput(lines: seq<string>)
    requires |lines| > 0 && Respond(lines).Ok?
    ensures var code := ParseStatusLine(lines[0]).value.code;
            && |code| > 0
            && (code[0] == '2' ==> Report(Respond(lines).value) == lines[1..])
            && (code[0] == '3' ==> Report(Respond(lines).value) == [])
            && (code[0] == '4' ==> Report(Respond(lines).value) == ["[Error] temp failure"])
            && (code[0] == '5' ==> Report(Respond(lines).value) == ["[Error] permanent failure"])
  {
  }

  /**
   * The console lines a finished outcome produces: a body is printed as it
   * is, a redirect prints nothing in this exchange, and each failure class
   * prints one line of its own, marked as an error.
   */
  function Report(o: Outcome): (out: seq<string>)
    ensures o.Display? ==> out == o.body
    ensures o.Redirect? ==> out == []
    ensures o.TempFailure? || o.PermFailure? ==>
              |out| == 1 && StartsWith(out[0], "[Error] ")
  {
    match o
    case Display(body) => body
    case Redirect(_) => []
    case TempFailure => ["[Error] temp failure"]
    case PermFailure => ["[Error] permanent failure"]
  }
}
