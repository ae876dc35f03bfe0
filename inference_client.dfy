/**
 * The call to the local text-generation service: `NPC.get_llama_response` in
 * code/npc.py.
 *
 * The prompt is framed by concatenation and posted; the reply is a stream of
 * lines, each decoded as a JSON record that may carry a `response` fragment and
 * a `done` flag. Fragments are appended until the first record whose `done` is
 * true, and the whitespace-stripped accumulation is the answer. Any exception on
 * the way (connection, decoding, a broken stream) becomes an answer that starts
 * with "Error: ". The HTTP client and the JSON decoder are not modelled: the
 * service is a function from the request to its reply, already cut into decoded
 * lines.
 */
module InferenceClient {

  datatype Option<T> = None | Some(value: T)

  /** Where the request goes and which model it names (code/npc.py:87-88). */
  const Url: string := "http://localhost:11434/api/generate"
  const ModelName: string := "llama3.1"

  datatype Request = Request(url: string, model: string, prompt: string)

  /** One line of the streamed body, as the loop of `get_llama_response` meets it. */
  datatype StreamLine =
    | Blank                                                   // an empty line, skipped
    | Record(response: Option<string>, done: Option<bool>)   // a decoded JSON object
    | Broken(reason: string)                                  // reading or decoding raised

  /** What posting a request gives: an exception, or the lines of a streamed body. */
  datatype Reply = ConnectionError(reason: string) | Streamed(lines: seq<StreamLine>)

  /** The accumulation loop ends with the collected text, or with an exception. */
  datatype Collected = Text(text: string) | Raised(reason: string)

  /** The prompt sent to the service: persona, the user's turn, then the NPC's turn marker. */
  function FullPrompt(initialPrompt: string, prompt: string): (full: string)
    ensures |full| == |initialPrompt| + |prompt| + 12
    ensures full[..|initialPrompt|] == initialPrompt
    ensures full[|initialPrompt|..|initialPrompt| + 7] == "\nUser: "
    ensures full[|initialPrompt| + 7..|full| - 5] == prompt
    ensures full[|full| - 5..] == "\nNPC:"
  {
    initialPrompt + "\nUser: " + prompt + "\nNPC:"
  }

  /** Two different player inputs never give the same request. */
  lemma FullPromptInjective(initialPrompt: string, p: string, q: string)
    requires FullPrompt(initialPrompt, p) == FullPrompt(initialPrompt, q)
    ensures p == q
  {
    var full := FullPrompt(initialPrompt, p);
    assert p == full[|initialPrompt| + 7..|full| - 5];
  }

  /** Python's `str.isspace` for one character. */
  predicate IsSpace(c: char)
  {
    || '\t' <= c <= '\r'
    || '\U{1C}' <= c <= ' '
    || c == '\U{85}' || c == '\U{A0}' || c == '\U{1680}'
    || '\U{2000}' <= c <= '\U{200A}'
    || c == '\U{2028}' || c == '\U{2029}' || c == '\U{202F}' || c == '\U{205F}' || c == '\U{3000}'
  }

  /** Leading whitespace removed: the longest suffix that does not start with whitespace. */
  function TrimStart(s: string): (r: string)
    ensures |r| <= |s| && r == s[|s| - |r|..]
    ensures forall j :: 0 <= j < |s| - |r| ==> IsSpace(s[j])
    ensures r == [] || !IsSpace(r[0])
  {
    if |s| > 0 && IsSpace(s[0]) then TrimStart(s[1..]) else s
  }

  /** Trailing whitespace removed: the longest prefix that does not end with whitespace. */
  function TrimEnd(s: string): (r: string)
    ensures |r| <= |s| && r == s[..|r|]
    ensures forall j :: |r| <= j < |s| ==> IsSpace(s[j])
    ensures r == [] || !IsSpace(r[|r| - 1])
  {
    if |s| > 0 && IsSpace(s[|s| - 1]) then TrimEnd(s[..|s| - 1]) else s
  }

  /** Python's `str.strip()`. */
  function Strip(s: string): string
  {
    TrimEnd(TrimStart(s))
  }

  /** A stripped string is the middle of the original, and everything cut from either side is whitespace. */
  lemma {:induction false} StripCutsWhitespace(s: string)
    ensures var r := Strip(s); var i := |s| - |TrimStart(s)|;
      i + |r| <= |s| && r == s[i..i + |r|]
      && (forall j :: 0 <= j < i ==> IsSpace(s[j]))
      && (forall j :: i + |r| <= j < |s| ==> IsSpace(s[j]))
  {
    var t := TrimStart(s);
    var i := |s| - |t|;
    var r := TrimEnd(t);
    assert Strip(s) == r;
    PrefixOfSuffix(s, i, r);
    SpaceAfterPrefix(s, i, |r|);
  }

  /** Whitespace that follows the first `n` characters of the suffix from `i` follows `s[i..i + n]` in `s`. */
  lemma SpaceAfterPrefix(s: string, i: nat, n: nat)
    requires i + n <= |s|
    requires forall j :: n <= j < |s| - i ==> IsSpace(s[i..][j])
    ensures forall j :: i + n <= j < |s| ==> IsSpace(s[j])
  {
    forall j | i + n <= j < |s|
      ensures IsSpace(s[j])
    {
      assert s[j] == s[i..][j - i];
    }
  }

  /** A prefix of the suffix of `s` from `i` is the slice of `s` that starts at `i`. */
  lemma PrefixOfSuffix(s: string, i: nat, r: string)
    requires i <= |s| && |r| <= |s| - i && r == s[i..][..|r|]
    ensures r == s[i..i + |r|]
  {
  }

  /** A stripped string neither starts nor ends with whitespace. */
  lemma StripTrimmed(s: string)
    ensures var r := Strip(s); r == [] || (!IsSpace(r[0]) && !IsSpace(r[|r| - 1]))
  {
    var t := TrimStart(s);
    var r := TrimEnd(t);
    if r != [] {
      assert r == t[..|r|];
      assert r[0] == t[0];
    }
  }

  /** A text that neither starts nor ends with whitespace is its own strip. */
  lemma StripKeepsTrimmed(s: string)
    requires s == [] || (!IsSpace(s[0]) && !IsSpace(s[|s| - 1]))
    ensures Strip(s) == s
  {
    assert TrimStart(s) == s;
  }

  /** Stripping twice is stripping once. */
  lemma StripIdempotent(s: string)
    ensures Strip(Strip(s)) == Strip(s)
  {
    StripTrimmed(s);
    StripKeepsTrimmed(Strip(s));
  }

  /** The text a line contributes when it is read: a record's `response`, or nothing. */
  function Fragment(line: StreamLine): string
  {
    if line.Record? && line.response.Some? then line.response.value else ""
  }

  /** A record that ends the stream: its `done` is true. */
  predicate Ends(line: StreamLine)
  {
    line.Record? && line.done == Some(true)
  }

  function Prepend(prefix: string, c: Collected): Collected
  {
    match c
    case Text(t) => Text(prefix + t)
    case Raised(reason) => Raised(reason)
  }

  /** The accumulation loop of `get_llama_response` over the streamed lines. */
  function Collect(lines: seq<StreamLine>): Collected
  {
    if lines == [] then Text("")
    else match lines[0]
      case Blank => Collect(lines[1..])
      case Broken(reason) => Raised(reason)
      case Record(_, done) =>
        if done == Some(true) then Text(Fragment(lines[0]))
        else Prepend(Fragment(lines[0]), Collect(lines[1..]))
  }

  /** One step of the loop: reading line `i` of the remaining stream. */
  lemma CollectAt(lines: seq<StreamLine>, i: nat)
    requires i < |lines|
    ensures Collect(lines[i..]) ==
      match lines[i]
      case Blank => Collect(lines[i + 1..])
      case Broken(reason) => Raised(reason)
      case Record(_, done) =>
        if done == Some(true) then Text(Fragment(lines[i]))
        else Prepend(Fragment(lines[i]), Collect(lines[i + 1..]))
  {
    assert lines[i..][0] == lines[i];
    assert lines[i..][1..] == lines[i + 1..];
  }

  /** Prepending twice is prepending the concatenation. */
  lemma PrependTwice(a: string, b: string, c: Collected)
    ensures Prepend(a, Prepend(b, c)) == Prepend(a + b, c)
  {
    if c.Text? {
      assert a + (b + c.text) == (a + b) + c.text;
    }
  }

  /** The concatenation of all fragments, in order: the reference for what is collected. */
  function Fragments(lines: seq<StreamLine>): string
  {
    if lines == [] then "" else Fragment(lines[0]) + Fragments(lines[1..])
  }

  /** Lines that neither end the stream nor raise. */
  predicate Plain(lines: seq<StreamLine>)
  {
    forall j :: 0 <= j < |lines| ==> !lines[j].Broken? && !Ends(lines[j])
  }

  /** A stream without a `done` record and without failure collects all its fragments. */
  lemma {:induction false} CollectPlain(lines: seq<StreamLine>)
    requires Plain(lines)
    ensures Collect(lines) == Text(Fragments(lines))
  {
    if lines != [] {
      assert Plain(lines[1..]) by {
        forall j | 0 <= j < |lines| - 1 ensures !lines[1..][j].Broken? && !Ends(lines[1..][j]) {
          assert lines[1..][j] == lines[j + 1];
        }
      }
      CollectPlain(lines[1..]);
      if lines[0].Blank? {
        assert Fragment(lines[0]) == "";
        assert "" + Fragments(lines[1..]) == Fragments(lines[1..]);
      }
    }
  }

  /**
   * The collected text is the concatenation of the fragments up to and including
   * the first `done` record; what follows that record is never read.
   */
  lemma {:induction false} CollectUpToDone(before: seq<StreamLine>, done: StreamLine, after: seq<StreamLine>)
    requires Plain(before) && Ends(done)
    ensures Collect(before + [done] + after) == Text(Fragments(before + [done]))
  {
    if before == [] {
      assert before + [done] + after == [done] + after;
      assert [done][1..] == [];
      assert Fragments([done]) == Fragment(done) + "";
    } else {
      var rest := before[1..];
      assert (before + [done] + after)[1..] == rest + [done] + after;
      assert (before + [done])[1..] == rest + [done];
      assert Plain(rest) by {
        forall j | 0 <= j < |rest| ensures !rest[j].Broken? && !Ends(rest[j]) {
          assert rest[j] == before[j + 1];
        }
      }
      CollectUpToDone(rest, done, after);
      if before[0].Blank? {
        assert "" + Fragments(rest + [done]) == Fragments(rest + [done]);
      }
    }
  }

  /** The text stops at the first `done` record whatever comes after it. */
  lemma {:induction false} CollectIgnoresAfterDone(before: seq<StreamLine>, done: StreamLine, after: seq<StreamLine>)
    requires Ends(done)
    ensures Collect(before + [done] + after) == Collect(before + [done])
  {
    if before == [] {
      assert before + [done] + after == [done] + after;
      assert before + [done] == [done];
    } else {
      var rest := before[1..];
      assert (before + [done] + after)[1..] == rest + [done] + after;
      assert (before + [done])[1..] == rest + [done];
      CollectIgnoresAfterDone(rest, done, after);
    }
  }

  /**
   * The loop raises exactly when some line fails to read or decode before any
   * record has said `done`.
   */
  lemma {:induction false} CollectRaisesIff(lines: seq<StreamLine>)
    ensures Collect(lines).Raised?
      <==> exists k :: 0 <= k < |lines| && lines[k].Broken? && forall j :: 0 <= j < k ==> !Ends(lines[j])
  {
    if lines != [] {
      var rest := lines[1..];
      CollectRaisesIff(rest);
      if Collect(lines).Raised? && !lines[0].Broken? {
        var k :| 0 <= k < |rest| && rest[k].Broken? && forall j :: 0 <= j < k ==> !Ends(rest[j]);
        assert lines[k + 1].Broken?;
        forall j | 0 <= j < k + 1 ensures !Ends(lines[j]) {
          if j > 0 { assert lines[j] == rest[j - 1]; }
        }
      }
      if exists k :: 0 <= k < |lines| && lines[k].Broken? && forall j :: 0 <= j < k ==> !Ends(lines[j]) {
        var k :| 0 <= k < |lines| && lines[k].Broken? && forall j :: 0 <= j < k ==> !Ends(lines[j]);
        if k > 0 {
          assert !Ends(lines[0]);
          assert rest[k - 1].Broken?;
          forall j | 0 <= j < k - 1 ensures !Ends(rest[j]) {
            assert rest[j] == lines[j + 1];
          }
        }
      }
    }
  }

  /** What `get_llama_response` returns for a reply of the service. */
  function Answer(reply: Reply): string
  {
    match reply
    case ConnectionError(reason) => "Error: " + reason
    case Streamed(lines) =>
      match Collect(lines)
      case Text(t) => Strip(t)
      case Raised(reason) => "Error: " + reason
  }

  /** What `get_llama_response` returns for a player's input, given how the service replies. */
  function LlamaResponse(initialPrompt: string, prompt: string, service: Request -> Reply): string
  {
    Answer(service(Request(Url, ModelName, FullPrompt(initialPrompt, prompt))))
  }

  /** A failure is never raised to the caller: it is an answer that starts with "Error: ". */
  lemma FailureIsErrorText(reply: Reply)
    requires reply.ConnectionError? || Collect(reply.lines).Raised?
    ensures |Answer(reply)| >= 7 && Answer(reply)[..7] == "Error: "
  {
  }

  /** A stream that completes normally answers with the stripped fragments up to the first `done`. */
  lemma AnswerOfCompletedStream(before: seq<StreamLine>, done: StreamLine, after: seq<StreamLine>)
    requires Plain(before) && Ends(done)
    ensures Answer(Streamed(before + [done] + after)) == Strip(Fragments(before + [done]))
  {
    CollectUpToDone(before, done, after);
  }

  /** The streamed records "Hel", "lo" and `done` give the answer "Hello". */
  lemma HelloExample()
    ensures Answer(Streamed([Record(Some("Hel"), None), Record(Some("lo"), None), Record(None, Some(true))])) == "Hello"
  {
    var before := [Record(Some("Hel"), None), Record(Some("lo"), None)];
    var done := Record(None, Some(true));
    assert before + [done] + [] == [Record(Some("Hel"), None), Record(Some("lo"), None), Record(None, Some(true))];
    CollectUpToDone(before, done, []);
    var lines := before + [done];
    assert lines[1..] == [Record(Some("lo"), None), done];
    assert lines[1..][1..] == [done];
    assert [done][1..] == [];
    assert Fragments([done]) == "" + Fragments([]);
    assert Fragments(lines[1..]) == "lo" + Fragments([done]);
    assert Fragments(lines) == "Hel" + Fragments(lines[1..]);
    assert Fragments(lines) == "Hello";
    StripKeepsTrimmed("Hello");
  }

  /**
   * The loop of `NPC.get_llama_response` over the streamed lines: accumulate the
   * fragments, stop after the first `done` record, and end with the exception of
   * a line that fails to read or decode.
   */
  method ReadStream(lines: seq<StreamLine>) returns (collected: Collected)
    ensures collected == Collect(lines)
  {
    var fullResponse := "";
    var i := 0;
    assert lines[i..] == lines;
    assert Prepend(fullResponse, Collect(lines)) == Collect(lines) by {
      if Collect(lines).Text? {
        assert fullResponse + Collect(lines).text == Collect(lines).text;
      }
    }
    while i < |lines|
      invariant 0 <= i <= |lines|
      invariant Prepend(fullResponse, Collect(lines[i..])) == Collect(lines)
    {
      ghost var rest := Collect(lines[i + 1..]);
      CollectAt(lines, i);
      match lines[i] {
        case Blank =>
          assert Collect(lines[i..]) == rest;
        case Broken(reason) =>
          return Raised(reason);
        case Record(response, done) =>
          ghost var before := fullResponse;
          if response.Some? {
            fullResponse := fullResponse + response.value;
          } else {
            assert before + Fragment(lines[i]) == before;
          }
          assert fullResponse == before + Fragment(lines[i]);
          if done == Some(true) {
            assert Collect(lines[i..]) == Text(Fragment(lines[i]));
            break;
          }
          assert Collect(lines[i..]) == Prepend(Fragment(lines[i]), rest);
          PrependTwice(before, Fragment(lines[i]), rest);
      }
      i := i + 1;
    }
    assert i == |lines| ==> lines[i..] == [];
    return Text(fullResponse);
  }

  /**
   * `NPC.get_llama_response`: frame the prompt, post it, read the stream, and
   * turn any exception into an "Error: " answer.
   */
  method GetLlamaResponse(initialPrompt: string, prompt: string, service: Request -> Reply)
    returns (answer: string)
    ensures answer == LlamaResponse(initialPrompt, prompt, service)
  {
    var fullPrompt := initialPrompt + "\nUser: " + prompt + "\nNPC:";
    assert fullPrompt == FullPrompt(initialPrompt, prompt);
    var reply := service(Request(Url, ModelName, fullPrompt));
    match reply {
      case ConnectionError(reason) =>
        answer := "Error: " + reason;
      case Streamed(lines) =>
        var collected := ReadStream(lines);
        match collected {
          case Text(fullResponse) =>
            answer := Strip(fullResponse);
          case Raised(reason) =>
            answer := "Error: " + reason;
        }
    }
  }
}
