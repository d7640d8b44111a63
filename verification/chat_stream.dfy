/** `processImage`: one chat request to the local inference server and the
    consumption of its newline-delimited JSON reply. The request body (model
    name, fixed instruction text, sampling options) is a constant of the source
    and plays no part here; what matters is how the reply becomes text. */
module ChatStream {
  import opened Wrappers
  import opened JsText

  /** The value of `json.message?.content` in one parsed reply line. A string is
      appended as it is; any other JSON value is truthy or falsy by JavaScript's
      rules and, when truthy, is appended in its string coercion
      (`5` as "5", an object as "[object Object]"). */
  datatype Content =
    | Absent
    | Str(text: string)
    | NonString(truthy: bool, coerced: string)

  /** The part of a parsed reply line the pipeline reads. */
  datatype Record = Record(content: Content)

  /** `JSON.parse` followed by the property access, given as its verdict on the
      lines of the reply: a line in the map parses to a value whose
      `message?.content` is recorded; a line outside it makes `JSON.parse` throw,
      or parses to `null`, whose property access throws too. Either way the
      line is ignored. */
  type Parser = map<string, Record>

  function Parse(parse: Parser, line: string): (r: Option<Record>)
    ensures r.Some? <==> line in parse
  {
    if line in parse then Some(parse[line]) else None
  }

  /** An HTTP response: its status, its body as already-decoded chunks in
      arrival order, and the error a body read rejected with, if one did. */
  datatype Response = Response(status: nat, chunks: seq<string>, readError: Option<string>)

  /** What `fetch` settles with: a rejection (the server is unreachable) or a response. */
  datatype Reply = Rejected(reason: string) | Received(response: Response)

  const StatusErrorPrefix: string := "Failed to process image: "
  const NoTextError: string := "No text was extracted from the image"

  /** `response.ok`: the status is in the range 200-299. */
  predicate IsOk(r: Response) {
    200 <= r.status <= 299
  }

  /** The message a non-ok response is reported with. */
  function StatusError(status: nat, bodyText: string): string {
    StatusErrorPrefix + DecimalString(status) + " " + bodyText
  }

  /** JavaScript truthiness of the content value. */
  predicate Truthy(c: Content) {
    match c
    case Absent => false
    case Str(text) => text != []
    case NonString(truthy, _) => truthy
  }

  /** The string `+=` appends for the content value. */
  function Appended(c: Content): string
    requires Truthy(c)
  {
    match c
    case Str(text) => text
    case NonString(_, coerced) => coerced
  }

  /** What one line of a chunk contributes to the extracted text. */
  function LineFragment(line: string, parse: Parser): (f: string)
    ensures IsBlank(line) ==> f == []
    ensures Parse(parse, line) == None ==> f == []
    ensures Parse(parse, line).Some? && !Truthy(Parse(parse, line).value.content) ==> f == []
    ensures !IsBlank(line) && Parse(parse, line).Some? && Truthy(Parse(parse, line).value.content) ==>
              f == Appended(Parse(parse, line).value.content)
    ensures !IsBlank(line) && Parse(parse, line).Some? && Parse(parse, line).value.content.Str? ==>
              f == Parse(parse, line).value.content.text
  {
    TrimEmptyIffBlank(line);
    if Trim(line) == [] then []
    else match Parse(parse, line)
      case None => []
      case Some(rec) => if Truthy(rec.content) then Appended(rec.content) else []
  }

  /** The contribution of each line, in order. */
  function Fragments(lines: seq<string>, parse: Parser): seq<string> {
    if lines == [] then []
    else Fragments(lines[..|lines| - 1], parse) + [LineFragment(lines[|lines| - 1], parse)]
  }

  /** Every line of every chunk: chunk order first, then line order within a chunk.
      Each chunk is split on its own. */
  function AllLines(chunks: seq<string>): seq<string> {
    if chunks == [] then []
    else AllLines(chunks[..|chunks| - 1]) + Split(chunks[|chunks| - 1], '\n')
  }

  /** The text one chunk contributes when split and parsed by itself. */
  function ChunkText(chunk: string, parse: Parser): string {
    Concat(Fragments(Split(chunk, '\n'), parse))
  }

  /** Reference definition of the extracted text: the concatenation of every
      line's fragment, over all lines of all chunks, in order. */
  function StreamText(chunks: seq<string>, parse: Parser): string {
    Concat(Fragments(AllLines(chunks), parse))
  }

  lemma {:induction false} FragmentsAppend(a: seq<string>, b: seq<string>, parse: Parser)
    ensures Fragments(a + b, parse) == Fragments(a, parse) + Fragments(b, parse)
    decreases |b|
  {
    if b == [] {
      assert a + b == a;
    } else {
      var b' := b[..|b| - 1];
      assert (a + b)[..|a + b| - 1] == a + b';
      FragmentsAppend(a, b', parse);
    }
  }

  /** One more line adds exactly its own fragment. */
  lemma {:induction false} LinesTextSnoc(lines: seq<string>, line: string, parse: Parser)
    ensures Concat(Fragments(lines + [line], parse)) == Concat(Fragments(lines, parse)) + LineFragment(line, parse)
  {
    var all := lines + [line];
    assert all[..|all| - 1] == lines;
    var fs := Fragments(lines, parse) + [LineFragment(line, parse)];
    assert Fragments(all, parse) == fs;
    assert fs[..|fs| - 1] == Fragments(lines, parse);
  }

  /** One pass of the inner loop appends the line's fragment to the text read so far. */
  lemma {:induction false} LineStep(fullText: string, lines: seq<string>, j: nat, parse: Parser)
    requires j < |lines|
    ensures fullText + Concat(Fragments(lines[..j + 1], parse))
         == fullText + Concat(Fragments(lines[..j], parse)) + LineFragment(lines[j], parse)
  {
    assert lines[..j + 1] == lines[..j] + [lines[j]];
    LinesTextSnoc(lines[..j], lines[j], parse);
    AppendAssoc(fullText, Concat(Fragments(lines[..j], parse)), LineFragment(lines[j], parse));
  }

  /** The inner loop of the stream reader: the chunk is split on newlines,
      blank lines are skipped, a line that does not parse is ignored, and a
      truthy `message.content` is appended to the text gathered so far. */
  method ReadChunk(fullText: string, chunk: string, parse: Parser) returns (text: string)
    ensures text == fullText + ChunkText(chunk, parse)
  {
    text := fullText;
    var lines := Split(chunk, '\n');
    var j := 0;
    assert lines[..0] == [];
    assert fullText + Concat(Fragments([], parse)) == fullText;
    while j < |lines|
      invariant 0 <= j <= |lines|
      invariant text == fullText + Concat(Fragments(lines[..j], parse))
    {
      var line := lines[j];
      var piece: string := [];
      if Trim(line) != [] && line in parse && Truthy(parse[line].content) {
        piece := Appended(parse[line].content);
      }
      assert piece == LineFragment(line, parse);
      LineStep(fullText, lines, j, parse);
      text := text + piece;
      j := j + 1;
    }
    assert lines[..j] == lines;
  }

  /** The stream reader: chunks are read in arrival order until the body ends,
      each one handled by itself. */
  method ReadStream(chunks: seq<string>, parse: Parser) returns (fullText: string)
    ensures fullText == StreamText(chunks, parse)
  {
    fullText := "";
    var i := 0;
    while i < |chunks|
      invariant 0 <= i <= |chunks|
      invariant fullText == StreamText(chunks[..i], parse)
    {
      fullText := ReadChunk(fullText, chunks[i], parse);
      StreamTextSnoc(chunks[..i], chunks[i], parse);
      assert chunks[..i + 1] == chunks[..i] + [chunks[i]];
      i := i + 1;
    }
    assert chunks[..i] == chunks;
  }

  /** Adding one chunk at the end adds exactly that chunk's own text. */
  lemma {:induction false} StreamTextSnoc(chunks: seq<string>, chunk: string, parse: Parser)
    ensures StreamText(chunks + [chunk], parse) == StreamText(chunks, parse) + ChunkText(chunk, parse)
  {
    var all := chunks + [chunk];
    assert all[..|all| - 1] == chunks;
    FragmentsAppend(AllLines(chunks), Split(chunk, '\n'), parse);
    ConcatAppend(Fragments(AllLines(chunks), parse), Fragments(Split(chunk, '\n'), parse));
  }

  /** No state is carried from one chunk to the next: the text of a stream is the
      text of any prefix of its chunks followed by the text of the rest. */
  lemma {:induction false} StreamTextAppend(a: seq<string>, b: seq<string>, parse: Parser)
    ensures StreamText(a + b, parse) == StreamText(a, parse) + StreamText(b, parse)
    decreases |b|
  {
    if b == [] {
      assert a + b == a;
    } else {
      var b' := b[..|b| - 1];
      var last := b[|b| - 1];
      assert a + b == (a + b') + [last];
      assert b == b' + [last];
      StreamTextAppend(a, b', parse);
      StreamTextSnoc(a + b', last, parse);
      StreamTextSnoc(b', last, parse);
    }
  }

  /** The text of a sequence of lines with one line singled out. */
  lemma {:induction false} LinesTextAround(xs: seq<string>, line: string, ys: seq<string>, parse: Parser)
    ensures Concat(Fragments(xs + [line] + ys, parse))
         == Concat(Fragments(xs, parse)) + LineFragment(line, parse) + Concat(Fragments(ys, parse))
  {
    var fx := Fragments(xs, parse);
    var fy := Fragments(ys, parse);
    var f := LineFragment(line, parse);
    FragmentsAppend(xs + [line], ys, parse);
    FragmentsAppend(xs, [line], parse);
    assert Fragments([line], parse) == [f] by {
      assert [line][..0] == [];
    }
    ConcatAppend(fx + [f], fy);
    ConcatAppend(fx, [f]);
    assert Concat([f]) == f by {
      assert [f][..0] == [];
    }
  }

  /** The lines of a chunk with one line between two newlines singled out. */
  lemma {:induction false} SplitAroundLine(a: string, line: string, b: string)
    requires '\n' !in line
    ensures Split(a + "\n" + line + "\n" + b, '\n') == Split(a, '\n') + [line] + Split(b, '\n')
  {
    Regroup(a, line, b);
    SplitAround(a, line + ['\n'] + b, '\n');
    SplitAround(line, b, '\n');
    assert Split(line, '\n') == [line];
    assert Split(a, '\n') + ([line] + Split(b, '\n')) == Split(a, '\n') + [line] + Split(b, '\n');
  }

  /** Within a chunk, a line between two newlines contributes exactly its own fragment. */
  lemma {:induction false} ChunkTextAroundLine(a: string, line: string, b: string, parse: Parser)
    requires '\n' !in line
    ensures ChunkText(a + "\n" + line + "\n" + b, parse)
         == ChunkText(a, parse) + LineFragment(line, parse) + ChunkText(b, parse)
  {
    SplitAroundLine(a, line, b);
    LinesTextAround(Split(a, '\n'), line, Split(b, '\n'), parse);
  }

  /** Drop, don't fail: a line that does not parse neither stops the stream nor
      leaves anything in the text; the lines around it still count. */
  lemma {:induction false} MalformedLineDropped(a: string, bad: string, b: string, parse: Parser)
    requires '\n' !in bad && bad !in parse
    ensures ChunkText(a + "\n" + bad + "\n" + b, parse) == ChunkText(a, parse) + ChunkText(b, parse)
  {
    ChunkTextAroundLine(a, bad, b, parse);
  }

  /** A blank line is skipped before any parse is attempted. */
  lemma {:induction false} BlankLineSkipped(a: string, blank: string, b: string, parse: Parser)
    requires '\n' !in blank && IsBlank(blank)
    ensures ChunkText(a + "\n" + blank + "\n" + b, parse) == ChunkText(a, parse) + ChunkText(b, parse)
  {
    ChunkTextAroundLine(a, blank, b, parse);
  }

  /** Lines `A`, a broken line and `B` in one chunk give "AB". */
  lemma {:induction false} InterleavedMalformedLine(l1: string, l2: string, l3: string, parse: Parser)
    requires '\n' !in l1 && '\n' !in l2 && '\n' !in l3
    requires !IsBlank(l1) && !IsBlank(l3)
    requires l1 in parse && parse[l1] == Record(Str("A"))
    requires l2 !in parse
    requires l3 in parse && parse[l3] == Record(Str("B"))
    ensures ChunkText(l1 + "\n" + l2 + "\n" + l3, parse) == "AB"
  {
    MalformedLineDropped(l1, l2, l3, parse);
    SingleLineChunk(l1, parse);
    SingleLineChunk(l3, parse);
  }

  /** A record split across two chunks is never reassembled: each half is parsed
      on its own and dropped, and the lines after the split still count. */
  lemma {:induction false} SplitRecordDropped(a: string, head: string, tail: string, b: string, parse: Parser)
    requires '\n' !in head && '\n' !in tail
    requires head !in parse && tail !in parse
    ensures StreamText([a + "\n" + head, tail + "\n" + b], parse)
         == StreamText([a], parse) + StreamText([b], parse)
  {
    var c1 := a + "\n" + head;
    var c2 := tail + "\n" + b;
    assert [c1, c2] == [c1] + [c2];
    StreamTextAppend([c1], [c2], parse);
    SingleChunk(c1, parse);
    SingleChunk(c2, parse);
    SingleChunk(a, parse);
    SingleChunk(b, parse);
    ChunkTextLastLine(a, head, parse);
    ChunkTextFirstLine(tail, b, parse);
    assert ChunkText(c1, parse) == ChunkText(a, parse) + [];
    assert ChunkText(c2, parse) == [] + ChunkText(b, parse);
  }

  /** The same bytes inside a single chunk do reach the parser as one line, so
      where a record falls relative to chunk boundaries decides whether it counts. */
  lemma {:induction false} WholeRecordKept(a: string, head: string, tail: string, b: string, parse: Parser)
    requires '\n' !in head && '\n' !in tail
    ensures StreamText([a + "\n" + head + tail + "\n" + b], parse)
         == StreamText([a], parse) + LineFragment(head + tail, parse) + StreamText([b], parse)
  {
    var whole := a + "\n" + head + tail + "\n" + b;
    AppendAssoc(a + "\n", head, tail);
    assert whole == a + "\n" + (head + tail) + "\n" + b;
    assert '\n' !in head + tail by {
      assert forall k :: 0 <= k < |head + tail| ==> (head + tail)[k] == if k < |head| then head[k] else tail[k - |head|];
    }
    SingleChunk(whole, parse);
    SingleChunk(a, parse);
    SingleChunk(b, parse);
    ChunkTextAroundLine(a, head + tail, b, parse);
  }

  /** A chunk's last line, after its last newline, contributes its fragment last. */
  lemma {:induction false} ChunkTextLastLine(a: string, line: string, parse: Parser)
    requires '\n' !in line
    ensures ChunkText(a + "\n" + line, parse) == ChunkText(a, parse) + LineFragment(line, parse)
  {
    assert a + "\n" + line == a + ['\n'] + line;
    SplitAround(a, line, '\n');
    assert Split(line, '\n') == [line];
    LinesTextSnoc(Split(a, '\n'), line, parse);
  }

  /** A chunk's first line, before its first newline, contributes its fragment first. */
  lemma {:induction false} ChunkTextFirstLine(line: string, b: string, parse: Parser)
    requires '\n' !in line
    ensures ChunkText(line + "\n" + b, parse) == LineFragment(line, parse) + ChunkText(b, parse)
  {
    assert line + "\n" + b == line + ['\n'] + b;
    SplitAround(line, b, '\n');
    assert Split(line, '\n') == [line];
    var ys := Split(b, '\n');
    LinesTextAround([], line, ys, parse);
    assert [] + [line] + ys == [line] + ys;
    assert Concat(Fragments([], parse)) == [];
    assert [] + LineFragment(line, parse) == LineFragment(line, parse);
  }

  lemma {:induction false} SingleChunk(chunk: string, parse: Parser)
    ensures StreamText([chunk], parse) == ChunkText(chunk, parse)
  {
    assert [chunk][..0] == [];
    assert AllLines([chunk]) == [] + Split(chunk, '\n');
    assert [] + Split(chunk, '\n') == Split(chunk, '\n');
  }

  /** A chunk holding a single line contributes that line's fragment. */
  lemma {:induction false} SingleLineChunk(line: string, parse: Parser)
    requires '\n' !in line
    ensures ChunkText(line, parse) == LineFragment(line, parse)
  {
    assert Split(line, '\n') == [line];
    LinesTextSnoc([], line, parse);
    assert [] + [line] == [line];
  }

  /** Lines that add nothing leave nothing: blank lines, lines that do not
      parse and records without truthy content together give the empty text. */
  lemma {:induction false} SilentLinesGiveNothing(lines: seq<string>, parse: Parser)
    requires forall line :: line in lines ==> IsBlank(line) || line !in parse || !Truthy(parse[line].content)
    ensures Concat(Fragments(lines, parse)) == []
    decreases |lines|
  {
    if lines != [] {
      var init := lines[..|lines| - 1];
      var last := lines[|lines| - 1];
      assert lines == init + [last];
      assert forall line :: line in init ==> line in lines;
      SilentLinesGiveNothing(init, parse);
      LinesTextSnoc(init, last, parse);
    }
  }

  /** An ok, fully read reply in which no line carries truthy content is
      reported as "No text was extracted from the image". */
  lemma {:induction false} NoContentFails(response: Response, parse: Parser)
    requires IsOk(response) && response.readError == None
    requires forall line :: line in AllLines(response.chunks) ==>
               IsBlank(line) || line !in parse || !Truthy(parse[line].content)
    ensures ProcessImage(Received(response), parse) == Failure(NoTextError)
  {
    SilentLinesGiveNothing(AllLines(response.chunks), parse);
  }

  /** The whole of `processImage`. A rejected fetch or a failed body read
      reports its own error. A non-ok status reports the status and the body
      text without a single line being parsed. An ok stream yields its text
      verbatim unless that text is blank. */
  function ProcessImage(reply: Reply, parse: Parser): (r: Result<string, string>)
    ensures reply.Rejected? ==> r == Failure(reply.reason)
    ensures reply.Received? && reply.response.readError.Some? ==> r == Failure(reply.response.readError.value)
    ensures r.Success? ==> reply.Received? && IsOk(reply.response)
    ensures r.Success? ==> r.value == StreamText(reply.response.chunks, parse) && !IsBlank(r.value)
    ensures reply.Received? && IsOk(reply.response) && reply.response.readError == None ==>
              (r.Success? <==> !IsBlank(StreamText(reply.response.chunks, parse)))
    ensures reply.Received? && reply.response.readError == None && r.Failure? ==>
              r.error == (if IsOk(reply.response) then NoTextError
                          else StatusError(reply.response.status, Concat(reply.response.chunks)))
  {
    match reply
    case Rejected(reason) => Failure(reason)
    case Received(response) =>
      if !IsOk(response) then
        match response.readError
        case Some(e) => Failure(e)
        case None => Failure(StatusError(response.status, Concat(response.chunks)))
      else
        var fullText := StreamText(response.chunks, parse);
        TrimEmptyIffBlank(fullText);
        if response.readError.Some? then Failure(response.readError.value)
        else if Trim(fullText) == [] then Failure(NoTextError)
        else Success(fullText)
  }

  /** A non-ok status short-circuits: the outcome does not depend on the parser,
      so no line of the body is parsed, and it is a failure. */
  lemma {:induction false} StatusShortCircuits(response: Response, p1: Parser, p2: Parser)
    requires !IsOk(response)
    ensures ProcessImage(Received(response), p1) == ProcessImage(Received(response), p2)
    ensures ProcessImage(Received(response), p1).Failure?
  {
  }

  /** The status error message identifies the status and the body text it was
      built from. */
  lemma {:induction false} StatusErrorInjective(s1: nat, b1: string, s2: nat, b2: string)
    requires StatusError(s1, b1) == StatusError(s2, b2)
    ensures s1 == s2 && b1 == b2
  {
    var d1 := DecimalString(s1);
    var d2 := DecimalString(s2);
    var n := |StatusErrorPrefix|;
    var m := StatusError(s1, b1);
    var x := d1 + " " + b1;
    assert m[n..] == x;
    assert m[n..] == d2 + " " + b2;
    FirstSpaceEndsDigits(d1, b1);
    FirstSpaceEndsDigits(d2, b2);
    assert d1 == x[..|d1|];
    assert d2 == x[..|d2|];
    assert b1 == x[|d1| + 1..];
    DecimalRoundTrip(s1);
    DecimalRoundTrip(s2);
  }

  /** In digits followed by a space, the first space ends the digits. */
  lemma FirstSpaceEndsDigits(digits: string, rest: string)
    requires forall i :: 0 <= i < |digits| ==> IsDigit(digits[i])
    ensures ' ' in digits + " " + rest && IndexOf(digits + " " + rest, ' ') == |digits|
  {
    var x := digits + " " + rest;
    assert x[|digits|] == ' ';
    var i := IndexOf(x, ' ');
    assert forall k :: 0 <= k < |digits| ==> x[k] == digits[k];
    assert forall k :: 0 <= k < i ==> x[..i][k] == x[k];
  }
}
