/** The request-line parser of internal/request/request.go: the whole input is
    read, the text before its first CRLF is split into white-space separated
    fields, and the method, the origin-form target and the version are checked
    in that order. */
module Request {
  import opened Strings

  /** The nine methods the parser accepts, compared case-sensitively. */
  const HttpMethods: seq<string> :=
    ["GET", "HEAD", "POST", "PUT", "DELETE", "CONNECT", "OPTIONS", "TRACE", "PATCH"]

  datatype RequestLine = RequestLine(httpMethod: string, requestTarget: string, httpVersion: string)

  datatype Request = Request(requestLine: RequestLine)

  /** Why a request is refused; each kind stands for one error return of the code. */
  datatype ErrorKind =
    | ReadFailed            // the byte source reported an error other than end of stream
    | MissingCRLF           // no CRLF anywhere in the input
    | MalformedRequestLine  // the line does not have exactly three fields
    | IncorrectMethod       // the first field is not one of HttpMethods
    | MalformedTarget       // the second field does not start with '/'
    | MalformedVersion      // the third field is not HTTP/1.1 (see VersionAccepted)

  /** The result of a parse. `IndexOutOfRange` is the run-time panic of the code
      when the version field is exactly "HTTP": it has no second '/'-piece. */
  datatype Outcome<T> = Ok(value: T) | Err(kind: ErrorKind) | IndexOutOfRange

  /** The version fields the code accepts, stated without strings.Split:
      "HTTP/1.1", optionally followed by '/' and anything else. */
  predicate VersionAccepted(v: string) {
    v == "HTTP/1.1" || "HTTP/1.1/" <= v
  }

  /** Checks one request line: field count, then method, then target, then version. */
  function RequestLineFromString(text: string): (r: Outcome<RequestLine>)
    ensures r.Ok? ==> r.value.httpMethod in HttpMethods
    ensures r.Ok? ==> "/" <= r.value.requestTarget
    ensures r.Ok? ==> r.value.httpVersion == "1.1"
    ensures r.Ok? ==> |Fields(text)| == 3 && Fields(text)[0] == r.value.httpMethod
                      && Fields(text)[1] == r.value.requestTarget
                      && VersionAccepted(Fields(text)[2])
    ensures r.IndexOutOfRange? ==> |Fields(text)| == 3 && Fields(text)[2] == "HTTP"
    ensures r.Err? ==> r.kind !in {ReadFailed, MissingCRLF}
  {
    var parts := Fields(text);
    if |parts| != 3 then
      Err(MalformedRequestLine)
    else
      var httpMethod := parts[0];
      if httpMethod !in HttpMethods then
        Err(IncorrectMethod)
      else
        var path := parts[1];
        if !("/" <= path) then
          Err(MalformedTarget)
        else
          var versionParts := Split(parts[2], '/');
          VersionCheck(parts[2]);
          if versionParts[0] != "HTTP" then
            Err(MalformedVersion)
          else if |versionParts| < 2 then
            IndexOutOfRange
          else if versionParts[1] != "1.1" then
            Err(MalformedVersion)
          else
            Ok(RequestLine(httpMethod, path, versionParts[1]))
  }

  /** Finds the first CRLF and parses the text before it; there is no
      "need more data" result: a missing CRLF is an error. */
  function ParseRequestLine(data: string): (r: Outcome<RequestLine>)
    ensures r == Err(MissingCRLF) <==> !HasCRLF(data)
  {
    var crlfIndex := IndexOfCRLF(data);
    if crlfIndex == -1 then
      Err(MissingCRLF)
    else
      RequestLineFromString(data[..crlfIndex])
  }

  /** A byte source, as the sequence of chunks its reads return, and whether it
      ends with a read error instead of end of stream. */
  datatype Reader = Reader(chunks: seq<string>, fails: bool)

  /** What io.ReadAll returns: all chunks, in the order they were read. */
  function Concat(chunks: seq<string>): (r: string)
    ensures chunks != [] ==> chunks[0] <= r
  {
    if chunks == [] then "" else chunks[0] + Concat(chunks[1..])
  }

  /** Reading in two rounds gives the bytes of the first round, then those of the second. */
  lemma {:induction false} ConcatAppend(a: seq<string>, b: seq<string>)
    ensures Concat(a + b) == Concat(a) + Concat(b)
  {
    if a == [] {
      assert a + b == b;
    } else {
      assert (a + b)[1..] == a[1..] + b;
      ConcatAppend(a[1..], b);
    }
  }

  /** Wraps a parsed request line into a request, passing failures on. */
  function ToRequest(line: Outcome<RequestLine>): Outcome<Request>
  {
    match line
    case Ok(l) => Ok(Request(l))
    case Err(kind) => Err(kind)
    case IndexOutOfRange => IndexOutOfRange
  }

  /** Reads the whole source, then parses its request line. */
  function RequestFromReader(reader: Reader): (r: Outcome<Request>)
    ensures reader.fails <==> r == Err(ReadFailed)
    ensures r.Ok? ==> ParseRequestLine(Concat(reader.chunks)) == Ok(r.value.requestLine)
    ensures r.Ok? ==> r.value.requestLine.httpMethod in HttpMethods
                      && "/" <= r.value.requestLine.requestTarget
                      && r.value.requestLine.httpVersion == "1.1"
    ensures !reader.fails ==> (r.Ok? <==> ParseRequestLine(Concat(reader.chunks)).Ok?)
    ensures !reader.fails && r.Err? ==> ParseRequestLine(Concat(reader.chunks)) == Err(r.kind)
    ensures !reader.fails ==> (r.IndexOutOfRange? <==> ParseRequestLine(Concat(reader.chunks)).IndexOutOfRange?)
    ensures !reader.fails && !HasCRLF(Concat(reader.chunks)) ==> r == Err(MissingCRLF)
  {
    if reader.fails then
      Err(ReadFailed)
    else
      ToRequest(ParseRequestLine(Concat(reader.chunks)))
  }

  /** Only the bytes read matter, not how the reads split them. */
  lemma ChunkingIrrelevant(a: seq<string>, b: seq<string>, fails: bool)
    requires Concat(a) == Concat(b)
    ensures RequestFromReader(Reader(a, fails)) == RequestFromReader(Reader(b, fails))
  {
  }

  // ---------------------------------------------------------------------------
  // The version check
  // ---------------------------------------------------------------------------

  /** The check on strings.Split(version, "/") accepts exactly VersionAccepted,
      and reaches the out-of-range index exactly for "HTTP". */
  lemma VersionCheck(v: string)
    ensures var p := Split(v, '/');
      (p[0] == "HTTP" && |p| >= 2 && p[1] == "1.1") <==> VersionAccepted(v)
    ensures var p := Split(v, '/');
      (p[0] == "HTTP" && |p| < 2) <==> v == "HTTP"
  {
    var p := Split(v, '/');
    if p[0] == "HTTP" && |p| >= 2 && p[1] == "1.1" {
      SplitVersionIsAccepted(v);
    }
    if VersionAccepted(v) {
      AcceptedVersionSplits(v);
    }
    if p[0] == "HTTP" && |p| < 2 {
      JoinSplit(v, '/');
    }
    if v == "HTTP" {
      SplitNoSeparator(v, '/');
    }
  }

  /** The accepted versions, written as pieces joined by '/'. */
  lemma VersionPieces(tail: string)
    ensures '/' !in "HTTP" && '/' !in "1.1"
    ensures "HTTP" + ['/'] + "1.1" == "HTTP/1.1"
    ensures "HTTP" + ['/'] + ("1.1" + ['/'] + tail) == "HTTP/1.1/" + tail
  {
  }

  lemma SplitVersionIsAccepted(v: string)
    requires var p := Split(v, '/'); p[0] == "HTTP" && |p| >= 2 && p[1] == "1.1"
    ensures VersionAccepted(v)
  {
    var p := Split(v, '/');
    JoinSplit(v, '/');
    assert p == [p[0]] + p[1..];
    JoinCons(p[0], p[1..], '/');
    if |p| == 2 {
      VersionPieces([]);
      assert v == "HTTP" + ['/'] + "1.1";
    } else {
      assert p[1..] == [p[1]] + p[2..];
      JoinCons(p[1], p[2..], '/');
      VersionPieces(Join(p[2..], '/'));
      assert v == "HTTP" + ['/'] + ("1.1" + ['/'] + Join(p[2..], '/'));
    }
  }

  lemma SplitExactVersion()
    ensures Split("HTTP/1.1", '/') == ["HTTP", "1.1"]
  {
    VersionPieces([]);
    SplitAfterPiece("HTTP", '/', "1.1");
    SplitNoSeparator("1.1", '/');
  }

  lemma SplitVersionWithSuffix(tail: string)
    ensures var p := Split("HTTP/1.1/" + tail, '/'); p[0] == "HTTP" && |p| >= 2 && p[1] == "1.1"
  {
    VersionPieces(tail);
    SplitAfterPiece("HTTP", '/', "1.1" + ['/'] + tail);
    SplitAfterPiece("1.1", '/', tail);
  }

  lemma VersionSuffix(v: string)
    requires "HTTP/1.1/" <= v
    ensures v == "HTTP/1.1/" + v[9..]
  {
    assert v == v[..9] + v[9..];
  }

  lemma AcceptedVersionSplits(v: string)
    requires VersionAccepted(v)
    ensures var p := Split(v, '/'); p[0] == "HTTP" && |p| >= 2 && p[1] == "1.1"
  {
    if "HTTP/1.1/" <= v {
      VersionSuffix(v);
      SplitVersionWithSuffix(v[9..]);
    } else {
      SplitExactVersion();
    }
  }

  // ---------------------------------------------------------------------------
  // What decides the outcome
  // ---------------------------------------------------------------------------

  /** The complete decision table of RequestLineFromString: the checks run in
      the order field count, method, target, version, and the first one that
      fails decides the error. */
  lemma RequestLineOutcome(text: string)
    ensures var f := Fields(text);
      RequestLineFromString(text) ==
        if |f| != 3 then Err(MalformedRequestLine)
        else if f[0] !in HttpMethods then Err(IncorrectMethod)
        else if !("/" <= f[1]) then Err(MalformedTarget)
        else if f[2] == "HTTP" then IndexOutOfRange
        else if !VersionAccepted(f[2]) then Err(MalformedVersion)
        else Ok(RequestLine(f[0], f[1], "1.1"))
  {
    var f := Fields(text);
    if |f| == 3 {
      VersionCheck(f[2]);
    }
  }

  /** Only the bytes before the first CRLF matter: whatever follows the request
      line (headers, a body, garbage) never changes the outcome. */
  lemma FirstLineDecides(line: string, rest: string)
    requires !HasCRLF(line)
    ensures ParseRequestLine(line + CRLF + rest) == RequestLineFromString(line)
  {
    IndexOfCRLFAfterLine(line, rest);
    assert (line + CRLF + rest)[..|line|] == line;
  }

  /** Appending bytes after a complete request line leaves the outcome alone. */
  lemma TrailingBytesIgnored(data: string, rest: string)
    requires HasCRLF(data)
    ensures ParseRequestLine(data + rest) == ParseRequestLine(data)
  {
    IndexOfCRLFAppend(data, rest);
    var k := IndexOfCRLF(data);
    assert (data + rest)[..k] == data[..k];
  }

  // ---------------------------------------------------------------------------
  // Chunked reading
  // ---------------------------------------------------------------------------

  /** `data` delivered in reads of at most `size` bytes each. */
  function ChunksOf(data: string, size: nat): (r: seq<string>)
    requires size > 0
    ensures forall i :: 0 <= i < |r| ==> 0 < |r[i]| <= size
    decreases |data|
  {
    if data == [] then []
    else if |data| <= size then [data]
    else [data[..size]] + ChunksOf(data[size..], size)
  }

  lemma {:induction false} ConcatChunksOf(data: string, size: nat)
    requires size > 0
    ensures Concat(ChunksOf(data, size)) == data
    decreases |data|
  {
    if |data| > size {
      var tail := ChunksOf(data[size..], size);
      ConcatChunksOf(data[size..], size);
      assert ([data[..size]] + tail)[1..] == tail;
      assert data == data[..size] + data[size..];
    } else if data != [] {
      assert [data][1..] == [];
      assert data + [] == data;
    }
  }

  /** The chunk size of the reads never changes the parsed request: the parser
      only sees the concatenation of all reads. */
  lemma ChunkSizeIrrelevant(data: string, size: nat)
    requires size > 0
    ensures RequestFromReader(Reader(ChunksOf(data, size), false))
         == RequestFromReader(Reader([data], false))
  {
    ConcatChunksOf(data, size);
    assert Concat([data]) == data + Concat([]);
    assert data + [] == data;
  }

  /** A request line followed by anything at all, read in chunks of any size,
      yields what the request line alone yields. */
  lemma ChunkedRequest(line: string, rest: string, size: nat)
    requires !HasCRLF(line) && size > 0
    ensures RequestFromReader(Reader(ChunksOf(line + CRLF + rest, size), false))
         == ToRequest(RequestLineFromString(line))
  {
    var data := line + CRLF + rest;
    ChunkSizeIrrelevant(data, size);
    assert Concat([data]) == data + Concat([]);
    assert data + [] == data;
    FirstLineDecides(line, rest);
  }
}
