/** The request-line cases exercised by internal/request/request_test.go,
    derived from the general lemmas of module Request. */
module RequestExamples {
  import opened Strings
  import opened Request

  lemma ThreeWordsAssociate(a: string, b: string, c: string)
    ensures a + " " + b + " " + c == a + (" " + (b + (" " + c)))
  {
  }

  lemma FieldsOfNestedWords(a: string, b: string, c: string)
    requires a != [] && NoSpace(a) && b != [] && NoSpace(b) && c != [] && NoSpace(c)
    ensures Fields(a + (" " + (b + (" " + c)))) == [a, b, c]
  {
    assert [b] + [c] == [b, c];
    assert [a] + [b, c] == [a, b, c];
    var t2 := " " + c;
    var t1 := b + t2;
    var u1 := " " + t1;
    assert AllSpace(" ");
    FieldsOfWord(c, "");
    assert c + "" == c;
    assert Fields(c) == [c];
    FieldsAfterSpace(" ", c);
    assert Fields(t2) == [c];
    FieldsOfWord(b, t2);
    assert Fields(t1) == [b, c];
    FieldsAfterSpace(" ", t1);
    FieldsOfWord(a, u1);
  }

  /** The fields of three words separated by single spaces. */
  lemma FieldsOfThreeWords(a: string, b: string, c: string)
    requires a != [] && NoSpace(a) && b != [] && NoSpace(b) && c != [] && NoSpace(c)
    ensures Fields(a + " " + b + " " + c) == [a, b, c]
  {
    FieldsOfNestedWords(a, b, c);
    ThreeWordsAssociate(a, b, c);
  }

  lemma TwoWordsAssociate(a: string, b: string)
    ensures a + " " + b == a + (" " + b)
  {
  }

  lemma FieldsOfTwoWords(a: string, b: string)
    requires a != [] && NoSpace(a) && b != [] && NoSpace(b)
    ensures Fields(a + " " + b) == [a, b]
  {
    TwoWordsAssociate(a, b);
    assert [a] + [b] == [a, b];
    var t := " " + b;
    assert AllSpace(" ");
    FieldsOfWord(b, "");
    assert b + "" == b;
    assert Fields(b) == [b];
    FieldsAfterSpace(" ", b);
    assert Fields(t) == [b];
    FieldsOfWord(a, t);
  }

  /** A line of three words has no CRLF, and the decision table applies to the words. */
  lemma ThreeWordLine(a: string, b: string, c: string)
    requires a != [] && NoSpace(a) && b != [] && NoSpace(b) && c != [] && NoSpace(c)
    ensures !HasCRLF(a + " " + b + " " + c)
    ensures RequestLineFromString(a + " " + b + " " + c) ==
        if a !in HttpMethods then Err(IncorrectMethod)
        else if !("/" <= b) then Err(MalformedTarget)
        else if c == "HTTP" then IndexOutOfRange
        else if !VersionAccepted(c) then Err(MalformedVersion)
        else Ok(RequestLine(a, b, "1.1"))
  {
    var line := a + " " + b + " " + c;
    forall i | 0 <= i < |line| ensures line[i] != '\r' {
      if i < |a| {
        assert line[i] == a[i];
      } else if i == |a| || i == |a| + |b| + 1 {
        assert line[i] == ' ';
      } else if i < |a| + |b| + 1 {
        assert line[i] == b[i - |a| - 1];
      } else {
        assert line[i] == c[i - |a| - |b| - 2];
      }
    }
    FieldsOfThreeWords(a, b, c);
    RequestLineOutcome(line);
  }

  /** A line of two words has no CRLF and too few fields. */
  lemma TwoWordLine(a: string, b: string)
    requires a != [] && NoSpace(a) && b != [] && NoSpace(b)
    ensures !HasCRLF(a + " " + b)
    ensures RequestLineFromString(a + " " + b) == Err(MalformedRequestLine)
  {
    var line := a + " " + b;
    forall i | 0 <= i < |line| ensures line[i] != '\r' {
      if i < |a| {
        assert line[i] == a[i];
      } else if i > |a| {
        assert line[i] == b[i - |a| - 1];
      }
    }
    FieldsOfTwoWords(a, b);
    RequestLineOutcome(line);
  }

  // Request lines of the tests, each followed by any bytes and read in any chunk size.

  /** request_test.go: a good GET request line, whatever headers follow. */
  lemma GoodGetRequest(rest: string, size: nat)
    requires size > 0
    ensures RequestFromReader(Reader(ChunksOf("GET / HTTP/1.1" + CRLF + rest, size), false))
         == Ok(Request(RequestLine("GET", "/", "1.1")))
  {
    assert "GET / HTTP/1.1" == "GET" + " " + "/" + " " + "HTTP/1.1";
    ThreeWordLine("GET", "/", "HTTP/1.1");
    ChunkedRequest("GET / HTTP/1.1", rest, size);
  }

  /** request_test.go: a GET with a path, read one byte at a time, body included. */
  lemma GoodGetWithPath(rest: string)
    ensures RequestFromReader(Reader(ChunksOf("GET /coffee HTTP/1.1" + CRLF + rest, 1), false))
         == Ok(Request(RequestLine("GET", "/coffee", "1.1")))
  {
    assert "GET /coffee HTTP/1.1" == "GET" + " " + "/coffee" + " " + "HTTP/1.1";
    ThreeWordLine("GET", "/coffee", "HTTP/1.1");
    ChunkedRequest("GET /coffee HTTP/1.1", rest, 1);
  }

  /** request_test.go: a POST read in one chunk as large as the request. */
  lemma GoodPost(rest: string)
    ensures RequestFromReader(Reader(ChunksOf("POST /coffee HTTP/1.1" + CRLF + rest, 86), false))
         == Ok(Request(RequestLine("POST", "/coffee", "1.1")))
  {
    assert "POST /coffee HTTP/1.1" == "POST" + " " + "/coffee" + " " + "HTTP/1.1";
    ThreeWordLine("POST", "/coffee", "HTTP/1.1");
    ChunkedRequest("POST /coffee HTTP/1.1", rest, 86);
  }

  /** request_test.go: two fields instead of three. */
  lemma WrongFieldCount(rest: string)
    ensures RequestFromReader(Reader(ChunksOf("/coffee HTTP/1.1" + CRLF + rest, 5), false))
         == Err(MalformedRequestLine)
  {
    assert "/coffee HTTP/1.1" == "/coffee" + " " + "HTTP/1.1";
    TwoWordLine("/coffee", "HTTP/1.1");
    ChunkedRequest("/coffee HTTP/1.1", rest, 5);
  }

  /** No method starts with '/', so a target in first position is never a method. */
  lemma TargetIsNoMethod(t: string)
    requires "/" <= t
    ensures t !in HttpMethods
  {
    forall i | 0 <= i < |HttpMethods| ensures HttpMethods[i] != t {
      assert HttpMethods[i][0] != '/';
    }
  }

  /** request_test.go: fields in the wrong order fail the method check. */
  lemma WrongOrder(rest: string)
    ensures RequestFromReader(Reader(ChunksOf("/coffee GET HTTP/1.1" + CRLF + rest, 28), false))
         == Err(IncorrectMethod)
  {
    assert "/coffee GET HTTP/1.1" == "/coffee" + " " + "GET" + " " + "HTTP/1.1";
    TargetIsNoMethod("/coffee");
    ThreeWordLine("/coffee", "GET", "HTTP/1.1");
    ChunkedRequest("/coffee GET HTTP/1.1", rest, 28);
  }

  /** request_test.go, the case meant to show an invalid version: the method
      check runs first, so "/coffee GET HTTP/2.1" is refused for its method. */
  lemma MethodCheckedBeforeVersion(rest: string)
    ensures RequestFromReader(Reader(ChunksOf("/coffee GET HTTP/2.1" + CRLF + rest, 4), false))
         == Err(IncorrectMethod)
  {
    assert "/coffee GET HTTP/2.1" == "/coffee" + " " + "GET" + " " + "HTTP/2.1";
    TargetIsNoMethod("/coffee");
    ThreeWordLine("/coffee", "GET", "HTTP/2.1");
    ChunkedRequest("/coffee GET HTTP/2.1", rest, 4);
  }

  /** Version "HTTP/2.1" is refused. */
  lemma VersionTwoRefused()
    ensures RequestLineFromString("GET / HTTP/2.1") == Err(MalformedVersion)
  {
    assert "GET / HTTP/2.1" == "GET" + " " + "/" + " " + "HTTP/2.1";
    ThreeWordLine("GET", "/", "HTTP/2.1");
  }

  /** A version with a further '/'-piece after "HTTP/1.1" is accepted. */
  lemma VersionWithSuffixAccepted()
    ensures RequestLineFromString("GET / HTTP/1.1/x") == Ok(RequestLine("GET", "/", "1.1"))
  {
    assert "GET / HTTP/1.1/x" == "GET" + " " + "/" + " " + "HTTP/1.1/x";
    assert "HTTP/1.1/" <= "HTTP/1.1/x";
    ThreeWordLine("GET", "/", "HTTP/1.1/x");
  }

  /** A bare "HTTP" version reaches the out-of-range index. */
  lemma BareHttpVersionPanics()
    ensures RequestLineFromString("GET / HTTP") == IndexOutOfRange
  {
    assert "GET / HTTP" == "GET" + " " + "/" + " " + "HTTP";
    ThreeWordLine("GET", "/", "HTTP");
  }
}
