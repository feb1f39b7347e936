/** The header lines exercised by internal/headers/headers_test.go and by the
    header cases of internal/request/request_test.go, derived from the general
    lemmas of module Headers. Inputs are written line by line, joined with
    CRLF. */
module HeadersExamples {
  import opened Strings
  import opened Headers

  /** A field line whose parts hold no carriage return ends at its CRLF, and
      is accepted as FieldLineAccepted describes. */
  lemma AcceptedLine(m: map<string, string>, ws: string, name: string, value: string, rest: string)
    requires AllRegexSpace(ws) && name != [] && AllNameChars(name)
    requires '\r' !in ws && '\r' !in value
    ensures ParseHeaderLine(m, ws + name + [':'] + value + CRLF + rest)
         == ParseResult(|ws| + |name| + |value| + 3, false, None, Combine(m, ToLower(name), TrimSpace(value)))
  {
    var line := ws + name + [':'] + value;
    forall i | 0 <= i < |line| ensures line[i] != '\r' {
      if i < |ws| {
        assert line[i] == ws[i];
      } else if i < |ws| + |name| {
        assert line[i] == name[i - |ws|];
        NameCharClass(name[i - |ws|]);
      } else if i > |ws| + |name| {
        assert line[i] == value[i - |ws| - |name| - 1];
      }
    }
    FieldLineAccepted(m, ws, name, value, rest);
  }

  /** TrimSpace removes the single space that follows the colon. */
  lemma TrimOneSpace(v: string)
    requires v != [] && !IsSpace(v[0]) && !IsSpace(v[|v| - 1])
    ensures TrimSpace(" " + v) == v
  {
    assert " " + v == " " + v + "";
    TrimSpacePadded(" ", v, "");
  }

  /** The usual shape "name: value", where the value has no white space at
      either end: it is stored under `key`, the lower-cased name. */
  lemma AcceptedSpaced(m: map<string, string>, ws: string, name: string, v: string, rest: string, key: string)
    requires AllRegexSpace(ws) && '\r' !in ws
    requires name != [] && AllNameChars(name) && ToLower(name) == key
    requires v != [] && '\r' !in v && !IsSpace(v[0]) && !IsSpace(v[|v| - 1])
    ensures ParseHeaderLine(m, ws + name + ": " + v + CRLF + rest)
         == ParseResult(|ws| + |name| + |v| + 4, false, None, Combine(m, key, v))
  {
    assert ws + name + ": " + v == ws + name + [':'] + (" " + v);
    assert '\r' !in " " + v;
    TrimOneSpace(v);
    AcceptedLine(m, ws, name, " " + v, rest);
  }

  /** AcceptedSpaced for a line with no white space before the name. */
  lemma AcceptedNamed(m: map<string, string>, name: string, v: string, rest: string, key: string)
    requires name != [] && AllNameChars(name) && ToLower(name) == key
    requires v != [] && '\r' !in v && !IsSpace(v[0]) && !IsSpace(v[|v| - 1])
    ensures ParseHeaderLine(m, name + ": " + v + CRLF + rest)
         == ParseResult(|name| + |v| + 4, false, None, Combine(m, key, v))
  {
    assert [] + name == name;
    AcceptedSpaced(m, [], name, v, rest, key);
  }

  /** A line "name:" with nothing after the colon stores the empty value. */
  lemma AcceptedEmpty(m: map<string, string>, name: string, rest: string)
    requires name != [] && AllNameChars(name)
    ensures ParseHeaderLine(m, name + ":" + CRLF + rest)
         == ParseResult(|name| + 3, false, None, Combine(m, ToLower(name), ""))
  {
    assert [] + name + [':'] + [] == name + ":";
    assert TrimSpace([]) == [];
    AcceptedLine(m, [], name, [], rest);
  }

  /** A line "name:value" whose name holds, after a character other than
      `\s`, a character outside the class is refused, whatever follows it. */
  lemma RejectedName(m: map<string, string>, name: string, value: string, rest: string, j: nat, i: nat)
    requires ':' !in name && '\r' !in name && '\r' !in value
    requires j <= i < |name| && !IsRegexSpace(name[j]) && !IsNameChar(name[i])
    ensures ParseHeaderLine(m, name + ":" + value + CRLF + rest) == ParseResult(0, false, Some(InvalidFieldName), m)
  {
    var line := name + ":" + value;
    forall k | 0 <= k < |line| ensures line[k] != '\r' {
      if k < |name| {
        assert line[k] == name[k];
      } else if k > |name| {
        assert line[k] == value[k - |name| - 1];
      }
    }
    ForeignNameCharRejected(name, value, j, i);
    FieldLineRejected(m, line, rest);
  }

  // headers_test.go; each input is written as its name, ": ", its value and
  // the CRLFs that follow.

  lemma HostParts()
    ensures AllNameChars("Host") && ToLower("Host") == "host"
    ensures '\r' !in "localhost:42069" && !IsSpace('l') && !IsSpace('9')
  {
  }

  /** "Host: localhost:42069\r\n\r\n": 23 bytes consumed, stored under "host"
      (the test looks up "Host", which the parser never stores). */
  lemma SingleHeader()
    ensures ParseHeaderLine(map[], "Host" + ": " + "localhost:42069" + CRLF + CRLF)
         == ParseResult(23, false, None, map["host" := "localhost:42069"])
  {
    HostParts();
    AcceptedNamed(map[], "Host", "localhost:42069", CRLF, "host");
  }

  /** "        Host: localhost:42069\r\n\n": white space before the name is
      allowed, and 31 bytes are consumed. */
  lemma LeadingWhitespace()
    ensures ParseHeaderLine(map[], "        " + "Host" + ": " + "localhost:42069" + CRLF + "\n")
         == ParseResult(31, false, None, map["host" := "localhost:42069"])
  {
    HostParts();
    AcceptedSpaced(map[], "        ", "Host", "localhost:42069", "\n", "host");
  }

  /** "Host: localhost:42069\r\nContent-Length: 69\r\n\r\n" with "Host" and
      "Content-Length" already present: only the first line is parsed (23
      bytes); its value goes to the new key "host", and the keys "Host" and
      "Content-Length" keep their old values. */
  lemma ExistingHeaders(rest: string)
    ensures var m := map["Host" := "localhost", "Content-Length" := "599"];
      ParseHeaderLine(m, "Host" + ": " + "localhost:42069" + CRLF + rest)
        == ParseResult(23, false, None, m["host" := "localhost:42069"])
  {
    var m := map["Host" := "localhost", "Content-Length" := "599"];
    HostParts();
    AcceptedNamed(m, "Host", "localhost:42069", rest, "host");
  }

  /** "\r\n": done, with nothing consumed. */
  lemma BlankLine()
    ensures ParseHeaderLine(map[], CRLF) == ParseResult(0, true, None, map[])
  {
    assert CRLFAt(CRLF, 0);
  }

  lemma SpacedHostParts()
    ensures var name := "       Host ";
      ':' !in name && '\r' !in name && name[7] == 'H' && name[11] == ' '
    ensures '\r' !in " localhost:42069       "
  {
  }

  /** "       Host : localhost:42069       \r\n\r\n": a space between the name
      and the colon is refused. */
  lemma SpaceBeforeColon()
    ensures ParseHeaderLine(map[], "       Host " + ":" + " localhost:42069       " + CRLF + CRLF)
         == ParseResult(0, false, Some(InvalidFieldName), map[])
  {
    SpacedHostParts();
    RejectedName(map[], "       Host ", " localhost:42069       ", CRLF, 7, 11);
  }

  lemma SpecialCharactersParts()
    ensures var name := "!#$%&'*+-.^_`|~";
      AllNameChars(name) && ToLower(name) == name
    ensures '\r' !in "boom" && !IsSpace('b') && !IsSpace('m')
  {
  }

  /** "!#$%&'*+-.^_`|~: boom\r\n\r\n": every special character of the class is
      accepted in a name. */
  lemma SpecialCharacters()
    ensures ParseHeaderLine(map[], "!#$%&'*+-.^_`|~" + ": " + "boom" + CRLF + CRLF)
         == ParseResult(23, false, None, map["!#$%&'*+-.^_`|~" := "boom"])
  {
    SpecialCharactersParts();
    AcceptedNamed(map[], "!#$%&'*+-.^_`|~", "boom", CRLF, "!#$%&'*+-.^_`|~");
  }

  lemma ForbiddenCharactersParts()
    ensures var name := "!#$%&'*+-.^_`|~?><hahaha";
      ':' !in name && '\r' !in name && name[15] == '?'
    ensures '\r' !in " boom"
  {
  }

  /** "!#$%&'*+-.^_`|~?><hahaha: boom\r\n\r\n": '?' is not in the class. */
  lemma ForbiddenCharacters()
    ensures ParseHeaderLine(map[], "!#$%&'*+-.^_`|~?><hahaha" + ":" + " boom" + CRLF + CRLF)
         == ParseResult(0, false, Some(InvalidFieldName), map[])
  {
    ForbiddenCharactersParts();
    RejectedName(map[], "!#$%&'*+-.^_`|~?><hahaha", " boom", CRLF, 15, 15);
  }

  // request_test.go, header lines fed to the parser one at a time

  lemma CaseParts()
    ensures AllNameChars("Host") && ToLower("Host") == "host"
    ensures AllNameChars("host") && ToLower("host") == "host"
    ensures AllNameChars("HOST") && ToLower("HOST") == "host"
  {
  }

  /** Names differing only in case address one key: "Host", "host" and "HOST"
      all store under "host". */
  lemma MixedCaseName(m: map<string, string>, rest: string)
    ensures ParseHeaderLine(m, "Host" + ": " + "x" + CRLF + rest) == ParseResult(9, false, None, Combine(m, "host", "x"))
  {
    CaseParts();
    AcceptedNamed(m, "Host", "x", rest, "host");
  }

  lemma LowerCaseName(m: map<string, string>, rest: string)
    ensures ParseHeaderLine(m, "host" + ": " + "x" + CRLF + rest) == ParseResult(9, false, None, Combine(m, "host", "x"))
  {
    CaseParts();
    AcceptedNamed(m, "host", "x", rest, "host");
  }

  lemma UpperCaseName(m: map<string, string>, rest: string)
    ensures ParseHeaderLine(m, "HOST" + ": " + "x" + CRLF + rest) == ParseResult(9, false, None, Combine(m, "host", "x"))
  {
    CaseParts();
    AcceptedNamed(m, "HOST", "x", rest, "host");
  }

  lemma UserAgentParts()
    ensures AllNameChars("User-Agent") && ToLower("User-Agent") == "user-agent"
  {
  }

  lemma MixedUserAgentParts()
    ensures AllNameChars("User-agent") && ToLower("User-agent") == "user-agent"
    ensures '\r' !in "curl/7.81.0" && !IsSpace('c') && !IsSpace('0')
  {
  }

  /** "User-agent: curl/7.81.0": a name with one upper-case letter is stored
      under its lower-case form. */
  lemma MixedCaseUserAgent(m: map<string, string>, rest: string)
    ensures ParseHeaderLine(m, "User-agent" + ": " + "curl/7.81.0" + CRLF + rest)
         == ParseResult(25, false, None, Combine(m, "user-agent", "curl/7.81.0"))
  {
    MixedUserAgentParts();
    AcceptedNamed(m, "User-agent", "curl/7.81.0", rest, "user-agent");
  }

  /** "User-Agent:": a value may be empty. */
  lemma EmptyValue(m: map<string, string>, rest: string)
    ensures ParseHeaderLine(m, "User-Agent" + ":" + CRLF + rest) == ParseResult(13, false, None, Combine(m, "user-agent", ""))
  {
    UserAgentParts();
    AcceptedEmpty(m, "User-Agent", rest);
  }

  lemma SpaceInsideNameParts()
    ensures var name := "Host localhost";
      ':' !in name && '\r' !in name && name[0] == 'H' && name[4] == ' '
    ensures '\r' !in "42069"
  {
  }

  /** "Host localhost:42069": its first ':' follows a space inside the name, so
      the line is refused for its name, not for a missing colon. */
  lemma SpaceInsideName(m: map<string, string>, rest: string)
    ensures ParseHeaderLine(m, "Host localhost" + ":" + "42069" + CRLF + rest) == ParseResult(0, false, Some(InvalidFieldName), m)
  {
    SpaceInsideNameParts();
    RejectedName(m, "Host localhost", "42069", rest, 0, 4);
  }

  lemma NoColonParts()
    ensures !HasCRLF("Host localhost") && ParseFieldLine("Host localhost") == Failed(MissingColon)
  {
    assert ':' !in "Host localhost";
  }

  /** "Host localhost": a line without any ':' is refused. */
  lemma NoColon(m: map<string, string>, rest: string)
    ensures ParseHeaderLine(m, "Host localhost" + CRLF + rest) == ParseResult(0, false, Some(MissingColon), m)
  {
    NoColonParts();
    FieldLineRejected(m, "Host localhost", rest);
  }

  lemma CommaParts()
    ensures AllNameChars("a,b") && ToLower("a,b") == "a,b"
  {
  }

  /** "a,b: c": ',' lies in the range '+'..'.' of the class and is accepted. */
  lemma CommaInName(m: map<string, string>, rest: string)
    ensures ParseHeaderLine(m, "a,b" + ": " + "c" + CRLF + rest) == ParseResult(8, false, None, Combine(m, "a,b", "c"))
  {
    CommaParts();
    AcceptedNamed(m, "a,b", "c", rest, "a,b");
  }

  lemma SetPersonParts()
    ensures AllNameChars("Set-Person") && ToLower("Set-Person") == "set-person"
    ensures '\r' !in "Elias" && '\r' !in "Rob" && '\r' !in "Matt"
    ensures "Elias" + ", " + "Rob" + ", " + "Matt" == "Elias, Rob, Matt"
  {
  }

  /** Three lines "name: a", "name: b", "name: c" followed by `rest`, fed to
      one fresh Headers, each call on what the previous one left: the values
      are merged in order under the lower-cased name. */
  method SameNameThrice(name: string, a: string, b: string, c: string, rest: string) returns (merged: string)
    requires name != [] && AllNameChars(name)
    requires a != [] && '\r' !in a && !IsSpace(a[0]) && !IsSpace(a[|a| - 1])
    requires b != [] && '\r' !in b && !IsSpace(b[0]) && !IsSpace(b[|b| - 1])
    requires c != [] && '\r' !in c && !IsSpace(c[0]) && !IsSpace(c[|c| - 1])
    ensures merged == a + ", " + b + ", " + c
  {
    var key := ToLower(name);
    var third := name + ": " + c + CRLF + rest;
    var second := name + ": " + b + CRLF + third;
    var first := name + ": " + a + CRLF + second;
    var h := new Headers();
    AcceptedNamed(h.entries, name, a, second, key);
    var n, done, err := h.Parse(first);
    AcceptedNamed(h.entries, name, b, third, key);
    n, done, err := h.Parse(second);
    AcceptedNamed(h.entries, name, c, rest, key);
    n, done, err := h.Parse(third);
    merged := h.entries[key];
  }

  /** "Set-Person: Elias\r\nSet-Person: Rob\r\nSet-Person: Matt\r\n\r\n":
      the three values end up as "Elias, Rob, Matt". */
  method DuplicateNamesMerge() returns (merged: string)
    ensures merged == "Elias, Rob, Matt"
  {
    SetPersonParts();
    merged := SameNameThrice("Set-Person", "Elias", "Rob", "Matt", CRLF);
  }
}
