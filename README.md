# httpfromtcp: request-line and header-line parsing, in Dafny

This project models the two parsers of the Go repository httpfromtcp:

- **The request-line parser** (`internal/request/request.go`). `RequestFromReader` reads the whole byte source. `parseRequestLine` takes the text before the first CRLF. `requestLineFromString` splits that text into white-space separated fields. It checks, in this order: the field count, the method (one of nine verbs, case-sensitive), the origin-form target (a leading `/`) and the version (split on `/`; the pieces must start with `HTTP` and `1.1`).
- **The header-line parser** (`internal/headers/headers.go`). `Headers.Parse` looks at the first CRLF-terminated line of its input. It reports "need more data" when there is no CRLF and "done" when the CRLF is at offset 0. Otherwise it cuts the line at its first `:` and checks the name against `^\s*[A-Za-z0-9!#$%&'*+-.^_`|~]+$`. It then stores the trimmed, lower-cased name with the trimmed value in the receiver map, merging a duplicate as `old + ", " + new`, and returns the number of bytes consumed.

Files:

- `strings.dfy` (module `Strings`): the parts of Go's `strings` and `bytes` packages the parsers call. The parsers call `Index` with `"\r\n"`, `Cut`, `Split`, `TrimSpace`, `ToLower` and `Fields`. `Cut` finds its separator with a one-byte `Index`, and `Join` appears only as the inverse that `Split` is proved against. All have byte (ASCII) semantics.
- `request.dfy` (module `Request`): `request.go` as pure functions.
  - The byte source is a `Reader`: the chunks its reads return, plus whether it ends in a read error.
  - The run-time panic on a bare `HTTP` version is the distinct outcome `IndexOutOfRange`.
- `headers.dfy` (module `Headers`):
  - The name check is a character-class scanner, proved equivalent to the anchored pattern.
  - `ParseHeaderLine` is the specification of one call.
  - The Go map type with its `Parse` method is the class `Headers`. Its field `entries` is updated in place, and `Parse` is proved to implement `ParseHeaderLine`.
- `request_examples.dfy` and `headers_examples.dfy`: the inputs of `request_test.go` and `headers_test.go`, and further inputs at the code's edges, derived from the general lemmas.

Where the code and its tests, or the usual reading of HTTP/1.1, disagree, the model follows the code:

- **Field splitting.** The request line is split on runs of white space (`strings.Fields`), not on single spaces.
- **Missing CRLF in the request line.** A missing CRLF is an error, not a "need more data" result.
- **Version.** Any version whose `/`-pieces start with `HTTP`, `1.1` is accepted, so `HTTP/1.1/x` is accepted as well as `HTTP/1.1`. A bare `HTTP` indexes out of range.
- **Test expecting a version error.** The case in `request_test.go` meant to show a bad version (`/coffee GET HTTP/2.1`) is refused at the method check.
- **No headers on `Request`.**
  - `Request` has no header field, and `RequestFromReader` parses only the request line.
  - The header cases of `request_test.go` are therefore modelled as calls of `Headers.Parse`, one line at a time.
  - Their "missing end of headers" and "malformed header" inputs do not make `RequestFromReader` fail. `GoodGetRequest` holds for any bytes after the request line.
- **Stored key.** The key is the lower-cased name: `headers_test.go` looks up `"Host"`, but the code stores `"host"`.
- **`Host localhost:42069`.** This line holds a `:`, so it is refused for its name (`InvalidFieldName`), not for a missing colon.
- **Comma in names.** Inside the name class, `+-.` is the range `'+'..'.'`, so `,` is accepted in names.

## Model

| member | source | states |
|---|---|---|
| Strings.IndexOfCRLF | internal/request/request.go:50 | the offset of the first CRLF, or -1 exactly when there is none |
| Strings.IndexOfCRLFAfterLine | internal/headers/headers.go:16 | for a line without CRLF followed by CRLF and anything, the first CRLF is right after the line |
| Strings.IndexOfCRLFAppend | internal/request/request.go:50 | appending bytes never moves a CRLF already present |
| Strings.Cut | internal/headers/headers.go:27 | `found` iff the separator occurs; then the text is before + sep + after with no separator in before; otherwise before is the whole text |
| Strings.CutAtFirst | internal/headers/headers.go:27 | cutting a + sep + b, where a has no separator, gives (a, b, true): the cut is at the first separator, so the value may hold colons |
| Strings.Split | internal/request/request.go:81 | at least one piece, and no piece holds the separator |
| Strings.JoinSplit | internal/request/request.go:81 | joining the pieces of Split with the separator gives back the text |
| Strings.SplitJoin | internal/request/request.go:81 | splitting joined pieces that hold no separator gives back the pieces |
| Strings.TrimSpace | internal/headers/headers.go:40 | the result is no longer than the text and has no white space at either end |
| Strings.TrimSpacePadded | internal/headers/headers.go:37-40 | TrimSpace removes exactly the white-space padding around a value with non-space ends |
| Strings.ToLower | internal/headers/headers.go:38 | same length, every upper-case ASCII letter becomes its lower-case letter (code + 32), every other character unchanged, so no upper-case letter is left |
| Strings.SameLower | internal/headers/headers.go:38 | two texts equal letter by letter up to case lower-case to the same text |
| Strings.Fields | internal/request/request.go:63 | every field is non-empty and free of white space |
| Strings.FieldsAfterSpace | internal/request/request.go:63 | leading white space never changes the fields |
| Strings.FieldsOfWord | internal/request/request.go:63 | a word followed by white space or nothing is the first field |
| Strings.FieldsOfSpaced | internal/request/request.go:63 | Fields recovers the words from any layout with white-space runs between them and any white space at the ends |
| Request.RequestLineFromString | internal/request/request.go:62-92 | on success the method is one of the nine verbs, the target starts with '/', the version is "1.1", and they are the three fields with an accepted version field; the panic happens only for three fields with version "HTTP" |
| Request.ParseRequestLine | internal/request/request.go:48-60 | the missing-CRLF error happens exactly when the data holds no CRLF |
| Request.RequestFromReader | internal/request/request.go:32-46 | a read error is passed on exactly when the source fails; otherwise the result is a request exactly when the joined chunks parse, every parse error (a missing CRLF among them) and the out-of-range index are passed on unchanged; a request has a known method, a target starting with `/` and version `1.1` |
| Request.ChunkingIrrelevant | internal/request/request.go:32-38 | two sources delivering the same bytes, however split into reads, give the same result |
| Request.Concat | internal/request/request.go:33 | what `io.ReadAll` returns: the first chunk read is a prefix of the whole |
| Request.ConcatAppend | internal/request/request.go:33 | reading in two rounds gives the first round's bytes followed by the second's |
| Request.VersionCheck | internal/request/request.go:80-84 | the check on the '/'-pieces accepts exactly VersionAccepted, and indexes out of range exactly for "HTTP" |
| Request.SplitVersionIsAccepted | internal/request/request.go:81-82 | pieces "HTTP", "1.1", ... come only from an accepted version |
| Request.AcceptedVersionSplits | internal/request/request.go:81-82 | every accepted version splits into "HTTP", "1.1", ... |
| Request.RequestLineOutcome | internal/request/request.go:62-92 | the complete decision table: field count, then method, then target, then version, and the first failing check decides |
| Request.FirstLineDecides | internal/request/request.go:50-55 | for a line without CRLF, whatever follows its CRLF never changes the outcome |
| Request.TrailingBytesIgnored | internal/request/request.go:50-55 | appending bytes to data that already holds a CRLF never changes the outcome |
| Request.ChunksOf | internal/request/request_test.go:19-31 | every chunk of a read of at most `size` bytes is non-empty and at most `size` long |
| Request.ConcatChunksOf | internal/request/request_test.go:19-31 | the chunks joined give back the data |
| Request.ChunkSizeIrrelevant | internal/request/request.go:32-38 | the result is the same for every chunk size |
| Request.ChunkedRequest | internal/request/request.go:32-55 | a request line followed by anything, read in any chunk size, yields what the request line alone yields |
| RequestExamples.ThreeWordLine | internal/request/request.go:62-92 | a line of three words separated by spaces is decided by the decision table on those words |
| RequestExamples.TwoWordLine | internal/request/request.go:66-68 | a line of two words is a malformed request line |
| RequestExamples.GoodGetRequest | internal/request/request_test.go:35-45 | "GET / HTTP/1.1" then anything, in any chunk size, is (GET, /, 1.1) |
| RequestExamples.GoodGetWithPath | internal/request/request_test.go:47-63 | "GET /coffee HTTP/1.1" read a byte at a time is (GET, /coffee, 1.1) |
| RequestExamples.GoodPost | internal/request/request_test.go:65-70 | "POST /coffee HTTP/1.1" in chunks of 86 is (POST, /coffee, 1.1) |
| RequestExamples.WrongFieldCount | internal/request/request_test.go:72-78 | "/coffee HTTP/1.1" is a malformed request line |
| RequestExamples.TargetIsNoMethod | internal/request/request.go:13 | no verb starts with '/' |
| RequestExamples.WrongOrder | internal/request/request_test.go:80-86 | "/coffee GET HTTP/1.1" is refused at the method check |
| RequestExamples.MethodCheckedBeforeVersion | internal/request/request_test.go:88-94 | "/coffee GET HTTP/2.1" is refused at the method check, before its version is looked at |
| RequestExamples.VersionTwoRefused | internal/request/request.go:80-84 | version "HTTP/2.1" is refused |
| RequestExamples.VersionWithSuffixAccepted | internal/request/request.go:80-84 | version "HTTP/1.1/x" is accepted with version "1.1" |
| RequestExamples.BareHttpVersionPanics | internal/request/request.go:82 | version "HTTP" reaches the out-of-range index |
| Headers.SkipRegexSpace | internal/headers/headers.go:14 | the result is a suffix, everything skipped is `\s`, and the result does not start with `\s` |
| Headers.ValidFieldName | internal/headers/headers.go:33 | an accepted name is non-empty and ends in a class character (so not in white space) |
| Headers.ValidFieldNameMatchesPattern | internal/headers/headers.go:14 | the scanner accepts a name iff some `\s` prefix is followed by a non-empty run of class characters to the end |
| Headers.TrailingSpaceRejected | internal/headers/headers.go:33-35 | a name ending in white space (vertical tab included) is refused |
| Headers.NameCharClass | internal/headers/headers.go:14 | a class character is neither white space nor `\s`, nor ':' nor '\r' |
| Headers.ForeignCharRejected | internal/headers/headers.go:33-35 | a character outside the class at or after the first non-`\s` character makes the name invalid |
| Headers.TrimValidName | internal/headers/headers.go:37 | for a valid name, TrimSpace removes exactly the leading `\s` |
| Headers.LowerNameChars | internal/headers/headers.go:38 | lower-casing a run of class characters gives a canonical key |
| Headers.KeyOfValidName | internal/headers/headers.go:37-38 | a valid name yields a canonical key |
| Headers.ParseFieldLine | internal/headers/headers.go:27-40 | the missing-colon error happens exactly when the line has no ':'; a parsed field has a canonical key and a trimmed value |
| Headers.Combine | internal/headers/headers.go:44-48 | the keys gain `key`; an existing value becomes old + ", " + new, a new key gets the value, and every other key keeps its value |
| Headers.ParseHeaderLine | internal/headers/headers.go:13-51 | nothing changes exactly when there is no CRLF; done exactly when the CRLF is at offset 0, with n = 0; an error means n = 0, not done, map unchanged; otherwise n = first CRLF + 2; no key is lost, new keys are canonical, and non-canonical keys keep their values |
| Headers.FieldLineSplit | internal/headers/headers.go:27-40 | "name:value" with no ':' in name is accepted iff the name matches the pattern, keyed by the lower-cased name without leading `\s`, with the trimmed value |
| Headers.SpacedNameValid | internal/headers/headers.go:33 | `\s` followed by class characters is a valid name, and only the `\s` are skipped |
| Headers.FieldAccepted | internal/headers/headers.go:27-40 | `\s` + class characters + ':' + value parses to (lower-cased name, trimmed value) |
| Headers.CaseInsensitiveField | internal/headers/headers.go:37-38 | two valid names equal up to case give the same parsed field for every prefix of `\s` and every value |
| Headers.CaseInsensitiveLine | internal/headers/headers.go:37-48 | one call on lines whose names are equal up to case consumes the same bytes and yields the same map |
| Headers.SpaceBeforeColonRejected | internal/headers/headers.go:33-35 | white space right before the colon is an invalid field name |
| Headers.ForeignNameCharRejected | internal/headers/headers.go:33-35 | a foreign character in the name is an invalid field name |
| Headers.OneLinePerCall | internal/headers/headers.go:16-27 | only the first line is looked at: what follows its CRLF never matters |
| Headers.FieldLineAccepted | internal/headers/headers.go:37-50 | an accepted line is consumed with its CRLF and its value is inserted or merged under the lower-cased name |
| Headers.FieldLineRejected | internal/headers/headers.go:29-35 | a refused line consumes nothing, is not done, reports its error and leaves the map unchanged |
| Headers.Headers.constructor | internal/headers/headers.go:53-55 | NewHeaders: the map starts empty |
| Headers.Headers.Parse | internal/headers/headers.go:13-51 | the results and the new map are those of ParseHeaderLine on the old map |
| Headers.Headers.ReadField | internal/headers/headers.go:27-40 | cutting at the first `:`, checking the name and trimming and lower-casing give exactly ParseFieldLine of the line |
| HeadersExamples.AcceptedLine | internal/headers/headers.go:27-50 | a field line without carriage returns is accepted as FieldLineAccepted says |
| HeadersExamples.TrimOneSpace | internal/headers/headers.go:40 | the single space after the colon is trimmed |
| HeadersExamples.AcceptedSpaced | internal/headers/headers.go:27-50 | "name: value" is consumed whole and stores the value under the lower-cased name |
| HeadersExamples.AcceptedNamed | internal/headers/headers.go:27-50 | the same with no white space before the name |
| HeadersExamples.AcceptedEmpty | internal/headers/headers.go:40-48 | "name:" stores the empty value |
| HeadersExamples.RejectedName | internal/headers/headers.go:33-35 | a name with a foreign character is refused whatever follows |
| HeadersExamples.SingleHeader | internal/headers/headers_test.go:11-19 | "Host: localhost:42069" consumes 23 bytes and stores under "host" |
| HeadersExamples.LeadingWhitespace | internal/headers/headers_test.go:21-27 | leading white space before the name is accepted; 31 bytes consumed |
| HeadersExamples.ExistingHeaders | internal/headers/headers_test.go:29-40 | with "Host" and "Content-Length" present, the line adds "host" and the old keys keep their values |
| HeadersExamples.BlankLine | internal/headers/headers_test.go:42-48 | "\r\n" is done with 0 bytes consumed |
| HeadersExamples.SpaceBeforeColon | internal/headers/headers_test.go:50-56 | "       Host : ..." is refused with 0 bytes consumed |
| HeadersExamples.SpecialCharacters | internal/headers/headers_test.go:58-64 | every special character of the class is accepted; 23 bytes consumed |
| HeadersExamples.ForbiddenCharacters | internal/headers/headers_test.go:66-72 | '?' in the name is refused with 0 bytes consumed |
| HeadersExamples.MixedCaseName | internal/headers/headers.go:38 | "Host" stores under "host" |
| HeadersExamples.LowerCaseName | internal/request/request_test.go:132-142 | "host" stores under "host" |
| HeadersExamples.UpperCaseName | internal/headers/headers.go:38 | "HOST" stores under "host" |
| HeadersExamples.MixedCaseUserAgent | internal/request/request_test.go:132-142 | "User-agent: curl/7.81.0" stores under "user-agent", 25 bytes consumed |
| HeadersExamples.EmptyValue | internal/request/request_test.go:110-120 | "User-Agent:" stores the empty value |
| HeadersExamples.SpaceInsideName | internal/request/request_test.go:152-158 | "Host localhost:42069" is refused for its name |
| HeadersExamples.NoColon | internal/headers/headers.go:29-31 | a line without ':' is refused as missing its colon |
| HeadersExamples.CommaInName | internal/headers/headers.go:14 | ',' is a name character |
| HeadersExamples.SameNameThrice | internal/headers/headers.go:44-48 | three lines with one name, parsed by successive calls on one map, merge as a + ", " + b + ", " + c |
| HeadersExamples.DuplicateNamesMerge | internal/request/request_test.go:122-130 | Elias, Rob and Matt merge into "Elias, Rob, Matt" |

## Left out

- `main.go`, `cmd/tcplistener/main.go` and `cmd/udpsender/main.go` are not part of this model. They are TCP and UDP I/O loops with goroutines and channels.
- Blocking and partial reads of `io.Reader` are left out. The byte source is the sequence of chunks its reads return, and `io.ReadAll` is their concatenation. A read error other than end of stream is passed on as `ReadFailed`.
- The `chunkReader` test helper is modelled only as the chunk sequence it delivers (`ChunksOf`). Its clamping branch at `internal/request/request_test.go:27-30` can never run and is left out.
- The incremental feed state machine, the growable buffer and a header map on `Request` are left out, because the code has none of them.
- The regular-expression engine is replaced by a hand-written scanner. `ValidFieldNameMatchesPattern` proves the scanner matches the anchored pattern.
- Unicode is left out. Strings are sequences of bytes. White space for `Fields` and `TrimSpace` is space, `\t`, `\n`, `\v`, `\f` and `\r`. `\s` in the pattern excludes `\v`, as in Go's regexp syntax. `ToLower` maps ASCII letters only. Multi-byte UTF-8 white space and case folding are not modelled.
- Error messages are left out. Errors are kinds (`ErrorKind`, `HeaderError`), not formatted text.
- The if/else on key presence (`internal/headers/headers.go:44-48`) is written as one call of `Combine` inside `Headers.Parse`. The method therefore shows one map assignment where the code has two branches. `Combine` states both branches.
