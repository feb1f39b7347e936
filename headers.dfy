/** The header-line parser of internal/headers/headers.go. One call looks at the
    first CRLF-terminated line of its input only: it reports "need more data"
    when there is no CRLF, "done" when the line is empty, and otherwise splits
    the line at its first ':', checks the name against the pattern
    ^\s*[A-Za-z0-9!#$%&'*+-.^_`|~]+$, and stores the trimmed, lower-cased name
    with the trimmed value in the receiver map, merging duplicates. */
module Headers {
  import opened Strings

  // ---------------------------------------------------------------------------
  // The field-name pattern
  // ---------------------------------------------------------------------------

  /** `\s` in the syntax of Go's regexp package: tab, line feed, form feed,
      carriage return and space (vertical tab is not among them). */
  predicate IsRegexSpace(c: char) {
    c == '\t' || c == '\n' || c == 12 as char || c == '\r' || c == ' '
  }

  /** One character of the class [A-Za-z0-9!#$%&'*+-.^_`|~]. The characters
      '#' to '\'' are consecutive; inside the class, `+-.` is the range from '+'
      to '.', so ',' belongs to it as well. */
  predicate IsNameChar(c: char) {
    ('A' <= c <= 'Z') || ('a' <= c <= 'z') || ('0' <= c <= '9') ||
    c == '!' || ('#' <= c <= '\'') || c == '*' || ('+' <= c <= '.') ||
    c == '^' || c == '_' || c == '`' || c == '|' || c == '~'
  }

  predicate AllRegexSpace(s: string) {
    forall i :: 0 <= i < |s| ==> IsRegexSpace(s[i])
  }

  predicate AllNameChars(s: string) {
    forall i :: 0 <= i < |s| ==> IsNameChar(s[i])
  }

  /** What the anchored pattern ^\s*[class]+$ matches: some white space, then at
      least one class character, then the end of the text. */
  ghost predicate MatchesNamePattern(name: string) {
    exists k :: 0 <= k < |name| && AllRegexSpace(name[..k]) && AllNameChars(name[k..])
  }

  /** `s` without its leading `\s` characters. */
  function SkipRegexSpace(s: string): (r: string)
    ensures |r| <= |s| && r == s[|s| - |r|..]
    ensures AllRegexSpace(s[..|s| - |r|])
    ensures r == [] || !IsRegexSpace(r[0])
  {
    if s != [] && IsRegexSpace(s[0]) then
      var t := SkipRegexSpace(s[1..]);
      SkipRegexSpaceStep(s, t);
      t
    else
      s
  }

  /** One leading `\s` more in front of what SkipRegexSpace returned. */
  lemma SkipRegexSpaceStep(s: string, t: string)
    requires s != [] && IsRegexSpace(s[0])
    requires |t| <= |s| - 1 && t == s[1..][|s| - 1 - |t|..] && AllRegexSpace(s[1..][..|s| - 1 - |t|])
    ensures t == s[|s| - |t|..] && AllRegexSpace(s[..|s| - |t|])
  {
    assert s[..|s| - |t|] == [s[0]] + s[1..][..|s| - 1 - |t|];
  }

  /** The scanner that stands in for the regular expression. */
  predicate ValidFieldName(name: string): (r: bool)
    ensures r ==> name != [] && IsNameChar(name[|name| - 1])
  {
    SkippedNameShape(name);
    var t := SkipRegexSpace(name);
    t != [] && AllNameChars(t)
  }

  /** A name that is `\s` and then class characters ends in a class character. */
  lemma SkippedNameShape(name: string)
    ensures SkipRegexSpace(name) != [] && AllNameChars(SkipRegexSpace(name)) ==>
      name != [] && IsNameChar(name[|name| - 1])
  {
    if SkipRegexSpace(name) != [] && AllNameChars(SkipRegexSpace(name)) {
      SkipKeepsRest(name, |name| - 1);
    }
  }

  lemma {:induction false} SkipRegexSpaceExactly(s: string, k: nat)
    requires k < |s| && AllRegexSpace(s[..k]) && !IsRegexSpace(s[k])
    ensures SkipRegexSpace(s) == s[k..]
    decreases k
  {
    if k > 0 {
      assert IsRegexSpace(s[..k][0]);
      assert s[1..][..k - 1] == s[..k][1..];
      SkipRegexSpaceExactly(s[1..], k - 1);
      assert s[1..][k - 1..] == s[k..];
    }
  }

  /** The scanner accepts exactly the names the pattern matches. */
  lemma ValidFieldNameMatchesPattern(name: string)
    ensures ValidFieldName(name) <==> MatchesNamePattern(name)
  {
    if ValidFieldName(name) {
      ValidNameMatches(name);
    }
    if MatchesNamePattern(name) {
      var k :| 0 <= k < |name| && AllRegexSpace(name[..k]) && AllNameChars(name[k..]);
      MatchIsValidName(name, k);
    }
  }

  lemma ValidNameMatches(name: string)
    requires ValidFieldName(name)
    ensures MatchesNamePattern(name)
  {
    var k := |name| - |SkipRegexSpace(name)|;
    assert AllRegexSpace(name[..k]) && AllNameChars(name[k..]);
  }

  lemma MatchIsValidName(name: string, k: nat)
    requires k < |name| && AllRegexSpace(name[..k]) && AllNameChars(name[k..])
    ensures ValidFieldName(name)
  {
    assert IsNameChar(name[k..][0]);
    NameCharClass(name[k]);
    SkipRegexSpaceExactly(name, k);
  }

  /** White space between the name and the colon is refused: a name that ends
      in white space (of any kind, including vertical tab) never matches. */
  lemma TrailingSpaceRejected(name: string)
    requires name != [] && IsSpace(name[|name| - 1])
    ensures !ValidFieldName(name)
  {
    var t := SkipRegexSpace(name);
    NameCharClass(name[|name| - 1]);
    if t != [] {
      assert t[|t| - 1] == name[|name| - 1];
    }
  }

  /** A class character is neither white space nor `\s`, nor the colon that
      ends a name, nor a carriage return. */
  lemma NameCharClass(c: char)
    ensures IsNameChar(c) ==> !IsSpace(c) && !IsRegexSpace(c) && c != ':' && c != '\r'
  {
  }

  /** Once a character other than `\s` has been seen, every later character
      must be in the class: a character outside it (such as '?', '<', '>', or a
      space inside the name) is refused. With j == i this covers a character
      that is neither `\s` nor in the class, wherever it stands. */
  lemma ForeignCharRejected(name: string, j: nat, i: nat)
    requires j <= i < |name| && !IsRegexSpace(name[j]) && !IsNameChar(name[i])
    ensures !ValidFieldName(name)
  {
    SkipStopsAt(name, j);
    SkipKeepsRest(name, i);
    OutsideClass(SkipRegexSpace(name), i - (|name| - |SkipRegexSpace(name)|));
  }

  /** What is left after skipping is the rest of the text, character by character. */
  lemma SkipKeepsRest(s: string, i: nat)
    requires |s| - |SkipRegexSpace(s)| <= i < |s|
    ensures SkipRegexSpace(s)[i - (|s| - |SkipRegexSpace(s)|)] == s[i]
  {
  }

  lemma OutsideClass(t: string, k: nat)
    requires k < |t| && !IsNameChar(t[k])
    ensures !AllNameChars(t)
  {
  }

  /** Skipping stops at the latest at the first character that is not `\s`. */
  lemma SkipStopsAt(s: string, j: nat)
    requires j < |s| && !IsRegexSpace(s[j])
    ensures |s| - |SkipRegexSpace(s)| <= j
  {
    var k := |s| - |SkipRegexSpace(s)|;
    forall i | 0 <= i < k ensures IsRegexSpace(s[i]) {
      assert s[..k][i] == s[i];
    }
  }

  // ---------------------------------------------------------------------------
  // One field line
  // ---------------------------------------------------------------------------

  /** Every error of the code is reported as a malformed header; the kinds
      tell the two checks apart. */
  datatype HeaderError = MissingColon | InvalidFieldName

  datatype Option<T> = None | Some(value: T)

  datatype Field = Field(name: string, value: string)

  datatype FieldResult = Parsed(field: Field) | Failed(error: HeaderError)

  /** A key as the parser stores it: a non-empty run of class characters
      without upper-case letters. */
  predicate IsCanonicalKey(k: string) {
    k != [] && AllNameChars(k) && forall i :: 0 <= i < |k| ==> !IsUpper(k[i])
  }

  /** A value as the parser stores it: no white space at either end. */
  predicate IsTrimmed(v: string) {
    v == [] || (!IsSpace(v[0]) && !IsSpace(v[|v| - 1]))
  }

  /** A name that passed the check loses exactly its leading white space to
      TrimSpace. */
  lemma TrimValidName(name: string)
    requires ValidFieldName(name)
    ensures TrimSpace(name) == SkipRegexSpace(name)
  {
    var t := SkipRegexSpace(name);
    var ws := name[..|name| - |t|];
    assert name == ws + t + "";
    NameCharClass(t[0]);
    NameCharClass(t[|t| - 1]);
    TrimSpacePadded(ws, t, "");
  }

  /** Lower-casing keeps class characters in the class. */
  lemma LowerNameChars(t: string)
    requires t != [] && AllNameChars(t)
    ensures IsCanonicalKey(ToLower(t))
  {
    var key := ToLower(t);
    forall i | 0 <= i < |key| ensures IsNameChar(key[i]) {
      assert IsNameChar(t[i]);
    }
  }

  /** A name that passed the check becomes a canonical key. */
  lemma KeyOfValidName(name: string)
    requires ValidFieldName(name)
    ensures TrimSpace(name) == SkipRegexSpace(name)
    ensures IsCanonicalKey(ToLower(TrimSpace(name)))
  {
    TrimValidName(name);
    LowerNameChars(SkipRegexSpace(name));
  }

  /** Splits a line (without its CRLF) at the first ':' and checks the name. */
  function ParseFieldLine(line: string): (r: FieldResult)
    ensures r == Failed(MissingColon) <==> ':' !in line
    ensures r.Parsed? ==> IsCanonicalKey(r.field.name) && IsTrimmed(r.field.value)
  {
    var cut := Cut(line, ':');
    if !cut.found then
      Failed(MissingColon)
    else if !ValidFieldName(cut.before) then
      Failed(InvalidFieldName)
    else
      KeyOfValidName(cut.before);
      Parsed(Field(ToLower(TrimSpace(cut.before)), TrimSpace(cut.after)))
  }

  /** Stores `value` under `key`; a key already present keeps its old value
      followed by ", " and the new one. */
  function Combine(m: map<string, string>, key: string, value: string): (r: map<string, string>)
    ensures r.Keys == m.Keys + {key}
    ensures key in m ==> r[key] == m[key] + ", " + value
    ensures key !in m ==> r[key] == value
    ensures forall k :: k in m && k != key ==> r[k] == m[k]
  {
    if key in m then m[key := m[key] + ", " + value] else m[key := value]
  }

  // ---------------------------------------------------------------------------
  // Headers.Parse
  // ---------------------------------------------------------------------------

  /** What one call of Parse returns, with the map it leaves behind. */
  datatype ParseResult = ParseResult(n: int, done: bool, err: Option<HeaderError>, headers: map<string, string>)

  /** One call of Parse on `data` with the map `m`. */
  function ParseHeaderLine(m: map<string, string>, data: string): (r: ParseResult)
    ensures r == ParseResult(0, false, None, m) <==> !HasCRLF(data)
    ensures r.done <==> CRLFAt(data, 0)
    ensures r.done ==> r == ParseResult(0, true, None, m)
    ensures r.err.Some? ==> r.n == 0 && !r.done && r.headers == m
    ensures r.n == 0 ==> r.headers == m
    ensures r.n != 0 ==> !r.done && r.err.None? && HasCRLF(data) && r.n == IndexOfCRLF(data) + 2
    ensures m.Keys <= r.headers.Keys
    ensures forall k :: k in r.headers && k !in m ==> IsCanonicalKey(k)
    ensures forall k :: k in m && !IsCanonicalKey(k) ==> r.headers[k] == m[k]
  {
    var crlfIndex := IndexOfCRLF(data);
    if crlfIndex == -1 then
      ParseResult(0, false, None, m)
    else if crlfIndex == 0 then
      ParseResult(0, true, None, m)
    else
      match ParseFieldLine(data[..crlfIndex])
      case Failed(e) => ParseResult(0, false, Some(e), m)
      case Parsed(f) => ParseResult(crlfIndex + 2, false, None, Combine(m, f.name, f.value))
  }

  // ---------------------------------------------------------------------------
  // What one call does
  // ---------------------------------------------------------------------------

  /** The line is split at its first ':', so the value may itself hold colons;
      the name pattern alone decides acceptance, the key is the name without
      its leading white space, lower-cased, and the value is trimmed. */
  lemma FieldLineSplit(name: string, value: string)
    requires ':' !in name
    ensures ParseFieldLine(name + [':'] + value) ==
      if MatchesNamePattern(name) then Parsed(Field(ToLower(SkipRegexSpace(name)), TrimSpace(value)))
      else Failed(InvalidFieldName)
  {
    CutAtFirst(name, ':', value);
    ValidFieldNameMatchesPattern(name);
    if ValidFieldName(name) {
      KeyOfValidName(name);
    }
  }

  /** White space followed by class characters is a valid name whose leading
      white space is all that the scanner skips. */
  lemma SpacedNameValid(ws: string, name: string)
    requires AllRegexSpace(ws) && name != [] && AllNameChars(name)
    ensures ValidFieldName(ws + name) && SkipRegexSpace(ws + name) == name
  {
    var full := ws + name;
    assert full[..|ws|] == ws && full[|ws|..] == name;
    assert IsNameChar(name[0]);
    SkipRegexSpaceExactly(full, |ws|);
  }

  lemma NoColonInSpacedName(ws: string, name: string)
    requires AllRegexSpace(ws) && AllNameChars(name)
    ensures ':' !in ws + name
  {
    var full := ws + name;
    forall i | 0 <= i < |full| ensures full[i] != ':' {
      if i >= |ws| {
        NameCharClass(name[i - |ws|]);
      }
    }
  }

  /** A name made of `\s` characters and then class characters is accepted and
      keyed by its lower-cased class characters. */
  lemma FieldAccepted(ws: string, name: string, value: string)
    requires AllRegexSpace(ws) && name != [] && AllNameChars(name)
    ensures ParseFieldLine(ws + name + [':'] + value) == Parsed(Field(ToLower(name), TrimSpace(value)))
  {
    NoColonInSpacedName(ws, name);
    CutAtFirst(ws + name, ':', value);
    SpacedNameValid(ws, name);
    TrimValidName(ws + name);
  }

  /** White space right before the colon makes the line malformed. */
  lemma SpaceBeforeColonRejected(name: string, value: string)
    requires ':' !in name && name != [] && IsSpace(name[|name| - 1])
    ensures ParseFieldLine(name + [':'] + value) == Failed(InvalidFieldName)
  {
    CutAtFirst(name, ':', value);
    TrailingSpaceRejected(name);
  }

  /** A character outside the class after the first character other than
      `\s` makes the line malformed. */
  lemma ForeignNameCharRejected(name: string, value: string, j: nat, i: nat)
    requires ':' !in name && j <= i < |name| && !IsRegexSpace(name[j]) && !IsNameChar(name[i])
    ensures ParseFieldLine(name + [':'] + value) == Failed(InvalidFieldName)
  {
    CutAtFirst(name, ':', value);
    ForeignCharRejected(name, j, i);
  }

  /** Field names are case-insensitive: two names that agree letter by letter
      up to case give the same field. */
  lemma CaseInsensitiveField(ws: string, a: string, b: string, value: string)
    requires AllRegexSpace(ws) && a != [] && AllNameChars(a) && AllNameChars(b)
    requires |a| == |b| && forall i :: 0 <= i < |a| ==> LowerChar(a[i]) == LowerChar(b[i])
    ensures ParseFieldLine(ws + a + [':'] + value) == ParseFieldLine(ws + b + [':'] + value)
  {
    FieldAccepted(ws, a, value);
    FieldAccepted(ws, b, value);
    SameLower(a, b);
  }

  /** Only the first line is looked at: what follows its CRLF never matters. */
  lemma OneLinePerCall(m: map<string, string>, line: string, rest: string)
    requires !HasCRLF(line)
    ensures ParseHeaderLine(m, line + CRLF + rest) == ParseHeaderLine(m, line + CRLF)
  {
    assert line + CRLF == line + CRLF + "";
    IndexOfCRLFAfterLine(line, rest);
    IndexOfCRLFAfterLine(line, "");
    assert (line + CRLF + rest)[..|line|] == line;
    assert (line + CRLF + "")[..|line|] == line;
  }

  /** An accepted field line is consumed together with its CRLF, and its value
      is inserted under the lower-cased name or merged into the value there. */
  lemma FieldLineAccepted(m: map<string, string>, ws: string, name: string, value: string, rest: string)
    requires AllRegexSpace(ws) && name != [] && AllNameChars(name)
    requires !HasCRLF(ws + name + [':'] + value)
    ensures ParseHeaderLine(m, ws + name + [':'] + value + CRLF + rest)
         == ParseResult(|ws| + |name| + |value| + 3, false, None, Combine(m, ToLower(name), TrimSpace(value)))
  {
    var line := ws + name + [':'] + value;
    IndexOfCRLFAfterLine(line, rest);
    assert (line + CRLF + rest)[..|line|] == line;
    FieldAccepted(ws, name, value);
  }

  /** A rejected field line consumes nothing and leaves the map alone. */
  lemma FieldLineRejected(m: map<string, string>, line: string, rest: string)
    requires !HasCRLF(line) && line != [] && ParseFieldLine(line).Failed?
    ensures ParseHeaderLine(m, line + CRLF + rest) == ParseResult(0, false, Some(ParseFieldLine(line).error), m)
  {
    IndexOfCRLFAfterLine(line, rest);
    assert (line + CRLF + rest)[..|line|] == line;
  }

  /** One call on a line whose name differs only in case gives the same bytes
      consumed and the same map: both spellings address one key. */
  lemma CaseInsensitiveLine(m: map<string, string>, ws: string, a: string, b: string, value: string, rest: string)
    requires AllRegexSpace(ws) && a != [] && AllNameChars(a) && AllNameChars(b)
    requires |a| == |b| && forall i :: 0 <= i < |a| ==> LowerChar(a[i]) == LowerChar(b[i])
    requires !HasCRLF(ws + a + [':'] + value) && !HasCRLF(ws + b + [':'] + value)
    ensures ParseHeaderLine(m, ws + a + [':'] + value + CRLF + rest)
         == ParseHeaderLine(m, ws + b + [':'] + value + CRLF + rest)
  {
    FieldLineAccepted(m, ws, a, value, rest);
    FieldLineAccepted(m, ws, b, value, rest);
    SameLower(a, b);
  }

  /** The header map of a request, keyed by field name. */
  class Headers {
    var entries: map<string, string>

    /** NewHeaders: an empty map. */
    constructor ()
      ensures entries == map[]
    {
      entries := map[];
    }

    /** Parses the first line of `data` into the map; returns the number of
        bytes consumed, whether the blank line ending the headers was seen,
        and the error, if any. */
    method Parse(data: string) returns (n: int, done: bool, err: Option<HeaderError>)
      modifies this
      ensures ParseResult(n, done, err, entries) == ParseHeaderLine(old(entries), data)
    {
      var crlfIndex := IndexOfCRLF(data);
      if crlfIndex == -1 {
        return 0, false, None;
      }
      if crlfIndex == 0 {
        return 0, true, None;
      }
      var field := ReadField(data[..crlfIndex]);
      if field.Failed? {
        return 0, false, Some(field.error);
      }
      entries := Combine(entries, field.field.name, field.field.value);
      return crlfIndex + 2, false, None;
    }

    /** The method form of ParseFieldLine: the steps of Parse between finding
        the line and storing the field (cut at the first ':', check the name,
        trim and lower-case it, trim the value), kept apart from Parse so that
        each proof stays small. */
    static method ReadField(line: string) returns (r: FieldResult)
      ensures r == ParseFieldLine(line)
    {
      var cut := Cut(line, ':');
      if !cut.found {
        return Failed(MissingColon);
      }
      if !ValidFieldName(cut.before) {
        return Failed(InvalidFieldName);
      }
      var name := ToLower(TrimSpace(cut.before));
      var value := TrimSpace(cut.after);
      return Parsed(Field(name, value));
    }
  }
}
