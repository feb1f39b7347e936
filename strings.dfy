/** The parts of Go's `strings` and `bytes` packages that the request and
    header parsers rely on, restricted to single-byte (ASCII) semantics:
    every `char` of a `string` stands for one byte of the input. */
module Strings {

  const CRLF: string := "\r\n"

  /** White space as `strings.Fields` and `strings.TrimSpace` see a single byte:
      space, tab, line feed, vertical tab, form feed and carriage return. */
  predicate IsSpace(c: char) {
    c == ' ' || c == '\t' || c == '\n' || c == 11 as char || c == 12 as char || c == '\r'
  }

  predicate AllSpace(s: string) {
    forall i :: 0 <= i < |s| ==> IsSpace(s[i])
  }

  predicate NoSpace(s: string) {
    forall i :: 0 <= i < |s| ==> !IsSpace(s[i])
  }

  // ---------------------------------------------------------------------------
  // Searching: bytes.Index / strings.Index with "\r\n", strings.Index with a byte
  // ---------------------------------------------------------------------------

  /** A CRLF pair starts at offset `i` of `s`. */
  predicate CRLFAt(s: string, i: int) {
    0 <= i && i + 1 < |s| && s[i] == '\r' && s[i + 1] == '\n'
  }

  predicate HasCRLF(s: string) {
    exists i :: 0 <= i < |s| && CRLFAt(s, i)
  }

  /** Offset of the first CRLF in `s` at or after `from`, or -1 when there is none. */
  function FindCRLF(s: string, from: nat): (r: int)
    requires from <= |s|
    ensures r == -1 || from <= r < |s|
    ensures r == -1 ==> forall i :: from <= i ==> !CRLFAt(s, i)
    ensures r >= 0 ==> CRLFAt(s, r) && forall i :: from <= i < r ==> !CRLFAt(s, i)
    decreases |s| - from
  {
    if from + 1 >= |s| then -1
    else if CRLFAt(s, from) then from
    else FindCRLF(s, from + 1)
  }

  /** Offset of the first CRLF in `s`, or -1 when there is none. */
  function IndexOfCRLF(s: string): (r: int)
    ensures -1 <= r < |s|
    ensures r == -1 <==> !HasCRLF(s)
    ensures r >= 0 ==> CRLFAt(s, r) && forall i :: 0 <= i < r ==> !CRLFAt(s, i)
  {
    FindCRLF(s, 0)
  }

  /** Whatever follows a line without CRLF and its terminating CRLF cannot move
      the first CRLF: it is found right after the line. */
  lemma IndexOfCRLFAfterLine(line: string, rest: string)
    requires !HasCRLF(line)
    ensures IndexOfCRLF(line + CRLF + rest) == |line|
  {
    FindCRLFAfterLine(line, rest, 0);
  }

  lemma {:induction false} FindCRLFAfterLine(line: string, rest: string, from: nat)
    requires !HasCRLF(line) && from <= |line|
    ensures FindCRLF(line + CRLF + rest, from) == |line|
    decreases |line| - from
  {
    var s := line + CRLF + rest;
    if from < |line| {
      if from + 1 < |line| {
        assert s[from] == line[from] && s[from + 1] == line[from + 1];
        assert !CRLFAt(line, from);
      } else {
        assert s[from + 1] == '\r';
      }
      FindCRLFAfterLine(line, rest, from + 1);
    } else {
      assert CRLFAt(s, from);
    }
  }

  /** A CRLF already present in `s` is still the first one after appending. */
  lemma IndexOfCRLFAppend(s: string, rest: string)
    requires HasCRLF(s)
    ensures IndexOfCRLF(s + rest) == IndexOfCRLF(s)
  {
    var k := IndexOfCRLF(s);
    assert CRLFAt(s + rest, k);
    forall i | 0 <= i < k ensures !CRLFAt(s + rest, i) {
      assert !CRLFAt(s, i);
    }
  }

  /** Offset of the first `c` in `s` at or after `from`, or -1 when there is none. */
  function FindChar(s: string, c: char, from: nat): (r: int)
    requires from <= |s|
    ensures r == -1 || from <= r < |s|
    ensures r == -1 ==> forall i :: from <= i < |s| ==> s[i] != c
    ensures r >= 0 ==> s[r] == c && forall i :: from <= i < r ==> s[i] != c
    decreases |s| - from
  {
    if from == |s| then -1
    else if s[from] == c then from
    else FindChar(s, c, from + 1)
  }

  /** Offset of the first `c` in `s`, or -1 when `c` does not occur. */
  function IndexOf(s: string, c: char): (r: int)
    ensures -1 <= r < |s|
    ensures r == -1 <==> c !in s
    ensures r >= 0 ==> s[r] == c && c !in s[..r]
  {
    var r := FindChar(s, c, 0);
    assert r >= 0 ==> s[r] in s && forall i :: 0 <= i < |s[..r]| ==> s[..r][i] != c;
    r
  }

  lemma IndexOfAfterPrefix(a: string, c: char, b: string)
    requires c !in a
    ensures IndexOf(a + [c] + b, c) == |a|
  {
    FindCharAfterPrefix(a, c, b, 0);
  }

  lemma {:induction false} FindCharAfterPrefix(a: string, c: char, b: string, from: nat)
    requires c !in a && from <= |a|
    ensures FindChar(a + [c] + b, c, from) == |a|
    decreases |a| - from
  {
    var s := a + [c] + b;
    if from < |a| {
      assert s[from] == a[from];
      FindCharAfterPrefix(a, c, b, from + 1);
    } else {
      assert s[from] == c;
    }
  }

  // ---------------------------------------------------------------------------
  // strings.Cut
  // ---------------------------------------------------------------------------

  datatype CutResult = CutResult(before: string, after: string, found: bool)

  /** Splits `s` around the first `sep`; when there is none, `before` is all of `s`. */
  function Cut(s: string, sep: char): (r: CutResult)
    ensures r.found <==> sep in s
    ensures r.found ==> s == r.before + [sep] + r.after && sep !in r.before
    ensures !r.found ==> r.before == s && r.after == ""
  {
    var k := IndexOf(s, sep);
    if k < 0 then
      CutResult(s, "", false)
    else
      assert s == s[..k] + [sep] + s[k + 1..];
      CutResult(s[..k], s[k + 1..], true)
  }

  lemma CutAtFirst(a: string, sep: char, b: string)
    requires sep !in a
    ensures Cut(a + [sep] + b, sep) == CutResult(a, b, true)
  {
    var s := a + [sep] + b;
    IndexOfAfterPrefix(a, sep, b);
    assert s[..|a|] == a;
    assert s[|a| + 1..] == b;
  }

  // ---------------------------------------------------------------------------
  // strings.Split with a one-byte separator, and its inverse strings.Join
  // ---------------------------------------------------------------------------

  /** The pieces of `s` between occurrences of `sep`; never empty. */
  function Split(s: string, sep: char): (r: seq<string>)
    ensures |r| >= 1
    ensures forall i :: 0 <= i < |r| ==> sep !in r[i]
    decreases |s|
  {
    var k := IndexOf(s, sep);
    if k < 0 then [s] else [s[..k]] + Split(s[k + 1..], sep)
  }

  function Join(pieces: seq<string>, sep: char): string
  {
    if |pieces| == 0 then ""
    else if |pieces| == 1 then pieces[0]
    else pieces[0] + [sep] + Join(pieces[1..], sep)
  }

  lemma JoinCons(piece: string, tail: seq<string>, sep: char)
    requires |tail| >= 1
    ensures Join([piece] + tail, sep) == piece + [sep] + Join(tail, sep)
  {
    assert ([piece] + tail)[1..] == tail;
  }

  lemma SplitNoSeparator(s: string, sep: char)
    requires sep !in s
    ensures Split(s, sep) == [s]
  {
  }

  lemma SplitAfterPiece(piece: string, sep: char, rest: string)
    requires sep !in piece
    ensures Split(piece + [sep] + rest, sep) == [piece] + Split(rest, sep)
  {
    var s := piece + [sep] + rest;
    IndexOfAfterPrefix(piece, sep, rest);
    assert s[..|piece|] == piece;
    assert s[|piece| + 1..] == rest;
  }

  /** Joining the pieces with the separator gives back the original text. */
  lemma {:induction false} JoinSplit(s: string, sep: char)
    ensures Join(Split(s, sep), sep) == s
    decreases |s|
  {
    var k := IndexOf(s, sep);
    if k >= 0 {
      var tail := Split(s[k + 1..], sep);
      JoinSplit(s[k + 1..], sep);
      JoinCons(s[..k], tail, sep);
      assert s == s[..k] + [sep] + s[k + 1..];
    }
  }

  /** Splitting joined pieces that do not contain the separator gives them back. */
  lemma {:induction false} SplitJoin(pieces: seq<string>, sep: char)
    requires |pieces| >= 1
    requires forall i :: 0 <= i < |pieces| ==> sep !in pieces[i]
    ensures Split(Join(pieces, sep), sep) == pieces
  {
    if |pieces| == 1 {
      assert sep !in pieces[0];
    } else {
      var head, tail := pieces[0], pieces[1..];
      var rest := Join(tail, sep);
      var s := head + [sep] + rest;
      JoinCons(head, tail, sep);
      assert pieces == [head] + tail;
      assert Join(pieces, sep) == s;
      IndexOfAfterPrefix(head, sep, rest);
      assert s[..|head|] == head;
      assert s[|head| + 1..] == rest;
      SplitJoin(tail, sep);
    }
  }

  // ---------------------------------------------------------------------------
  // strings.TrimSpace
  // ---------------------------------------------------------------------------

  /** `s` without its leading white space. */
  function TrimLeft(s: string): (r: string)
    ensures |r| <= |s| && r == s[|s| - |r|..]
    ensures AllSpace(s[..|s| - |r|])
    ensures r == [] || !IsSpace(r[0])
  {
    if s != [] && IsSpace(s[0]) then
      var t := TrimLeft(s[1..]);
      TrimLeftStep(s, t);
      t
    else
      s
  }

  /** One leading space more in front of what TrimLeft returned. */
  lemma TrimLeftStep(s: string, t: string)
    requires s != [] && IsSpace(s[0])
    requires |t| <= |s| - 1 && t == s[1..][|s| - 1 - |t|..] && AllSpace(s[1..][..|s| - 1 - |t|])
    ensures t == s[|s| - |t|..] && AllSpace(s[..|s| - |t|])
  {
    assert s[..|s| - |t|] == [s[0]] + s[1..][..|s| - 1 - |t|];
  }

  /** `s` without its trailing white space. */
  function TrimRight(s: string): (r: string)
    ensures |r| <= |s| && r == s[..|r|]
    ensures AllSpace(s[|r|..])
    ensures r == [] || !IsSpace(r[|r| - 1])
  {
    if s != [] && IsSpace(s[|s| - 1]) then
      var t := TrimRight(s[..|s| - 1]);
      assert s[|t|..] == s[..|s| - 1][|t|..] + [s[|s| - 1]];
      t
    else
      s
  }

  /** `s` without leading and trailing white space. */
  function TrimSpace(s: string): (r: string)
    ensures |r| <= |s|
    ensures r == [] || (!IsSpace(r[0]) && !IsSpace(r[|r| - 1]))
  {
    TrimRight(TrimLeft(s))
  }

  /** Leading white space does not survive TrimLeft. */
  lemma {:induction false} TrimLeftAfterSpace(gap: string, s: string)
    requires AllSpace(gap)
    ensures TrimLeft(gap + s) == TrimLeft(s)
    decreases |gap|
  {
    if gap != [] {
      assert (gap + s)[0] == gap[0];
      assert (gap + s)[1..] == gap[1..] + s;
      TrimLeftAfterSpace(gap[1..], s);
    } else {
      assert gap + s == s;
    }
  }

  /** Trailing white space does not survive TrimRight. */
  lemma {:induction false} TrimRightBeforeSpace(s: string, gap: string)
    requires AllSpace(gap)
    ensures TrimRight(s + gap) == TrimRight(s)
    decreases |gap|
  {
    if gap != [] {
      var n := |gap| - 1;
      assert (s + gap)[|s + gap| - 1] == gap[n];
      assert (s + gap)[..|s + gap| - 1] == s + gap[..n];
      TrimRightBeforeSpace(s, gap[..n]);
    } else {
      assert s + gap == s;
    }
  }

  lemma TrimLeftAllSpace(s: string)
    requires AllSpace(s)
    ensures TrimLeft(s) == []
  {
    assert s + [] == s;
    TrimLeftAfterSpace(s, []);
  }

  /** TrimSpace removes exactly the white-space padding around a value whose
      ends are not white space. */
  lemma TrimSpacePadded(front: string, v: string, back: string)
    requires AllSpace(front) && AllSpace(back)
    requires v == [] || (!IsSpace(v[0]) && !IsSpace(v[|v| - 1]))
    ensures TrimSpace(front + v + back) == v
  {
    assert front + v + back == front + (v + back);
    TrimLeftAfterSpace(front, v + back);
    if v == [] {
      assert v + back == back;
      TrimLeftAllSpace(back);
    } else {
      assert (v + back)[0] == v[0];
      assert TrimLeft(v + back) == v + back;
      TrimRightBeforeSpace(v, back);
      assert TrimRight(v) == v;
    }
  }

  // ---------------------------------------------------------------------------
  // strings.ToLower (ASCII)
  // ---------------------------------------------------------------------------

  predicate IsUpper(c: char) {
    'A' <= c <= 'Z'
  }

  function LowerChar(c: char): (r: char)
    ensures !IsUpper(r)
    ensures IsUpper(c) ==> r as int == c as int + 32
    ensures !IsUpper(c) ==> r == c
  {
    if IsUpper(c) then (c as int + 32) as char else c
  }

  /** `s` with every upper-case ASCII letter replaced by its lower-case form. */
  function ToLower(s: string): (r: string)
    ensures |r| == |s|
    ensures forall i :: 0 <= i < |r| ==> !IsUpper(r[i])
    ensures forall i :: 0 <= i < |r| && !IsUpper(s[i]) ==> r[i] == s[i]
    ensures forall i :: 0 <= i < |s| && IsUpper(s[i]) ==> r[i] as int == s[i] as int + 32
  {
    seq(|s|, i requires 0 <= i < |s| => LowerChar(s[i]))
  }

  /** Two texts that agree letter by letter up to case lower-case to the same text. */
  lemma SameLower(a: string, b: string)
    requires |a| == |b| && forall i :: 0 <= i < |a| ==> LowerChar(a[i]) == LowerChar(b[i])
    ensures ToLower(a) == ToLower(b)
  {
  }

  // ---------------------------------------------------------------------------
  // strings.Fields
  // ---------------------------------------------------------------------------

  /** Length of the longest prefix of `s` without white space. */
  function WordLength(s: string): (k: nat)
    ensures k <= |s|
    ensures NoSpace(s[..k])
    ensures k < |s| ==> IsSpace(s[k])
  {
    if s == [] || IsSpace(s[0]) then 0
    else
      var k := WordLength(s[1..]);
      assert s[..k + 1] == [s[0]] + s[1..][..k];
      k + 1
  }

  /** The maximal runs of non-white-space characters of `s`, in order. */
  function Fields(s: string): (r: seq<string>)
    ensures forall i :: 0 <= i < |r| ==> r[i] != [] && NoSpace(r[i])
    decreases |s|
  {
    var t := TrimLeft(s);
    if t == [] then []
    else
      var k := WordLength(t);
      var tail := Fields(t[k..]);
      WordsCons(t[..k], tail);
      [t[..k]] + tail
  }

  lemma WordsCons(w: string, tail: seq<string>)
    requires w != [] && NoSpace(w)
    requires forall i :: 0 <= i < |tail| ==> tail[i] != [] && NoSpace(tail[i])
    ensures forall i :: 0 <= i < |[w] + tail| ==> ([w] + tail)[i] != [] && NoSpace(([w] + tail)[i])
  {
  }

  /** The words `words` laid out between the white-space gaps `gaps`:
      gaps[0] + words[0] + gaps[1] + ... + words[n-1] + gaps[n]. */
  function Spaced(words: seq<string>, gaps: seq<string>): string
    requires |gaps| == |words| + 1
  {
    if words == [] then gaps[0] else gaps[0] + words[0] + Spaced(words[1..], gaps[1..])
  }

  /** Gaps that may separate fields: all white space, and non-empty between two words. */
  predicate ValidGaps(gaps: seq<string>) {
    |gaps| >= 1 &&
    (forall i :: 0 <= i < |gaps| ==> AllSpace(gaps[i])) &&
    (forall i :: 0 < i < |gaps| - 1 ==> gaps[i] != [])
  }

  predicate ValidWords(words: seq<string>) {
    forall i :: 0 <= i < |words| ==> words[i] != [] && NoSpace(words[i])
  }

  lemma {:induction false} WordLengthOfWord(w: string, tail: string)
    requires NoSpace(w)
    requires tail == [] || IsSpace(tail[0])
    ensures WordLength(w + tail) == |w|
    decreases |w|
  {
    if w == [] {
      assert w + tail == tail;
    } else {
      assert (w + tail)[0] == w[0];
      assert (w + tail)[1..] == w[1..] + tail;
      WordLengthOfWord(w[1..], tail);
    }
  }

  /** Leading white space never changes the fields. */
  lemma FieldsAfterSpace(gap: string, s: string)
    requires AllSpace(gap)
    ensures Fields(gap + s) == Fields(s)
  {
    TrimLeftAfterSpace(gap, s);
  }

  /** A word followed by white space (or nothing) is the first field. */
  lemma FieldsOfWord(w: string, tail: string)
    requires w != [] && NoSpace(w)
    requires tail == [] || IsSpace(tail[0])
    ensures Fields(w + tail) == [w] + Fields(tail)
  {
    var s := w + tail;
    assert s[0] == w[0];
    assert TrimLeft(s) == s;
    WordLengthOfWord(w, tail);
    assert s[..|w|] == w && s[|w|..] == tail;
  }

  lemma ValidGapsTail(gaps: seq<string>)
    requires |gaps| >= 2 && ValidGaps(gaps)
    ensures ValidGaps(gaps[1..])
  {
    forall i | 0 < i < |gaps[1..]| - 1 ensures gaps[1..][i] != [] {
      assert gaps[1..][i] == gaps[i + 1];
    }
  }

  /** After the first word of a layout comes white space, or nothing at all. */
  lemma SpacedAfterFirstWord(words: seq<string>, gaps: seq<string>)
    requires |gaps| == |words| + 1 && |words| >= 1
    requires ValidGaps(gaps)
    ensures var tail := Spaced(words[1..], gaps[1..]); tail == [] || IsSpace(tail[0])
  {
    var tail := Spaced(words[1..], gaps[1..]);
    if |words| == 1 {
      assert tail == gaps[1];
    } else {
      assert gaps[1] != [] && AllSpace(gaps[1]);
      assert tail[0] == gaps[1][0];
    }
  }

  /** Fields splits on runs of white space and ignores white space at either
      end: it recovers the words from any such layout. */
  lemma {:induction false} FieldsOfSpaced(words: seq<string>, gaps: seq<string>)
    requires |gaps| == |words| + 1
    requires ValidWords(words) && ValidGaps(gaps)
    ensures Fields(Spaced(words, gaps)) == words
  {
    if words == [] {
      assert gaps[0] + [] == gaps[0];
      FieldsAfterSpace(gaps[0], []);
    } else {
      assert words == [words[0]] + words[1..];
      var w, tail := words[0], Spaced(words[1..], gaps[1..]);
      assert Spaced(words, gaps) == gaps[0] + (w + tail);
      assert ValidWords(words[1..]) by {
        forall i | 0 <= i < |words[1..]| ensures words[1..][i] != [] && NoSpace(words[1..][i]) {
          assert words[1..][i] == words[i + 1];
        }
      }
      ValidGapsTail(gaps);
      FieldsOfSpaced(words[1..], gaps[1..]);
      SpacedAfterFirstWord(words, gaps);
      FieldsOfWord(w, tail);
      FieldsAfterSpace(gaps[0], w + tail);
    }
  }
}
