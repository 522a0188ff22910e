/** Message identity and metadata: `generateID` and `extractSubject` of the
    capture path (src/smtp.go). */
module Smtp {
  import opened Wrappers
  import opened Text

  /** The alphabet message identifiers are drawn from. */
  const Charset := "abcdefghijklmnopqrstuvwxyz0123456789"

  /** Every identifier has exactly this many characters. */
  const IdLength := 8

  /** Returned when the body has no subject line. */
  const NoSubject := "(no subject)"

  /** The header name compared against, already lower-cased. */
  const SubjectPrefix := "subject:"

  // ---------------------------------------------------------------------------
  // Identifier generation
  // ---------------------------------------------------------------------------

  /** The random source of `generateID`, made explicit: one `rand.Intn(36)`
      result per character. */
  predicate ValidDraws(draws: seq<nat>) {
    |draws| == IdLength && forall i | 0 <= i < |draws| :: draws[i] < |Charset|
  }

  /** generateID: character `i` is the charset entry the `i`-th draw picks. */
  function GenerateId(draws: seq<nat>): (id: string)
    requires ValidDraws(draws)
    ensures |id| == IdLength
    ensures forall i | 0 <= i < |id| :: id[i] in Charset
  {
    seq(IdLength, i requires 0 <= i < IdLength => Charset[draws[i]])
  }

  /** The charset laid out arithmetically: 26 lower-case letters, then 10 digits. */
  function CharsetEntry(i: nat): char
    requires i < 36
  {
    if i < 26 then ('a' as int + i) as char else ('0' as int + i - 26) as char
  }

  /** Position of an identifier character in the charset. */
  function DrawOf(c: char): nat {
    if 'a' <= c <= 'z' then c as int - 'a' as int
    else if '0' <= c <= '9' then c as int - '0' as int + 26
    else 0
  }

  function DrawsOf(id: string): (draws: seq<nat>)
    ensures |draws| == |id|
  {
    seq(|id|, i requires 0 <= i < |id| => DrawOf(id[i]))
  }

  lemma CharsetLayout()
    ensures |Charset| == 36
    ensures forall i | 0 <= i < 36 :: Charset[i] == CharsetEntry(i)
  {
  }

  /** Reading the identifier back recovers the draws: distinct draws give
      distinct identifiers. */
  lemma GenerateIdRoundTrip(draws: seq<nat>)
    requires ValidDraws(draws)
    ensures DrawsOf(GenerateId(draws)) == draws
  {
    CharsetLayout();
    var id := GenerateId(draws);
    forall i | 0 <= i < IdLength
      ensures DrawOf(id[i]) == draws[i]
    {
      assert id[i] == CharsetEntry(draws[i]);
    }
  }

  lemma GenerateIdInjective(d1: seq<nat>, d2: seq<nat>)
    requires ValidDraws(d1) && ValidDraws(d2)
    requires GenerateId(d1) == GenerateId(d2)
    ensures d1 == d2
  {
    GenerateIdRoundTrip(d1);
    GenerateIdRoundTrip(d2);
  }

  /** Every 8-character string over the charset is some draw's identifier. */
  lemma GenerateIdOnto(id: string)
    requires |id| == IdLength
    requires forall i | 0 <= i < |id| :: id[i] in Charset
    ensures ValidDraws(DrawsOf(id)) && GenerateId(DrawsOf(id)) == id
  {
    CharsetLayout();
    forall i | 0 <= i < IdLength
      ensures DrawOf(id[i]) < 36 && Charset[DrawOf(id[i])] == id[i]
    {
      var k :| 0 <= k < 36 && Charset[k] == id[i];
      assert CharsetEntry(k) == id[i];
    }
  }

  // ---------------------------------------------------------------------------
  // Subject extraction
  // ---------------------------------------------------------------------------

  /** The line starts with "subject:" once lower-cased: its first eight bytes
      fold, ignoring ASCII case, to the prefix. Lower-casing only the ASCII
      range gives the same answer as Go's Unicode `strings.ToLower` here,
      because no other rune lower-cases into a character of "subject:". */
  function IsSubjectLine(line: string): (b: bool)
    ensures b <==>
      |line| >= |SubjectPrefix| &&
      forall k | 0 <= k < |SubjectPrefix| :: ToLowerAscii(line[k]) == SubjectPrefix[k]
  {
    var lower := ToLower(line);
    if |line| >= |SubjectPrefix| then
      assert lower[..|SubjectPrefix|] == ToLower(line[..|SubjectPrefix|]);
      HasPrefix(lower, SubjectPrefix)
    else HasPrefix(lower, SubjectPrefix)
  }

  /** Line `i` is the first subject line and `value` its trimmed text. */
  ghost predicate FirstMatchAt(lines: seq<string>, i: nat, value: string)
    requires i < |lines|
  {
    IsSubjectLine(lines[i]) &&
    (forall j | 0 <= j < i :: !IsSubjectLine(lines[j])) &&
    value == TrimSpace(lines[i][|SubjectPrefix|..])
  }

  /** On a subject line the first colon is byte 7, so SplitN hands back
      everything after the header name. */
  lemma SubjectAfterColon(line: string)
    requires IsSubjectLine(line)
    ensures SplitOnce(line, ':') == Some(line[|SubjectPrefix|..])
  {
    forall k | 0 <= k < 7
      ensures line[k] != ':'
    {
      assert ToLowerAscii(line[k]) == SubjectPrefix[k];
    }
    assert ToLowerAscii(line[7]) == ':';
    SplitOnceAt(line, ':', 7);
  }

  lemma SubjectLineColon(line: string)
    ensures IsSubjectLine(line) ==> SplitOnce(line, ':') == Some(line[|SubjectPrefix|..])
  {
    if IsSubjectLine(line) {
      SubjectAfterColon(line);
    }
  }

  /** A first match in the tail of the lines is a first match of the whole
      when the head line is not a subject line. */
  lemma ShiftMatch(lines: seq<string>, value: string)
    requires |lines| > 0 && !IsSubjectLine(lines[0])
    requires exists i | 0 <= i < |lines[1..]| :: FirstMatchAt(lines[1..], i, value)
    ensures exists i | 0 <= i < |lines| :: FirstMatchAt(lines, i, value)
  {
    var tail := lines[1..];
    var i :| 0 <= i < |tail| && FirstMatchAt(tail, i, value);
    assert lines[i + 1] == tail[i];
    forall j | 0 <= j < i + 1
      ensures !IsSubjectLine(lines[j])
    {
      if j > 0 {
        assert lines[j] == tail[j - 1];
      }
    }
    assert FirstMatchAt(lines, i + 1, value);
  }

  /** The loop of extractSubject over the lines of the body: nothing exactly
      when no line is a subject line, and otherwise the trimmed value of the
      first one. */
  function FirstSubject(lines: seq<string>): (r: Option<string>)
    ensures r.None? <==> forall i | 0 <= i < |lines| :: !IsSubjectLine(lines[i])
    ensures r.Some? ==> exists i | 0 <= i < |lines| :: FirstMatchAt(lines, i, r.value)
  {
    if |lines| == 0 then None
    else
      SubjectLineColon(lines[0]);
      if IsSubjectLine(lines[0]) && SplitOnce(lines[0], ':').Some? then
        var value := TrimSpace(SplitOnce(lines[0], ':').value);
        assert FirstMatchAt(lines, 0, value);
        Some(value)
      else
        var rest := FirstSubject(lines[1..]);
        assert forall i | 1 <= i < |lines| :: lines[i] == lines[1..][i - 1];
        if rest.Some? then
          ShiftMatch(lines, rest.value);
          rest
        else rest
  }

  /** extractSubject: the trimmed value of the first "subject:" line, compared
      without regard to ASCII case, or the sentinel when there is none. No
      header unfolding and no encoded-word decoding. */
  function ExtractSubject(body: string): (r: string)
    ensures (forall i | 0 <= i < |Split(body, '\n')| :: !IsSubjectLine(Split(body, '\n')[i])) ==>
      r == NoSubject
    ensures (exists i | 0 <= i < |Split(body, '\n')| :: IsSubjectLine(Split(body, '\n')[i])) ==>
      exists i | 0 <= i < |Split(body, '\n')| :: FirstMatchAt(Split(body, '\n'), i, r)
  {
    match FirstSubject(Split(body, '\n'))
    case Some(subject) => subject
    case None => NoSubject
  }

  lemma {:induction false} FirstSubjectAt(lines: seq<string>, i: nat)
    requires i < |lines| && IsSubjectLine(lines[i])
    requires forall j | 0 <= j < i :: !IsSubjectLine(lines[j])
    ensures FirstSubject(lines) == Some(TrimSpace(lines[i][|SubjectPrefix|..]))
  {
    SubjectAfterColon(lines[i]);
    if i > 0 {
      FirstSubjectAt(lines[1..], i - 1);
    }
  }

  /** The sentinel comes back when no line of the body is a subject line,
      the empty body included. */
  lemma ExtractSubjectMissing(body: string)
    requires forall i | 0 <= i < |Split(body, '\n')| :: !IsSubjectLine(Split(body, '\n')[i])
    ensures ExtractSubject(body) == NoSubject
  {
  }

  /** Otherwise the first subject line wins, wherever it sits, and its value
      is everything after "subject:" with the white space at both ends removed
      (a CRLF line loses its carriage return; later colons are kept). */
  lemma ExtractSubjectFirstMatch(body: string, i: nat)
    requires i < |Split(body, '\n')| && IsSubjectLine(Split(body, '\n')[i])
    requires forall j | 0 <= j < i :: !IsSubjectLine(Split(body, '\n')[j])
    ensures ExtractSubject(body) == TrimSpace(Split(body, '\n')[i][|SubjectPrefix|..])
    ensures TrimmedFrom(Split(body, '\n')[i][|SubjectPrefix|..], ExtractSubject(body))
  {
    FirstSubjectAt(Split(body, '\n'), i);
  }

  /** Splitting at the first line break. */
  lemma SplitFirstLine(line: string, rest: string)
    requires '\n' !in line
    ensures Split(line + "\n" + rest, '\n') == [line] + Split(rest, '\n')
  {
    SplitPrefix(line, "\n" + rest, '\n');
    assert line + "\n" + rest == line + ("\n" + rest);
    assert ("\n" + rest)[0] == '\n' && ("\n" + rest)[1..] == rest;
    assert Split("\n" + rest, '\n') == [""] + Split(rest, '\n');
    assert line + "" == line;
  }

  /** A first line that is a subject line decides the subject, whatever follows. */
  lemma ExtractSubjectLeading(line: string, rest: string)
    requires '\n' !in line && IsSubjectLine(line)
    ensures ExtractSubject(line + "\n" + rest) == TrimSpace(line[|SubjectPrefix|..])
  {
    SplitFirstLine(line, rest);
    FirstSubjectAt([line] + Split(rest, '\n'), 0);
  }

  /** A first line that is not a subject line is skipped. */
  lemma ExtractSubjectSkips(line: string, rest: string)
    requires '\n' !in line && !IsSubjectLine(line)
    ensures ExtractSubject(line + "\n" + rest) == ExtractSubject(rest)
  {
    SplitFirstLine(line, rest);
    assert ([line] + Split(rest, '\n'))[1..] == Split(rest, '\n');
  }

  /** The trimmed value, given its surrounding white space. */
  lemma TrimSpaceOf(s: string, p: string, value: string, q: string)
    requires s == p + value + q && AllSpace(p) && AllSpace(q) && Stripped(value)
    ensures TrimSpace(s) == value
  {
    TrimmedUnique(s, value, TrimSpace(s));
  }

  /** A header line "<name><space><value><space>" whose name is "subject:" in
      any ASCII case yields exactly `value`, whatever the rest of the body holds:
      "Subject: Test Email", "subject: Lowercase subject" and a CRLF line
      "SUBJECT: Re: hi\r" are instances. */
  lemma ExtractSubjectHeader(name: string, p: string, value: string, q: string, rest: string)
    requires ToLower(name) == SubjectPrefix
    requires AllSpace(p) && AllSpace(q) && Stripped(value)
    requires '\n' !in name + p + value + q
    ensures ExtractSubject(name + p + value + q + "\n" + rest) == value
  {
    var line := name + p + value + q;
    assert line == name + (p + value + q);
    ToLowerAppend(name, p + value + q);
    ExtractSubjectLeading(line, rest);
    assert line[|SubjectPrefix|..] == p + value + q;
    TrimSpaceOf(line[|SubjectPrefix|..], p, value, q);
  }
}
