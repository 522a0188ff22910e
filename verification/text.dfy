/** The pieces of Go's `strings` package that the capture path relies on:
    `Split`, `SplitN(s, sep, 2)`, `ToLower`, `HasPrefix` and `TrimSpace`.
    A Go string is a sequence of bytes; here each `char` stands for one byte. */
module Text {
  import opened Wrappers

  /** The bytes `strings.TrimSpace` treats as white space on its ASCII path:
      tab, line feed, vertical tab, form feed, carriage return and space. */
  predicate IsSpace(c: char) {
    c == ' ' || 9 <= c as int <= 13
  }

  predicate AllSpace(s: string) {
    forall i | 0 <= i < |s| :: IsSpace(s[i])
  }

  /** No white space at either end. */
  predicate Stripped(s: string) {
    |s| == 0 || (!IsSpace(s[0]) && !IsSpace(s[|s| - 1]))
  }

  /** `r` is what remains of `s` once the white space at both ends is removed. */
  ghost predicate TrimmedFrom(s: string, r: string) {
    Stripped(r) && exists p, q :: s == p + r + q && AllSpace(p) && AllSpace(q)
  }

  /** Number of white-space bytes at the start of `s`. */
  function LeadingSpace(s: string): (n: nat)
    ensures n <= |s|
    ensures forall i | 0 <= i < n :: IsSpace(s[i])
    ensures n < |s| ==> !IsSpace(s[n])
  {
    if |s| == 0 || !IsSpace(s[0]) then 0
    else 1 + LeadingSpace(s[1..])
  }

  /** Number of white-space bytes at the end of `s`. */
  function TrailingSpace(s: string): (n: nat)
    ensures n <= |s|
    ensures forall i | |s| - n <= i < |s| :: IsSpace(s[i])
    ensures n < |s| ==> !IsSpace(s[|s| - n - 1])
  {
    if |s| == 0 || !IsSpace(s[|s| - 1]) then 0
    else 1 + TrailingSpace(s[..|s| - 1])
  }

  /** strings.TrimSpace on the ASCII white-space set. */
  function TrimSpace(s: string): (r: string)
    ensures TrimmedFrom(s, r)
  {
    var a := LeadingSpace(s);
    if a == |s| then
      TrimAllSpace(s);
      ""
    else
      var b := TrailingSpace(s);
      TrimBetween(s, a, b);
      s[a..|s| - b]
  }

  lemma TrimAllSpace(s: string)
    requires forall i | 0 <= i < |s| :: IsSpace(s[i])
    ensures TrimmedFrom(s, "")
  {
    var p, q := s, "";
    assert AllSpace(p) && AllSpace(q) && Stripped("");
    assert s == p + "" + q;
  }

  lemma TrimBetween(s: string, a: nat, b: nat)
    requires a < |s| && b < |s|
    requires forall i | 0 <= i < a :: IsSpace(s[i])
    requires !IsSpace(s[a])
    requires forall i | |s| - b <= i < |s| :: IsSpace(s[i])
    requires !IsSpace(s[|s| - b - 1])
    ensures a < |s| - b && TrimmedFrom(s, s[a..|s| - b])
  {
    var p, r, q := s[..a], s[a..|s| - b], s[|s| - b..];
    assert forall i | 0 <= i < |p| :: p[i] == s[i];
    assert forall i | 0 <= i < |q| :: q[i] == s[|s| - b + i];
    assert r[0] == s[a] && r[|r| - 1] == s[|s| - b - 1];
    assert AllSpace(p) && AllSpace(q) && Stripped(r);
    assert s == p + r + q;
  }

  /** The trimmed text is unique: `TrimSpace` returns the only stripped infix
      of `s` surrounded by white space. */
  lemma TrimmedUnique(s: string, r1: string, r2: string)
    requires TrimmedFrom(s, r1) && TrimmedFrom(s, r2)
    ensures r1 == r2
  {
    var p1, q1 :| s == p1 + r1 + q1 && AllSpace(p1) && AllSpace(q1);
    var p2, q2 :| s == p2 + r2 + q2 && AllSpace(p2) && AllSpace(q2);
    if |r1| == 0 {
      EmptyTrimIsAllSpace(s, p1, r1, q1);
      SpaceInfix(s, p2, r2, q2);
    } else if |r2| == 0 {
      EmptyTrimIsAllSpace(s, p2, r2, q2);
      SpaceInfix(s, p1, r1, q1);
    } else {
      EdgesOfTrim(s, p1, r1, q1);
      EdgesOfTrim(s, p2, r2, q2);
      InfixAt(s, p1, r1, q1);
      InfixAt(s, p2, r2, q2);
    }
  }

  lemma InfixAt(s: string, p: string, r: string, q: string)
    requires s == p + r + q
    ensures r == s[|p|..|s| - |q|]
  {
  }

  lemma SpaceInfix(s: string, p: string, r: string, q: string)
    requires s == p + r + q && AllSpace(s)
    ensures AllSpace(r)
  {
    assert forall i | 0 <= i < |r| :: r[i] == s[|p| + i];
  }

  lemma EmptyTrimIsAllSpace(s: string, p: string, r: string, q: string)
    requires s == p + r + q && |r| == 0 && AllSpace(p) && AllSpace(q)
    ensures AllSpace(s)
  {
    assert forall i | 0 <= i < |s| :: s[i] == (if i < |p| then p[i] else q[i - |p|]);
  }

  /** LeadingSpace stops at the first byte that is not white space. */
  lemma LeadingSpaceAt(s: string, k: nat)
    requires k < |s| && AllSpace(s[..k]) && !IsSpace(s[k])
    ensures LeadingSpace(s) == k
  {
    var n := LeadingSpace(s);
    assert forall i | 0 <= i < n :: IsSpace(s[i]) by {
      assert forall i | 0 <= i < n :: s[..n][i] == s[i];
    }
    assert forall i | 0 <= i < k :: IsSpace(s[i]) by {
      assert forall i | 0 <= i < k :: s[..k][i] == s[i];
    }
  }

  /** A surrounding white-space run is exactly the one LeadingSpace and
      TrailingSpace measure. */
  lemma EdgesOfTrim(s: string, p: string, r: string, q: string)
    requires s == p + r + q && AllSpace(p) && AllSpace(q)
    requires |r| > 0 && Stripped(r)
    ensures LeadingSpace(s) == |p| && TrailingSpace(s) == |q|
  {
    assert s[..|p|] == p && s[|p|] == r[0];
    LeadingSpaceAt(s, |p|);
    assert s[|s| - |q|..] == q && s[|s| - |q| - 1] == r[|r| - 1];
    TrailingSpaceAt(s, |q|);
  }

  /** TrailingSpace stops at the last byte that is not white space. */
  lemma TrailingSpaceAt(s: string, k: nat)
    requires k < |s| && AllSpace(s[|s| - k..]) && !IsSpace(s[|s| - k - 1])
    ensures TrailingSpace(s) == k
  {
    var m := TrailingSpace(s);
    assert forall i | |s| - m <= i < |s| :: IsSpace(s[i]) by {
      assert forall i | |s| - m <= i < |s| :: s[|s| - m..][i - (|s| - m)] == s[i];
    }
    assert forall i | |s| - k <= i < |s| :: IsSpace(s[i]) by {
      assert forall i | |s| - k <= i < |s| :: s[|s| - k..][i - (|s| - k)] == s[i];
    }
  }

  /** ASCII lower-casing of one byte, as strings.ToLower does on its ASCII path. */
  function ToLowerAscii(c: char): char {
    if 'A' <= c <= 'Z' then (c as int + 32) as char else c
  }

  function ToLower(s: string): (r: string)
    ensures |r| == |s|
    ensures forall i | 0 <= i < |s| :: r[i] == ToLowerAscii(s[i])
  {
    seq(|s|, i requires 0 <= i < |s| => ToLowerAscii(s[i]))
  }

  /** Lower-casing works byte by byte, so it distributes over concatenation. */
  lemma ToLowerAppend(a: string, b: string)
    ensures ToLower(a + b) == ToLower(a) + ToLower(b)
  {
    assert forall i | 0 <= i < |a + b| ::
      ToLower(a + b)[i] == (ToLower(a) + ToLower(b))[i];
  }

  /** Folding twice is folding once. */
  lemma ToLowerIdempotent(s: string)
    ensures ToLower(ToLower(s)) == ToLower(s)
  {
  }

  /** strings.HasPrefix: `s` is `prefix` followed by something. */
  function HasPrefix(s: string, prefix: string): (b: bool)
    ensures b <==> exists rest :: s == prefix + rest
  {
    if |prefix| <= |s| && s[..|prefix|] == prefix then
      assert s == prefix + s[|prefix|..];
      true
    else false
  }

  /** strings.Split with a one-byte separator: the pieces between separators,
      always at least one (the empty string splits into [""]). */
  function Split(s: string, sep: char): (parts: seq<string>)
    ensures |parts| >= 1
    ensures forall i | 0 <= i < |parts| :: sep !in parts[i]
  {
    if |s| == 0 then [""]
    else
      var rest := Split(s[1..], sep);
      if s[0] == sep then [""] + rest
      else [[s[0]] + rest[0]] + rest[1..]
  }

  /** strings.Join with a one-byte separator. */
  function Join(parts: seq<string>, sep: char): string {
    if |parts| == 0 then ""
    else if |parts| == 1 then parts[0]
    else parts[0] + [sep] + Join(parts[1..], sep)
  }

  lemma {:induction false} JoinSplit(s: string, sep: char)
    ensures Join(Split(s, sep), sep) == s
  {
    if |s| > 0 {
      var rest := Split(s[1..], sep);
      JoinSplit(s[1..], sep);
      if s[0] == sep {
        assert ([""] + rest)[1..] == rest;
      } else {
        var parts := [[s[0]] + rest[0]] + rest[1..];
        if |rest| > 1 {
          assert parts[1..] == rest[1..];
          assert Join(rest, sep) == rest[0] + [sep] + Join(rest[1..], sep);
        }
      }
    }
  }

  /** Splitting text that starts with a separator-free run `x`. */
  lemma {:induction false} SplitPrefix(x: string, y: string, sep: char)
    requires sep !in x
    ensures Split(x + y, sep) == [x + Split(y, sep)[0]] + Split(y, sep)[1..]
  {
    if |x| > 0 {
      assert (x + y)[1..] == x[1..] + y;
      SplitPrefix(x[1..], y, sep);
      assert [x[0]] + (x[1..] + Split(y, sep)[0]) == x + Split(y, sep)[0];
    } else {
      var parts := Split(y, sep);
      assert x + y == y && x + parts[0] == parts[0];
      assert parts == [parts[0]] + parts[1..];
    }
  }

  lemma {:induction false} SplitJoin(parts: seq<string>, sep: char)
    requires |parts| >= 1
    requires forall i | 0 <= i < |parts| :: sep !in parts[i]
    ensures Split(Join(parts, sep), sep) == parts
  {
    if |parts| == 1 {
      SplitPrefix(parts[0], "", sep);
      assert parts[0] + "" == parts[0];
      assert Split("", sep) == [""];
      assert [parts[0] + ""] + [""][1..] == parts;
    } else {
      var tail := Join(parts[1..], sep);
      SplitJoin(parts[1..], sep);
      SplitPrefix(parts[0], [sep] + tail, sep);
      assert parts[0] + [sep] + tail == parts[0] + ([sep] + tail);
      assert ([sep] + tail)[1..] == tail;
      assert Split([sep] + tail, sep) == [""] + parts[1..];
      assert parts[0] + "" == parts[0];
      assert parts == [parts[0]] + parts[1..];
    }
  }

  /** Index of the first `c` in `s`, or `|s|` when there is none. */
  function IndexOf(s: string, c: char): (k: nat)
    ensures k <= |s|
    ensures c !in s[..k]
    ensures k < |s| ==> s[k] == c
  {
    if |s| == 0 then 0
    else if s[0] == c then 0
    else
      var k := IndexOf(s[1..], c);
      assert s[..k + 1] == [s[0]] + s[1..][..k];
      k + 1
  }

  /** The second half of strings.SplitN(s, sep, 2): the text after the first
      separator, or None when the split yields a single part. */
  function SplitOnce(s: string, sep: char): (r: Option<string>)
    ensures r.None? <==> sep !in s
    ensures r.Some? ==>
      |r.value| < |s| &&
      var head := s[..|s| - |r.value| - 1];
      sep !in head && s == head + [sep] + r.value
  {
    var k := IndexOf(s, sep);
    if k == |s| then
      assert s[..k] == s;
      None
    else
      assert s == s[..k] + [sep] + s[k + 1..];
      Some(s[k + 1..])
  }

  /** When the first separator sits at index `k`, SplitOnce yields the text after it. */
  lemma SplitOnceAt(s: string, sep: char, k: nat)
    requires k < |s| && s[k] == sep && sep !in s[..k]
    ensures SplitOnce(s, sep) == Some(s[k + 1..])
  {
  }
}
