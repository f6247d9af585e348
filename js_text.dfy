/**
 * The JavaScript string operations the components rely on: `String.prototype.trim`,
 * the `\s` character class, `split` on a single character and `Array.prototype.join`.
 * Strings are sequences of characters; UTF-16 code units are not modelled.
 */
module JsText {

  /** The characters that `trim()` removes and that `\s` matches: ECMAScript WhiteSpace
      (tab, vertical tab, form feed, space, no-break space, the byte order mark and the
      other Unicode space separators) and LineTerminator (LF, CR, LS, PS). */
  predicate IsWs(c: char) {
    || c == '\t' || c == '\n' || c == '\U{000B}' || c == '\U{000C}' || c == '\r' || c == ' '
    || c == '\U{00A0}' || c == '\U{1680}' || ('\U{2000}' <= c <= '\U{200A}')
    || c == '\U{2028}' || c == '\U{2029}' || c == '\U{202F}' || c == '\U{205F}'
    || c == '\U{3000}' || c == '\U{FEFF}'
  }

  predicate AllWs(s: string) {
    forall i :: 0 <= i < |s| ==> IsWs(s[i])
  }

  /** No whitespace at either end: what `trim()` leaves unchanged. */
  predicate Trimmed(s: string) {
    s == [] || (!IsWs(s[0]) && !IsWs(s[|s| - 1]))
  }

  /** `trimStart()`: drops the leading whitespace. */
  function TrimStart(s: string): (r: string)
    ensures |r| <= |s|
    ensures r == [] || !IsWs(r[0])
    decreases |s|
  {
    if s != [] && IsWs(s[0]) then TrimStart(s[1..]) else s
  }

  /** `trimEnd()`: drops the trailing whitespace. */
  function TrimEnd(s: string): (r: string)
    ensures |r| <= |s|
    ensures r == [] || !IsWs(r[|r| - 1])
    decreases |s|
  {
    if s != [] && IsWs(s[|s| - 1]) then TrimEnd(s[..|s| - 1]) else s
  }

  /** `trim()`: the text with its whitespace border removed. */
  function Trim(s: string): (r: string)
    ensures Trimmed(r)
  {
    TrimEndParts(TrimStart(s));
    TrimEnd(TrimStart(s))
  }

  /** `trimStart()` removes a whitespace prefix and nothing else. */
  lemma {:induction false} TrimStartParts(s: string)
    ensures s == s[..|s| - |TrimStart(s)|] + TrimStart(s)
    ensures AllWs(s[..|s| - |TrimStart(s)|])
    decreases |s|
  {
    if s != [] && IsWs(s[0]) {
      TrimStartParts(s[1..]);
      var k := |s| - |TrimStart(s)|;
      assert s[..k] == [s[0]] + s[1..][..k - 1];
    }
  }

  /** `trimEnd()` removes a whitespace suffix and nothing else. */
  lemma {:induction false} TrimEndParts(s: string)
    ensures s == TrimEnd(s) + s[|TrimEnd(s)|..]
    ensures AllWs(s[|TrimEnd(s)|..])
    decreases |s|
  {
    if s != [] && IsWs(s[|s| - 1]) {
      var p := s[..|s| - 1];
      TrimEndParts(p);
      var k := |TrimEnd(s)|;
      assert s[k..] == p[k..] + [s[|s| - 1]];
    }
  }

  /** Trimming splits a string into a whitespace lead, the trimmed middle and a whitespace tail. */
  lemma TrimBorders(s: string) returns (lead: string, tail: string)
    ensures s == lead + Trim(s) + tail
    ensures AllWs(lead) && AllWs(tail)
  {
    var m := TrimStart(s);
    TrimStartParts(s);
    TrimEndParts(m);
    lead := s[..|s| - |m|];
    tail := m[|TrimEnd(m)|..];
    assert s == lead + m && m == Trim(s) + tail;
    assert s == lead + Trim(s) + tail;
  }

  /** `trim()` leaves a trimmed string as it is, and only a trimmed one. */
  lemma TrimFixesTrimmed(s: string)
    ensures Trim(s) == s <==> Trimmed(s)
  {
    if Trimmed(s) && s != [] {
      assert TrimStart(s) == s;
      assert TrimEnd(s) == s;
    }
    if Trim(s) == s {
      assert Trimmed(s);
    }
  }

  /** `trim()` yields the empty string exactly for whitespace-only text. */
  lemma {:induction false} TrimEmptyIffAllWs(s: string)
    ensures Trim(s) == [] <==> AllWs(s)
  {
    var lead, tail := TrimBorders(s);
    if Trim(s) != [] {
      assert s[|lead|] == Trim(s)[0] && !IsWs(s[|lead|]);
    }
    if Trim(s) == [] {
      assert s == lead + tail;
      forall i | 0 <= i < |s| ensures IsWs(s[i]) {
        if i < |lead| { assert s[i] == lead[i]; } else { assert s[i] == tail[i - |lead|]; }
      }
    }
  }

  /** Index of the first `c` in `s`, or `|s|` when there is none. */
  function IndexOf(s: string, c: char): (i: nat)
    ensures i <= |s|
    ensures i < |s| ==> s[i] == c
    ensures forall j :: 0 <= j < i ==> s[j] != c
  {
    if s == [] then 0
    else if s[0] == c then 0
    else IndexOf(s[1..], c) + 1
  }

  /** `s.split(sep)` for a one-character separator: the pieces between separators,
      so always at least one (`"".split(",")` is `[""]`). */
  function Split(s: string, sep: char): (parts: seq<string>)
    ensures |parts| >= 1
    decreases |s|
  {
    var i := IndexOf(s, sep);
    if i == |s| then [s] else [s[..i]] + Split(s[i + 1..], sep)
  }

  /** No piece of a split holds the separator. */
  lemma {:induction false} SplitPieces(s: string, sep: char)
    ensures forall k :: 0 <= k < |Split(s, sep)| ==> sep !in Split(s, sep)[k]
    decreases |s|
  {
    var i := IndexOf(s, sep);
    var parts := Split(s, sep);
    if i < |s| {
      var rest := Split(s[i + 1..], sep);
      SplitPieces(s[i + 1..], sep);
      assert parts == [s[..i]] + rest;
      forall k | 0 <= k < |parts| ensures sep !in parts[k] {
        if k == 0 {
          assert forall j :: 0 <= j < i ==> s[..i][j] != sep;
        } else {
          assert parts[k] == rest[k - 1];
        }
      }
    } else {
      assert forall j :: 0 <= j < |s| ==> s[j] != sep;
    }
  }

  /** `parts.join(sep)` for a one-character separator (`[].join(",")` is `""`): the
      text opens with the first part, and splitting it
      again gives the parts back (SplitJoin, JoinSplit). */
  function Join(parts: seq<string>, sep: char): (r: string)
    ensures parts == [] ==> r == []
    ensures |parts| >= 1 ==> parts[0] <= r
  {
    if |parts| == 0 then []
    else if |parts| == 1 then parts[0]
    else parts[0] + [sep] + Join(parts[1..], sep)
  }

  /** Splitting undoes joining when no part holds the separator. */
  lemma {:induction false} SplitJoin(parts: seq<string>, sep: char)
    requires |parts| >= 1
    requires forall k :: 0 <= k < |parts| ==> sep !in parts[k]
    ensures Split(Join(parts, sep), sep) == parts
    decreases |parts|
  {
    var s := Join(parts, sep);
    if |parts| == 1 {
      assert IndexOf(s, sep) == |s|;
    } else {
      var rest := Join(parts[1..], sep);
      assert s == parts[0] + [sep] + rest;
      assert sep !in parts[0];
      assert s[|parts[0]|] == sep;
      assert s[..|parts[0]|] == parts[0];
      assert IndexOf(s, sep) == |parts[0]|;
      assert s[|parts[0]| + 1..] == rest;
      SplitJoin(parts[1..], sep);
    }
  }

  /** Joining undoes splitting. */
  lemma {:induction false} JoinSplit(s: string, sep: char)
    ensures Join(Split(s, sep), sep) == s
    decreases |s|
  {
    var i := IndexOf(s, sep);
    if i < |s| {
      var head, tail := s[..i], s[i + 1..];
      var rest := Split(tail, sep);
      assert Split(s, sep) == [head] + rest;
      JoinCons(head, rest, sep);
      JoinSplit(tail, sep);
      assert s == head + [sep] + tail;
    }
  }

  lemma JoinCons(head: string, rest: seq<string>, sep: char)
    requires |rest| >= 1
    ensures Join([head] + rest, sep) == head + [sep] + Join(rest, sep)
  {
    assert ([head] + rest)[1..] == rest;
  }

  /** A join of trimmed parts joined by a non-whitespace separator, at least two of them, is trimmed. */
  lemma {:induction false} JoinTrimmed(parts: seq<string>, sep: char)
    requires |parts| >= 2 && !IsWs(sep)
    requires forall k :: 0 <= k < |parts| ==> Trimmed(parts[k])
    ensures Trimmed(Join(parts, sep)) && Join(parts, sep) != []
    decreases |parts|
  {
    var rest := Join(parts[1..], sep);
    if |parts| > 2 {
      JoinTrimmed(parts[1..], sep);
    }
    assert rest == [] || !IsWs(rest[|rest| - 1]);
    var s := parts[0] + [sep] + rest;
    assert s[0] == if parts[0] == [] then sep else parts[0][0];
    assert s[|s| - 1] == if rest == [] then sep else rest[|rest| - 1];
  }

  /** A join of non-empty trimmed parts is trimmed, whatever the separator. */
  lemma {:induction false} JoinNonEmptyTrimmed(parts: seq<string>, sep: char)
    requires |parts| >= 1
    requires forall k :: 0 <= k < |parts| ==> Trimmed(parts[k]) && parts[k] != []
    ensures Trimmed(Join(parts, sep)) && Join(parts, sep) != []
    decreases |parts|
  {
    if |parts| > 1 {
      JoinNonEmptyTrimmed(parts[1..], sep);
      var rest := Join(parts[1..], sep);
      var s := parts[0] + [sep] + rest;
      assert s[0] == parts[0][0];
      assert s[|s| - 1] == rest[|rest| - 1];
    }
  }
}
