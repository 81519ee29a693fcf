/** Python string operations used by the service, on `string` (a `seq<char>`):
    `sub in s`, `s.startswith(p)`, `s.find(sub)`, `s.split(sep)`, `sep.join(parts)`,
    `s.strip()` and the ASCII part of `s.lower()`. */
module Text {

  datatype Option<+T> = None | Some(value: T)

  /** `s.startswith(prefix)` */
  predicate StartsWith(s: string, prefix: string) {
    |prefix| <= |s| && s[..|prefix|] == prefix
  }

  /** `sub` occurs in `s` starting at index `i`. */
  predicate OccursAt(s: string, sub: string, i: int) {
    0 <= i && i + |sub| <= |s| && s[i..i + |sub|] == sub
  }

  /** Python's `sub in s`. */
  predicate Contains(s: string, sub: string) {
    exists i :: 0 <= i <= |s| && OccursAt(s, sub, i)
  }

  /** `any(p in s for p in patterns)` */
  predicate ContainsAny(s: string, patterns: seq<string>) {
    exists k :: 0 <= k < |patterns| && Contains(s, patterns[k])
  }

  /** For a one-character pattern, `[c] in s` is plain membership. */
  lemma ContainsChar(s: string, c: char)
    ensures Contains(s, [c]) <==> c in s
  {
    if c in s {
      var i :| 0 <= i < |s| && s[i] == c;
      assert OccursAt(s, [c], i);
    }
    if Contains(s, [c]) {
      var i :| 0 <= i <= |s| && OccursAt(s, [c], i);
      assert s[i..i + 1][0] == c;
    }
  }

  /** An occurrence one position further in `s` is an occurrence in `s[1..]`. */
  lemma OccursShift(s: string, sub: string, j: nat)
    requires |s| > 0
    ensures OccursAt(s, sub, j + 1) <==> OccursAt(s[1..], sub, j)
  {
    if j + 1 + |sub| <= |s| {
      assert s[1..][j..j + |sub|] == s[j + 1..j + 1 + |sub|];
    }
  }

  /** `s.find(sub)`: the position of an occurrence of `sub`, or None for -1;
      FindIsLeftmost shows it is the leftmost one. */
  function Find(s: string, sub: string): (r: Option<nat>)
    requires |sub| > 0
    ensures r.Some? ==> OccursAt(s, sub, r.value)
    decreases |s|
  {
    if |s| < |sub| then None
    else if s[..|sub|] == sub then Some(0)
    else
      match Find(s[1..], sub)
      case None => None
      case Some(j) => OccursShift(s, sub, j); Some(j + 1)
  }

  /** `find` returns the leftmost occurrence, and None only when there is none. */
  lemma {:induction false} FindIsLeftmost(s: string, sub: string)
    requires |sub| > 0
    ensures Find(s, sub).Some? ==> forall j :: 0 <= j < Find(s, sub).value ==> !OccursAt(s, sub, j)
    ensures Find(s, sub).None? ==> forall j :: !OccursAt(s, sub, j)
    decreases |s|
  {
    if |s| >= |sub| && s[..|sub|] != sub {
      FindIsLeftmost(s[1..], sub);
      assert !OccursAt(s, sub, 0) by { assert s[0..|sub|] == s[..|sub|]; }
      forall j | 0 < j && OccursAt(s, sub, j) ensures OccursAt(s[1..], sub, j - 1) {
        OccursShift(s, sub, j - 1);
      }
    }
  }

  lemma FindIffContains(s: string, sub: string)
    requires |sub| > 0
    ensures Find(s, sub).Some? <==> Contains(s, sub)
  {
    FindIsLeftmost(s, sub);
  }

  /** `s.split(sep)` for a non-empty separator: the pieces between the
      non-overlapping occurrences of `sep`, scanned from the left. */
  function Split(s: string, sep: string): (parts: seq<string>)
    requires |sep| > 0
    ensures |parts| >= 1
    decreases |s|
  {
    match Find(s, sep)
    case None => [s]
    case Some(i) => [s[..i]] + Split(s[i + |sep|..], sep)
  }

  /** `sep.join(parts)` */
  function Join(parts: seq<string>, sep: string): string
  {
    if parts == [] then ""
    else if |parts| == 1 then parts[0]
    else parts[0] + sep + Join(parts[1..], sep)
  }

  /** Joining the pieces of a split with the same separator gives back the
      original string. */
  lemma {:induction false} JoinSplit(s: string, sep: string)
    requires |sep| > 0
    ensures Join(Split(s, sep), sep) == s
    decreases |s|
  {
    match Find(s, sep)
    case None =>
    case Some(i) =>
      var rest := s[i + |sep|..];
      var tail := Split(rest, sep);
      var parts := Split(s, sep);
      JoinSplit(rest, sep);
      assert parts == [s[..i]] + tail;
      assert parts[0] == s[..i] && parts[1..] == tail;
      assert Join(parts, sep) == s[..i] + sep + Join(tail, sep);
      assert s == s[..i] + sep + rest;
  }

  /** No piece of a split contains the separator. */
  lemma {:induction false} SplitPiecesFree(s: string, sep: string)
    requires |sep| > 0
    ensures forall k :: 0 <= k < |Split(s, sep)| ==> !Contains(Split(s, sep)[k], sep)
    decreases |s|
  {
    FindIsLeftmost(s, sep);
    match Find(s, sep)
    case None =>
    case Some(i) =>
      var rest := s[i + |sep|..];
      var tail := Split(rest, sep);
      var parts := Split(s, sep);
      SplitPiecesFree(rest, sep);
      assert parts == [s[..i]] + tail;
      forall j | 0 <= j <= i && OccursAt(s[..i], sep, j) ensures OccursAt(s, sep, j) {
        assert s[..i][j..j + |sep|] == s[j..j + |sep|];
      }
      forall k | 0 < k < |parts| ensures !Contains(parts[k], sep) {
        assert parts[k] == tail[k - 1];
      }
  }

  /** The last piece of a split. */
  function Last(parts: seq<string>): string
    requires |parts| > 0
  {
    parts[|parts| - 1]
  }

  /** A one-character substring first occurs right after a prefix without it. */
  lemma FindAfterPrefix(a: string, b: string, d: char)
    requires d !in a
    ensures Find(a + [d] + b, [d]) == Some(|a|)
  {
    var s := a + [d] + b;
    FindIsLeftmost(s, [d]);
    assert OccursAt(s, [d], |a|) by { assert s[|a|..|a| + 1] == [d]; }
    forall j | 0 <= j < |a| ensures !OccursAt(s, [d], j) {
      assert s[j..j + 1] == [a[j]];
    }
  }

  /** A one-character separator that does not occur in `a` ends the first
      piece right after `a`. */
  lemma SplitAtFirst(a: string, b: string, d: char)
    requires d !in a
    ensures Split(a + [d] + b, [d]) == [a] + Split(b, [d])
  {
    var s := a + [d] + b;
    FindAfterPrefix(a, b, d);
    assert s[..|a|] == a && s[|a| + 1..] == b;
  }

  /** Joining splits off the last part after the final separator. */
  lemma {:induction false} JoinLast(parts: seq<string>, sep: string)
    requires |parts| >= 2
    ensures Join(parts, sep) == Join(parts[..|parts| - 1], sep) + sep + Last(parts)
    decreases |parts|
  {
    var n := |parts|;
    if n > 2 {
      JoinLast(parts[1..], sep);
      assert parts[1..][..n - 2] == parts[..n - 1][1..];
      assert Last(parts[1..]) == Last(parts);
    } else {
      assert parts[1..] == [parts[1]];
      assert parts[..1] == [parts[0]];
    }
  }

  /** `s.split(sep)[-1]` is a suffix of `s` free of `sep`, and when `s` contains
      `sep` it is exactly what follows an occurrence of `sep`. */
  lemma SplitLastIsTail(s: string, sep: string)
    requires |sep| > 0
    ensures var t := Last(Split(s, sep));
            && |t| <= |s| && s[|s| - |t|..] == t
            && !Contains(t, sep)
            && (Contains(s, sep) ==> |t| + |sep| <= |s| && s[|s| - |t| - |sep|..|s| - |t|] == sep)
  {
    var parts := Split(s, sep);
    var t := Last(parts);
    JoinSplit(s, sep);
    SplitPiecesFree(s, sep);
    FindIffContains(s, sep);
    if Find(s, sep).Some? {
      assert |parts| >= 2;
      JoinLast(parts, sep);
      var front := Join(parts[..|parts| - 1], sep);
      assert s == front + sep + t;
      assert s[|s| - |t|..] == t;
      assert s[|s| - |t| - |sep|..|s| - |t|] == sep;
    } else {
      assert parts == [s];
    }
  }

  /** Number of occurrences of `c` in `s`. */
  function Count(s: string, c: char): nat
  {
    if s == [] then 0 else (if s[0] == c then 1 else 0) + Count(s[1..], c)
  }

  lemma {:induction false} CountConcat(a: string, b: string, c: char)
    ensures Count(a + b, c) == Count(a, c) + Count(b, c)
  {
    if a == [] {
      assert a + b == b;
    } else {
      assert (a + b)[1..] == a[1..] + b;
      CountConcat(a[1..], b, c);
    }
  }

  lemma {:induction false} CountAbsent(s: string, c: char)
    requires c !in s
    ensures Count(s, c) == 0
  {
    if s != [] {
      CountAbsent(s[1..], c);
    }
  }

  /** Splitting on a one-character separator gives one more piece than the
      separator has occurrences. */
  lemma {:induction false} SplitCharCount(s: string, c: char)
    ensures |Split(s, [c])| == Count(s, c) + 1
    decreases |s|
  {
    ContainsChar(s, c);
    FindIsLeftmost(s, [c]);
    match Find(s, [c])
    case None =>
      CountAbsent(s, c);
    case Some(i) =>
      var rest := s[i + 1..];
      SplitCharCount(rest, c);
      assert s == s[..i] + [c] + rest;
      forall j | 0 <= j < i ensures s[..i][j] != c {
        assert !OccursAt(s, [c], j);
        assert s[j..j + 1] == [s[j]];
      }
      CountAbsent(s[..i], c);
      CountConcat(s[..i] + [c], rest, c);
      CountConcat(s[..i], [c], c);
      assert Count([c], c) == 1 by { assert [c][1..] == []; }
  }

  /** Python's `str.isspace()` for one character: the characters with the
      Unicode White_Space property or bidirectional class WS, B or S. */
  predicate IsSpace(c: char) {
    c == ' ' || ('\t' <= c <= '\r') || ('\U{1C}' <= c <= '\U{1F}') || c == '\U{85}' || c == '\U{A0}'
    || c == '\U{1680}' || ('\U{2000}' <= c <= '\U{200A}') || c == '\U{2028}' || c == '\U{2029}'
    || c == '\U{202F}' || c == '\U{205F}' || c == '\U{3000}'
  }

  function LStrip(s: string): (r: string)
  {
    if s != [] && IsSpace(s[0]) then LStrip(s[1..]) else s
  }

  function RStrip(s: string): (r: string)
  {
    if s != [] && IsSpace(s[|s| - 1]) then RStrip(s[..|s| - 1]) else s
  }

  /** `s.strip()` with no argument. */
  function Strip(s: string): string
  {
    RStrip(LStrip(s))
  }

  lemma {:induction false} LStripIsTail(s: string)
    ensures var r := LStrip(s);
            && |r| <= |s| && r == s[|s| - |r|..]
            && (forall k :: 0 <= k < |s| - |r| ==> IsSpace(s[k]))
            && (r != [] ==> !IsSpace(r[0]))
  {
    if s != [] && IsSpace(s[0]) {
      var t := s[1..];
      LStripIsTail(t);
      var r := LStrip(t);
      assert LStrip(s) == r;
      assert t[|t| - |r|..] == s[|s| - |r|..];
      forall k | 0 <= k < |s| - |r| ensures IsSpace(s[k]) {
        if k > 0 { assert s[k] == t[k - 1]; }
      }
    }
  }

  lemma {:induction false} RStripIsHead(s: string)
    ensures var r := RStrip(s);
            && |r| <= |s| && r == s[..|r|]
            && (forall k :: |r| <= k < |s| ==> IsSpace(s[k]))
            && (r != [] ==> !IsSpace(r[|r| - 1]))
  {
    if s != [] && IsSpace(s[|s| - 1]) {
      var t := s[..|s| - 1];
      RStripIsHead(t);
      var r := RStrip(t);
      assert RStrip(s) == r;
      assert t[..|r|] == s[..|r|];
      forall k | |r| <= k < |s| ensures IsSpace(s[k]) {
        if k < |s| - 1 { assert s[k] == t[k]; }
      }
    }
  }

  /** Whitespace after a prefix `r` of a suffix `l == s[i..]` is whitespace of
      `s` from `i + |r|` on. */
  lemma SpaceAfterHead(s: string, i: nat, l: string, r: string)
    requires i <= |s| && l == s[i..] && |r| <= |l|
    requires forall k :: |r| <= k < |l| ==> IsSpace(l[k])
    ensures forall k :: i + |r| <= k < |s| ==> IsSpace(s[k])
  {
    forall k | i + |r| <= k < |s| ensures IsSpace(s[k]) {
      assert s[k] == l[k - i];
    }
  }

  /** `s[i..j]` is what is left once the whitespace on both sides is removed. */
  predicate CoreSlice(s: string, i: int, j: int) {
    && 0 <= i <= j <= |s|
    && (forall k :: 0 <= k < i ==> IsSpace(s[k]))
    && (forall k :: j <= k < |s| ==> IsSpace(s[k]))
  }

  /** `s.strip()` is the slice of `s` that remains once the leading and the
      trailing whitespace are removed: whitespace only outside it, and none at
      either of its ends. */
  lemma StripIsCore(s: string)
    ensures exists i, j :: CoreSlice(s, i, j) && Strip(s) == s[i..j]
    ensures Strip(s) != [] ==> !IsSpace(Strip(s)[0]) && !IsSpace(Strip(s)[|Strip(s)| - 1])
  {
    LStripIsTail(s);
    var l := LStrip(s);
    RStripIsHead(l);
    var r := RStrip(l);
    var i := |s| - |l|;
    var j := i + |r|;
    assert Strip(s) == s[i..j] by {
      assert l == s[i..];
      assert r == l[..|r|];
    }
    SpaceAfterHead(s, i, l, r);
    assert CoreSlice(s, i, j);
  }

  /** Lower-casing of one character, for the ASCII letters. */
  function LowerChar(c: char): char {
    if 'A' <= c <= 'Z' then (c as int + 32) as char else c
  }

  /** `s.lower()` restricted to the ASCII letters. */
  function Lower(s: string): (r: string)
  {
    seq(|s|, i requires 0 <= i < |s| => LowerChar(s[i]))
  }
}
