/**
  The java.lang.String operations the server relies on, on Dafny strings:
  trim, toLowerCase, split with a limit, startsWith/endsWith/contains,
  decimal rendering of lengths, and the encoding of a message into bytes.
 */
module Text {

  import opened Wrappers

  newtype byte = x: int | 0 <= x < 256

  /** String.trim removes every character at or below U+0020 from both ends. */
  predicate IsSpaceLike(c: char) {
    c <= ' '
  }

  predicate AllSpaceLike(s: string) {
    forall i :: 0 <= i < |s| ==> IsSpaceLike(s[i])
  }

  function TrimStart(s: string): string {
    if s != [] && IsSpaceLike(s[0]) then TrimStart(s[1..]) else s
  }

  function TrimEnd(s: string): string {
    if s != [] && IsSpaceLike(s[|s| - 1]) then TrimEnd(s[..|s| - 1]) else s
  }

  /** String.trim */
  function Trim(s: string): string {
    TrimEnd(TrimStart(s))
  }

  /** TrimStart drops exactly the blank characters at the front. */
  lemma {:induction false} TrimStartShape(s: string)
    ensures var r := TrimStart(s);
      |r| <= |s| && r == s[|s| - |r|..] && AllSpaceLike(s[..|s| - |r|]) && (r != [] ==> !IsSpaceLike(r[0]))
    decreases |s|
  {
    if s != [] && IsSpaceLike(s[0]) {
      TrimStartShape(s[1..]);
      var r := TrimStart(s);
      assert s[..|s| - |r|] == [s[0]] + s[1..][..|s| - 1 - |r|];
    }
  }

  /** TrimEnd drops exactly the blank characters at the back. */
  lemma {:induction false} TrimEndShape(s: string)
    ensures var r := TrimEnd(s);
      |r| <= |s| && r == s[..|r|] && AllSpaceLike(s[|r|..]) && (r != [] ==> !IsSpaceLike(r[|r| - 1]))
    decreases |s|
  {
    if s != [] && IsSpaceLike(s[|s| - 1]) {
      var t := s[..|s| - 1];
      TrimEndShape(t);
      var r := TrimEnd(s);
      assert s[|r|..] == t[|r|..] + [s[|s| - 1]];
    }
  }

  /** TrimStart empties exactly the blank strings. */
  lemma {:induction false} TrimStartEmpty(s: string)
    ensures TrimStart(s) == [] <==> AllSpaceLike(s)
    decreases |s|
  {
    if s != [] && IsSpaceLike(s[0]) {
      TrimStartEmpty(s[1..]);
      assert forall i :: 1 <= i < |s| ==> s[i] == s[1..][i - 1];
    }
  }

  /** The trimmed string is empty exactly for blank input, and otherwise starts
      and ends with a visible character. */
  lemma TrimShape(s: string)
    ensures |Trim(s)| <= |s|
    ensures Trim(s) == [] <==> AllSpaceLike(s)
    ensures Trim(s) != [] ==> !IsSpaceLike(Trim(s)[0]) && !IsSpaceLike(Trim(s)[|Trim(s)| - 1])
  {
    var t := TrimStart(s);
    TrimStartShape(s);
    TrimStartEmpty(s);
    TrimEndShape(t);
    var r := TrimEnd(t);
    if t != [] {
      assert r != [] by {
        assert t[0] == t[..|r|][0];
      }
      assert r[0] == t[0];
    }
  }

  /** A string trim leaves as it is: empty, or visible at both ends. */
  predicate Trimmed(s: string) {
    s == [] || (!IsSpaceLike(s[0]) && !IsSpaceLike(s[|s| - 1]))
  }

  /** Trim changes a string exactly when it is not already trimmed. */
  lemma TrimFixes(s: string)
    ensures Trimmed(Trim(s))
    ensures Trim(s) == s <==> Trimmed(s)
  {
    TrimShape(s);
    if Trimmed(s) && s != [] {
      TrimExact([], s, []);
      assert [] + s + [] == s;
    }
  }

  /** Trim removes exactly a blank prefix and a blank suffix around a visible core. */
  lemma {:induction false} TrimExact(pre: string, core: string, post: string)
    requires AllSpaceLike(pre) && AllSpaceLike(post)
    requires core != [] && !IsSpaceLike(core[0]) && !IsSpaceLike(core[|core| - 1])
    ensures Trim(pre + core + post) == core
  {
    TrimStartExact(pre, core + post);
    assert pre + core + post == pre + (core + post);
    TrimEndExact(core, post);
  }

  lemma {:induction false} TrimStartExact(pre: string, rest: string)
    requires AllSpaceLike(pre)
    requires rest != [] && !IsSpaceLike(rest[0])
    ensures TrimStart(pre + rest) == rest
    decreases |pre|
  {
    if pre != [] {
      assert (pre + rest)[1..] == pre[1..] + rest;
      TrimStartExact(pre[1..], rest);
    }
  }

  lemma {:induction false} TrimEndExact(core: string, post: string)
    requires AllSpaceLike(post)
    requires core != [] && !IsSpaceLike(core[|core| - 1])
    ensures TrimEnd(core + post) == core
    decreases |post|
  {
    if post != [] {
      var p := post[..|post| - 1];
      assert (core + post)[..|core + post| - 1] == core + p;
      TrimEndExact(core, p);
    } else {
      assert core + post == core;
    }
  }

  /** String.toLowerCase, for the ASCII letters. */
  function LowerChar(c: char): char {
    if 'A' <= c <= 'Z' then (c as int + 32) as char else c
  }

  function Lower(s: string): (r: string)
    ensures |r| == |s|
    ensures forall i :: 0 <= i < |s| ==> r[i] == LowerChar(s[i])
    ensures forall i :: 0 <= i < |r| ==> !('A' <= r[i] <= 'Z')
  {
    if s == [] then [] else [LowerChar(s[0])] + Lower(s[1..])
  }

  /** s.split(sep, 2) when `sep` occurs: the text before its first occurrence and the text after it. */
  function SplitFirst(s: string, sep: char): (r: Option<(string, string)>)
    ensures r.None? <==> sep !in s
    ensures r.Some? ==> s == r.value.0 + [sep] + r.value.1 && sep !in r.value.0
  {
    if s == [] then None
    else if s[0] == sep then Some(([], s[1..]))
    else
      match SplitFirst(s[1..], sep)
      case None => None
      case Some(p) =>
        assert s == [s[0]] + s[1..];
        Some(([s[0]] + p.0, p.1))
  }

  lemma {:induction false} SplitFirstAt(before: string, sep: char, after: string)
    requires sep !in before
    ensures SplitFirst(before + [sep] + after, sep) == Some((before, after))
    decreases |before|
  {
    var s := before + [sep] + after;
    if before == [] {
      assert s[0] == sep && s[1..] == after;
    } else {
      assert s[0] == before[0] && s[1..] == before[1..] + [sep] + after;
      SplitFirstAt(before[1..], sep, after);
      assert [before[0]] + before[1..] == before;
    }
  }

  function JoinWith(parts: seq<string>, sep: char): string {
    if parts == [] then []
    else if |parts| == 1 then parts[0]
    else parts[0] + [sep] + JoinWith(parts[1..], sep)
  }

  /** line.split(" ", 3): the pieces before the first space, between the first two
      spaces, and everything after the second space. */
  function SplitRequestLine(line: string): (r: seq<string>)
    ensures 1 <= |r| <= 3
    ensures JoinWith(r, ' ') == line
    ensures forall i :: 0 <= i < |r| - 1 ==> ' ' !in r[i]
    ensures |r| < 3 ==> ' ' !in r[|r| - 1]
  {
    match SplitFirst(line, ' ')
    case None => [line]
    case Some(p) =>
      match SplitFirst(p.1, ' ')
      case None =>
        assert JoinWith([p.0, p.1], ' ') == p.0 + [' '] + p.1;
        [p.0, p.1]
      case Some(q) =>
        assert [p.0, q.0, q.1][1..] == [q.0, q.1];
        assert JoinWith([q.0, q.1], ' ') == q.0 + [' '] + q.1;
        assert JoinWith([p.0, q.0, q.1], ' ') == p.0 + [' '] + (q.0 + [' '] + q.1);
        [p.0, q.0, q.1]
  }

  /** line.split(" ", 3) yields all three pieces exactly when the line holds at least two spaces. */
  lemma SplitRequestLineSpaces(line: string)
    ensures |SplitRequestLine(line)| == 3 <==> multiset(line)[' '] >= 2
  {
    match SplitFirst(line, ' ')
    case None =>
    case Some(p) =>
      assert multiset(line) == multiset(p.0) + multiset{' '} + multiset(p.1);
      match SplitFirst(p.1, ' ')
      case None =>
      case Some(q) =>
        assert multiset(p.1) == multiset(q.0) + multiset{' '} + multiset(q.1);
  }

  /** A line holding two spaces after a space-free method and target splits into exactly those three pieces. */
  lemma SplitRequestLineOf(verb: string, target: string, rest: string)
    requires ' ' !in verb && ' ' !in target
    ensures SplitRequestLine(verb + " " + target + " " + rest) == [verb, target, rest]
  {
    var line := verb + " " + target + " " + rest;
    assert line == verb + [' '] + (target + " " + rest);
    SplitFirstAt(verb, ' ', target + " " + rest);
    assert target + " " + rest == target + [' '] + rest;
    SplitFirstAt(target, ' ', rest);
  }

  predicate StartsWith(s: string, prefix: string) {
    prefix <= s
  }

  predicate EndsWith(s: string, suffix: string) {
    |suffix| <= |s| && s[|s| - |suffix|..] == suffix
  }

  /** String.contains(".."). */
  predicate HasDotDot(s: string) {
    exists i :: 0 <= i < |s| - 1 && s[i] == '.' && s[i + 1] == '.'
  }

  lemma HasDotDotWithin(s: string, lo: int, hi: int)
    requires 0 <= lo <= hi <= |s|
    requires HasDotDot(s[lo..hi])
    ensures HasDotDot(s)
  {
    var i :| 0 <= i < hi - lo - 1 && s[lo..hi][i] == '.' && s[lo..hi][i + 1] == '.';
    assert s[lo + i] == '.' && s[lo + i + 1] == '.';
  }

  predicate IsDigit(c: char) {
    '0' <= c <= '9'
  }

  predicate AllDigits(s: string) {
    forall i :: 0 <= i < |s| ==> IsDigit(s[i])
  }

  function DigitChar(d: int): (c: char)
    requires 0 <= d < 10
    ensures IsDigit(c) && c as int - '0' as int == d
  {
    ('0' as int + d) as char
  }

  /** Long.toString / Integer.toString of a non-negative number: its decimal digits. */
  function NatToString(n: nat): (r: string)
    ensures r != [] && AllDigits(r)
  {
    if n < 10 then [DigitChar(n)] else NatToString(n / 10) + [DigitChar(n % 10)]
  }

  /** The number a string of decimal digits denotes. */
  function DecimalValue(s: string): nat
    requires AllDigits(s)
  {
    if s == [] then 0 else DecimalValue(s[..|s| - 1]) * 10 + (s[|s| - 1] as int - '0' as int)
  }

  /** Reading a rendered length back gives the length. */
  lemma {:induction false} DecimalRoundTrip(n: nat)
    ensures DecimalValue(NatToString(n)) == n
  {
    var s := NatToString(n);
    if n >= 10 {
      DecimalRoundTrip(n / 10);
      assert s[..|s| - 1] == NatToString(n / 10);
    }
  }

  /** Every character is in the ASCII range. */
  predicate IsAscii(s: string) {
    forall i :: 0 <= i < |s| ==> s[i] as int < 128
  }

  /** The UTF-8 bytes of one character. */
  function Utf8(c: char): (r: seq<byte>)
    ensures 1 <= |r| <= 4
    ensures |r| == 1 <==> c as int < 128
    ensures c as int >= 0x1_0000 ==> |r| == 4
  {
    var v := c as int;
    if v < 0x80 then [v as byte]
    else if v < 0x800 then [(0xC0 + v / 64) as byte, (0x80 + v % 64) as byte]
    else if v < 0x1_0000 then [(0xE0 + v / 4096) as byte, (0x80 + v / 64 % 64) as byte, (0x80 + v % 64) as byte]
    else [(0xF0 + v / 262144) as byte, (0x80 + v / 4096 % 64) as byte, (0x80 + v / 64 % 64) as byte, (0x80 + v % 64) as byte]
  }

  /** String.getBytes under the UTF-8 charset: each character's bytes, in order. */
  function Encode(s: string): seq<byte> {
    if s == [] then [] else Utf8(s[0]) + Encode(s[1..])
  }

  /** String.length(): the number of UTF-16 code units, two for a character
      outside the Basic Multilingual Plane. */
  function JavaLength(s: string): nat {
    if s == [] then 0 else (if s[0] as int >= 0x1_0000 then 2 else 1) + JavaLength(s[1..])
  }

  /** Encoding a concatenation encodes the pieces one after the other. */
  lemma {:induction false} EncodeAppend(a: string, b: string)
    ensures Encode(a + b) == Encode(a) + Encode(b)
    decreases |a|
  {
    if a != [] {
      assert (a + b)[0] == a[0] && (a + b)[1..] == a[1..] + b;
      EncodeAppend(a[1..], b);
    } else {
      assert a + b == b;
    }
  }

  /** String.length() counts a concatenation piece by piece. */
  lemma {:induction false} JavaLengthAppend(a: string, b: string)
    ensures JavaLength(a + b) == JavaLength(a) + JavaLength(b)
    decreases |a|
  {
    if a != [] {
      assert (a + b)[0] == a[0] && (a + b)[1..] == a[1..] + b;
      JavaLengthAppend(a[1..], b);
    } else {
      assert a + b == b;
    }
  }

  /** getBytes never gives fewer bytes than String.length() counts, and gives
      exactly that many precisely for ASCII text. */
  lemma {:induction false} EncodeSize(s: string)
    ensures |Encode(s)| >= JavaLength(s)
    ensures |Encode(s)| == JavaLength(s) <==> IsAscii(s)
    decreases |s|
  {
    if s != [] {
      EncodeSize(s[1..]);
      assert IsAscii(s) <==> s[0] as int < 128 && IsAscii(s[1..]) by {
        if s[0] as int < 128 && IsAscii(s[1..]) {
          forall i | 0 <= i < |s|
            ensures s[i] as int < 128
          {
            if i > 0 {
              assert s[i] == s[1..][i - 1];
            }
          }
        }
      }
    }
  }

  /** Text wrapped between two ASCII pieces grows by their length, both in
      bytes and in String.length(). */
  lemma EncodeBetween(pre: string, mid: string, post: string)
    requires IsAscii(pre) && IsAscii(post)
    ensures |Encode(pre + mid + post)| == |pre| + |Encode(mid)| + |post|
    ensures JavaLength(pre + mid + post) == |pre| + JavaLength(mid) + |post|
  {
    EncodeAscii(pre);
    EncodeAscii(post);
    EncodeAppend(pre + mid, post);
    EncodeAppend(pre, mid);
    JavaLengthAppend(pre + mid, post);
    JavaLengthAppend(pre, mid);
  }

  /** ASCII text is encoded one byte per character, each byte the character's code. */
  lemma {:induction false} EncodeAscii(s: string)
    requires IsAscii(s)
    ensures |Encode(s)| == |s| == JavaLength(s)
    ensures forall i :: 0 <= i < |s| ==> Encode(s)[i] as int == s[i] as int
    decreases |s|
  {
    if s != [] {
      assert IsAscii(s[1..]) by {
        forall i | 0 <= i < |s[1..]|
          ensures s[1..][i] as int < 128
        {
          assert s[1..][i] == s[i + 1];
        }
      }
      EncodeAscii(s[1..]);
      forall i | 0 <= i < |s|
        ensures Encode(s)[i] as int == s[i] as int
      {
        if i > 0 {
          assert Encode(s)[i] == Encode(s[1..])[i - 1];
          assert s[i] == s[1..][i - 1];
        }
      }
    }
  }
}
