/**
 The string operations the validator relies on: whitespace trimming (`strip`),
 character counting (`count`), splitting on a separator (`split`) and the
 prefix/suffix tests (`startswith`, `endswith`). Whitespace is the ASCII part
 of Python's `str.isspace`: space, the control characters tab through carriage
 return (9 to 13) and the four information separators (28 to 31).
 */
module Text {

  const FileSeparator: char := 28 as char
  const UnitSeparator: char := 31 as char

  /** Tab, line feed, vertical tab, form feed, carriage return, the separators 28-31 and space. */
  predicate IsWhitespace(c: char) {
    c == ' ' || '\t' <= c <= '\r' || FileSeparator <= c <= UnitSeparator
  }

  predicate AllWhitespace(s: string) {
    forall i | 0 <= i < |s| :: IsWhitespace(s[i])
  }

  predicate StartsWith(s: string, prefix: string) {
    |prefix| <= |s| && s[..|prefix|] == prefix
  }

  predicate EndsWith(s: string, suffix: string) {
    |suffix| <= |s| && s[|s| - |suffix|..] == suffix
  }

  /** `s` with its leading whitespace removed: the longest whitespace prefix is dropped. */
  function TrimLeft(s: string): (r: string)
    ensures |r| <= |s|
    ensures AllWhitespace(s[..|s| - |r|])
    ensures r == [] || !IsWhitespace(r[0])
  {
    if |s| > 0 && IsWhitespace(s[0]) then TrimLeft(s[1..]) else s
  }

  /** `s` with its trailing whitespace removed: the longest whitespace suffix is dropped. */
  function TrimRight(s: string): (r: string)
    ensures |r| <= |s|
    ensures AllWhitespace(s[|r|..])
    ensures r == [] || !IsWhitespace(r[|r| - 1])
  {
    if |s| > 0 && IsWhitespace(s[|s| - 1]) then TrimRight(s[..|s| - 1]) else s
  }

  /** A left trim keeps a suffix of its input. */
  lemma {:induction false} TrimLeftIsSuffix(s: string)
    ensures TrimLeft(s) == s[|s| - |TrimLeft(s)|..]
    decreases |s|
  {
    if |s| > 0 && IsWhitespace(s[0]) {
      TrimLeftIsSuffix(s[1..]);
      assert s[1..][|s| - 1 - |TrimLeft(s[1..])|..] == s[|s| - |TrimLeft(s)|..];
    }
  }

  /** A right trim keeps a prefix of its input. */
  lemma {:induction false} TrimRightIsPrefix(s: string)
    ensures TrimRight(s) == s[..|TrimRight(s)|]
    decreases |s|
  {
    if |s| > 0 && IsWhitespace(s[|s| - 1]) {
      TrimRightIsPrefix(s[..|s| - 1]);
      assert s[..|s| - 1][..|TrimRight(s[..|s| - 1])|] == s[..|TrimRight(s)|];
    }
  }

  /** Python's `str.strip()` with no argument, over the ASCII whitespace set. */
  function Strip(s: string): (r: string)
    ensures |r| <= |s|
    ensures r == [] || (!IsWhitespace(r[0]) && !IsWhitespace(r[|r| - 1]))
  {
    TrimRightIsPrefix(TrimLeft(s));
    TrimRight(TrimLeft(s))
  }

  /**
   `r` is `s[i..j]`, everything outside that slice is whitespace, and `r`
   neither starts nor ends with whitespace: the declarative meaning of strip.
   */
  predicate StrippedAt(s: string, r: string, i: int, j: int) {
    && 0 <= i <= j <= |s|
    && r == s[i..j]
    && AllWhitespace(s[..i])
    && AllWhitespace(s[j..])
    && (r == [] || (!IsWhitespace(r[0]) && !IsWhitespace(r[|r| - 1])))
  }

  lemma {:induction false} TrimLeftAfterWhitespace(a: string, s: string)
    requires AllWhitespace(a)
    ensures TrimLeft(a + s) == TrimLeft(s)
    decreases |a|
  {
    if |a| > 0 {
      assert (a + s)[1..] == a[1..] + s;
      TrimLeftAfterWhitespace(a[1..], s);
    } else {
      assert a + s == s;
    }
  }

  lemma {:induction false} TrimRightBeforeWhitespace(s: string, b: string)
    requires AllWhitespace(b)
    ensures TrimRight(s + b) == TrimRight(s)
    decreases |b|
  {
    if |b| > 0 {
      assert (s + b)[..|s + b| - 1] == s + b[..|b| - 1];
      TrimRightBeforeWhitespace(s, b[..|b| - 1]);
    } else {
      assert s + b == s;
    }
  }

  /** Text after the first non-whitespace character is carried through a left trim untouched. */
  lemma {:induction false} TrimLeftAppend(s: string, b: string)
    requires TrimLeft(s) != []
    ensures TrimLeft(s + b) == TrimLeft(s) + b
    decreases |s|
  {
    if |s| > 0 && IsWhitespace(s[0]) {
      assert (s + b)[1..] == s[1..] + b;
      TrimLeftAppend(s[1..], b);
    } else {
      assert |s| > 0;
    }
  }

  /** A string of whitespace only trims to nothing. */
  lemma TrimLeftWhitespaceOnly(s: string)
    requires AllWhitespace(s)
    ensures TrimLeft(s) == []
  {
  }

  /** A left trim that leaves nothing means the input was whitespace only. */
  lemma TrimLeftEmpty(s: string)
    requires TrimLeft(s) == []
    ensures AllWhitespace(s)
  {
  }

  lemma AllWhitespaceConcat(a: string, b: string)
    requires AllWhitespace(a) && AllWhitespace(b)
    ensures AllWhitespace(a + b)
  {
  }

  /** Surrounding whitespace never changes what strip returns. */
  lemma StripIgnoresPadding(a: string, s: string, b: string)
    requires AllWhitespace(a) && AllWhitespace(b)
    ensures Strip(a + s + b) == Strip(s)
  {
    assert a + s + b == a + (s + b);
    TrimLeftAfterWhitespace(a, s + b);
    assert Strip(a + s + b) == TrimRight(TrimLeft(s + b));
    var l := TrimLeft(s);
    if l == [] {
      TrimLeftEmpty(s);
      AllWhitespaceConcat(s, b);
      TrimLeftWhitespaceOnly(s + b);
    } else {
      TrimLeftAppend(s, b);
      TrimRightBeforeWhitespace(l, b);
    }
  }

  /** Stripping twice is stripping once. */
  lemma StripIdempotent(s: string)
    ensures Strip(Strip(s)) == Strip(s)
  {
    var r := Strip(s);
    TrimRightIsPrefix(TrimLeft(s));
    assert TrimLeft(r) == r;
    assert TrimRight(r) == r;
  }

  /** A whitespace prefix followed by a non-whitespace character (or nothing) is what a left trim drops. */
  lemma TrimLeftAt(s: string, i: int)
    requires 0 <= i <= |s| && AllWhitespace(s[..i])
    requires i == |s| || !IsWhitespace(s[i])
    ensures TrimLeft(s) == s[i..]
  {
    assert s == s[..i] + s[i..];
    TrimLeftAfterWhitespace(s[..i], s[i..]);
  }

  /** A whitespace suffix preceded by a non-whitespace character (or nothing) is what a right trim drops. */
  lemma TrimRightAt(s: string, j: int)
    requires 0 <= j <= |s| && AllWhitespace(s[j..])
    requires j == 0 || !IsWhitespace(s[j - 1])
    ensures TrimRight(s) == s[..j]
  {
    assert s == s[..j] + s[j..];
    TrimRightBeforeWhitespace(s[..j], s[j..]);
  }

  /**
   Strip returns exactly the slice that `StrippedAt` describes: the result
   sits in the input between whitespace-only margins and has no whitespace at
   either end, and it is the only string with that property.
   */
  lemma StripMeaning(s: string, r: string)
    ensures r == Strip(s) <==> exists i, j :: StrippedAt(s, r, i, j)
  {
    if r == Strip(s) {
      StripIsStripped(s);
    }
    if i, j :| StrippedAt(s, r, i, j) {
      StrippedIsStrip(s, r, i, j);
    }
  }

  lemma StripIsStripped(s: string)
    ensures StrippedAt(s, Strip(s), |s| - |TrimLeft(s)|, |s| - |TrimLeft(s)| + |Strip(s)|)
  {
    var l := TrimLeft(s);
    var r := TrimRight(l);
    var i0 := |s| - |l|;
    TrimLeftIsSuffix(s);
    TrimRightIsPrefix(l);
    assert s[i0..] == l;
    assert r == s[i0..i0 + |r|];
    assert l[|r|..] == s[i0 + |r|..];
  }

  lemma StrippedIsStrip(s: string, r: string, i: int, j: int)
    requires StrippedAt(s, r, i, j)
    ensures r == Strip(s)
  {
    if r == [] {
      assert s == s[..i] + s[j..];
      AllWhitespaceConcat(s[..i], s[j..]);
      TrimLeftWhitespaceOnly(s);
    } else {
      TrimLeftAt(s, i);
      assert s[i..][j - i..] == s[j..];
      assert s[i..][j - i - 1] == r[|r| - 1];
      TrimRightAt(s[i..], j - i);
      assert s[i..][..j - i] == r;
    }
  }

  /** A string with no whitespace at either end is its own strip. */
  lemma StripUnpadded(s: string)
    requires s == [] || (!IsWhitespace(s[0]) && !IsWhitespace(s[|s| - 1]))
    ensures Strip(s) == s
  {
  }

  /** Python's `s.count(c)` for a single character. */
  function Count(s: string, c: char): (n: nat)
    ensures n <= |s|
    ensures n == 0 <==> c !in s
  {
    if |s| == 0 then 0
    else (if s[0] == c then 1 else 0) + Count(s[1..], c)
  }

  lemma {:induction false} CountAppend(a: string, b: string, c: char)
    ensures Count(a + b, c) == Count(a, c) + Count(b, c)
    decreases |a|
  {
    if |a| == 0 {
      assert a + b == b;
    } else {
      assert (a + b)[1..] == a[1..] + b;
      CountAppend(a[1..], b, c);
    }
  }

  /** A string split around one occurrence of `c` holds one more `c` than its two sides. */
  lemma CountAround(a: string, b: string, c: char)
    ensures Count(a + [c] + b, c) == Count(a, c) + 1 + Count(b, c)
  {
    CountAppend(a + [c], b, c);
    CountAppend(a, [c], c);
  }

  /** The position of the first `c` in `s`, or `|s|` when there is none. */
  function FirstIndex(s: string, c: char): (p: nat)
    ensures p <= |s|
    ensures c !in s[..p]
    ensures p < |s| ==> s[p] == c
    ensures p == |s| <==> c !in s
  {
    if |s| == 0 then 0
    else if s[0] == c then 0
    else
      var p := 1 + FirstIndex(s[1..], c);
      assert s[..p] == [s[0]] + s[1..][..p - 1];
      p
  }

  /** A `c` with no `c` before it is the first one. */
  lemma FirstIndexAt(s: string, c: char, p: int)
    requires 0 <= p < |s| && s[p] == c && c !in s[..p]
    ensures FirstIndex(s, c) == p
  {
  }

  /**
   Python's `s.split(sep)` for a single-character separator: the pieces
   between consecutive separators, there being one more piece than separators.
   */
  function Split(s: string, sep: char): (parts: seq<string>)
    ensures |parts| == Count(s, sep) + 1
    ensures forall k | 0 <= k < |parts| :: sep !in parts[k]
    ensures parts[0] == s[..FirstIndex(s, sep)]
  {
    if |s| == 0 then [[]]
    else
      var rest := Split(s[1..], sep);
      if s[0] == sep then [[]] + rest
      else
        assert s[..FirstIndex(s, sep)] == [s[0]] + s[1..][..FirstIndex(s[1..], sep)];
        [[s[0]] + rest[0]] + rest[1..]
  }

  /** Python's `sep.join(parts)`: the inverse of `Split`. */
  function Join(parts: seq<string>, sep: char): string
  {
    if |parts| == 0 then []
    else if |parts| == 1 then parts[0]
    else parts[0] + [sep] + Join(parts[1..], sep)
  }

  /** Joining the pieces of a split gives back the original string. */
  lemma {:induction false} JoinSplit(s: string, sep: char)
    ensures Join(Split(s, sep), sep) == s
    decreases |s|
  {
    if |s| > 0 {
      JoinSplit(s[1..], sep);
      var rest := Split(s[1..], sep);
      if s[0] == sep {
        assert Split(s, sep)[1..] == rest;
        assert s == [sep] + s[1..];
      } else {
        var parts := Split(s, sep);
        if |rest| == 1 {
          assert parts == [[s[0]] + rest[0]];
          assert s == [s[0]] + s[1..];
        } else {
          assert parts[1..] == rest[1..];
          assert Join(rest, sep) == rest[0] + [sep] + Join(rest[1..], sep);
          assert s == [s[0]] + s[1..];
        }
      }
    }
  }

  /** Splitting a join of separator-free pieces gives back the pieces. */
  lemma {:induction false} SplitJoin(parts: seq<string>, sep: char)
    requires |parts| > 0
    requires forall k | 0 <= k < |parts| :: sep !in parts[k]
    ensures Split(Join(parts, sep), sep) == parts
    decreases |parts|
  {
    if |parts| == 1 {
      SplitNoSeparator(parts[0], sep);
    } else {
      SplitJoin(parts[1..], sep);
      SplitAround(parts[0], Join(parts[1..], sep), sep);
      assert parts == [parts[0]] + parts[1..];
    }
  }

  lemma {:induction false} SplitNoSeparator(s: string, sep: char)
    requires sep !in s
    ensures Split(s, sep) == [s]
  {
    var parts := Split(s, sep);
    assert |parts| == 1;
    assert FirstIndex(s, sep) == |s|;
    assert s[..|s|] == s;
  }

  /** A split at the first separator: the first piece, then the pieces of the rest. */
  lemma {:induction false} SplitAround(a: string, b: string, sep: char)
    requires sep !in a
    ensures Split(a + [sep] + b, sep) == [a] + Split(b, sep)
    decreases |a|
  {
    var s := a + [sep] + b;
    if |a| == 0 {
      assert s == [sep] + b;
      assert s[1..] == b;
    } else {
      assert s[1..] == a[1..] + [sep] + b;
      SplitAround(a[1..], b, sep);
      assert [a[0]] + a[1..] == a;
    }
  }
}
