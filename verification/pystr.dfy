/** The Python string operations the views apply to request parameters and nuspec text:
    stripping, splitting on a character or on whitespace runs, lower-casing, character removal
    and reading a decimal number. */
module PyStr {

  /** The characters Python counts as whitespace: those `str.isspace` accepts, which are also
      the ones `\s` matches in a string pattern and the ones `strip()` removes. */
  const Whitespace: set<char> := {
    '\t', '\n', '\U{0b}', '\U{0c}', '\r', '\U{1c}', '\U{1d}', '\U{1e}', '\U{1f}', ' ',
    '\U{85}', '\U{a0}', '\U{1680}', '\U{2000}', '\U{2001}', '\U{2002}', '\U{2003}', '\U{2004}',
    '\U{2005}', '\U{2006}', '\U{2007}', '\U{2008}', '\U{2009}', '\U{200a}', '\U{2028}',
    '\U{2029}', '\U{202f}', '\U{205f}', '\U{3000}'}

  /** No character of s is in cs. */
  predicate Free(s: string, cs: set<char>)
  {
    forall k :: 0 <= k < |s| ==> s[k] !in cs
  }

  /** Every character of s is in cs. */
  predicate Within(s: string, cs: set<char>)
  {
    forall k :: 0 <= k < |s| ==> s[k] in cs
  }

  /** s neither begins nor ends with a character of cs. */
  predicate Trimmed(s: string, cs: set<char>)
  {
    s == [] || (s[0] !in cs && s[|s| - 1] !in cs)
  }

  /** s with its leading characters from cs removed. */
  function StripStart(s: string, cs: set<char>): (r: string)
    ensures |r| <= |s|
    ensures r == [] || r[0] !in cs
    decreases |s|
  {
    if s != [] && s[0] in cs then StripStart(s[1..], cs) else s
  }

  /** StripStart keeps a suffix of s and removes only characters of cs. */
  lemma {:induction false} StripStartPads(s: string, cs: set<char>)
    ensures StripStart(s, cs) == s[|s| - |StripStart(s, cs)|..]
    ensures Within(s[..|s| - |StripStart(s, cs)|], cs)
    decreases |s|
  {
    if s != [] && s[0] in cs {
      StripStartPads(s[1..], cs);
      var n := |s| - |StripStart(s, cs)|;
      assert s[1..][|s| - 1 - |StripStart(s, cs)|..] == s[n..];
      assert forall k :: 1 <= k < n ==> s[..n][k] == s[1..][..n - 1][k - 1];
    }
  }

  /** s with its trailing characters from cs removed. */
  function StripEnd(s: string, cs: set<char>): (r: string)
    ensures |r| <= |s|
    ensures r == [] || r[|r| - 1] !in cs
    decreases |s|
  {
    if s != [] && s[|s| - 1] in cs then StripEnd(s[..|s| - 1], cs) else s
  }

  /** StripEnd keeps a prefix of s and removes only characters of cs. */
  lemma {:induction false} StripEndPads(s: string, cs: set<char>)
    ensures StripEnd(s, cs) == s[..|StripEnd(s, cs)|]
    ensures Within(s[|StripEnd(s, cs)|..], cs)
    decreases |s|
  {
    if s != [] && s[|s| - 1] in cs {
      StripEndPads(s[..|s| - 1], cs);
      var n := |StripEnd(s, cs)|;
      assert s[..|s| - 1][..n] == s[..n];
      assert forall k :: 0 <= k < |s| - 1 - n ==> s[n..][k] == s[..|s| - 1][n..][k];
    }
  }

  /** `s.strip(chars)`: both ends stripped of the characters in cs. */
  function StripChars(s: string, cs: set<char>): (r: string)
    ensures Trimmed(r, cs)
  {
    var t := StripStart(s, cs);
    StripEndPads(t, cs);
    StripEnd(t, cs)
  }

  /** What strip keeps is a slice of s, and what it removes at either end is all in cs. */
  lemma StripCharsSlice(s: string, cs: set<char>)
    ensures |StripChars(s, cs)| <= |s| - StripOffset(s, cs)
    ensures StripChars(s, cs) == s[StripOffset(s, cs)..StripOffset(s, cs) + |StripChars(s, cs)|]
    ensures Within(s[..StripOffset(s, cs)], cs)
    ensures Within(s[StripOffset(s, cs) + |StripChars(s, cs)|..], cs)
  {
    var t := StripStart(s, cs);
    var i := StripOffset(s, cs);
    var r := StripChars(s, cs);
    StripStartPads(s, cs);
    StripEndPads(t, cs);
    assert t == s[i..];
    assert s[i..i + |r|] == t[..|r|];
    assert s[i + |r|..] == t[|r|..];
  }

  /** Stripping adds no character: one absent from s is absent from its strip. */
  lemma StripKeeps(s: string, cs: set<char>, c: char)
    requires c !in s
    ensures c !in StripChars(s, cs)
  {
    StripCharsSlice(s, cs);
    var i := StripOffset(s, cs);
    var r := StripChars(s, cs);
    assert forall j :: 0 <= j < |r| ==> r[j] == s[i + j];
  }

  /** How many characters `strip` removes from the front. */
  function StripOffset(s: string, cs: set<char>): nat
  {
    |s| - |StripStart(s, cs)|
  }

  /** `s.strip()`. */
  function Strip(s: string): string
  {
    StripChars(s, Whitespace)
  }

  /** `s.strip('\'"')`. */
  function StripQuotes(s: string): string
  {
    StripChars(s, {'\'', '"'})
  }

  lemma {:induction false} StripStartPadded(a: string, t: string, cs: set<char>)
    requires Within(a, cs) && (t == [] || t[0] !in cs)
    ensures StripStart(a + t, cs) == t
    decreases |a|
  {
    if a != [] {
      assert (a + t)[1..] == a[1..] + t;
      StripStartPadded(a[1..], t, cs);
    } else {
      assert a + t == t;
    }
  }

  lemma {:induction false} StripEndPadded(t: string, b: string, cs: set<char>)
    requires Within(b, cs) && (t == [] || t[|t| - 1] !in cs)
    ensures StripEnd(t + b, cs) == t
    decreases |b|
  {
    if b != [] {
      assert (t + b)[..|t + b| - 1] == t + b[..|b| - 1];
      StripEndPadded(t, b[..|b| - 1], cs);
    } else {
      assert t + b == t;
    }
  }

  /** Stripping undoes padding: a text that neither begins nor ends with a character of cs,
      padded on both sides with characters of cs, strips back to itself. */
  lemma StripPadded(a: string, t: string, b: string, cs: set<char>)
    requires Within(a, cs) && Within(b, cs) && Trimmed(t, cs)
    ensures StripChars(a + t + b, cs) == t
  {
    if t == [] {
      assert a + t + b == a + b;
      assert Within(a + b, cs);
      StripStartPadded(a + b, [], cs);
      assert a + b + [] == a + b;
    } else {
      assert a + t + b == a + (t + b);
      StripStartPadded(a, t + b, cs);
      StripEndPadded(t, b, cs);
    }
  }

  /** A text with nothing to strip is its own strip. */
  lemma StripTrimmed(t: string, cs: set<char>)
    requires Trimmed(t, cs)
    ensures StripChars(t, cs) == t
  {
    StripPadded([], t, [], cs);
    assert [] + t + [] == t;
  }

  /** `s.split(sep)`: the pieces between the occurrences of sep. */
  function Split(s: string, sep: char): (parts: seq<string>)
    ensures |parts| > 0
    decreases |s|
  {
    if s == [] then [[]]
    else
      var rest := Split(s[1..], sep);
      if s[0] == sep then [[]] + rest
      else [[s[0]] + rest[0]] + rest[1..]
  }

  /** There is one more piece than there are separators, and no piece holds one. */
  lemma {:induction false} SplitPieces(s: string, sep: char)
    ensures |Split(s, sep)| == multiset(s)[sep] + 1
    ensures forall k :: 0 <= k < |Split(s, sep)| ==> sep !in Split(s, sep)[k]
    decreases |s|
  {
    if s != [] {
      SplitPieces(s[1..], sep);
      assert s == [s[0]] + s[1..];
      var rest := Split(s[1..], sep);
      if s[0] != sep {
        var parts := Split(s, sep);
        assert forall k :: 1 <= k < |parts| ==> parts[k] == rest[k];
      }
    }
  }

  /** `sep.join(parts)`. */
  function Join(parts: seq<string>, sep: char): string
    requires |parts| > 0
  {
    if |parts| == 1 then parts[0] else parts[0] + [sep] + Join(parts[1..], sep)
  }

  /** Splitting loses nothing: joining the pieces with the separator gives the text back. */
  lemma {:induction false} JoinSplit(s: string, sep: char)
    ensures Join(Split(s, sep), sep) == s
    decreases |s|
  {
    if s != [] {
      var rest := Split(s[1..], sep);
      JoinSplit(s[1..], sep);
      if s[0] != sep {
        if |rest| > 1 {
          assert [s[0]] + rest[0] + [sep] + Join(rest[1..], sep)
            == [s[0]] + (rest[0] + [sep] + Join(rest[1..], sep));
        }
        assert ([[s[0]] + rest[0]] + rest[1..])[1..] == rest[1..];
      }
      assert s == [s[0]] + s[1..];
    }
  }

  /** Joining pieces free of the separator and splitting again gives the pieces back. */
  lemma {:induction false} SplitJoin(parts: seq<string>, sep: char)
    requires |parts| > 0 && forall k :: 0 <= k < |parts| ==> sep !in parts[k]
    ensures Split(Join(parts, sep), sep) == parts
    decreases |parts|
  {
    if |parts| == 1 {
      SplitFree(parts[0], sep);
    } else {
      SplitJoin(parts[1..], sep);
      SplitPrefix(parts[0], Join(parts[1..], sep), sep);
      assert [parts[0]] + parts[1..] == parts;
    }
  }

  /** A text without the separator is one piece. */
  lemma {:induction false} SplitFree(s: string, sep: char)
    requires sep !in s
    ensures Split(s, sep) == [s]
    decreases |s|
  {
    if s != [] {
      SplitFree(s[1..], sep);
      assert s == [s[0]] + s[1..];
    }
  }

  /** A piece w followed by the separator is the first piece of the split. */
  lemma {:induction false} SplitPrefix(w: string, t: string, sep: char)
    requires sep !in w
    ensures Split(w + [sep] + t, sep) == [w] + Split(t, sep)
    decreases |w|
  {
    var s := w + [sep] + t;
    if w == [] {
      assert s[1..] == t;
    } else {
      assert s[1..] == w[1..] + [sep] + t;
      SplitPrefix(w[1..], t, sep);
      assert [w[0]] + w[1..] == w;
    }
  }

  /** `re.split(r'\s+', s)`: the pieces between maximal whitespace runs. */
  function SplitRuns(s: string): (parts: seq<string>)
    ensures |parts| > 0
    ensures |parts| == 1 ==> parts[0] == s
    decreases |s|
  {
    if s == [] then [[]]
    else
      var rest := SplitRuns(s[1..]);
      if s[0] !in Whitespace then
        assert |rest| == 1 ==> s == [s[0]] + s[1..];
        [[s[0]] + rest[0]] + rest[1..]
      else if |s| > 1 && s[1] in Whitespace then rest
      else [[]] + rest
  }

  /** No piece holds whitespace, and every piece is non-empty except where a run at the start
      or at the end leaves an empty first or last piece. */
  lemma {:induction false} SplitRunsPieces(s: string)
    ensures forall k :: 0 <= k < |SplitRuns(s)| ==> Free(SplitRuns(s)[k], Whitespace)
    ensures forall k :: 0 < k < |SplitRuns(s)| - 1 ==> SplitRuns(s)[k] != []
    ensures s != [] && s[0] !in Whitespace ==> SplitRuns(s)[0] != []
    ensures s != [] && s[|s| - 1] !in Whitespace ==> SplitRuns(s)[|SplitRuns(s)| - 1] != []
    decreases |s|
  {
    if s != [] {
      var rest := SplitRuns(s[1..]);
      var parts := SplitRuns(s);
      SplitRunsPieces(s[1..]);
      if s[0] !in Whitespace {
        assert forall k :: 0 < k < |parts| ==> parts[k] == rest[k];
        assert Free(parts[0], Whitespace) by {
          assert parts[0] == [s[0]] + rest[0];
        }
      } else if !(|s| > 1 && s[1] in Whitespace) {
        assert forall k :: 0 < k < |parts| ==> parts[k] == rest[k - 1];
        assert s[|s| - 1] !in Whitespace ==> |s| > 1 && s[|s| - 1] == s[1..][|s[1..]| - 1];
        assert |s| > 1 ==> s[1] == s[1..][0];
      }
    }
  }

  /** Words separated by whitespace runs: w[0] g[0] w[1] g[1] ... w[n-1]. */
  function Spaced(words: seq<string>, gaps: seq<string>): string
    requires |words| > 0 && |gaps| == |words| - 1
  {
    if |words| == 1 then words[0] else words[0] + gaps[0] + Spaced(words[1..], gaps[1..])
  }

  /** Splitting on whitespace runs recovers the words, however long each run is. */
  lemma {:induction false} SplitRunsSpaced(words: seq<string>, gaps: seq<string>)
    requires |words| > 0 && |gaps| == |words| - 1
    requires forall k :: 0 <= k < |words| ==> Free(words[k], Whitespace)
    requires forall k :: 0 < k < |words| ==> words[k] != []
    requires forall k :: 0 <= k < |gaps| ==> gaps[k] != [] && Within(gaps[k], Whitespace)
    ensures SplitRuns(Spaced(words, gaps)) == words
    decreases |words|
  {
    if |words| == 1 {
      SplitRunsFree(words[0]);
    } else {
      var t := Spaced(words[1..], gaps[1..]);
      SplitRunsSpaced(words[1..], gaps[1..]);
      assert words[1] == words[1..][0];
      SpacedStart(words[1..], gaps[1..]);
      assert t[0] !in Whitespace by {
        assert Free(words[1], Whitespace);
      }
      SplitRunsGap(gaps[0], t);
      var g := SplitRuns(gaps[0] + t);
      assert g[0] == [] && g[1..] == words[1..];
      SplitRunsWord(words[0], gaps[0] + t);
      assert words[0] + g[0] == words[0];
      assert words[0] + gaps[0] + t == words[0] + (gaps[0] + t);
      assert [words[0]] + words[1..] == words;
    }
  }

  lemma SpacedStart(words: seq<string>, gaps: seq<string>)
    requires |words| > 0 && |gaps| == |words| - 1 && words[0] != []
    ensures Spaced(words, gaps) != [] && Spaced(words, gaps)[0] == words[0][0]
  {
  }

  /** A text free of whitespace is one piece. */
  lemma {:induction false} SplitRunsFree(w: string)
    requires Free(w, Whitespace)
    ensures SplitRuns(w) == [w]
    decreases |w|
  {
    if w != [] {
      SplitRunsFree(w[1..]);
      assert [w[0]] + w[1..] == w;
    }
  }

  /** A whitespace run before a text that begins with a word adds an empty piece in front. */
  lemma {:induction false} SplitRunsGap(g: string, t: string)
    requires g != [] && Within(g, Whitespace) && t != [] && t[0] !in Whitespace
    ensures SplitRuns(g + t) == [[]] + SplitRuns(t)
    decreases |g|
  {
    assert (g + t)[1..] == g[1..] + t;
    if |g| > 1 {
      SplitRunsGap(g[1..], t);
    }
  }

  /** A word in front of a text joins that text's first piece. */
  lemma {:induction false} SplitRunsWord(w: string, t: string)
    requires Free(w, Whitespace)
    ensures SplitRuns(w + t) == [w + SplitRuns(t)[0]] + SplitRuns(t)[1..]
    decreases |w|
  {
    if w == [] {
      assert w + t == t;
      assert w + SplitRuns(t)[0] == SplitRuns(t)[0];
      assert [SplitRuns(t)[0]] + SplitRuns(t)[1..] == SplitRuns(t);
    } else {
      assert (w + t)[1..] == w[1..] + t;
      SplitRunsWord(w[1..], t);
      assert [w[0]] + (w[1..] + SplitRuns(t)[0]) == w + SplitRuns(t)[0];
    }
  }

  /** A text free of whitespace is its own strip. */
  lemma StripFree(w: string)
    requires Free(w, Whitespace)
    ensures Strip(w) == w
  {
    StripTrimmed(w, Whitespace);
  }

  /** Python's `lower()` on one character, for ASCII letters only: every other character is
      kept as it is. */
  function LowerChar(c: char): char
  {
    if 'A' <= c <= 'Z' then (c as int + 32) as char else c
  }

  /** `s.lower()`, modelled for ASCII letters. */
  function Lower(s: string): (r: string)
    ensures |r| == |s|
    ensures forall k :: 0 <= k < |s| ==> r[k] == LowerChar(s[k])
  {
    seq(|s|, k requires 0 <= k < |s| => LowerChar(s[k]))
  }

  /** Lower-casing twice is lower-casing once. */
  lemma LowerIdempotent(s: string)
    ensures Lower(Lower(s)) == Lower(s)
  {
  }

  /** A text is its own lower-case form exactly when it holds no upper-case ASCII letter. */
  lemma LowerFixed(s: string)
    ensures Lower(s) == s <==> forall k :: 0 <= k < |s| ==> !('A' <= s[k] <= 'Z')
  {
    if Lower(s) == s {
      forall k | 0 <= k < |s|
        ensures !('A' <= s[k] <= 'Z')
      {
        assert Lower(s)[k] == s[k];
      }
    }
  }

  /** Lower-casing works character by character, so it distributes over concatenation. */
  lemma LowerConcat(a: string, b: string)
    ensures Lower(a + b) == Lower(a) + Lower(b)
  {
  }

  /** `s.replace(c, '')`: every occurrence of c removed, everything else kept in order. */
  function RemoveChar(s: string, c: char): (r: string)
    ensures c !in r
    ensures multiset(r) == multiset(s)[c := 0]
    decreases |s|
  {
    if s == [] then []
    else
      assert s == [s[0]] + s[1..];
      if s[0] == c then RemoveChar(s[1..], c) else [s[0]] + RemoveChar(s[1..], c)
  }

  /** Removal keeps the order of what stays: it distributes over concatenation. */
  lemma {:induction false} RemoveCharConcat(a: string, b: string, c: char)
    ensures RemoveChar(a + b, c) == RemoveChar(a, c) + RemoveChar(b, c)
    decreases |a|
  {
    if a == [] {
      assert a + b == b;
    } else {
      assert (a + b)[1..] == a[1..] + b;
      RemoveCharConcat(a[1..], b, c);
    }
  }

  /** A text without c is left alone, so removal is idempotent. */
  lemma {:induction false} RemoveCharFree(s: string, c: char)
    requires c !in s
    ensures RemoveChar(s, c) == s
    decreases |s|
  {
    if s != [] {
      RemoveCharFree(s[1..], c);
      assert [s[0]] + s[1..] == s;
    }
  }

  predicate IsDigit(c: char)
  {
    '0' <= c <= '9'
  }

  /** A non-empty run of decimal digits: the texts whose `int()` is read digit by digit. */
  predicate IsDigits(s: string)
  {
    |s| > 0 && forall k :: 0 <= k < |s| ==> IsDigit(s[k])
  }

  function Pow10(n: nat): (r: nat)
    ensures r > 0
  {
    if n == 0 then 1 else 10 * Pow10(n - 1)
  }

  /** `int(s)` for a digit run, most significant digit first. */
  function DecimalValue(s: string): (r: nat)
    requires forall k :: 0 <= k < |s| ==> IsDigit(s[k])
    ensures r < Pow10(|s|)
    decreases |s|
  {
    if s == [] then 0
    else
      assert IsDigit(s[|s| - 1]);
      var d := s[|s| - 1] as int - '0' as int;
      var r := DecimalValue(s[..|s| - 1]);
      assert r * 10 + d < Pow10(|s| - 1) * 10 by {
        assert r <= Pow10(|s| - 1) - 1;
      }
      r * 10 + d
  }

  /** The decimal digits of n, without leading zeros. */
  function Decimal(n: nat): (s: string)
    ensures IsDigits(s)
    ensures |s| > 1 ==> s[0] != '0'
  {
    if n < 10 then [('0' as int + n) as char]
    else Decimal(n / 10) + [('0' as int + n % 10) as char]
  }

  /** Reading back the decimal digits of a number gives the number. */
  lemma {:induction false} DecimalValueOf(n: nat)
    ensures DecimalValue(Decimal(n)) == n
  {
    var s := Decimal(n);
    if n >= 10 {
      DecimalValueOf(n / 10);
      assert s[..|s| - 1] == Decimal(n / 10);
    }
  }
}
