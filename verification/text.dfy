/**
  The Python `str` operations the service relies on: `isspace`/`strip`,
  `lower`, `startswith`, slicing, `sep.join(...)` and `s.split(sep)`.
  Strings are sequences of Unicode scalar values, as Python's `str` is a
  sequence of code points.
 */
module Text {

  /** Python's `str.isspace` for one character: exactly the code points
      that `str.strip()` with no argument removes. */
  predicate IsSpace(c: char) {
    || ('\t' <= c <= '\r')
    || ('\U{1C}' <= c <= ' ')
    || c == '\U{85}' || c == '\U{A0}' || c == '\U{1680}'
    || ('\U{2000}' <= c <= '\U{200A}')
    || c == '\U{2028}' || c == '\U{2029}' || c == '\U{202F}' || c == '\U{205F}' || c == '\U{3000}'
  }

  /** `not s or not s.strip()`: empty or whitespace-only. */
  predicate IsBlank(s: string) {
    forall i | 0 <= i < |s| :: IsSpace(s[i])
  }

  /** A string with no leading and no trailing whitespace. */
  predicate IsStripped(s: string) {
    s == [] || (!IsSpace(s[0]) && !IsSpace(s[|s| - 1]))
  }

  /** Number of leading whitespace characters. */
  function LeadingSpaces(s: string): (n: nat)
    ensures n <= |s|
  {
    if |s| == 0 || !IsSpace(s[0]) then 0 else 1 + LeadingSpaces(s[1..])
  }

  /** What `LeadingSpaces` counts: a whitespace-only prefix followed by a
      non-space or the end of the string. */
  lemma {:induction false} LeadingSpacesSpec(s: string)
    ensures IsBlank(s[..LeadingSpaces(s)])
    ensures LeadingSpaces(s) < |s| ==> !IsSpace(s[LeadingSpaces(s)])
    decreases |s|
  {
    if |s| > 0 && IsSpace(s[0]) {
      var n := LeadingSpaces(s);
      LeadingSpacesSpec(s[1..]);
      assert s[..n] == [s[0]] + s[1..][..n - 1];
    }
  }

  /** Number of trailing whitespace characters. */
  function TrailingSpaces(s: string): (n: nat)
    ensures n <= |s|
  {
    if |s| == 0 || !IsSpace(s[|s| - 1]) then 0 else 1 + TrailingSpaces(s[..|s| - 1])
  }

  /** What `TrailingSpaces` counts: a whitespace-only suffix preceded by a
      non-space or the start of the string. */
  lemma {:induction false} TrailingSpacesSpec(s: string)
    ensures IsBlank(s[|s| - TrailingSpaces(s)..])
    ensures TrailingSpaces(s) < |s| ==> !IsSpace(s[|s| - TrailingSpaces(s) - 1])
    decreases |s|
  {
    if |s| > 0 && IsSpace(s[|s| - 1]) {
      var init := s[..|s| - 1];
      var n := TrailingSpaces(s);
      TrailingSpacesSpec(init);
      var suffix := s[|s| - n..];
      forall i | 0 <= i < |suffix| ensures IsSpace(suffix[i]) {
        if i < n - 1 {
          assert suffix[i] == init[|init| - (n - 1)..][i];
        }
      }
      if n < |s| {
        assert s[|s| - n - 1] == init[|init| - (n - 1) - 1];
      }
    }
  }

  /** Python's `s.strip()`. */
  function Strip(s: string): (r: string)
    ensures IsStripped(r)
    ensures |r| <= |s|
    ensures r == [] <==> IsBlank(s)
  {
    var lo := LeadingSpaces(s);
    var rest := s[lo..];
    var r := rest[..|rest| - TrailingSpaces(rest)];
    LeadingSpacesSpec(s);
    TrailingSpacesSpec(rest);
    NothingLeftIsBlank(s, lo, rest);
    r
  }

  /** When the trailing run covers all of what follows the leading run, the
      whole string is whitespace. */
  lemma NothingLeftIsBlank(s: string, lo: nat, rest: string)
    requires lo <= |s| && rest == s[lo..]
    requires IsBlank(s[..lo])
    requires TrailingSpaces(rest) <= |rest| && IsBlank(rest[|rest| - TrailingSpaces(rest)..])
    ensures TrailingSpaces(rest) == |rest| ==> IsBlank(s)
  {
    if TrailingSpaces(rest) == |rest| {
      assert rest[|rest| - TrailingSpaces(rest)..] == rest;
      assert s == s[..lo] + rest;
    }
  }

  /** Whitespace in front of a string that starts with a non-space is
      exactly what `LeadingSpaces` counts. */
  lemma {:induction false} LeadingSpacesOfBlankPrefix(a: string, t: string)
    requires IsBlank(a)
    requires t == [] || !IsSpace(t[0])
    ensures LeadingSpaces(a + t) == |a|
    decreases |a|
  {
    if a != [] {
      assert (a + t)[1..] == a[1..] + t;
      LeadingSpacesOfBlankPrefix(a[1..], t);
    } else {
      assert a + t == t;
    }
  }

  lemma {:induction false} TrailingSpacesOfBlankSuffix(t: string, b: string)
    requires IsBlank(b)
    requires t == [] || !IsSpace(t[|t| - 1])
    ensures TrailingSpaces(t + b) == |b|
    decreases |b|
  {
    if b != [] {
      assert (t + b)[..|t + b| - 1] == t + b[..|b| - 1];
      TrailingSpacesOfBlankSuffix(t, b[..|b| - 1]);
    } else {
      assert t + b == t;
    }
  }

  /** `Strip` is characterised independently of how it is computed: whatever
      sits between a whitespace-only prefix and suffix, and itself has no
      whitespace at either end, is what `strip()` returns. */
  lemma StripCharacterization(a: string, m: string, b: string)
    requires IsBlank(a) && IsBlank(b) && IsStripped(m)
    ensures Strip(a + m + b) == m
  {
    var s := a + m + b;
    if m == [] {
      assert s == a + b;
      assert IsBlank(s) by {
        forall i | 0 <= i < |s| ensures IsSpace(s[i]) {
          if i < |a| { assert s[i] == a[i]; } else { assert s[i] == b[i - |a|]; }
        }
      }
    } else {
      assert s == a + (m + b);
      LeadingSpacesOfBlankPrefix(a, m + b);
      assert s[|a|..] == m + b;
      TrailingSpacesOfBlankSuffix(m, b);
      assert (m + b)[..|m + b| - |b|] == m;
    }
  }

  /** `strip()` is idempotent. */
  lemma StripIdempotent(s: string)
    ensures Strip(Strip(s)) == Strip(s)
  {
    var r := Strip(s);
    assert r == [] + r + [];
    StripCharacterization([], r, []);
  }

  /** ASCII lower-casing of one character. */
  function LowerChar(c: char): (d: char)
  {
    if 'A' <= c <= 'Z' then (c as int + 32) as char else c
  }

  /** `s.lower()`, restricted to ASCII letters (see README). */
  function Lower(s: string): (r: string)
    ensures |r| == |s|
    ensures forall i | 0 <= i < |s| :: r[i] == LowerChar(s[i])
    ensures forall i | 0 <= i < |r| :: !('A' <= r[i] <= 'Z')
    ensures forall i | 0 <= i < |s| :: !('A' <= s[i] <= 'Z') ==> r[i] == s[i]
  {
    seq(|s|, i requires 0 <= i < |s| => LowerChar(s[i]))
  }

  /** `s.startswith(p)`. */
  predicate StartsWith(s: string, p: string) {
    |p| <= |s| && s[..|p|] == p
  }

  /** Python's `s[:n]` for a non-negative `n`. */
  function Take<T>(s: seq<T>, n: nat): (r: seq<T>)
    ensures |r| == if n < |s| then n else |s|
    ensures r == s[..|r|]
  {
    if n < |s| then s[..n] else s
  }

  /** Python's `s[n:]` for a non-negative `n`: empty once `n` passes the end. */
  function Drop<T>(s: seq<T>, n: nat): (r: seq<T>)
    ensures |r| == if n < |s| then |s| - n else 0
    ensures n < |s| ==> s == s[..n] + r
  {
    if n < |s| then s[n..] else []
  }

  /** Python's `sep.join(parts)`. */
  function Join(sep: string, parts: seq<string>): string
  {
    if |parts| == 0 then ""
    else if |parts| == 1 then parts[0]
    else parts[0] + sep + Join(sep, parts[1..])
  }

  /** A join starts with its first part and ends with its last. */
  lemma {:induction false} JoinEnds(sep: string, parts: seq<string>)
    requires |parts| > 0
    ensures |parts[0]| <= |Join(sep, parts)| && Join(sep, parts)[..|parts[0]|] == parts[0]
    ensures var last := parts[|parts| - 1]; var r := Join(sep, parts);
      |last| <= |r| && r[|r| - |last|..] == last
    decreases |parts|
  {
    if |parts| > 1 {
      JoinEnds(sep, parts[1..]);
      assert parts[1..][|parts[1..]| - 1] == parts[|parts| - 1];
    }
  }

  /** Joining one more part adds that part and one separator to the length. */
  lemma {:induction false} JoinSnocLength(sep: string, parts: seq<string>, x: string)
    requires |parts| > 0
    ensures |Join(sep, parts + [x])| == |Join(sep, parts)| + |sep| + |x|
    decreases |parts|
  {
    if |parts| == 1 {
      assert (parts + [x])[1..] == [x];
    } else {
      JoinSnocLength(sep, parts[1..], x);
      assert (parts + [x])[1..] == parts[1..] + [x];
    }
  }

  /** The pieces kept by `if text: texts.append(text)`: the non-empty ones, in order. */
  function NonEmpty(xs: seq<string>): (r: seq<string>)
    ensures |r| <= |xs|
    ensures forall i | 0 <= i < |r| :: r[i] != []
    ensures r == [] <==> forall i | 0 <= i < |xs| :: xs[i] == []
  {
    if xs == [] then []
    else
      var tail := NonEmpty(xs[1..]);
      assert forall i | 1 <= i < |xs| :: xs[1..][i - 1] == xs[i];
      if xs[0] == [] then tail else [xs[0]] + tail
  }

  /** Nothing but the empty pieces is dropped: every non-empty piece is kept
      as many times as it occurs. */
  lemma {:induction false} NonEmptyCounts(xs: seq<string>)
    ensures forall t | t != [] :: multiset(NonEmpty(xs))[t] == multiset(xs)[t]
    decreases |xs|
  {
    if xs != [] {
      NonEmptyCounts(xs[1..]);
      assert xs == [xs[0]] + xs[1..];
    }
  }

  /** Filtering distributes over concatenation, so the relative order of the
      kept pieces is the order they had in the input. */
  lemma {:induction false} NonEmptyAppend(a: seq<string>, b: seq<string>)
    ensures NonEmpty(a + b) == NonEmpty(a) + NonEmpty(b)
    decreases |a|
  {
    if a == [] {
      assert a + b == b;
    } else {
      assert (a + b)[0] == a[0];
      assert (a + b)[1..] == a[1..] + b;
      NonEmptyAppend(a[1..], b);
    }
  }

  /** Joining non-empty stripped pieces with a separator yields a stripped string. */
  lemma {:induction false} JoinStripped(sep: string, parts: seq<string>)
    requires forall i | 0 <= i < |parts| :: parts[i] != [] && IsStripped(parts[i])
    ensures IsStripped(Join(sep, parts))
    ensures |parts| > 0 ==> Join(sep, parts) != [] && Join(sep, parts)[0] == parts[0][0]
    decreases |parts|
  {
    if |parts| > 1 {
      JoinStripped(sep, parts[1..]);
      var tail := Join(sep, parts[1..]);
      var j := parts[0] + sep + tail;
      assert j[0] == parts[0][0];
      assert j[|j| - 1] == tail[|tail| - 1];
    }
  }

  /** A stripped string is blank only when it is empty. */
  lemma StrippedBlankIsEmpty(s: string)
    requires IsStripped(s) && IsBlank(s)
    ensures s == []
  {
  }

  /** Index of the first occurrence of `c` in `s`. */
  function IndexOf(s: string, c: char): (i: nat)
    requires c in s
    ensures i < |s| && s[i] == c && c !in s[..i]
  {
    if s[0] == c then 0
    else
      var i := 1 + IndexOf(s[1..], c);
      assert s[..i] == [s[0]] + s[1..][..i - 1];
      i
  }

  /** The first separator after a separator-free prefix is the one right after it. */
  lemma {:induction false} IndexOfAfter(a: string, c: char, t: string)
    requires c !in a
    ensures c in a + [c] + t
    ensures IndexOf(a + [c] + t, c) == |a|
    decreases |a|
  {
    var s := a + [c] + t;
    assert s[|a|] == c;
    if a != [] {
      assert s[1..] == a[1..] + [c] + t;
      IndexOfAfter(a[1..], c, t);
    }
  }

  /** Python's `s.split(sep)` for a one-character separator: every piece
      between separators, empty ones included. */
  function Split(s: string, sep: char): (parts: seq<string>)
    ensures |parts| == multiset(s)[sep] + 1
    ensures forall i | 0 <= i < |parts| :: sep !in parts[i]
    ensures Join([sep], parts) == s
    decreases |s|
  {
    if sep !in s then
      assert multiset(s)[sep] == 0;
      [s]
    else
      var i := IndexOf(s, sep);
      var head := s[..i];
      var rest := Split(s[i + 1..], sep);
      assert s == head + [sep] + s[i + 1..];
      assert multiset(s) == multiset(head) + multiset{sep} + multiset(s[i + 1..]);
      assert multiset(head)[sep] == 0;
      [head] + rest
  }

  /** Splitting at the first separator. */
  lemma SplitCons(a: string, sep: char, t: string)
    requires sep !in a
    ensures Split(a + [sep] + t, sep) == [a] + Split(t, sep)
  {
    var s := a + [sep] + t;
    IndexOfAfter(a, sep, t);
    assert s[..|a|] == a;
    assert s[|a| + 1..] == t;
  }

  /** `split` undoes `join` when no piece contains the separator. */
  lemma {:induction false} SplitJoin(parts: seq<string>, sep: char)
    requires |parts| >= 1
    requires forall i | 0 <= i < |parts| :: sep !in parts[i]
    ensures Split(Join([sep], parts), sep) == parts
    decreases |parts|
  {
    if |parts| == 1 {
    } else {
      var tail := Join([sep], parts[1..]);
      SplitCons(parts[0], sep, tail);
      SplitJoin(parts[1..], sep);
      assert parts == [parts[0]] + parts[1..];
    }
  }
}
