/** The JavaScript string operations the core relies on: `trim`, `indexOf`,
    `lastIndexOf`, `includes`, `split`, `join`, `toLowerCase` and decimal number
    conversion, each stated over `seq<char>`. */
module Strings {
  import opened Wrappers

  /** The characters that JavaScript's `trim` removes and that `\s` matches. */
  predicate IsWhitespace(c: char) {
    || c == ' ' || c == '\t' || c == '\n' || c == '\r' || c == '\U{B}' || c == '\U{C}'
    || c == '\U{A0}' || c == '\U{1680}' || ('\U{2000}' <= c <= '\U{200A}')
    || c == '\U{2028}' || c == '\U{2029}' || c == '\U{202F}' || c == '\U{205F}'
    || c == '\U{3000}' || c == '\U{FEFF}'
  }

  predicate AllWhitespace(s: string) {
    forall i :: 0 <= i < |s| ==> IsWhitespace(s[i])
  }

  predicate NoWhitespace(s: string) {
    forall i :: 0 <= i < |s| ==> !IsWhitespace(s[i])
  }

  /** `s.trimStart()`: the suffix left after removing leading whitespace. */
  function TrimStart(s: string): (r: string)
    ensures |r| <= |s| && r == s[|s| - |r|..]
    ensures AllWhitespace(s[..|s| - |r|])
    ensures r == [] || !IsWhitespace(r[0])
  {
    if s == [] || !IsWhitespace(s[0]) then s else TrimStart(s[1..])
  }

  /** `s.trimEnd()`: the prefix left after removing trailing whitespace. */
  function TrimEnd(s: string): (r: string)
    ensures |r| <= |s| && r == s[..|r|]
    ensures AllWhitespace(s[|r|..])
    ensures r == [] || !IsWhitespace(r[|r| - 1])
  {
    if s == [] || !IsWhitespace(s[|s| - 1]) then s else TrimEnd(s[..|s| - 1])
  }

  /** No whitespace at either end. */
  predicate Trimmed(s: string) {
    s == [] || (!IsWhitespace(s[0]) && !IsWhitespace(s[|s| - 1]))
  }

  /** `s.trim()`. */
  function Trim(s: string): (r: string)
    ensures |r| <= |s|
    ensures Trimmed(r)
  {
    TrimEnd(TrimStart(s))
  }

  /** `trim` only removes characters. */
  lemma TrimKeepsOut(s: string, c: char)
    requires c !in s
    ensures c !in Trim(s)
  {
    var t := TrimStart(s);
    assert t == s[|s| - |t|..];
    assert TrimEnd(t) == t[..|TrimEnd(t)|];
  }

  /** Whitespace around a core without whitespace at its ends is exactly what `trim` removes. */
  lemma TrimAround(w1: string, c: string, w2: string)
    requires AllWhitespace(w1) && AllWhitespace(w2)
    requires c == [] || (!IsWhitespace(c[0]) && !IsWhitespace(c[|c| - 1]))
    ensures Trim(w1 + c + w2) == c
  {
    if c == [] {
      assert w1 + c + w2 == w1 + w2;
      assert AllWhitespace(w1 + w2);
      AllWhitespaceTrimStart(w1 + w2);
    } else {
      assert w1 + c + w2 == w1 + (c + w2);
      TrimStartPrependWhitespace(w1, c + w2);
      TrimEndAppendWhitespace(c, w2);
    }
  }

  lemma {:induction false} AllWhitespaceTrimStart(s: string)
    requires AllWhitespace(s)
    ensures TrimStart(s) == []
    decreases |s|
  {
    if s != [] {
      AllWhitespaceTrimStart(s[1..]);
    }
  }

  /** A string with no whitespace at either end is left alone by trimming. */
  lemma TrimmedFixed(s: string)
    requires s == [] || (!IsWhitespace(s[0]) && !IsWhitespace(s[|s| - 1]))
    ensures Trim(s) == s && TrimStart(s) == s && TrimEnd(s) == s
  {
  }

  /** Trailing whitespace added to a string without trailing whitespace is trimmed away again. */
  lemma {:induction false} TrimEndAppendWhitespace(s: string, w: string)
    requires s == [] || !IsWhitespace(s[|s| - 1])
    requires AllWhitespace(w)
    ensures TrimEnd(s + w) == s
    decreases |w|
  {
    if w == [] {
      assert s + w == s;
    } else {
      assert (s + w)[..|s + w| - 1] == s + w[..|w| - 1];
      TrimEndAppendWhitespace(s, w[..|w| - 1]);
    }
  }

  /** Leading whitespace added to a string without leading whitespace is trimmed away again. */
  lemma {:induction false} TrimStartPrependWhitespace(w: string, s: string)
    requires s == [] || !IsWhitespace(s[0])
    requires AllWhitespace(w)
    ensures TrimStart(w + s) == s
    decreases |w|
  {
    if w == [] {
      assert w + s == s;
    } else {
      assert (w + s)[1..] == w[1..] + s;
      TrimStartPrependWhitespace(w[1..], s);
    }
  }

  /** Leading whitespace in front of a non-whitespace character is all `trimStart` removes. */
  lemma PrependWhitespaceAppend(w: string, lead: string, rest: string)
    requires AllWhitespace(w) && lead != [] && !IsWhitespace(lead[0])
    ensures TrimStart(w + lead + rest) == lead + rest
  {
    assert w + lead + rest == w + (lead + rest);
    TrimStartPrependWhitespace(w, lead + rest);
  }

  /** Leading whitespace is all `trimStart` removes, however the string goes on. */
  lemma TrimStartAppend(s: string, rest: string)
    requires TrimStart(s) != []
    ensures TrimStart(s + rest) == TrimStart(s) + rest
  {
    var lead := TrimStart(s);
    var w := s[..|s| - |lead|];
    assert s == w + lead;
    PrependWhitespaceAppend(w, lead, rest);
  }

  /** Trimming a string that ends in a non-whitespace character only trims its start. */
  lemma TrimAppendEnd(s: string, rest: string)
    requires TrimStart(s) != [] && rest != [] && !IsWhitespace(rest[|rest| - 1])
    ensures Trim(s + rest) == TrimStart(s) + rest
  {
    TrimStartAppend(s, rest);
    var t := TrimStart(s) + rest;
    assert t[|t| - 1] == rest[|rest| - 1];
  }

  lemma Associative(a: string, b: string, c: string)
    ensures a + b + c == a + (b + c)
  {
  }

  /** Dropping past a prefix drops into what follows it. */
  lemma DropPastPrefix(a: string, b: string, k: nat)
    requires k <= |b|
    ensures (a + b)[|a| + k..] == b[k..]
  {
  }

  /** `p` occurs in `s` starting at index `i`. */
  predicate OccursAt(s: string, p: string, i: int) {
    0 <= i && i + |p| <= |s| && s[i..i + |p|] == p
  }

  /** `s.includes(p)`. */
  predicate Contains(s: string, p: string) {
    exists i :: 0 <= i <= |s| && OccursAt(s, p, i)
  }

  function IndexOfFrom(s: string, p: string, from: nat): (r: int)
    requires from <= |s|
    ensures r == -1 || (from <= r && OccursAt(s, p, r))
    ensures forall j :: from <= j && (r == -1 || j < r) ==> !OccursAt(s, p, j)
    decreases |s| - from
  {
    if OccursAt(s, p, from) then from
    else if from + |p| >= |s| then -1
    else IndexOfFrom(s, p, from + 1)
  }

  /** `s.indexOf(p)`: the first index where `p` occurs, or -1. */
  function IndexOf(s: string, p: string): (r: int)
    ensures r == -1 <==> !Contains(s, p)
    ensures r != -1 ==> OccursAt(s, p, r) && forall j :: 0 <= j < r ==> !OccursAt(s, p, j)
  {
    IndexOfFrom(s, p, 0)
  }

  /** `s.lastIndexOf(c)` for a one-character pattern. */
  function LastIndexOf(s: string, c: char): (r: int)
    ensures -1 <= r < |s|
    ensures r >= 0 ==> s[r] == c
    ensures forall j :: r < j < |s| ==> s[j] != c
  {
    if s == [] then -1
    else if s[|s| - 1] == c then |s| - 1
    else LastIndexOf(s[..|s| - 1], c)
  }

  /** An occurrence inside a slice is an occurrence in the whole string. */
  lemma OccursInSlice(s: string, p: string, lo: nat, hi: nat, i: int)
    requires lo <= hi <= |s|
    requires OccursAt(s[lo..hi], p, i)
    ensures OccursAt(s, p, lo + i)
  {
    var t := s[lo..hi];
    forall k | 0 <= k < |p| ensures s[lo + i..lo + i + |p|][k] == p[k] {
      assert t[i..i + |p|][k] == p[k];
      assert t[i + k] == s[lo + i + k];
    }
    assert s[lo + i..lo + i + |p|] == p;
  }

  /** `p` occurs in `s` if `s` contains `q` and `q` contains `p`. */
  lemma ContainsTransitive(s: string, q: string, p: string)
    requires Contains(s, q) && Contains(q, p)
    ensures Contains(s, p)
  {
    var i :| 0 <= i <= |s| && OccursAt(s, q, i);
    var j :| 0 <= j <= |q| && OccursAt(q, p, j);
    OccursInSlice(s, p, i, i + |q|, j);
  }

  /** The first occurrence, characterised: an occurrence with none before it is what `indexOf` finds. */
  lemma IndexOfAt(s: string, p: string, i: int)
    requires OccursAt(s, p, i)
    requires forall j :: 0 <= j < i ==> !OccursAt(s, p, j)
    ensures IndexOf(s, p) == i
  {
  }

  /** Two texts that agree up to `n` have the same first occurrence of `p`, when the
      first one's lies within that prefix. */
  lemma FirstInCommonPrefix(s: string, t: string, p: string, n: nat)
    requires n <= |s| && n <= |t| && s[..n] == t[..n]
    requires 0 <= IndexOf(s, p) && IndexOf(s, p) + |p| <= n
    ensures IndexOf(t, p) == IndexOf(s, p)
  {
    var i := IndexOf(s, p);
    forall j | 0 <= j <= i ensures OccursAt(t, p, j) <==> OccursAt(s, p, j) {
      OccursInPrefix(t, n, p, j);
      OccursInPrefix(s, n, p, j);
    }
    IndexOfAt(t, p, i);
  }

  /** The same for `indexOf(p, from)`. */
  lemma IndexOfFromAt(s: string, p: string, from: nat, i: int)
    requires from <= i && OccursAt(s, p, i)
    requires forall j :: from <= j < i ==> !OccursAt(s, p, j)
    ensures from <= |s| && IndexOfFrom(s, p, from) == i
  {
  }

  /** An occurrence in `b` is an occurrence in `a + b`, shifted by `|a|`, and back. */
  lemma OccursShift(a: string, b: string, p: string, i: int)
    requires 0 <= i
    ensures OccursAt(a + b, p, |a| + i) <==> OccursAt(b, p, i)
  {
    if i + |p| <= |b| {
      assert (a + b)[|a| + i..|a| + i + |p|] == b[i..i + |p|];
    }
  }

  /** An occurrence that ends inside `a` is an occurrence in `a + b`, and back. */
  lemma OccursPrefix(a: string, b: string, p: string, j: int)
    requires 0 <= j && j + |p| <= |a|
    ensures OccursAt(a + b, p, j) <==> OccursAt(a, p, j)
  {
    assert (a + b)[j..j + |p|] == a[j..j + |p|];
  }

  /** Every character an occurrence covers is a character of the pattern. */
  lemma CharOfOccurrence(s: string, p: string, j: int, k: int)
    requires OccursAt(s, p, j) && j <= k < j + |p|
    ensures s[k] in p
  {
    assert s[j..j + |p|][k - j] == s[k];
  }

  /** A pattern without the character `c` cannot run across a `c`. */
  lemma NoStraddle(a: string, c: char, b: string, p: string, j: int)
    requires c !in p && 0 <= j <= |a|
    requires OccursAt(a + [c] + b, p, j)
    ensures j + |p| <= |a| && OccursAt(a, p, j)
  {
    var s := a + [c] + b;
    if j + |p| > |a| {
      CharOfOccurrence(s, p, j, |a|);
    }
    OccursPrefix(a, [c] + b, p, j);
    assert s == a + ([c] + b);
  }

  /** An occurrence that ends within the first `n` characters is one of the prefix. */
  lemma OccursInPrefix(s: string, n: nat, p: string, j: int)
    requires n <= |s| && 0 <= j && j + |p| <= n
    ensures OccursAt(s[..n], p, j) <==> OccursAt(s, p, j)
  {
    OccursPrefix(s[..n], s[n..], p, j);
    assert s == s[..n] + s[n..];
  }

  lemma AllWhitespaceConcat(a: string, b: string)
    requires AllWhitespace(a) && AllWhitespace(b)
    ensures AllWhitespace(a + b)
  {
    forall i | 0 <= i < |a + b| ensures IsWhitespace((a + b)[i]) {
      if i >= |a| {
        assert (a + b)[i] == b[i - |a|];
      }
    }
  }

  /** Trailing whitespace does not change what `trimEnd` keeps. */
  lemma TrimEndDropsWhitespace(s: string, w: string)
    requires AllWhitespace(w)
    ensures TrimEnd(s + w) == TrimEnd(s)
  {
    var r := TrimEnd(s);
    var tail := s[|r|..] + w;
    AllWhitespaceConcat(s[|r|..], w);
    assert s + w == r + tail by {
      assert s == r + s[|r|..];
    }
    TrimEndAppendWhitespace(r, tail);
  }

  /** `trimEnd` keeps every character up to the last non-whitespace one. */
  lemma TrimEndKeeps(s: string, i: int)
    requires 0 <= i < |s| && !IsWhitespace(s[i])
    ensures |TrimEnd(s)| > i
  {
  }

  /** `s.split(sep)[0]`: the text before the first occurrence of `sep`. */
  function FirstSegment(s: string, sep: string): (r: string)
    requires sep != []
    ensures |r| <= |s| && r == s[..|r|]
    ensures !Contains(r, sep)
    ensures |r| < |s| ==> OccursAt(s, sep, |r|)
    ensures forall j :: 0 <= j < |r| ==> !OccursAt(s, sep, j)
  {
    var i := IndexOf(s, sep);
    if i == -1 then s
    else
      assert forall j :: OccursAt(s[..i], sep, j) ==> OccursAt(s, sep, j) by {
        forall j | OccursAt(s[..i], sep, j) ensures OccursAt(s, sep, j) {
          OccursInSlice(s, sep, 0, i, j);
        }
      }
      s[..i]
  }

  /** In `a && b`, the first segment is `a` when `a` has no `&` at all. */
  lemma FirstSegmentChained(a: string, b: string)
    requires '&' !in a
    ensures FirstSegment(a + "&&" + b, "&&") == a
  {
    var s := a + "&&" + b;
    var r := FirstSegment(s, "&&");
    assert s[|a|..|a| + 2] == "&&";
    assert OccursAt(s, "&&", |a|);
    forall j | 0 <= j < |a| ensures !OccursAt(s, "&&", j) {
      assert s[j] == a[j];
    }
    assert s[..|a|] == a;
  }

  /** A string without the separator's first character is its own first segment. */
  lemma FirstSegmentWhole(s: string, sep: string)
    requires sep != [] && sep[0] !in s
    ensures FirstSegment(s, sep) == s
  {
    forall j | 0 <= j < |s| ensures !OccursAt(s, sep, j) {
      assert s[j] != sep[0];
    }
  }

  /** Cutting at the first separator twice is the same as cutting once. */
  lemma FirstSegmentIdempotent(s: string, sep: string)
    requires sep != []
    ensures FirstSegment(FirstSegment(s, sep), sep) == FirstSegment(s, sep)
  {
  }

  /** A token: a non-empty run of non-whitespace characters. */
  predicate IsToken(t: string) {
    t != [] && NoWhitespace(t)
  }

  /** The leading run of non-whitespace characters of `s`. */
  function Word(s: string): (w: string)
    ensures |w| <= |s| && w == s[..|w|] && NoWhitespace(w)
    ensures |w| < |s| ==> IsWhitespace(s[|w|])
  {
    if s == [] || IsWhitespace(s[0]) then [] else [s[0]] + Word(s[1..])
  }

  /** `s.split(/\s+/).filter(Boolean)`: the maximal runs of non-whitespace characters. */
  function Tokens(s: string): (ts: seq<string>)
    ensures forall k :: 0 <= k < |ts| ==> IsToken(ts[k])
    decreases |s|
  {
    var rest := TrimStart(s);
    if rest == [] then []
    else
      var w := Word(rest);
      [w] + Tokens(rest[|w|..])
  }

  /** A whitespace-free word followed by whitespace (or nothing) is the first token. */
  lemma TokensOfWordThen(w: string, rest: string)
    requires w != [] && NoWhitespace(w)
    requires rest == [] || IsWhitespace(rest[0])
    ensures Tokens(w + rest) == [w] + Tokens(rest)
  {
    var s := w + rest;
    assert TrimStart(s) == s;
    WordOfWordPrefix(w, rest);
    assert s[|w|..] == rest;
  }

  /** Leading whitespace does not change the tokens. */
  lemma TokensAfterWhitespace(ws: string, rest: string)
    requires AllWhitespace(ws)
    ensures Tokens(ws + rest) == Tokens(rest)
  {
    TrimStartSkipsWhitespace(ws, rest);
  }

  lemma {:induction false} TrimStartSkipsWhitespace(ws: string, rest: string)
    requires AllWhitespace(ws)
    ensures TrimStart(ws + rest) == TrimStart(rest)
    decreases |ws|
  {
    if ws == [] {
      assert ws + rest == rest;
    } else {
      assert (ws + rest)[1..] == ws[1..] + rest;
      TrimStartSkipsWhitespace(ws[1..], rest);
    }
  }

  /** Tokens joined by single spaces tokenize back to themselves. */
  lemma {:induction false} TokensOfJoined(ts: seq<string>)
    requires forall k :: 0 <= k < |ts| ==> IsToken(ts[k])
    ensures Tokens(Join(ts, " ")) == ts
    decreases |ts|
  {
    if ts == [] {
      assert Join(ts, " ") == [];
    } else if |ts| == 1 {
      assert Join(ts, " ") == ts[0] + [];
      TokensOfWordThen(ts[0], []);
      assert Tokens([]) == [];
    } else {
      var tail := Join(ts[1..], " ");
      JoinCons(ts, " ");
      assert Join(ts, " ") == ts[0] + (" " + tail);
      assert (" " + tail)[0] == ' ';
      calc {
        Tokens(Join(ts, " "));
        { TokensOfWordThen(ts[0], " " + tail); }
        [ts[0]] + Tokens(" " + tail);
        { TokensAfterWhitespace(" ", tail); }
        [ts[0]] + Tokens(tail);
        { TokensOfJoined(ts[1..]); }
        [ts[0]] + ts[1..];
      }
    }
  }

  lemma {:induction false} WordOfWordPrefix(w: string, rest: string)
    requires NoWhitespace(w)
    requires rest == [] || IsWhitespace(rest[0])
    ensures Word(w + rest) == w
    decreases |w|
  {
    if w == [] {
      assert w + rest == rest;
    } else {
      assert (w + rest)[1..] == w[1..] + rest;
      WordOfWordPrefix(w[1..], rest);
    }
  }

  /** `parts.join(sep)`. */
  function Join(parts: seq<string>, sep: string): string
  {
    if parts == [] then []
    else if |parts| == 1 then parts[0]
    else parts[0] + sep + Join(parts[1..], sep)
  }

  /** The characters of a join come from the parts or the separator; with non-empty
      parts it starts with the first part's first character and ends with the last
      part's last character. */
  lemma {:induction false} JoinEnds(parts: seq<string>, sep: string)
    requires |parts| >= 1 && forall k :: 0 <= k < |parts| ==> parts[k] != []
    ensures var s := Join(parts, sep);
      && s != []
      && s[0] == parts[0][0]
      && s[|s| - 1] == parts[|parts| - 1][|parts[|parts| - 1]| - 1]
    decreases |parts|
  {
    if |parts| >= 2 {
      JoinEnds(parts[1..], sep);
    }
  }

  lemma {:induction false} JoinChars(parts: seq<string>, sep: string, c: char)
    requires c !in sep && forall k :: 0 <= k < |parts| ==> c !in parts[k]
    ensures c !in Join(parts, sep)
    decreases |parts|
  {
    if |parts| >= 2 {
      JoinChars(parts[1..], sep, c);
    }
  }

  lemma JoinCons(parts: seq<string>, sep: string)
    requires |parts| >= 2
    ensures Join(parts, sep) == parts[0] + sep + Join(parts[1..], sep)
  {
  }

  /** `s.split(sep)` for a one-character separator: always at least one part, and no
      part contains the separator. */
  function SplitOn(s: string, sep: char): (parts: seq<string>)
    ensures |parts| >= 1
    ensures forall k :: 0 <= k < |parts| ==> sep !in parts[k]
    decreases |s|
  {
    var i := IndexOf(s, [sep]);
    if i == -1 then
      assert forall j :: 0 <= j < |s| ==> s[j] != sep by {
        forall j | 0 <= j < |s| ensures s[j] != sep {
          assert !OccursAt(s, [sep], j);
          assert s[j..j + 1] == [s[j]];
        }
      }
      [s]
    else
      assert forall j :: 0 <= j < i ==> s[j] != sep by {
        forall j | 0 <= j < i ensures s[j] != sep {
          assert !OccursAt(s, [sep], j);
          assert s[j..j + 1] == [s[j]];
        }
      }
      [s[..i]] + SplitOn(s[i + 1..], sep)
  }

  /** Joining separator-free parts and splitting again gives the parts back. */
  lemma {:induction false} SplitOnJoin(parts: seq<string>, sep: char)
    requires |parts| >= 1
    requires forall k :: 0 <= k < |parts| ==> sep !in parts[k]
    ensures SplitOn(Join(parts, [sep]), sep) == parts
    decreases |parts|
  {
    var s := Join(parts, [sep]);
    var i := IndexOf(s, [sep]);
    if |parts| == 1 {
      forall j | 0 <= j < |s| ensures !OccursAt(s, [sep], j) {
        assert s[j] == parts[0][j];
      }
    } else {
      var p0 := parts[0];
      var rest := Join(parts[1..], [sep]);
      JoinCons(parts, [sep]);
      assert s == p0 + [sep] + rest;
      assert s[|p0|..|p0| + 1] == [sep];
      assert OccursAt(s, [sep], |p0|);
      forall j | 0 <= j < |p0| ensures !OccursAt(s, [sep], j) {
        assert s[j] == p0[j];
      }
      assert i == |p0|;
      assert s[..i] == p0 && s[i + 1..] == rest;
      SplitOnJoin(parts[1..], sep);
    }
  }

  /** Where the separator is found, the split is the text before it followed by the
      split of the text after it. */
  lemma SplitOnFound(s: string, sep: char)
    requires IndexOf(s, [sep]) != -1
    ensures var i := IndexOf(s, [sep]);
      && i < |s| && s == s[..i] + [sep] + s[i + 1..]
      && SplitOn(s, sep) == [s[..i]] + SplitOn(s[i + 1..], sep)
  {
    var i := IndexOf(s, [sep]);
    assert s[i..i + 1] == [sep];
    assert s == s[..i] + s[i..i + 1] + s[i + 1..];
  }

  /** Splitting and joining with the same separator gives the original string back. */
  lemma {:induction false} JoinSplitOn(s: string, sep: char)
    ensures Join(SplitOn(s, sep), [sep]) == s
    decreases |s|
  {
    var i := IndexOf(s, [sep]);
    if i != -1 {
      SplitOnFound(s, sep);
      var rest := SplitOn(s[i + 1..], sep);
      JoinSplitOn(s[i + 1..], sep);
      var parts := SplitOn(s, sep);
      assert parts[0] == s[..i] && parts[1..] == rest;
      JoinCons(parts, [sep]);
    }
  }

  /** ASCII upper-case letters mapped to lower case; every other character unchanged. */
  function LowerChar(c: char): (r: char)
    ensures 'A' <= c <= 'Z' ==> 'a' <= r <= 'z'
    ensures !('A' <= c <= 'Z') ==> r == c
  {
    if 'A' <= c <= 'Z' then (c as int - 'A' as int + 'a' as int) as char else c
  }

  /** `s.toLowerCase()`, restricted to ASCII letters. */
  function ToLower(s: string): (r: string)
    ensures |r| == |s|
    ensures forall i :: 0 <= i < |s| ==> r[i] == LowerChar(s[i])
  {
    if s == [] then [] else [LowerChar(s[0])] + ToLower(s[1..])
  }

  /** Lower-casing twice is lower-casing once. */
  lemma ToLowerIdempotent(s: string)
    ensures ToLower(ToLower(s)) == ToLower(s)
  {
    var t := ToLower(s);
    forall i | 0 <= i < |s| ensures ToLower(t)[i] == t[i] {
      assert LowerChar(LowerChar(s[i])) == LowerChar(s[i]);
    }
  }

  predicate IsDigit(c: char) {
    '0' <= c <= '9'
  }

  function DigitChar(d: nat): (c: char)
    requires d < 10
    ensures IsDigit(c) && c as int - '0' as int == d
  {
    ('0' as int + d) as char
  }

  /** `String(n)` for a natural number: its shortest decimal spelling. */
  function NatToString(n: nat): (s: string)
    ensures s != [] && forall i :: 0 <= i < |s| ==> IsDigit(s[i])
    ensures |s| > 1 ==> s[0] != '0'
  {
    if n < 10 then [DigitChar(n)] else NatToString(n / 10) + [DigitChar(n % 10)]
  }

  /** The value of a string of decimal digits. */
  function DigitsValue(s: string): nat
    requires forall i :: 0 <= i < |s| ==> IsDigit(s[i])
  {
    if s == [] then 0
    else
      var last := s[|s| - 1];
      assert IsDigit(last);
      DigitsValue(s[..|s| - 1]) * 10 + (last as int - '0' as int)
  }

  /** `Number(s)` restricted to plain decimal integers: `None` for anything else. */
  function ParseDecimal(s: string): (r: Option<nat>)
    ensures r.Some? <==> s != [] && forall i :: 0 <= i < |s| ==> IsDigit(s[i])
  {
    if s != [] && forall i :: 0 <= i < |s| ==> IsDigit(s[i]) then Some(DigitsValue(s)) else None
  }

  /** Decimal spelling and parsing are inverse. */
  lemma {:induction false} ParseNatToString(n: nat)
    ensures ParseDecimal(NatToString(n)) == Some(n)
  {
    DigitsValueNatToString(n);
  }

  lemma {:induction false} DigitsValueNatToString(n: nat)
    ensures DigitsValue(NatToString(n)) == n
  {
    var s := NatToString(n);
    if n < 10 {
      assert s[..0] == [];
    } else {
      assert s[..|s| - 1] == NatToString(n / 10);
      DigitsValueNatToString(n / 10);
    }
  }

  /** Distinct naturals are spelled differently. */
  lemma NatToStringInjective(m: nat, n: nat)
    requires NatToString(m) == NatToString(n)
    ensures m == n
  {
    DigitsValueNatToString(m);
    DigitsValueNatToString(n);
  }
}
