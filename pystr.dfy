/**
  The few operations of Python's `str` that the chat script relies on:
  `sub in s`, `s.split(sep)` with an explicit separator, `sep.join(parts)` and
  `s.strip()`. Strings are sequences of Unicode scalar values, like a Python `str`
  without lone surrogates.
*/
module PyStr {
  import opened Wrappers

  /** `m` occurs in `s` starting at position `i`. */
  ghost predicate OccursAt(s: string, m: string, i: int)
  {
    0 <= i && i + |m| <= |s| && s[i..i + |m|] == m
  }

  /** The position of the first occurrence of `m` in `s` (Python's `s.find(m)`, with None for -1). */
  function IndexOf(s: string, m: string): (r: Option<nat>)
    ensures r.Some? ==> OccursAt(s, m, r.value)
    ensures r.Some? ==> forall j | 0 <= j < r.value :: !OccursAt(s, m, j)
    ensures r.None? ==> forall j :: !OccursAt(s, m, j)
  {
    IndexFrom(s, m, 0)
  }

  /** The first occurrence of `m` in `s` at or after position `i`: the scan
      tries each start position in turn. */
  function IndexFrom(s: string, m: string, i: nat): (r: Option<nat>)
    ensures r.Some? ==> i <= r.value && OccursAt(s, m, r.value)
    ensures r.Some? ==> forall j | i <= j < r.value :: !OccursAt(s, m, j)
    ensures r.None? ==> forall j | i <= j :: !OccursAt(s, m, j)
    decreases |s| - i
  {
    if i + |m| > |s| then None
    else if s[i..i + |m|] == m then Some(i)
    else IndexFrom(s, m, i + 1)
  }

  /** Python's `m in s`. */
  function Contains(s: string, m: string): (b: bool)
    ensures b <==> exists i :: OccursAt(s, m, i)
  {
    IndexOf(s, m).Some?
  }

  /** Python's `s.split(sep)` for a non-empty separator: the fields between
      successive non-overlapping occurrences, scanning left to right; empty
      fields are kept. */
  function Split(s: string, sep: string): (r: seq<string>)
    requires |sep| > 0
    ensures |r| >= 1
    decreases |s|
  {
    match IndexOf(s, sep)
    case None => [s]
    case Some(i) => [s[..i]] + Split(s[i + |sep|..], sep)
  }

  /** Python's `sep.join(parts)`. */
  function Join(parts: seq<string>, sep: string): (r: string)
    ensures |parts| == 0 ==> r == []
    ensures |parts| >= 1 ==> |r| >= |parts[0]| && r[..|parts[0]|] == parts[0]
  {
    if |parts| == 0 then ""
    else if |parts| == 1 then parts[0]
    else parts[0] + sep + Join(parts[1..], sep)
  }

  /** The characters Python's `str.strip()` removes: those for which `str.isspace()` holds. */
  predicate IsWhitespace(c: char)
  {
    c in WhitespaceChars
  }

  const WhitespaceChars: set<char> :=
    {'\t', '\n', '\U{B}', '\U{C}', '\r', '\U{1C}', '\U{1D}', '\U{1E}', '\U{1F}', ' ',
     '\U{85}', '\U{A0}', '\U{1680}', '\U{2000}', '\U{2001}', '\U{2002}', '\U{2003}',
     '\U{2004}', '\U{2005}', '\U{2006}', '\U{2007}', '\U{2008}', '\U{2009}', '\U{200A}',
     '\U{2028}', '\U{2029}', '\U{202F}', '\U{205F}', '\U{3000}'}

  ghost predicate AllWhitespace(s: string)
  {
    forall i | 0 <= i < |s| :: IsWhitespace(s[i])
  }

  /** Python's `s.lstrip()`: the suffix left after dropping leading whitespace. */
  function TrimStart(s: string): (r: string)
    ensures |r| <= |s| && r == s[|s| - |r|..]
    ensures AllWhitespace(s[..|s| - |r|])
    ensures r == [] || !IsWhitespace(r[0])
    decreases |s|
  {
    if |s| > 0 && IsWhitespace(s[0]) then TrimStart(s[1..]) else s
  }

  /** Python's `s.rstrip()`: the prefix left after dropping trailing whitespace. */
  function TrimEnd(s: string): (r: string)
    ensures |r| <= |s| && r == s[..|r|]
    ensures AllWhitespace(s[|r|..])
    ensures r == [] || !IsWhitespace(r[|r| - 1])
    decreases |s|
  {
    if |s| > 0 && IsWhitespace(s[|s| - 1]) then TrimEnd(s[..|s| - 1]) else s
  }

  /** `r` is the infix of `s` starting at `a` with only whitespace around it. */
  ghost predicate InfixBetweenWhitespace(s: string, r: string, a: int)
  {
    0 <= a && a + |r| <= |s| && r == s[a..a + |r|]
    && AllWhitespace(s[..a]) && AllWhitespace(s[a + |r|..])
  }

  /** Neither end of `s` is whitespace. */
  ghost predicate Stripped(s: string)
  {
    s == [] || (!IsWhitespace(s[0]) && !IsWhitespace(s[|s| - 1]))
  }

  /** Python's `s.strip()`: the infix of `s` between its leading and trailing
      whitespace; it is empty exactly when `s` is all whitespace. */
  function Strip(s: string): (r: string)
    ensures exists a :: InfixBetweenWhitespace(s, r, a)
    ensures Stripped(r)
    ensures r == [] <==> AllWhitespace(s)
  {
    var t := TrimStart(s);
    var r := TrimEnd(t);
    StripInfix(s, t, r);
    r
  }

  lemma WhitespaceConcat(x: string, y: string)
    requires AllWhitespace(x) && AllWhitespace(y)
    ensures AllWhitespace(x + y)
  {
  }

  /** The facts about `TrimStart` and `TrimEnd` that make `Strip` an infix between whitespace. */
  lemma StripInfix(s: string, t: string, r: string)
    requires |t| <= |s| && t == s[|s| - |t|..] && AllWhitespace(s[..|s| - |t|])
    requires t == [] || !IsWhitespace(t[0])
    requires |r| <= |t| && r == t[..|r|] && AllWhitespace(t[|r|..])
    requires r == [] || !IsWhitespace(r[|r| - 1])
    ensures exists a :: InfixBetweenWhitespace(s, r, a)
    ensures Stripped(r)
    ensures r == [] <==> AllWhitespace(s)
  {
    var a := |s| - |t|;
    assert t == s[a..];
    assert r == s[a..a + |r|];
    assert s[a + |r|..] == t[|r|..];
    if r == [] {
      assert s == s[..a] + t;
      WhitespaceConcat(s[..a], t);
    } else {
      assert r[0] == s[a] == t[0];
    }
    assert InfixBetweenWhitespace(s, r, a);
  }

  /** Leading whitespace does not change what `strip()` returns. */
  lemma {:induction false} StripAfterWhitespace(w: string, q: string)
    requires AllWhitespace(w)
    ensures Strip(w + q) == Strip(q)
    decreases |w|
  {
    TrimStartAfterWhitespace(w, q);
  }

  lemma {:induction false} TrimStartAfterWhitespace(w: string, q: string)
    requires AllWhitespace(w)
    ensures TrimStart(w + q) == TrimStart(q)
    decreases |w|
  {
    if w == [] {
      assert w + q == q;
    } else {
      assert (w + q)[0] == w[0] && IsWhitespace(w[0]);
      assert (w + q)[1..] == w[1..] + q;
      TrimStartAfterWhitespace(w[1..], q);
    }
  }

  // ----- occurrences -----

  /** `i` is the first occurrence of `m` in `s`. */
  ghost predicate FirstOccurrence(s: string, m: string, i: int)
  {
    OccursAt(s, m, i) && forall j | 0 <= j < i :: !OccursAt(s, m, j)
  }

  /** `e` is the first occurrence of `m` in `s` at or after `from`, or `|s|` if there is none. */
  ghost predicate NextOccurrenceOrEnd(s: string, m: string, from: int, e: int)
  {
    0 <= from <= e <= |s| && (e < |s| ==> OccursAt(s, m, e))
    && forall j | from <= j < e :: !OccursAt(s, m, j)
  }

  /** An occurrence in a suffix is an occurrence in the whole string, shifted. */
  lemma OccursInSuffix(s: string, m: string, d: nat, j: int)
    requires d <= |s|
    ensures OccursAt(s[d..], m, j) <==> j >= 0 && OccursAt(s, m, d + j)
  {
    if j >= 0 && d + j + |m| <= |s| {
      assert s[d..][j..j + |m|] == s[d + j..d + j + |m|];
    }
  }

  /** An occurrence in a prefix is an occurrence in the whole string. */
  lemma OccursInPrefix(s: string, m: string, e: nat, j: int)
    requires e <= |s|
    ensures OccursAt(s[..e], m, j) <==> OccursAt(s, m, j) && j + |m| <= e
  {
    if 0 <= j && j + |m| <= e {
      assert s[..e][j..j + |m|] == s[j..j + |m|];
    }
  }

  /** When the seam between `a` and `b` holds a character foreign to `m`, every
      occurrence of `m` in `a + b` lies wholly inside `a` or wholly inside `b`. */
  lemma OccursAcrossSeam(a: string, b: string, m: string, i: int)
    requires |m| > 0
    requires (|a| > 0 && a[|a| - 1] !in m) || (|b| > 0 && b[0] !in m)
    ensures OccursAt(a + b, m, i) <==> OccursAt(a, m, i) || OccursAt(b, m, i - |a|)
  {
    if 0 <= i && i + |m| <= |a| + |b| {
      var w := (a + b)[i..i + |m|];
      if i + |m| <= |a| {
        assert w == a[i..i + |m|];
      } else if i >= |a| {
        assert w == b[i - |a|..i - |a| + |m|];
      } else if |a| > 0 && a[|a| - 1] !in m {
        assert w[|a| - 1 - i] == a[|a| - 1];
      } else {
        assert w[|a| - i] == b[0];
      }
    }
  }

  /** Joining two marker-free strings at a seam foreign to the marker creates no marker. */
  lemma NoMarkerAcrossSeam(a: string, b: string, m: string)
    requires |m| > 0 && !Contains(a, m) && !Contains(b, m)
    requires (|a| > 0 && a[|a| - 1] !in m) || (|b| > 0 && b[0] !in m)
    ensures !Contains(a + b, m)
  {
    forall i ensures !OccursAt(a + b, m, i) {
      OccursAcrossSeam(a, b, m, i);
    }
  }

  /** A marker-free prefix ending in a character foreign to `m` moves the first
      occurrence of `m` by its length. */
  lemma IndexOfAfterPrefix(a: string, b: string, m: string)
    requires |m| > 0 && |a| > 0 && a[|a| - 1] !in m && !Contains(a, m)
    ensures IndexOf(a + b, m) == (match IndexOf(b, m) case None => None case Some(k) => Some(|a| + k))
  {
    OccurrencesShifted(a, b, m);
    IndexOfShifted(a + b, b, m, |a|);
  }

  /** The occurrences of `m` in `s` are those in `b`, moved by `d`. */
  ghost predicate ShiftedOccurrences(s: string, b: string, m: string, d: int)
  {
    forall i {:trigger OccursAt(s, m, i)} :: OccursAt(s, m, i) <==> OccursAt(b, m, i - d)
  }

  /** When the occurrences of `m` in `s` are those in `b` moved by `d`, so is
      the first one. */
  lemma IndexOfShifted(s: string, b: string, m: string, d: nat)
    requires ShiftedOccurrences(s, b, m, d)
    ensures IndexOf(s, m) == (match IndexOf(b, m) case None => None case Some(k) => Some(d + k))
  {
    match IndexOf(b, m)
    case None => NoShiftedOccurrence(s, b, m, d);
    case Some(k) => FirstShiftedOccurrence(s, b, m, d, k);
  }

  lemma NoShiftedOccurrence(s: string, b: string, m: string, d: nat)
    requires ShiftedOccurrences(s, b, m, d) && IndexOf(b, m) == None
    ensures IndexOf(s, m) == None
  {
    assert forall i :: !OccursAt(s, m, i);
    NoOccurrenceIsNone(s, m);
  }

  lemma FirstShiftedOccurrence(s: string, b: string, m: string, d: nat, k: nat)
    requires ShiftedOccurrences(s, b, m, d) && IndexOf(b, m) == Some(k)
    ensures IndexOf(s, m) == Some(d + k)
  {
    assert OccursAt(s, m, d + k);
    assert forall j | 0 <= j < d + k :: !OccursAt(s, m, j);
    FirstOccurrenceIsIndexOf(s, m, d + k);
  }

  /** Behind such a prefix, the occurrences of `m` are those of `b`, shifted. */
  lemma OccurrencesShifted(a: string, b: string, m: string)
    requires |m| > 0 && |a| > 0 && a[|a| - 1] !in m && !Contains(a, m)
    ensures ShiftedOccurrences(a + b, b, m, |a|)
  {
    forall i ensures OccursAt(a + b, m, i) <==> OccursAt(b, m, i - |a|) {
      OccursAcrossSeam(a, b, m, i);
    }
  }

  /** `IndexOf` finds nothing where there is no occurrence. */
  lemma NoOccurrenceIsNone(s: string, m: string)
    requires forall i :: !OccursAt(s, m, i)
    ensures IndexOf(s, m) == None
  {
  }

  /** `IndexOf` finds exactly the first occurrence. */
  lemma FirstOccurrenceIsIndexOf(s: string, m: string, i: int)
    requires FirstOccurrence(s, m, i)
    ensures IndexOf(s, m) == Some(i)
  {
  }

  /** A string lacking the first character of `m` does not contain `m`. */
  lemma NoMarkerWithoutItsHead(s: string, m: string)
    requires |m| > 0 && m[0] !in s
    ensures !Contains(s, m)
  {
    forall i | 0 <= i && i + |m| <= |s| ensures !OccursAt(s, m, i) {
      assert s[i..i + |m|][0] == s[i];
    }
  }

  // ----- split and join -----

  /** `sep.join(s.split(sep)) == s`: splitting loses nothing. */
  lemma {:induction false} JoinSplit(s: string, sep: string)
    requires |sep| > 0
    ensures Join(Split(s, sep), sep) == s
    decreases |s|
  {
    match IndexOf(s, sep)
    case None =>
    case Some(i) =>
      var rest := s[i + |sep|..];
      var fields := Split(s, sep);
      SplitUnfold(s, sep, i);
      JoinSplit(rest, sep);
      assert fields[0] == s[..i] && fields[1..] == Split(rest, sep);
      assert s == s[..i] + sep + rest;
  }

  lemma SplitUnfold(s: string, sep: string, i: nat)
    requires |sep| > 0 && IndexOf(s, sep) == Some(i)
    ensures Split(s, sep) == [s[..i]] + Split(s[i + |sep|..], sep)
  {
  }

  /** `s.split(sep)` has a second field exactly when `sep` occurs in `s`. */
  lemma SplitHasSecondField(s: string, sep: string)
    requires |sep| > 0
    ensures |Split(s, sep)| >= 2 <==> Contains(s, sep)
  {
    match IndexOf(s, sep)
    case None =>
    case Some(i) => SplitUnfold(s, sep, i);
  }

  /** No field of `s.split(sep)` contains `sep`. */
  lemma {:induction false} SplitFieldsLackSeparator(s: string, sep: string, k: int)
    requires |sep| > 0 && 0 <= k < |Split(s, sep)|
    ensures !Contains(Split(s, sep)[k], sep)
    decreases |s|
  {
    match IndexOf(s, sep)
    case None =>
    case Some(i) =>
      if k == 0 {
        forall j ensures !OccursAt(s[..i], sep, j) {
          OccursInPrefix(s, sep, i, j);
        }
      } else {
        SplitFieldsLackSeparator(s[i + |sep|..], sep, k - 1);
      }
  }

  /** The first field of `s.split(sep)` is the text before the first occurrence of
      `sep`, or all of `s` when there is none. */
  lemma SplitFirstField(s: string, sep: string)
    requires |sep| > 0
    ensures Split(s, sep)[0] == match IndexOf(s, sep) case None => s case Some(i) => s[..i]
  {
  }

  /** Splitting on one character gives one more field than there are copies of it. */
  lemma {:induction false} SplitCount(s: string, c: char)
    ensures |Split(s, [c])| == multiset(s)[c] + 1
    decreases |s|
  {
    match IndexOf(s, [c])
    case None =>
      forall j | 0 <= j < |s| ensures s[j] != c {
        assert s[j..j + 1] == [s[j]] && !OccursAt(s, [c], j);
      }
      assert multiset(s)[c] == 0;
    case Some(i) =>
      var rest := s[i + 1..];
      SplitCount(rest, c);
      forall j | 0 <= j < i ensures s[..i][j] != c {
        assert s[j..j + 1] == [s[j]] && !OccursAt(s, [c], j);
      }
      assert c !in s[..i];
      assert s[i..i + 1] == [c];
      assert s == s[..i] + [c] + rest;
      assert multiset(s) == multiset(s[..i]) + multiset([c]) + multiset(rest);
  }

  /** A one-character string is contained exactly where the character appears. */
  lemma CharNotContained(s: string, c: char)
    requires !Contains(s, [c])
    ensures c !in s
  {
    forall j | 0 <= j < |s| ensures s[j] != c {
      assert s[j..j + 1] == [s[j]] && !OccursAt(s, [c], j);
    }
  }

  /** Joining marker-free parts with a marker-free separator whose ends are
      foreign to the marker creates no marker. */
  lemma {:induction false} JoinLacksMarker(parts: seq<string>, sep: string, m: string)
    requires |m| > 0 && |sep| > 0 && sep[0] !in m && sep[|sep| - 1] !in m && !Contains(sep, m)
    requires forall k | 0 <= k < |parts| :: !Contains(parts[k], m)
    ensures !Contains(Join(parts, sep), m)
    decreases |parts|
  {
    if |parts| >= 2 {
      var rest := Join(parts[1..], sep);
      JoinLacksMarker(parts[1..], sep, m);
      NoMarkerAcrossSeam(parts[0], sep, m);
      NoMarkerAcrossSeam(parts[0] + sep, rest, m);
      assert Join(parts, sep) == (parts[0] + sep) + rest;
    }
  }

  /** A string containing `m` still contains it after anything is put in front. */
  lemma ContainsAfterPrefix(a: string, b: string, m: string)
    requires Contains(b, m)
    ensures Contains(a + b, m)
  {
    var i :| OccursAt(b, m, i);
    assert (a + b)[|a| + i..|a| + i + |m|] == b[i..i + |m|];
    assert OccursAt(a + b, m, |a| + i);
  }
}
