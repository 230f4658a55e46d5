/** Models of the pieces of Go's standard library (strings, regexp, strconv)
    that the PCI device naming code calls. Strings are sequences of Unicode
    scalar values; Go's byte length is modelled by ByteLen. */
module Strings {

  /* ---------------------------------------------------------------------
     Character classes
     --------------------------------------------------------------------- */

  predicate IsAscii(c: char) { c as int < 0x80 }

  predicate IsAsciiLower(c: char) { 'a' <= c <= 'z' }

  predicate IsAsciiUpper(c: char) { 'A' <= c <= 'Z' }

  predicate IsAsciiDigit(c: char) { '0' <= c <= '9' }

  /** The class `[a-zA-Z0-9]`. */
  predicate IsAsciiAlnum(c: char) { IsAsciiLower(c) || IsAsciiUpper(c) || IsAsciiDigit(c) }

  /** RE2's `\s`: exactly `[\t\n\f\r ]` (no vertical tab, nothing beyond ASCII). */
  predicate IsReSpace(c: char)
  {
    c == '\t' || c == '\n' || c == '\U{000C}' || c == '\r' || c == ' '
  }

  /** Go's unicode.IsSpace: the Latin-1 spaces and the Unicode White_Space property. */
  predicate IsSpace(c: char)
  {
    || c == '\t' || c == '\n' || c == '\U{000B}' || c == '\U{000C}' || c == '\r' || c == ' '
    || c == '\U{0085}' || c == '\U{00A0}' || c == '\U{1680}'
    || ('\U{2000}' <= c <= '\U{200A}')
    || c == '\U{2028}' || c == '\U{2029}' || c == '\U{202F}' || c == '\U{205F}' || c == '\U{3000}'
  }

  predicate AllAscii(s: string)
  {
    forall i :: 0 <= i < |s| ==> IsAscii(s[i])
  }

  /* ---------------------------------------------------------------------
     Deleting characters: what `regexp.ReplaceAllString(s, "")` does for a
     negated character class `[^...]+`
     --------------------------------------------------------------------- */

  /** The characters of `s` that satisfy `keep`, in their original order. */
  function Filter(keep: char -> bool, s: string): (r: string)
    ensures |r| <= |s|
    ensures forall i :: 0 <= i < |r| ==> keep(r[i])
  {
    if s == [] then []
    else (if keep(s[0]) then [s[0]] else []) + Filter(keep, s[1..])
  }

  /** Filter keeps every occurrence of a kept character and none of the others. */
  lemma {:induction false} FilterMultiset(keep: char -> bool, s: string)
    ensures forall c :: multiset(Filter(keep, s))[c] == if keep(c) then multiset(s)[c] else 0
  {
    if s != [] {
      assert s == [s[0]] + s[1..];
      FilterMultiset(keep, s[1..]);
    }
  }

  lemma {:induction false} FilterAppend(keep: char -> bool, a: string, b: string)
    ensures Filter(keep, a + b) == Filter(keep, a) + Filter(keep, b)
  {
    if a == [] {
      assert a + b == b;
    } else {
      assert (a + b)[0] == a[0];
      assert (a + b)[1..] == a[1..] + b;
      FilterAppend(keep, a[1..], b);
    }
  }

  /** Filtering leaves `s` alone exactly when every character of `s` is kept. */
  lemma {:induction false} FilterIdentity(keep: char -> bool, s: string)
    ensures Filter(keep, s) == s <==> forall i :: 0 <= i < |s| ==> keep(s[i])
  {
    if s != [] && forall i :: 0 <= i < |s| ==> keep(s[i]) {
      FilterIdentity(keep, s[1..]);
      assert keep(s[0]);
    }
  }

  lemma FilterIdempotent(keep: char -> bool, s: string)
    ensures Filter(keep, Filter(keep, s)) == Filter(keep, s)
  {
    FilterIdentity(keep, Filter(keep, s));
  }

  /** A character of a filtered string is a character of the input. */
  lemma FilterSubset(keep: char -> bool, s: string, c: char)
    requires c in Filter(keep, s)
    ensures c in s && keep(c)
  {
    var r := Filter(keep, s);
    FilterMultiset(keep, s);
    assert multiset(r)[c] > 0;
  }
  /** Filtering by a stronger test after a weaker one is filtering by the
      stronger one alone. */
  lemma {:induction false} FilterFilter(strong: char -> bool, weak: char -> bool, s: string)
    requires forall c :: strong(c) ==> weak(c)
    ensures Filter(strong, Filter(weak, s)) == Filter(strong, s)
  {
    if s != [] {
      assert [s[0]][1..] == [];
      var head := if weak(s[0]) then [s[0]] else [];
      FilterAppend(strong, head, Filter(weak, s[1..]));
      FilterFilter(strong, weak, s[1..]);
    }
  }


  /* ---------------------------------------------------------------------
     Searching: strings.Contains, strings.Split(s, sep)[0]
     --------------------------------------------------------------------- */

  /** strings.Contains(s, pat). */
  predicate Contains(s: string, pat: string)
    decreases |s|
  {
    |pat| <= |s| && (s[..|pat|] == pat || (|s| > 0 && Contains(s[1..], pat)))
  }

  /** `pat` occurs in `s` starting at position `i`. */
  predicate OccursAt(s: string, pat: string, i: int)
  {
    0 <= i <= |s| - |pat| && s[i..i + |pat|] == pat
  }

  /** Contains holds exactly when `pat` occurs at some position of `s`. */
  lemma {:induction false} ContainsAt(s: string, pat: string)
    ensures Contains(s, pat) <==> exists i :: OccursAt(s, pat, i)
  {
    if Contains(s, pat) {
      if s[..|pat|] != pat {
        ContainsAt(s[1..], pat);
        var i :| OccursAt(s[1..], pat, i);
        assert s[1..][i..i + |pat|] == s[i + 1..i + 1 + |pat|];
        assert OccursAt(s, pat, i + 1);
      } else {
        assert OccursAt(s, pat, 0);
      }
    }
    if exists i :: OccursAt(s, pat, i) {
      var i :| OccursAt(s, pat, i);
      if i > 0 {
        assert s[1..][i - 1..i - 1 + |pat|] == s[i..i + |pat|];
        assert OccursAt(s[1..], pat, i - 1);
        ContainsAt(s[1..], pat);
      }
    }
  }

  /** Position of the first `c` in `s`, or |s| when there is none. */
  function IndexOf(s: string, c: char): (k: nat)
    ensures k <= |s|
    ensures forall i :: 0 <= i < k ==> s[i] != c
    ensures k < |s| ==> s[k] == c
    ensures k == |s| <==> c !in s
  {
    if s == [] then 0 else if s[0] == c then 0 else 1 + IndexOf(s[1..], c)
  }

  /** strings.Split(s, [sep])[0]: the text before the first `sep`, or all of `s`. */
  function FirstField(s: string, sep: char): (r: string)
    ensures sep !in r
    ensures r <= s
    ensures |r| < |s| ==> s[|r|] == sep
  {
    s[..IndexOf(s, sep)]
  }

  /* ---------------------------------------------------------------------
     strings.ReplaceAll (non-empty pattern)
     --------------------------------------------------------------------- */

  /** strings.ReplaceAll(s, pat, rep): leftmost, non-overlapping occurrences. */
  function ReplaceAll(s: string, pat: string, rep: string): string
    requires |pat| > 0
    decreases |s|
  {
    if |s| < |pat| then s
    else if s[..|pat|] == pat then rep + ReplaceAll(s[|pat|..], pat, rep)
    else [s[0]] + ReplaceAll(s[1..], pat, rep)
  }

  /** Replacing a pattern that does not occur changes nothing. */
  lemma {:induction false} ReplaceAllAbsent(s: string, pat: string, rep: string)
    requires |pat| > 0
    requires !Contains(s, pat)
    ensures ReplaceAll(s, pat, rep) == s
  {
    if |s| >= |pat| {
      ReplaceAllAbsent(s[1..], pat, rep);
      assert s == [s[0]] + s[1..];
    }
  }

  /** Replacing a character that does not occur changes nothing. */
  lemma ReplaceCharAbsent(s: string, x: char, rep: string)
    requires x !in s
    ensures ReplaceAll(s, [x], rep) == s
  {
    forall i
      ensures !OccursAt(s, [x], i)
    {
      if 0 <= i < |s| {
        assert s[i..i + 1][0] == s[i];
      }
    }
    ContainsAt(s, [x]);
    ReplaceAllAbsent(s, [x], rep);
  }

  /** At the leftmost occurrence of the pattern, the text before it is kept,
      the occurrence becomes the replacement, and replacing goes on after it.
      With ReplaceAllAbsent this fixes the result for every input. */
  lemma {:induction false} ReplaceAllFirst(a: string, pat: string, b: string, rep: string)
    requires |pat| > 0
    requires forall i :: 0 <= i < |a| ==> !OccursAt(a + pat + b, pat, i)
    ensures ReplaceAll(a + pat + b, pat, rep) == a + rep + ReplaceAll(b, pat, rep)
    decreases |a|
  {
    var s := a + pat + b;
    if a == [] {
      assert s[..|pat|] == pat;
      assert s[|pat|..] == b;
    } else {
      assert !OccursAt(s, pat, 0);
      assert s[..|pat|] != pat;
      assert s[1..] == a[1..] + pat + b;
      forall i | 0 <= i < |a| - 1
        ensures !OccursAt(a[1..] + pat + b, pat, i)
      {
        assert !OccursAt(s, pat, i + 1);
        assert s[1..][i..i + |pat|] == s[i + 1..i + 1 + |pat|];
      }
      ReplaceAllFirst(a[1..], pat, b, rep);
      assert a == [a[0]] + a[1..];
    }
  }

  /** A replacement that is not longer than the pattern never lengthens the
      string, and shortens it strictly when the pattern occurs. */
  lemma {:induction false} ReplaceAllShrinks(s: string, pat: string, rep: string)
    requires |pat| > 0 && |rep| <= |pat|
    ensures |ReplaceAll(s, pat, rep)| <= |s|
    ensures Contains(s, pat) && |rep| < |pat| ==> |ReplaceAll(s, pat, rep)| < |s|
    decreases |s|
  {
    if |s| >= |pat| {
      if s[..|pat|] == pat {
        ReplaceAllShrinks(s[|pat|..], pat, rep);
      } else {
        ReplaceAllShrinks(s[1..], pat, rep);
      }
    }
  }

  /** Every character of the result comes from the input or from the replacement. */
  lemma {:induction false} ReplaceAllAlphabet(s: string, pat: string, rep: string, c: char)
    requires |pat| > 0
    requires c in ReplaceAll(s, pat, rep)
    ensures c in s || c in rep
    decreases |s|
  {
    if |s| >= |pat| {
      if s[..|pat|] == pat {
        if c !in rep {
          ReplaceAllAlphabet(s[|pat|..], pat, rep, c);
          assert s == s[..|pat|] + s[|pat|..];
        }
      } else if c != s[0] {
        ReplaceAllAlphabet(s[1..], pat, rep, c);
        assert s == [s[0]] + s[1..];
      }
    }
  }

  /** With a one-character pattern, ReplaceAll works character by character. */
  lemma ReplaceCharCons(c: char, t: string, x: char, rep: string)
    ensures ReplaceAll([c] + t, [x], rep) == (if c == x then rep else [c]) + ReplaceAll(t, [x], rep)
  {
    var s := [c] + t;
    assert s[..1] == [c] && s[1..] == t;
  }

  /** After replacing every `x` by a text without `x`, no `x` is left; every
      other character comes from the input or from the replacement. */
  lemma {:induction false} ReplaceCharAlphabet(s: string, x: char, rep: string, c: char)
    requires c in ReplaceAll(s, [x], rep)
    ensures (c in s && c != x) || c in rep
  {
    if s != [] {
      assert s == [s[0]] + s[1..];
      ReplaceCharCons(s[0], s[1..], x, rep);
      var tail := ReplaceAll(s[1..], [x], rep);
      var head := if s[0] == x then rep else [s[0]];
      assert c in head + tail;
      if c !in head {
        ReplaceCharAlphabet(s[1..], x, rep, c);
      }
    }
  }

  /** Deleting two characters with two ReplaceAll calls deletes exactly those characters. */
  lemma {:induction false} DeleteTwoChars(s: string, x: char, y: char, keep: char -> bool)
    requires forall c :: keep(c) == (c != x && c != y)
    ensures ReplaceAll(ReplaceAll(s, [x], []), [y], []) == Filter(keep, s)
  {
    if s != [] {
      assert s == [s[0]] + s[1..];
      ReplaceCharCons(s[0], s[1..], x, []);
      var inner := ReplaceAll(s[1..], [x], []);
      if s[0] != x {
        ReplaceCharCons(s[0], inner, y, []);
      } else {
        assert ReplaceAll(s, [x], []) == inner;
      }
      DeleteTwoChars(s[1..], x, y, keep);
    }
  }

  /** Replacing a character the filter drops by text the filter drops does
      not change what the filter keeps. */
  lemma {:induction false} FilterReplaceChar(keep: char -> bool, s: string, x: char, rep: string)
    requires !keep(x) && Filter(keep, rep) == []
    ensures Filter(keep, ReplaceAll(s, [x], rep)) == Filter(keep, s)
  {
    if s != [] {
      assert s == [s[0]] + s[1..];
      assert [s[0]][1..] == [];
      ReplaceCharCons(s[0], s[1..], x, rep);
      FilterReplaceChar(keep, s[1..], x, rep);
      var head := if s[0] == x then rep else [s[0]];
      FilterAppend(keep, head, ReplaceAll(s[1..], [x], rep));
      FilterAppend(keep, [s[0]], s[1..]);
    }
  }

  /** Replacing a character by one character works position by position. */
  lemma {:induction false} ReplaceCharMap(s: string, x: char, y: char)
    ensures |ReplaceAll(s, [x], [y])| == |s|
    ensures forall i :: 0 <= i < |s| ==> ReplaceAll(s, [x], [y])[i] == if s[i] == x then y else s[i]
  {
    if s != [] {
      assert s == [s[0]] + s[1..];
      ReplaceCharCons(s[0], s[1..], x, [y]);
      ReplaceCharMap(s[1..], x, y);
    }
  }

  /* ---------------------------------------------------------------------
     Case mapping, trimming, whitespace collapsing
     --------------------------------------------------------------------- */

  /** unicode.ToUpper on the characters whose upper case is ASCII: ASCII
      letters, dotless i (U+0131) and long s (U+017F). */
  function UpperChar(c: char): char
  {
    if IsAsciiLower(c) then (c as int - 32) as char
    else if c == '\U{0131}' then 'I'
    else if c == '\U{017F}' then 'S'
    else c
  }

  /** unicode.ToLower on ASCII letters. */
  function LowerChar(c: char): char
  {
    if IsAsciiUpper(c) then (c as int + 32) as char else c
  }

  /** strings.ToUpper: no ASCII lower-case letter is left, each lower-case
      letter becomes the upper-case letter of the same name, and every ASCII
      character other than a lower-case letter is kept as it is. */
  function ToUpper(s: string): (r: string)
    ensures |r| == |s|
    ensures forall i :: 0 <= i < |r| ==> !IsAsciiLower(r[i])
    ensures forall i :: 0 <= i < |r| ==> IsAsciiLower(s[i]) ==> IsAsciiUpper(r[i]) && LowerChar(r[i]) == s[i]
    ensures forall i :: 0 <= i < |r| ==> IsAscii(s[i]) && !IsAsciiLower(s[i]) ==> r[i] == s[i]
  {
    seq(|s|, i requires 0 <= i < |s| => UpperChar(s[i]))
  }

  /** strings.ToLower on ASCII text: no upper-case letter is left, each
      upper-case letter becomes the lower-case letter of the same name, and
      every other character is kept. */
  function ToLower(s: string): (r: string)
    ensures |r| == |s|
    ensures forall i :: 0 <= i < |r| ==> !IsAsciiUpper(r[i])
    ensures forall i :: 0 <= i < |r| ==> IsAsciiUpper(s[i]) ==> IsAsciiLower(r[i]) && UpperChar(r[i]) == s[i]
    ensures forall i :: 0 <= i < |r| ==> !IsAsciiUpper(s[i]) ==> r[i] == s[i]
  {
    seq(|s|, i requires 0 <= i < |s| => LowerChar(s[i]))
  }

  /** Length of the run of spaces at the head of `s`. */
  function LeadingSpaces(s: string): (n: nat)
    ensures n <= |s|
    ensures forall i :: 0 <= i < n ==> IsSpace(s[i])
    ensures n < |s| ==> !IsSpace(s[n])
  {
    if s != [] && IsSpace(s[0]) then 1 + LeadingSpaces(s[1..]) else 0
  }

  /** Length of the run of spaces at the tail of `s`. */
  function TrailingSpaces(s: string): (n: nat)
    ensures n <= |s|
    ensures forall i :: |s| - n <= i < |s| ==> IsSpace(s[i])
    ensures n < |s| ==> !IsSpace(s[|s| - 1 - n])
  {
    if s != [] && IsSpace(s[|s| - 1]) then 1 + TrailingSpaces(s[..|s| - 1]) else 0
  }

  /** `r` is `s` without `lo` leading and some trailing characters, all of them spaces. */
  predicate SpacesAround(s: string, r: string, lo: nat)
  {
    && lo + |r| <= |s|
    && s[lo..lo + |r|] == r
    && (forall k :: 0 <= k < lo ==> IsSpace(s[k]))
    && (forall k :: lo + |r| <= k < |s| ==> IsSpace(s[k]))
  }

  /** strings.TrimSpace: only spaces are removed, only at the ends, and the
      result neither starts nor ends with a space. */
  function TrimSpace(s: string): (r: string)
    ensures r == [] || (!IsSpace(r[0]) && !IsSpace(r[|r| - 1]))
    ensures SpacesAround(s, r, LeadingSpaces(s))
  {
    var lo := LeadingSpaces(s);
    var n := TrailingSpaces(s[lo..]);
    TrailingSpacesOfSuffix(s, lo);
    s[lo..|s| - n]
  }

  /** The trailing spaces of a suffix of `s`, read as positions of `s`. */
  lemma TrailingSpacesOfSuffix(s: string, lo: nat)
    requires lo <= |s|
    ensures var n := TrailingSpaces(s[lo..]);
      && (forall k :: |s| - n <= k < |s| ==> IsSpace(s[k]))
      && (n < |s| - lo ==> !IsSpace(s[|s| - 1 - n]))
  {
    var t := s[lo..];
    var n := TrailingSpaces(t);
    forall k | |s| - n <= k < |s|
      ensures IsSpace(s[k])
    {
      assert s[k] == t[k - lo];
    }
    if n < |t| {
      assert s[|s| - 1 - n] == t[|t| - 1 - n];
    }
  }

  /** Text that neither starts nor ends with a space is not trimmed. */
  lemma TrimSpaceNoop(s: string)
    requires s == [] || (!IsSpace(s[0]) && !IsSpace(s[|s| - 1]))
    ensures TrimSpace(s) == s
  {
  }

  /** ASCII text without lower-case letters is already upper case. */
  lemma ToUpperNoop(s: string)
    requires forall i :: 0 <= i < |s| ==> IsAscii(s[i]) && !IsAsciiLower(s[i])
    ensures ToUpper(s) == s
  {
  }

  /** Length of the run of RE2 spaces at the head of `s`. */
  function LeadingReSpaces(s: string): (n: nat)
    ensures n <= |s|
    ensures forall i :: 0 <= i < n ==> IsReSpace(s[i])
    ensures n < |s| ==> !IsReSpace(s[n])
  {
    if s != [] && IsReSpace(s[0]) then 1 + LeadingReSpaces(s[1..]) else 0
  }

  /** regexp `\s+` replaced by "_": each maximal run of RE2 spaces becomes one underscore. */
  function CollapseSpaces(s: string): (r: string)
    ensures forall i :: 0 <= i < |r| ==> !IsReSpace(r[i])
    decreases |s|
  {
    if s == [] then []
    else if IsReSpace(s[0]) then "_" + CollapseSpaces(s[LeadingReSpaces(s)..])
    else [s[0]] + CollapseSpaces(s[1..])
  }

  predicate IsNotUnderscore(c: char) { c != '_' }

  predicate IsPlain(c: char) { c != '_' && !IsReSpace(c) }

  /** Dropping a run of spaces does not change the plain text. */
  lemma {:induction false} PlainIgnoresSpaces(s: string, n: nat)
    requires n <= |s|
    requires forall i :: 0 <= i < n ==> IsReSpace(s[i])
    ensures Filter(IsPlain, s) == Filter(IsPlain, s[n..])
  {
    if n > 0 {
      assert s == [s[0]] + s[1..];
      assert s[n..] == s[1..][n - 1..];
      PlainIgnoresSpaces(s[1..], n - 1);
    }
  }

  /** Collapsing only turns whitespace into underscores: ignoring every
      underscore, the output is the input without its whitespace and its
      underscores, in order. */
  lemma {:induction false} CollapseSpacesKeepsText(s: string)
    ensures Filter(IsNotUnderscore, CollapseSpaces(s)) == Filter(IsPlain, s)
    decreases |s|
  {
    if s != [] {
      assert s == [s[0]] + s[1..];
      if IsReSpace(s[0]) {
        var n := LeadingReSpaces(s);
        CollapseSpacesKeepsText(s[n..]);
        FilterAppend(IsNotUnderscore, "_", CollapseSpaces(s[n..]));
        PlainIgnoresSpaces(s, n);
      } else {
        CollapseSpacesKeepsText(s[1..]);
        FilterAppend(IsNotUnderscore, [s[0]], CollapseSpaces(s[1..]));
      }
    }
  }

  /** Text without whitespace is left unchanged. */
  lemma {:induction false} CollapseSpacesNoop(s: string)
    requires forall i :: 0 <= i < |s| ==> !IsReSpace(s[i])
    ensures CollapseSpaces(s) == s
  {
    if s != [] {
      CollapseSpacesNoop(s[1..]);
      assert s == [s[0]] + s[1..];
    }
  }

  /** One maximal run of whitespace becomes exactly one underscore. */
  lemma {:induction false} CollapseSpacesRun(p: string, w: string, q: string)
    requires forall i :: 0 <= i < |p| ==> !IsReSpace(p[i])
    requires |w| > 0 && forall i :: 0 <= i < |w| ==> IsReSpace(w[i])
    requires q == [] || !IsReSpace(q[0])
    ensures CollapseSpaces(p + w + q) == p + "_" + CollapseSpaces(q)
    decreases |p|
  {
    var s := p + w + q;
    if p == [] {
      assert s == w + q;
      assert forall i :: 0 <= i < |w| ==> s[i] == w[i];
      assert q != [] ==> s[|w|] == q[0];
      assert LeadingReSpaces(s) == |w|;
      assert s[|w|..] == q;
    } else {
      assert s[0] == p[0];
      assert s[1..] == p[1..] + w + q;
      CollapseSpacesRun(p[1..], w, q);
      assert p == [p[0]] + p[1..];
    }
  }

  /** Collapsing whitespace keeps every letter and digit, in order, and adds none. */
  lemma CollapseSpacesKeepsAlnum(s: string)
    ensures Filter(IsAsciiAlnum, CollapseSpaces(s)) == Filter(IsAsciiAlnum, s)
  {
    CollapseSpacesKeepsText(s);
    FilterFilter(IsAsciiAlnum, IsNotUnderscore, CollapseSpaces(s));
    FilterFilter(IsAsciiAlnum, IsPlain, s);
  }

  /** Every character of the collapsed text is an underscore or comes from the input. */
  lemma CollapseSpacesAlphabet(s: string, c: char)
    requires c in CollapseSpaces(s) && c != '_'
    ensures c in s && !IsReSpace(c)
  {
    var r := CollapseSpaces(s);
    CollapseSpacesKeepsText(s);
    FilterMultiset(IsNotUnderscore, r);
    FilterMultiset(IsPlain, s);
    assert multiset(Filter(IsNotUnderscore, r))[c] == multiset(r)[c] > 0;
    assert multiset(Filter(IsPlain, s))[c] > 0;
  }

  /* ---------------------------------------------------------------------
     Byte length: Go's len() of a string is its UTF-8 length
     --------------------------------------------------------------------- */

  function RuneLen(c: char): nat
  {
    if c as int < 0x80 then 1
    else if c as int < 0x800 then 2
    else if c as int < 0x1_0000 then 3
    else 4
  }

  function ByteLen(s: string): nat
  {
    if s == [] then 0 else RuneLen(s[0]) + ByteLen(s[1..])
  }

  /** On ASCII text the byte length is the number of characters. */
  lemma {:induction false} AsciiByteLen(s: string)
    requires AllAscii(s)
    ensures ByteLen(s) == |s|
  {
    if s != [] {
      AsciiByteLen(s[1..]);
    }
  }

  /* ---------------------------------------------------------------------
     strconv.Itoa and its inverse
     --------------------------------------------------------------------- */

  function DigitChar(d: nat): char
    requires d < 10
  {
    ('0' as int + d) as char
  }

  /** Decimal digits of `n`, most significant first, with no leading zero. */
  function NatToDecimal(n: nat): (r: string)
    ensures |r| > 0
    ensures forall i :: 0 <= i < |r| ==> IsAsciiDigit(r[i])
    ensures r[0] == '0' ==> n == 0
    decreases n
  {
    if n < 10 then [DigitChar(n)] else NatToDecimal(n / 10) + [DigitChar(n % 10)]
  }

  /** The value of a string of decimal digits. */
  function DecimalValue(s: string): nat
    requires IsDigits(s)
  {
    if s == [] then 0
    else
      assert IsAsciiDigit(s[|s| - 1]);
      10 * DecimalValue(s[..|s| - 1]) + (s[|s| - 1] as int - '0' as int)
  }

  lemma {:induction false} DecimalRoundTrip(n: nat)
    ensures DecimalValue(NatToDecimal(n)) == n
    decreases n
  {
    if n >= 10 {
      var r := NatToDecimal(n);
      assert r[..|r| - 1] == NatToDecimal(n / 10);
      DecimalRoundTrip(n / 10);
    }
  }

  /** strconv.Itoa. */
  function Itoa(i: int): string
  {
    if i < 0 then "-" + NatToDecimal(-i) else NatToDecimal(i)
  }

  predicate IsDigits(s: string)
  {
    forall i :: 0 <= i < |s| ==> IsAsciiDigit(s[i])
  }

  /** An optional minus sign followed by at least one digit. */
  predicate IsDecimal(s: string)
  {
    || (|s| > 1 && s[0] == '-' && IsDigits(s[1..]))
    || (|s| > 0 && IsDigits(s))
  }

  /** strconv.Atoi on well-formed input. */
  function ParseDecimal(s: string): int
    requires IsDecimal(s)
  {
    if s[0] == '-' then -(DecimalValue(s[1..]) as int) else DecimalValue(s)
  }

  /** Itoa writes a decimal numeral that reads back as the same integer. */
  lemma ItoaRoundTrip(i: int)
    ensures IsDecimal(Itoa(i))
    ensures ParseDecimal(Itoa(i)) == i
  {
    if i < 0 {
      var r := Itoa(i);
      assert r[1..] == NatToDecimal(-i);
      DecimalRoundTrip(-i);
    } else {
      DecimalRoundTrip(i);
    }
  }
}
