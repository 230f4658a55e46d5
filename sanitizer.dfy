/** The text sanitizers of the PCI device naming code: `strip` and the
    bracketed-alias extraction used for the vendor part of a resource name. */
module Sanitizer {
  import opened Strings

  datatype Option<T> = None | Some(value: T)

  /** strip: regexp `[^a-zA-Z0-9]+` replaced by "". Only ASCII letters and
      digits are left. */
  function Strip(s: string): (r: string)
    ensures forall i :: 0 <= i < |r| ==> IsAsciiAlnum(r[i])
  {
    Filter(IsAsciiAlnum, s)
  }

  /** Every ASCII letter and digit of `s` is kept, as often as in `s`, and
      nothing else. */
  lemma StripKeepsAlnum(s: string)
    ensures forall c :: multiset(Strip(s))[c] == if IsAsciiAlnum(c) then multiset(s)[c] else 0
  {
    FilterMultiset(IsAsciiAlnum, s);
  }

  /** Stripping keeps order: it works character by character, and a
      character survives exactly when it is an ASCII letter or digit. */
  lemma StripAppend(a: string, b: string)
    ensures Strip(a + b) == Strip(a) + Strip(b)
  {
    FilterAppend(IsAsciiAlnum, a, b);
  }

  lemma StripChar(c: char)
    ensures Strip([c]) == if IsAsciiAlnum(c) then [c] else []
  {
    assert [c][1..] == [];
  }

  lemma StripIdempotent(s: string)
    ensures Strip(Strip(s)) == Strip(s)
  {
    FilterIdempotent(IsAsciiAlnum, s);
  }

  /** Text made only of ASCII letters and digits is left unchanged, and nothing else is. */
  lemma StripIdentity(s: string)
    ensures Strip(s) == s <==> forall i :: 0 <= i < |s| ==> IsAsciiAlnum(s[i])
  {
    FilterIdentity(IsAsciiAlnum, s);
  }

  /* ---------------------------------------------------------------------
     The regular expression `\[([^\]]+)\]`
     --------------------------------------------------------------------- */

  /** A match of `\[([^\]]+)\]` starts at `i`: a `[`, then at least one
      character other than `]`, then (somewhere later) a `]`. */
  predicate OpensBracketMatch(s: string, i: nat)
  {
    i + 1 < |s| && s[i] == '[' && s[i + 1] != ']' && ']' in s[i + 2..]
  }

  /** The leftmost position at or after `from` where a match starts. */
  function FirstBracketMatch(s: string, from: nat): (r: Option<nat>)
    requires from <= |s|
    ensures r.Some? ==> from <= r.value < |s| && OpensBracketMatch(s, r.value)
    ensures r.Some? ==> forall k :: from <= k < r.value ==> !OpensBracketMatch(s, k)
    ensures r.None? ==> forall k :: from <= k < |s| ==> !OpensBracketMatch(s, k)
    decreases |s| - from
  {
    if from == |s| then None
    else if OpensBracketMatch(s, from) then Some(from)
    else FirstBracketMatch(s, from + 1)
  }

  /** Submatch 1 of the match starting at `i`: the text between the `[` and
      the first `]` after it. */
  function BracketGroup(s: string, i: nat): (g: string)
    requires OpensBracketMatch(s, i)
    ensures |g| > 0 && ']' !in g
    ensures i + |g| + 2 <= |s| && s[i..i + |g| + 2] == "[" + g + "]"
  {
    var t := s[i + 1..];
    assert s[i + 2..] == t[1..];
    var k := IndexOf(t, ']');
    assert s[i..i + k + 2] == "[" + t[..k] + "]";
    t[..k]
  }

  /** A vendor name for which extractVendorNameFromBrackets does not panic:
      when it contains `[`, the regular expression matches. */
  predicate ValidVendorName(name: string)
  {
    '[' in name ==> FirstBracketMatch(name, 0).Some?
  }

  /** extractVendorNameFromBrackets: the stripped text of the leftmost
      bracketed alias, cut before its first `/`. */
  function ExtractVendorNameFromBrackets(name: string): (r: string)
    requires FirstBracketMatch(name, 0).Some?
    ensures forall i :: 0 <= i < |r| ==> IsAsciiAlnum(r[i])
  {
    var group := BracketGroup(name, FirstBracketMatch(name, 0).value);
    Strip(FirstField(group, '/'))
  }

  /** For a name made of a prefix without `[`, then `[alias]`, then anything,
      the extracted vendor is the stripped alias up to its first `/`. */
  lemma ExtractFromAlias(prefix: string, alias: string, rest: string)
    requires '[' !in prefix
    requires |alias| > 0 && ']' !in alias
    ensures var name := prefix + "[" + alias + "]" + rest;
      && FirstBracketMatch(name, 0).Some?
      && ExtractVendorNameFromBrackets(name) == Strip(FirstField(alias, '/'))
  {
    AliasIsFirstMatch(prefix, alias, rest);
    AliasIsGroup(prefix, alias, rest);
  }

  /** The match starts at the `[` that follows the prefix. */
  lemma AliasIsFirstMatch(prefix: string, alias: string, rest: string)
    requires '[' !in prefix
    requires |alias| > 0 && ']' !in alias
    ensures FirstBracketMatch(prefix + "[" + alias + "]" + rest, 0) == Some(|prefix|)
  {
    var name := prefix + "[" + alias + "]" + rest;
    var p := |prefix|;
    assert name[p] == '[' && name[p + 1] == alias[0];
    assert name[p + 2..][|alias| - 1] == ']';
    assert OpensBracketMatch(name, p);
    forall k | 0 <= k < p
      ensures !OpensBracketMatch(name, k)
    {
      assert name[k] == prefix[k];
    }
  }

  /** The group captured at the `[` after the prefix is the alias. */
  lemma AliasIsGroup(prefix: string, alias: string, rest: string)
    requires |alias| > 0 && ']' !in alias
    ensures var name := prefix + "[" + alias + "]" + rest;
      && OpensBracketMatch(name, |prefix|)
      && BracketGroup(name, |prefix|) == alias
  {
    var name := prefix + "[" + alias + "]" + rest;
    var p := |prefix|;
    assert name[p] == '[' && name[p + 1] == alias[0];
    assert name[p + 2..][|alias| - 1] == ']';
    var t := name[p + 1..];
    assert t == alias + "]" + rest;
    assert t[|alias|] == ']';
    assert IndexOf(t, ']') == |alias|;
    assert t[..|alias|] == alias;
  }
}
