/**
 * webshare's parsePrefixes: the -q flag value is read as a list of address
 * prefixes separated by commas and white space.  The Go code replaces every
 * comma by a space and hands the result to strings.Fields, which splits at
 * runs of Unicode white space and drops empty pieces.
 *
 * Strings are sequences of Unicode code points (Go's strings decoded as
 * UTF-8, as strings.Fields does).
 */
module Prefixes {

  /** unicode.IsSpace: the Unicode White_Space characters. */
  predicate IsSpace(c: char) {
    || c == ' ' || c == '\t' || c == '\n' || c == '\r'
    || c == '\U{000B}'                       // vertical tab
    || c == '\U{000C}'                       // form feed
    || c == '\U{0085}'                       // next line
    || c == '\U{00A0}'                       // no-break space
    || c == '\U{1680}'                       // Ogham space mark
    || ('\U{2000}' <= c <= '\U{200A}')       // en quad .. hair space
    || c == '\U{2028}' || c == '\U{2029}'    // line and paragraph separators
    || c == '\U{202F}' || c == '\U{205F}' || c == '\U{3000}'
  }

  /** What parsePrefixes splits at: a comma or white space. */
  predicate IsSeparator(c: char) {
    c == ',' || IsSpace(c)
  }

  /** No character of `s` satisfies `sep`. */
  predicate NoneOf(s: string, sep: char -> bool) {
    forall i :: 0 <= i < |s| ==> !sep(s[i])
  }

  /** Every character of `s` satisfies `sep`. */
  predicate AllOf(s: string, sep: char -> bool) {
    forall i :: 0 <= i < |s| ==> sep(s[i])
  }

  /** `s` with every character satisfying `sep` removed. */
  function Strip(s: string, sep: char -> bool): (r: string)
    ensures |r| <= |s|
    ensures NoneOf(r, sep)
  {
    if s == [] then []
    else if sep(s[0]) then Strip(s[1..], sep)
    else [s[0]] + Strip(s[1..], sep)
  }

  /** The tokens, one after another. */
  function Concat(ts: seq<string>): string {
    if ts == [] then [] else ts[0] + Concat(ts[1..])
  }

  /** The non-empty elements of `ps`, in order. */
  function NonEmpty(ps: seq<string>): (r: seq<string>)
    ensures |r| <= |ps|
    ensures forall k :: 0 <= k < |r| ==> r[k] != []
  {
    if ps == [] then []
    else if ps[0] == [] then NonEmpty(ps[1..])
    else [ps[0]] + NonEmpty(ps[1..])
  }

  /**
   * Reference splitter: the pieces of `s` between the characters that
   * satisfy `sep`, empty pieces included, so that n separators give n + 1
   * pieces.
   */
  function Split(s: string, sep: char -> bool): (r: seq<string>)
    ensures |r| > 0
  {
    if s == [] then [[]]
    else if sep(s[0]) then [[]] + Split(s[1..], sep)
    else
      var rest := Split(s[1..], sep);
      [[s[0]] + rest[0]] + rest[1..]
  }

  /** strings.ReplaceAll(s, ",", " "). */
  function ReplaceCommas(s: string): (r: string)
    ensures |r| == |s|
    ensures forall i :: 0 <= i < |s| ==> r[i] == (if s[i] == ',' then ' ' else s[i])
  {
    if s == [] then []
    else [if s[0] == ',' then ' ' else s[0]] + ReplaceCommas(s[1..])
  }

  /** The length of the run of non-space characters at the start of `s`. */
  function TokenLength(s: string): (n: nat)
    ensures n <= |s|
    ensures forall i :: 0 <= i < n ==> !IsSpace(s[i])
    ensures n < |s| ==> IsSpace(s[n])
  {
    if s == [] || IsSpace(s[0]) then 0 else 1 + TokenLength(s[1..])
  }

  /**
   * strings.Fields: the maximal runs of non-space characters, in order.
   * Every field is non-empty and holds no white space.
   */
  function Fields(s: string): (r: seq<string>)
    ensures forall k :: 0 <= k < |r| ==> r[k] != [] && NoneOf(r[k], IsSpace)
    decreases |s|
  {
    if s == [] then []
    else if IsSpace(s[0]) then Fields(s[1..])
    else
      var n := TokenLength(s);
      [s[..n]] + Fields(s[n..])
  }

  /**
   * parsePrefixes: commas count as white space.  No prefix is empty and no
   * prefix holds a comma or a white-space character.
   */
  function ParsePrefixes(input: string): (parts: seq<string>)
    ensures forall k :: 0 <= k < |parts| ==> parts[k] != [] && NoneOf(parts[k], IsSeparator)
  {
    var r := Fields(ReplaceCommas(input));
    assert forall k :: 0 <= k < |r| ==> NoneOf(r[k], IsSeparator) by {
      forall k | 0 <= k < |r| ensures NoneOf(r[k], IsSeparator) {
        FieldHasNoComma(ReplaceCommas(input), k);
      }
    }
    r
  }

  /** A field of a comma-free string holds no comma. */
  lemma {:induction false} FieldHasNoComma(s: string, k: nat)
    requires forall i :: 0 <= i < |s| ==> s[i] != ','
    requires k < |Fields(s)|
    ensures forall i :: 0 <= i < |Fields(s)[k]| ==> Fields(s)[k][i] != ','
    decreases |s|
  {
    if IsSpace(s[0]) {
      FieldHasNoComma(s[1..], k);
    } else if k > 0 {
      var n := TokenLength(s);
      FieldHasNoComma(s[n..], k - 1);
    }
  }

  /** Concatenating the fields gives `s` without its white space. */
  lemma {:induction false} FieldsConcat(s: string)
    ensures Concat(Fields(s)) == Strip(s, IsSpace)
    decreases |s|
  {
    if s == [] {
    } else if IsSpace(s[0]) {
      FieldsConcat(s[1..]);
    } else {
      var n := TokenLength(s);
      FieldsConcat(s[n..]);
      StripNoSpaceRun(s, n);
    }
  }

  /** Stripping a string that starts with a run of `n` non-space characters keeps that run. */
  lemma {:induction false} StripNoSpaceRun(s: string, n: nat)
    requires n <= |s| && NoneOf(s[..n], IsSpace)
    ensures Strip(s, IsSpace) == s[..n] + Strip(s[n..], IsSpace)
    decreases n
  {
    if n > 0 {
      assert s[..n][0] == s[0];
      assert s[1..][..n - 1] == s[..n][1..];
      StripNoSpaceRun(s[1..], n - 1);
      assert s[1..][n - 1..] == s[n..];
      calc {
        Strip(s, IsSpace);
        [s[0]] + Strip(s[1..], IsSpace);
        [s[0]] + (s[1..][..n - 1] + Strip(s[n..], IsSpace));
        { assert [s[0]] + s[1..][..n - 1] == s[..n]; }
        s[..n] + Strip(s[n..], IsSpace);
      }
    }
  }

  /** strings.Fields returns nothing exactly when `s` is all white space (or empty). */
  lemma {:induction false} FieldsEmptyIff(s: string)
    ensures Fields(s) == [] <==> AllOf(s, IsSpace)
    decreases |s|
  {
    if s != [] && IsSpace(s[0]) {
      FieldsEmptyIff(s[1..]);
      assert AllOf(s, IsSpace) <==> AllOf(s[1..], IsSpace) by {
        if AllOf(s[1..], IsSpace) {
          forall i | 0 <= i < |s| ensures IsSpace(s[i]) {
            if i > 0 { assert s[i] == s[1..][i - 1]; }
          }
        }
      }
    }
  }

  /** The first piece of Split is the leading run of non-space characters; the rest splits after the space ending it. */
  lemma {:induction false} SplitAtToken(s: string)
    ensures Split(s, IsSpace)[0] == s[..TokenLength(s)]
    ensures TokenLength(s) == |s| ==> Split(s, IsSpace)[1..] == []
    ensures TokenLength(s) < |s| ==> Split(s, IsSpace)[1..] == Split(s[TokenLength(s) + 1..], IsSpace)
    decreases |s|
  {
    if s != [] && !IsSpace(s[0]) {
      SplitAtToken(s[1..]);
      if TokenLength(s) < |s| {
        assert s[1..][TokenLength(s[1..]) + 1..] == s[TokenLength(s) + 1..];
      }
    }
  }

  /** Fields agrees with the reference: split at every white-space character, then drop the empty pieces. */
  lemma {:induction false} FieldsIsSplitNonEmpty(s: string)
    ensures Fields(s) == NonEmpty(Split(s, IsSpace))
    decreases |s|
  {
    if s == [] {
    } else if IsSpace(s[0]) {
      FieldsIsSplitNonEmpty(s[1..]);
      assert NonEmpty(Split(s, IsSpace)) == NonEmpty(Split(s[1..], IsSpace));
    } else {
      var n := TokenLength(s);
      var ps := Split(s, IsSpace);
      SplitAtToken(s);
      assert ps == [s[..n]] + ps[1..];
      assert NonEmpty(ps) == [s[..n]] + NonEmpty(ps[1..]);
      if n < |s| {
        FieldsIsSplitNonEmpty(s[n + 1..]);
        assert Fields(s[n..]) == Fields(s[n + 1..]) by {
          assert s[n..][1..] == s[n + 1..];
        }
      }
    }
  }

  /** Replacing commas by spaces and splitting at white space is splitting at separators. */
  lemma {:induction false} SplitReplaceCommas(s: string)
    ensures Split(ReplaceCommas(s), IsSpace) == Split(s, IsSeparator)
    decreases |s|
  {
    if s != [] {
      SplitReplaceCommas(s[1..]);
      assert ReplaceCommas(s)[1..] == ReplaceCommas(s[1..]);
    }
  }

  /** Replacing commas by spaces and stripping white space is stripping separators. */
  lemma {:induction false} StripReplaceCommas(s: string)
    ensures Strip(ReplaceCommas(s), IsSpace) == Strip(s, IsSeparator)
    decreases |s|
  {
    if s != [] {
      StripReplaceCommas(s[1..]);
      assert ReplaceCommas(s)[1..] == ReplaceCommas(s[1..]);
    }
  }

  /** parsePrefixes agrees with the reference: split at every comma or white-space character, drop the empty pieces. */
  lemma ParsePrefixesIsSplitNonEmpty(s: string)
    ensures ParsePrefixes(s) == NonEmpty(Split(s, IsSeparator))
  {
    FieldsIsSplitNonEmpty(ReplaceCommas(s));
    SplitReplaceCommas(s);
  }

  /** Order and content are kept: the prefixes, concatenated, are the input without its separators. */
  lemma ParsePrefixesConcat(s: string)
    ensures Concat(ParsePrefixes(s)) == Strip(s, IsSeparator)
  {
    FieldsConcat(ReplaceCommas(s));
    StripReplaceCommas(s);
  }

  /** parsePrefixes returns nothing exactly when the input holds only commas and white space. */
  lemma ParsePrefixesEmptyIff(s: string)
    ensures ParsePrefixes(s) == [] <==> AllOf(s, IsSeparator)
  {
    var t := ReplaceCommas(s);
    FieldsEmptyIff(t);
    assert AllOf(t, IsSpace) <==> AllOf(s, IsSeparator) by {
      if AllOf(s, IsSeparator) {
        forall i | 0 <= i < |t| ensures IsSpace(t[i]) { assert IsSeparator(s[i]); }
      }
      if AllOf(t, IsSpace) {
        forall i | 0 <= i < |s| ensures IsSeparator(s[i]) { assert IsSpace(t[i]); }
      }
    }
  }

  /** A token followed by white space or by nothing is the first field. */
  lemma {:induction false} FieldsOfToken(tok: string, rest: string)
    requires tok != [] && NoneOf(tok, IsSpace)
    requires rest == [] || IsSpace(rest[0])
    ensures Fields(tok + rest) == [tok] + Fields(rest)
  {
    TokenLengthOf(tok, rest);
    assert (tok + rest)[..|tok|] == tok;
    assert (tok + rest)[|tok|..] == rest;
  }

  lemma {:induction false} TokenLengthOf(tok: string, rest: string)
    requires NoneOf(tok, IsSpace)
    requires rest == [] || IsSpace(rest[0])
    ensures TokenLength(tok + rest) == |tok|
    decreases |tok|
  {
    if tok == [] {
      assert tok + rest == rest;
    } else {
      assert (tok + rest)[1..] == tok[1..] + rest;
      TokenLengthOf(tok[1..], rest);
    }
  }

  /** White space in front of a string adds no field. */
  lemma FieldsAfterSpace(c: char, rest: string)
    requires IsSpace(c)
    ensures Fields([c] + rest) == Fields(rest)
  {
    assert ([c] + rest)[1..] == rest;
  }

  /** A token alone is the only field. */
  lemma SingleField(tok: string)
    requires tok != [] && NoneOf(tok, IsSpace)
    ensures Fields(tok) == [tok]
  {
    FieldsOfToken(tok, []);
    assert tok + [] == tok;
  }

  /** A token followed by a space and more text is the first field of it. */
  lemma LeadingField(tok: string, rest: string)
    requires tok != [] && NoneOf(tok, IsSpace)
    ensures Fields(tok + [' '] + rest) == [tok] + Fields(rest)
  {
    FieldsOfToken(tok, [' '] + rest);
    FieldsAfterSpace(' ', rest);
    assert tok + [' '] + rest == tok + ([' '] + rest);
  }

  /** A value without separators is one prefix. */
  lemma SinglePrefix(tok: string)
    requires tok != [] && NoneOf(tok, IsSeparator)
    ensures ParsePrefixes(tok) == [tok]
  {
    var t := ReplaceCommas(tok);
    forall i | 0 <= i < |t| ensures t[i] == tok[i] {
      assert !IsSeparator(tok[i]);
    }
    assert t == tok;
    SingleField(tok);
  }

  /** The default flag value gives the single prefix "192". */
  lemma DefaultPrefix(input: string)
    requires input == "192"
    ensures ParsePrefixes(input) == ["192"]
  {
    SinglePrefix(input);
  }

  /** Commas and spaces mix freely as separators: "a,b c" gives a, b and c. */
  lemma CommaThenSpace(a: string, b: string, c: string)
    requires a != [] && b != [] && c != []
    requires NoneOf(a, IsSeparator) && NoneOf(b, IsSeparator) && NoneOf(c, IsSeparator)
    ensures ParsePrefixes(a + [','] + b + [' '] + c) == [a, b, c]
  {
    var rest := b + [' '] + c;
    var s := a + [','] + b + [' '] + c;
    assert s == a + [','] + rest;
    var t := ReplaceCommas(s);
    forall i | 0 <= i < |t| ensures t[i] == (a + [' '] + rest)[i] {
      if i < |a| {
        assert s[i] == a[i] && !IsSeparator(a[i]);
      } else if i > |a| {
        assert s[i] == rest[i - |a| - 1];
        assert i - |a| - 1 != |b| ==> !IsSeparator(rest[i - |a| - 1]);
      }
    }
    assert t == a + [' '] + rest;
    LeadingField(b, c);
    SingleField(c);
    LeadingField(a, rest);
  }

  /** Commas and spaces mixed: "192,10 172" gives three prefixes. */
  lemma MixedSeparators(input: string)
    requires input == "192,10 172"
    ensures ParsePrefixes(input) == ["192", "10", "172"]
  {
    assert input == "192" + [','] + "10" + [' '] + "172";
    CommaThenSpace("192", "10", "172");
  }

  /** Only separators: no prefix at all. */
  lemma OnlySeparators()
    ensures ParsePrefixes("") == [] && ParsePrefixes(" ,\t,") == []
  {
    ParsePrefixesEmptyIff(" ,\t,");
  }
}
