/**
 * `slugify`: the file-name slug of a query. Every character outside
 * `[\w.-]` becomes `_`, leading and trailing `_` are stripped, and the rest
 * is lower-cased.
 *
 * `\w` is approximated by the ASCII word characters (letters, digits, `_`);
 * the regular-expression engine's `\w` also accepts the other Unicode letters
 * and digits. With that approximation every character left after the
 * replacement is ASCII, so lower-casing only has to map `A`-`Z`.
 */
module Slug {

  predicate IsWordChar(c: char)
  {
    ('a' <= c <= 'z') || ('A' <= c <= 'Z') || ('0' <= c <= '9') || c == '_'
  }

  /** The characters `[\w.-]` keeps. */
  predicate IsKept(c: char)
  {
    IsWordChar(c) || c == '.' || c == '-'
  }

  /** The characters a slug is made of: kept characters that are not upper-case. */
  predicate IsSlugChar(c: char)
  {
    IsKept(c) && !('A' <= c <= 'Z')
  }

  function LowerChar(c: char): char
  {
    if 'A' <= c <= 'Z' then (c as int - 'A' as int + 'a' as int) as char else c
  }

  /** `re.sub(r"[^\w.-]", "_", text)`. */
  function ReplaceUnsafe(s: string): (r: string)
    ensures |r| == |s|
    ensures forall i :: 0 <= i < |s| ==> r[i] == (if IsKept(s[i]) then s[i] else '_')
  {
    if |s| == 0 then []
    else [if IsKept(s[0]) then s[0] else '_'] + ReplaceUnsafe(s[1..])
  }

  /** The number of leading `_` characters. */
  function Lead(s: string): (n: nat)
    ensures n <= |s|
    ensures forall i :: 0 <= i < n ==> s[i] == '_'
    ensures n < |s| ==> s[n] != '_'
  {
    if |s| > 0 && s[0] == '_' then 1 + Lead(s[1..]) else 0
  }

  /** The length of `s` without its trailing `_` characters. */
  function TrailEnd(s: string): (m: nat)
    ensures m <= |s|
    ensures forall i :: m <= i < |s| ==> s[i] == '_'
    ensures m > 0 ==> s[m - 1] != '_'
  {
    if |s| > 0 && s[|s| - 1] == '_' then TrailEnd(s[..|s| - 1]) else |s|
  }

  /**
   * `str.strip("_")`: the slice of `s` left after dropping the leading and the
   * trailing `_` characters; it neither starts nor ends with `_`.
   */
  function Strip(s: string): (r: string)
    ensures Lead(s) + |r| <= |s|
    ensures forall i :: 0 <= i < |r| ==> r[i] == s[Lead(s) + i]
    ensures forall i :: Lead(s) + |r| <= i < |s| ==> s[i] == '_'
    ensures |r| > 0 ==> r[0] != '_' && r[|r| - 1] != '_'
  {
    var lo := Lead(s);
    if lo == |s| then []
    else
      var hi := TrailEnd(s);
      assert lo < hi;
      s[lo..hi]
  }

  /** `str.lower()` on the characters a replaced string can hold. */
  function Lower(s: string): (r: string)
    ensures |r| == |s|
    ensures forall i :: 0 <= i < |s| ==> r[i] == LowerChar(s[i])
  {
    if |s| == 0 then [] else [LowerChar(s[0])] + Lower(s[1..])
  }

  lemma LowerCharKeeps(c: char)
    requires IsKept(c)
    ensures IsSlugChar(LowerChar(c))
    ensures LowerChar(c) == '_' <==> c == '_'
  {
  }

  /** Lower-casing kept characters gives slug characters and moves no `_`. */
  lemma LowerKeeps(s: string)
    requires forall i :: 0 <= i < |s| ==> IsKept(s[i])
    ensures forall i :: 0 <= i < |s| ==> IsSlugChar(Lower(s)[i])
    ensures forall i :: 0 <= i < |s| ==> (Lower(s)[i] == '_' <==> s[i] == '_')
  {
    forall i | 0 <= i < |s|
      ensures IsSlugChar(Lower(s)[i]) && (Lower(s)[i] == '_' <==> s[i] == '_')
    {
      LowerCharKeeps(s[i]);
    }
  }

  /** The slug of `text`: only slug characters, never starting or ending with `_`, no longer than `text`. */
  function Slugify(text: string): (r: string)
    ensures |r| <= |text|
    ensures forall i :: 0 <= i < |r| ==> IsSlugChar(r[i])
    ensures |r| > 0 ==> r[0] != '_' && r[|r| - 1] != '_'
  {
    var replaced := ReplaceUnsafe(text);
    StripKeepsKept(replaced);
    var stripped := Strip(replaced);
    LowerKeeps(stripped);
    Lower(stripped)
  }

  /** Stripping a string of kept characters leaves kept characters. */
  lemma StripKeepsKept(s: string)
    requires forall i :: 0 <= i < |s| ==> IsKept(s[i])
    ensures forall i :: 0 <= i < |Strip(s)| ==> IsKept(Strip(s)[i])
  {
    var r := Strip(s);
    forall i | 0 <= i < |r|
      ensures IsKept(r[i])
    {
      assert r[i] == s[Lead(s) + i];
    }
  }

  /** A string that already looks like a slug is left unchanged. */
  lemma SlugIsFixedPoint(s: string)
    requires forall i :: 0 <= i < |s| ==> IsSlugChar(s[i])
    requires |s| > 0 ==> s[0] != '_' && s[|s| - 1] != '_'
    ensures Slugify(s) == s
  {
    ReplaceKeepsKept(s);
    StripKeepsClean(s);
    LowerKeepsSlug(s);
  }

  lemma ReplaceKeepsKept(s: string)
    requires forall i :: 0 <= i < |s| ==> IsKept(s[i])
    ensures ReplaceUnsafe(s) == s
  {
    var r := ReplaceUnsafe(s);
    forall i | 0 <= i < |s|
      ensures r[i] == s[i]
    {
      assert IsKept(s[i]);
    }
  }

  lemma StripKeepsClean(s: string)
    requires |s| > 0 ==> s[0] != '_' && s[|s| - 1] != '_'
    ensures Strip(s) == s
  {
    assert Lead(s) == 0;
    if |s| > 0 {
      assert TrailEnd(s) == |s|;
      assert s[0..|s|] == s;
    }
  }

  lemma LowerKeepsSlug(s: string)
    requires forall i :: 0 <= i < |s| ==> IsSlugChar(s[i])
    ensures Lower(s) == s
  {
    var r := Lower(s);
    forall i | 0 <= i < |s|
      ensures r[i] == s[i]
    {
      assert !('A' <= s[i] <= 'Z');
    }
  }

  /** Slugifying twice gives the same slug as slugifying once. */
  lemma SlugifyIdempotent(text: string)
    ensures Slugify(Slugify(text)) == Slugify(text)
  {
    SlugIsFixedPoint(Slugify(text));
  }

  /** Every kept, non-`_` character of the text reaches the slug, lower-cased, at its position shifted by the stripped prefix. */
  lemma KeptCharsSurvive(text: string, i: nat)
    requires i < |text| && IsKept(text[i]) && text[i] != '_'
    ensures Lead(ReplaceUnsafe(text)) <= i < Lead(ReplaceUnsafe(text)) + |Slugify(text)|
    ensures Slugify(text)[i - Lead(ReplaceUnsafe(text))] == LowerChar(text[i])
    ensures exists j :: 0 <= j < |Slugify(text)| && Slugify(text)[j] == LowerChar(text[i])
  {
    var replaced := ReplaceUnsafe(text);
    var stripped := Strip(replaced);
    var slug := Slugify(text);
    assert slug == Lower(stripped);
    assert replaced[i] == text[i];
    StripKeepsInner(replaced, i);
    var j := i - Lead(replaced);
    assert stripped[j] == text[i];
    assert slug[j] == LowerChar(text[i]);
  }

  /** A non-`_` character survives stripping, shifted left by the stripped prefix. */
  lemma StripKeepsInner(s: string, i: nat)
    requires i < |s| && s[i] != '_'
    ensures Lead(s) <= i < Lead(s) + |Strip(s)|
    ensures Strip(s)[i - Lead(s)] == s[i]
  {
    LeadSkipsOnlyUnderscores(s, i);
    var r := Strip(s);
    var k := i - Lead(s);
    if |r| <= k {
      assert false;
    }
    assert r[k] == s[Lead(s) + k];
  }

  /** The stripped prefix ends at or before the first non-`_` character. */
  lemma LeadSkipsOnlyUnderscores(s: string, i: nat)
    requires i < |s| && s[i] != '_'
    ensures Lead(s) <= i
  {
    if i < Lead(s) {
      assert false;
    }
  }
}
