/** `slugify` of kaiserlift/plot_utils.py: an exercise name turned into an
    HTML id. Characters are classified as ASCII: a word character is a
    letter, a digit or `_`. */
module Slug {

  predicate IsUpper(c: char) { 'A' <= c <= 'Z' }
  predicate IsAlnum(c: char) { 'a' <= c <= 'z' || IsUpper(c) || '0' <= c <= '9' }
  /** The class `\w` of Python's regular expressions. */
  predicate IsWordChar(c: char) { IsAlnum(c) || c == '_' }
  /** A character a slug may hold: a lower-case letter, a digit or `_`. */
  predicate IsSlugChar(c: char) { 'a' <= c <= 'z' || '0' <= c <= '9' || c == '_' }

  function LowerChar(c: char): (d: char)
    ensures IsAlnum(c) <==> IsAlnum(d)
    ensures IsWordChar(c) ==> IsSlugChar(d)
    ensures c == '_' <==> d == '_'
    ensures !IsUpper(c) ==> d == c
  {
    if IsUpper(c) then (c as int - 'A' as int + 'a' as int) as char else c
  }

  /** `str.lower`, restricted to ASCII. */
  function Lower(s: string): (r: string)
    ensures |r| == |s|
    ensures forall i :: 0 <= i < |s| ==> r[i] == LowerChar(s[i])
  {
    if s == [] then [] else [LowerChar(s[0])] + Lower(s[1..])
  }

  /** The letters and digits of `s`, in order. */
  function Alnums(s: string): (r: string)
    ensures forall i :: 0 <= i < |r| ==> IsAlnum(r[i])
  {
    if s == [] then []
    else if IsAlnum(s[0]) then [s[0]] + Alnums(s[1..])
    else Alnums(s[1..])
  }

  /** `s` with its leading characters of class `skip` removed. */
  function DropWhileNonWord(s: string): (r: string)
    ensures |r| <= |s| && r == s[|s| - |r|..]
    ensures forall i :: 0 <= i < |s| - |r| ==> !IsWordChar(s[i])
    ensures r != [] ==> IsWordChar(r[0])
  {
    if s != [] && !IsWordChar(s[0]) then
      var r := DropWhileNonWord(s[1..]);
      assert s[1..][|s| - 1 - |r|..] == s[|s| - |r|..];
      assert forall i :: 1 <= i < |s| - |r| ==> s[i] == s[1..][i - 1];
      r
    else s
  }

  function DropWhileUnderscore(s: string): (r: string)
    ensures |r| <= |s| && r == s[|s| - |r|..]
    ensures forall i :: 0 <= i < |s| - |r| ==> s[i] == '_'
    ensures r != [] ==> r[0] != '_'
  {
    if s != [] && s[0] == '_' then
      var r := DropWhileUnderscore(s[1..]);
      assert s[1..][|s| - 1 - |r|..] == s[|s| - |r|..];
      assert forall i :: 1 <= i < |s| - |r| ==> s[i] == s[1..][i - 1];
      r
    else s
  }

  /** `re.sub(r"[^\w]+", "_", s)`: every maximal run of non-word characters
      becomes one `_`. */
  function ReplaceNonWordRuns(s: string): (r: string)
    ensures forall i :: 0 <= i < |r| ==> IsWordChar(r[i])
    ensures r == [] <==> s == []
    ensures r != [] ==> (r[0] == '_' <==> s[0] == '_' || !IsWordChar(s[0]))
    decreases |s|
  {
    if s == [] then []
    else if IsWordChar(s[0]) then [s[0]] + ReplaceNonWordRuns(s[1..])
    else "_" + ReplaceNonWordRuns(DropWhileNonWord(s[1..]))
  }

  /** `re.sub(r"_+", "_", s)`: every run of underscores becomes one. */
  function CollapseUnderscores(s: string): (r: string)
    ensures r == [] <==> s == []
    ensures r != [] ==> (r[0] == '_' <==> s[0] == '_')
    ensures (forall i :: 0 <= i < |s| ==> IsWordChar(s[i])) ==> forall i :: 0 <= i < |r| ==> IsWordChar(r[i])
    ensures NoDoubleUnderscore(r)
    decreases |s|
  {
    if s == [] then []
    else if s[0] == '_' then
      var d := DropWhileUnderscore(s[1..]);
      var rest := CollapseUnderscores(d);
      SuffixOfWords(s, d);
      ConsShape('_', rest);
      "_" + rest
    else
      var rest := CollapseUnderscores(s[1..]);
      SuffixOfWords(s, s[1..]);
      ConsShape(s[0], rest);
      [s[0]] + rest
  }

  lemma SuffixOfWords(s: string, d: string)
    requires |d| <= |s| && d == s[|s| - |d|..]
    ensures (forall i :: 0 <= i < |s| ==> IsWordChar(s[i])) ==> forall i :: 0 <= i < |d| ==> IsWordChar(d[i])
  {
    forall i | 0 <= i < |d| ensures d[i] == s[|s| - |d| + i] {
    }
  }

  /** A character put before a string without doubled underscores leaves
      none when it is not `_` or the string does not start with one; word
      characters stay word characters. */
  lemma ConsShape(c: char, rest: string)
    requires NoDoubleUnderscore(rest)
    requires c != '_' || rest == [] || rest[0] != '_'
    ensures NoDoubleUnderscore([c] + rest)
    ensures IsWordChar(c) && (forall i :: 0 <= i < |rest| ==> IsWordChar(rest[i])) ==>
      forall i :: 0 <= i < |[c] + rest| ==> IsWordChar(([c] + rest)[i])
  {
    var r := [c] + rest;
    forall i, j | 0 <= i < |r| && 0 <= j < |r| && j == i + 1 ensures r[i] != '_' || r[j] != '_' {
      if i > 0 {
        assert r[i] == rest[i - 1] && r[j] == rest[j - 1];
      }
    }
  }

  /** `s.rstrip("_")`. */
  function DropTrailingUnderscores(s: string): (r: string)
    ensures |r| <= |s| && r == s[..|r|]
    ensures forall i :: |r| <= i < |s| ==> s[i] == '_'
    ensures r != [] ==> r[|r| - 1] != '_'
  {
    if s != [] && s[|s| - 1] == '_' then DropTrailingUnderscores(s[..|s| - 1]) else s
  }

  /** `s.strip("_")`: the slice of `s` left when the underscores at both
      ends are cut off. */
  function StripUnderscores(s: string): (r: string)
    ensures r != [] ==> r[0] != '_' && r[|r| - 1] != '_'
    ensures LeadingUnderscores(s) + |r| <= |s|
    ensures forall i :: 0 <= i < |r| ==> r[i] == s[LeadingUnderscores(s) + i]
    ensures forall i :: LeadingUnderscores(s) + |r| <= i < |s| ==> s[i] == '_'
  {
    var d := DropWhileUnderscore(s);
    var r := DropTrailingUnderscores(d);
    StripEnds(d, r);
    LeadingUnderscoresDropped(s);
    StripIsSlice(s, d, r);
    StripTailUnderscores(s, d, r);
    r
  }

  /** The number of underscores `s` starts with. */
  function LeadingUnderscores(s: string): (n: nat)
    ensures n <= |s| && (n < |s| ==> s[n] != '_')
    ensures forall i :: 0 <= i < n ==> s[i] == '_'
  {
    if s != [] && s[0] == '_' then
      var n := LeadingUnderscores(s[1..]);
      assert forall i :: 1 <= i <= n ==> s[i] == s[1..][i - 1];
      1 + n
    else 0
  }

  lemma LeadingUnderscoresDropped(s: string)
    ensures LeadingUnderscores(s) == |s| - |DropWhileUnderscore(s)|
  {
  }

  /** What is cut off the back of `d` to give `r` is, in `s`, all underscores. */
  lemma StripTailUnderscores(s: string, d: string, r: string)
    requires |d| <= |s| && d == s[|s| - |d|..]
    requires |r| <= |d| && forall i :: |r| <= i < |d| ==> d[i] == '_'
    ensures forall i :: |s| - |d| + |r| <= i < |s| ==> s[i] == '_'
  {
    forall i | |s| - |d| + |r| <= i < |s| ensures s[i] == '_' {
      assert s[i] == d[i - (|s| - |d|)];
    }
  }

  /** `slugify(name)`: lower-case word characters only, no two underscores
      in a row and none at either end. */
  function Slugify(name: string): (slug: string)
    ensures IsSlug(slug)
  {
    var c := CollapseUnderscores(ReplaceNonWordRuns(name));
    StripShape(c);
    LowerShape(StripUnderscores(c));
    Lower(StripUnderscores(c))
  }

  predicate NoDoubleUnderscore(s: string)
  {
    forall i, j :: 0 <= i < |s| && 0 <= j < |s| && j == i + 1 ==> s[i] != '_' || s[j] != '_'
  }

  /** What every slug looks like: lower-case word characters only, no two
      underscores in a row, no underscore at either end. */
  predicate IsSlug(s: string)
  {
    && (forall i :: 0 <= i < |s| ==> IsSlugChar(s[i]))
    && NoDoubleUnderscore(s)
    && (s != [] ==> s[0] != '_' && s[|s| - 1] != '_')
  }

  /** `s` with every `_` deleted. */
  function WithoutUnderscores(s: string): (r: string)
    ensures forall i :: 0 <= i < |r| ==> r[i] != '_'
  {
    if s == [] then []
    else if s[0] == '_' then WithoutUnderscores(s[1..])
    else [s[0]] + WithoutUnderscores(s[1..])
  }

  // ----- letters and digits survive every step, in order -----

  lemma {:induction false} AlnumsConcat(a: string, b: string)
    ensures Alnums(a + b) == Alnums(a) + Alnums(b)
    decreases |a|
  {
    if a == [] {
      assert a + b == b;
    } else {
      assert (a + b)[0] == a[0];
      assert (a + b)[1..] == a[1..] + b;
      AlnumsConcat(a[1..], b);
    }
  }

  lemma {:induction false} AlnumsOfNonAlnums(s: string)
    requires forall i :: 0 <= i < |s| ==> !IsAlnum(s[i])
    ensures Alnums(s) == []
    decreases |s|
  {
    if s != [] {
      AlnumsOfNonAlnums(s[1..]);
    }
  }

  /** Dropping a prefix that holds no letter or digit keeps the letters and digits. */
  lemma AlnumsAfterDrop(s: string, r: string)
    requires |r| <= |s| && r == s[|s| - |r|..]
    requires forall i :: 0 <= i < |s| - |r| ==> !IsAlnum(s[i])
    ensures Alnums(r) == Alnums(s)
  {
    var k := |s| - |r|;
    assert s == s[..k] + r;
    AlnumsConcat(s[..k], r);
    AlnumsOfNonAlnums(s[..k]);
  }

  lemma {:induction false} ReplaceKeepsAlnums(s: string)
    ensures Alnums(ReplaceNonWordRuns(s)) == Alnums(s)
    decreases |s|
  {
    if s == [] {
    } else if IsWordChar(s[0]) {
      ReplaceKeepsAlnums(s[1..]);
      assert ReplaceNonWordRuns(s)[1..] == ReplaceNonWordRuns(s[1..]);
    } else {
      var rest := DropWhileNonWord(s[1..]);
      ReplaceKeepsAlnums(rest);
      AlnumsAfterDrop(s[1..], rest);
      assert ReplaceNonWordRuns(s)[1..] == ReplaceNonWordRuns(rest);
    }
  }

  lemma {:induction false} CollapseKeepsAlnums(s: string)
    ensures Alnums(CollapseUnderscores(s)) == Alnums(s)
    decreases |s|
  {
    if s == [] {
    } else if s[0] == '_' {
      var rest := DropWhileUnderscore(s[1..]);
      CollapseKeepsAlnums(rest);
      AlnumsAfterDrop(s[1..], rest);
      assert CollapseUnderscores(s)[1..] == CollapseUnderscores(rest);
    } else {
      CollapseKeepsAlnums(s[1..]);
      assert CollapseUnderscores(s)[1..] == CollapseUnderscores(s[1..]);
    }
  }

  /** Dropping a suffix that holds no letter or digit keeps the letters and digits. */
  lemma AlnumsBeforeDrop(s: string, r: string)
    requires |r| <= |s| && r == s[..|r|]
    requires forall i :: |r| <= i < |s| ==> !IsAlnum(s[i])
    ensures Alnums(r) == Alnums(s)
  {
    var tail := s[|r|..];
    assert s == r + tail;
    AlnumsConcat(r, tail);
    AlnumsOfNonAlnums(tail);
  }

  lemma StripKeepsAlnums(s: string)
    ensures Alnums(StripUnderscores(s)) == Alnums(s)
  {
    var d := DropWhileUnderscore(s);
    AlnumsAfterDrop(s, d);
    AlnumsBeforeDrop(d, DropTrailingUnderscores(d));
  }

  lemma {:induction false} LowerKeepsAlnums(s: string)
    ensures Alnums(Lower(s)) == Lower(Alnums(s))
    decreases |s|
  {
    if s != [] {
      LowerKeepsAlnums(s[1..]);
      assert Lower(s)[1..] == Lower(s[1..]);
    }
  }

  lemma {:induction false} WithoutUnderscoresOfWord(s: string)
    requires forall i :: 0 <= i < |s| ==> IsWordChar(s[i])
    ensures WithoutUnderscores(s) == Alnums(s)
    decreases |s|
  {
    if s != [] {
      WithoutUnderscoresOfWord(s[1..]);
    }
  }

  // ----- the shape of a slug -----

  /** A slice of a string of word characters without doubled underscores
      is one too. */
  lemma SliceShape(s: string, k: int, m: int)
    requires 0 <= k <= m <= |s|
    requires forall i :: 0 <= i < |s| ==> IsWordChar(s[i])
    requires NoDoubleUnderscore(s)
    ensures forall i :: 0 <= i < m - k ==> IsWordChar(s[k..m][i])
    ensures NoDoubleUnderscore(s[k..m])
  {
    var t := s[k..m];
    forall i, j | 0 <= i < |t| && 0 <= j < |t| && j == i + 1 ensures t[i] != '_' || t[j] != '_' {
      assert t[i] == s[k + i] && t[j] == s[k + j];
    }
  }

  lemma StripShape(s: string)
    requires forall i :: 0 <= i < |s| ==> IsWordChar(s[i])
    requires NoDoubleUnderscore(s)
    ensures var r := StripUnderscores(s);
      && (forall i :: 0 <= i < |r| ==> IsWordChar(r[i]))
      && NoDoubleUnderscore(r)
      && (r != [] ==> r[0] != '_' && r[|r| - 1] != '_')
  {
    var d := DropWhileUnderscore(s);
    TrimmedShape(s, d, DropTrailingUnderscores(d));
  }

  /** A string of word characters without doubled underscores, trimmed at
      the front to `d` and then at the back to `r`, with no underscore left
      at either end. */
  lemma TrimmedShape(s: string, d: string, r: string)
    requires forall i :: 0 <= i < |s| ==> IsWordChar(s[i])
    requires NoDoubleUnderscore(s)
    requires |d| <= |s| && d == s[|s| - |d|..] && (d == [] || d[0] != '_')
    requires |r| <= |d| && r == d[..|r|] && (r != [] ==> r[|r| - 1] != '_')
    ensures forall i :: 0 <= i < |r| ==> IsWordChar(r[i])
    ensures NoDoubleUnderscore(r)
    ensures r != [] ==> r[0] != '_' && r[|r| - 1] != '_'
  {
    StripIsSlice(s, d, r);
    SliceShape(s, |s| - |d|, |s| - |d| + |r|);
    StripEnds(d, r);
  }

  lemma StripEnds(d: string, r: string)
    requires d == [] || d[0] != '_'
    requires |r| <= |d| && r == d[..|r|] && (r != [] ==> r[|r| - 1] != '_')
    ensures r != [] ==> r[0] != '_' && r[|r| - 1] != '_'
  {
    if r != [] {
      assert r[0] == d[0];
    }
  }

  lemma StripIsSlice(s: string, d: string, r: string)
    requires |d| <= |s| && d == s[|s| - |d|..]
    requires |r| <= |d| && r == d[..|r|]
    ensures r == s[|s| - |d|..|s| - |d| + |r|]
    ensures forall i :: 0 <= i < |r| ==> r[i] == s[|s| - |d| + i]
  {
  }


  /** Lower-casing a string of word characters without doubled or outer
      underscores gives a slug. */
  lemma LowerShape(s: string)
    requires forall i :: 0 <= i < |s| ==> IsWordChar(s[i])
    requires NoDoubleUnderscore(s)
    requires s != [] ==> s[0] != '_' && s[|s| - 1] != '_'
    ensures IsSlug(Lower(s))
  {
    LowerSlugChars(s);
    LowerKeepsUnderscores(s);
  }

  lemma LowerSlugChars(s: string)
    requires forall i :: 0 <= i < |s| ==> IsWordChar(s[i])
    ensures forall i :: 0 <= i < |s| ==> IsSlugChar(Lower(s)[i])
  {
    var r := Lower(s);
    forall i | 0 <= i < |s| ensures IsSlugChar(r[i]) {
      assert r[i] == LowerChar(s[i]);
    }
  }

  lemma LowerKeepsUnderscores(s: string)
    requires NoDoubleUnderscore(s)
    requires s != [] ==> s[0] != '_' && s[|s| - 1] != '_'
    ensures NoDoubleUnderscore(Lower(s))
    ensures Lower(s) != [] ==> Lower(s)[0] != '_' && Lower(s)[|s| - 1] != '_'
  {
    var r := Lower(s);
    forall i, j | 0 <= i < |r| && 0 <= j < |r| && j == i + 1 ensures r[i] != '_' || r[j] != '_' {
      assert r[i] == LowerChar(s[i]) && r[j] == LowerChar(s[j]);
    }
    if r != [] {
      assert r[0] == LowerChar(s[0]) && r[|s| - 1] == LowerChar(s[|s| - 1]);
    }
  }

  /** Deleting the underscores of a slug leaves exactly the letters and
      digits of the name, lower-cased, in their original order. */
  lemma SlugifyKeepsAlnums(name: string)
    ensures WithoutUnderscores(Slugify(name)) == Lower(Alnums(name))
  {
    var r := ReplaceNonWordRuns(name);
    var c := CollapseUnderscores(r);
    var t := StripUnderscores(c);
    var slug := Lower(t);
    assert Alnums(slug) == Lower(Alnums(name)) by {
    calc {
      Alnums(slug);
    == { LowerKeepsAlnums(t); }
      Lower(Alnums(t));
    == { StripKeepsAlnums(c); }
      Lower(Alnums(c));
    == { CollapseKeepsAlnums(r); }
      Lower(Alnums(r));
    == { ReplaceKeepsAlnums(name); }
      Lower(Alnums(name));
    }
    }
    assert slug == Slugify(name);
    assert forall i :: 0 <= i < |slug| ==> IsSlugChar(slug[i]);
    WithoutUnderscoresOfWord(slug);
  }

  lemma SlugEmptyIffNoAlnums(s: string)
    requires IsSlug(s)
    ensures s == [] <==> WithoutUnderscores(s) == []
  {
    if s != [] {
      assert WithoutUnderscores(s) == [s[0]] + WithoutUnderscores(s[1..]);
    }
  }

  /** A name without letters or digits has the empty slug. */
  lemma SlugifyWithoutAlnums(name: string)
    requires Alnums(name) == []
    ensures Slugify(name) == []
  {
    SlugifyKeepsAlnums(name);
    SlugEmptyIffNoAlnums(Slugify(name));
  }

  // ----- a slug is its own slug -----

  lemma {:induction false} ReplaceOfWord(s: string)
    requires forall i :: 0 <= i < |s| ==> IsWordChar(s[i])
    ensures ReplaceNonWordRuns(s) == s
    decreases |s|
  {
    if s != [] {
      ReplaceOfWord(s[1..]);
    }
  }

  lemma {:induction false} CollapseOfSingle(s: string)
    requires NoDoubleUnderscore(s)
    ensures CollapseUnderscores(s) == s
    decreases |s|
  {
    if s != [] {
      var t := s[1..];
      NoDoubleInTail(s);
      CollapseOfSingle(t);
      if s[0] == '_' {
        assert t == [] || t[0] != '_' by {
          if t != [] { assert s[0] == '_' && s[1] == t[0]; }
        }
        DropNoUnderscore(t);
        assert CollapseUnderscores(s) == "_" + CollapseUnderscores(t);
      } else {
        assert CollapseUnderscores(s) == [s[0]] + CollapseUnderscores(t);
      }
      assert s == [s[0]] + t;
    }
  }

  lemma NoDoubleInTail(s: string)
    requires s != [] && NoDoubleUnderscore(s)
    ensures NoDoubleUnderscore(s[1..])
  {
    var t := s[1..];
    forall i, j | 0 <= i < |t| && 0 <= j < |t| && j == i + 1 ensures t[i] != '_' || t[j] != '_' {
      assert t[i] == s[i + 1] && t[j] == s[j + 1];
    }
  }

  lemma DropNoUnderscore(t: string)
    requires t == [] || t[0] != '_'
    ensures DropWhileUnderscore(t) == t
  {
  }

  lemma {:induction false} LowerOfLower(s: string)
    requires forall i :: 0 <= i < |s| ==> IsSlugChar(s[i])
    ensures Lower(s) == s
    decreases |s|
  {
    if s != [] {
      LowerOfLower(s[1..]);
    }
  }

  /** Slugifying a slug changes nothing; in particular slugify is idempotent. */
  lemma SlugIsFixedPoint(s: string)
    requires IsSlug(s)
    ensures Slugify(s) == s
  {
    assert forall i :: 0 <= i < |s| ==> IsWordChar(s[i]);
    ReplaceOfWord(s);
    CollapseOfSingle(s);
    assert DropWhileUnderscore(s) == s;
    assert DropTrailingUnderscores(s) == s;
    LowerOfLower(s);
  }

  lemma SlugifyIdempotent(name: string)
    ensures Slugify(Slugify(name)) == Slugify(name)
  {
    SlugIsFixedPoint(Slugify(name));
  }
}
