/** `generateSlug` of the listings route: lower-case the title, drop every
    character that is not a word character, white space or a hyphen, turn
    every run of white space into a single hyphen, and trim. Each step is
    its own function, in the order the source chains them. */
module Slug {
  import opened JsString

  predicate IsUpper(c: char)
  {
    'A' <= c <= 'Z'
  }

  /** The characters of the regular-expression class `\w`. */
  predicate IsWordChar(c: char)
  {
    ('a' <= c <= 'z') || IsUpper(c) || ('0' <= c <= '9') || c == '_'
  }

  /** The characters `[\w\s-]` that the first `replace` keeps. */
  predicate Allowed(c: char)
  {
    IsWordChar(c) || IsSpace(c) || c == '-'
  }

  /** The characters a slug can consist of. */
  predicate IsSlugChar(c: char)
  {
    ('a' <= c <= 'z') || ('0' <= c <= '9') || c == '_' || c == '-'
  }

  predicate IsSlug(s: string)
  {
    forall i :: 0 <= i < |s| ==> IsSlugChar(s[i])
  }

  function LowerChar(c: char): char
  {
    if IsUpper(c) then (c as int + 32) as char else c
  }

  /** `toLowerCase()`, on ASCII letters. */
  function LowerCase(s: string): (r: string)
    ensures |r| == |s|
    ensures forall i :: 0 <= i < |r| ==> !IsUpper(r[i])
    ensures forall i :: 0 <= i < |s| && IsUpper(s[i]) ==> r[i] as int == s[i] as int + 32
    ensures forall i :: 0 <= i < |s| && !IsUpper(s[i]) ==> r[i] == s[i]
  {
    seq(|s|, i requires 0 <= i < |s| => LowerChar(s[i]))
  }

  /** `replace(/[^\w\s-]/g, "")`. */
  function RemoveDisallowed(s: string): string
  {
    if s == [] then []
    else (if Allowed(s[0]) then [s[0]] else []) + RemoveDisallowed(s[1..])
  }

  /** What remains is allowed and was in the text, and an allowed first or
      last character stays first or last. */
  lemma {:induction false} RemoveDisallowedFacts(s: string)
    ensures |RemoveDisallowed(s)| <= |s|
    ensures forall i :: 0 <= i < |RemoveDisallowed(s)| ==>
      Allowed(RemoveDisallowed(s)[i]) && RemoveDisallowed(s)[i] in s
    ensures |s| > 0 && Allowed(s[0]) ==>
      |RemoveDisallowed(s)| > 0 && RemoveDisallowed(s)[0] == s[0]
    ensures |s| > 0 && Allowed(s[|s| - 1]) ==>
      |RemoveDisallowed(s)| > 0 && RemoveDisallowed(s)[|RemoveDisallowed(s)| - 1] == s[|s| - 1]
  {
    if s != [] {
      var t := s[1..];
      RemoveDisallowedFacts(t);
      var r := RemoveDisallowed(s);
      var q := RemoveDisallowed(t);
      assert r == (if Allowed(s[0]) then [s[0]] else []) + q;
      forall i | 0 <= i < |r| ensures Allowed(r[i]) && r[i] in s {
        if i > 0 || !Allowed(s[0]) {
          var k := if Allowed(s[0]) then i - 1 else i;
          assert r[i] == q[k];
          var j :| 0 <= j < |t| && t[j] == q[k];
          assert s[j + 1] == t[j];
        }
      }
      if |t| > 0 {
        assert t[|t| - 1] == s[|s| - 1];
      }
    }
  }

  /** The removal looks at one character at a time: a single character
      stays exactly when it is allowed. */
  lemma RemoveOne(c: char)
    ensures RemoveDisallowed([c]) == if Allowed(c) then [c] else []
  {
    assert [c][1..] == [];
  }

  /** The removal of a concatenation is the concatenation of the removals.
      With `RemoveOne` this fixes the result completely: the allowed
      characters of the text (hyphens among them), in their order, and
      nothing else. */
  lemma {:induction false} RemoveAppend(a: string, b: string)
    ensures RemoveDisallowed(a + b) == RemoveDisallowed(a) + RemoveDisallowed(b)
    decreases |a|
  {
    if a == [] {
      assert a + b == b;
    } else {
      assert (a + b)[0] == a[0];
      assert (a + b)[1..] == a[1..] + b;
      RemoveAppend(a[1..], b);
    }
  }

  /** The example of a removed character between a letter and a hyphen:
      the hyphen is kept, in place. */
  lemma RemoveKeepsHyphen()
    ensures RemoveDisallowed("a-#b") == "a-b"
  {
  }

  /** A text of allowed characters is left as it is. */
  lemma {:induction false} RemoveAllowed(s: string)
    requires forall i :: 0 <= i < |s| ==> Allowed(s[i])
    ensures RemoveDisallowed(s) == s
  {
    if s != [] {
      RemoveAllowed(s[1..]);
    }
  }

  /** `replace(/\s+/g, "-")`, read left to right: the first white-space
      character of every maximal run becomes a hyphen, the rest of the run
      is dropped, every other character stays. `inRun` says whether the
      character before `s` was white space. */
  function Squeeze(s: string, inRun: bool): string
  {
    if s == [] then []
    else if IsSpace(s[0]) then (if inRun then [] else "-") + Squeeze(s[1..], true)
    else [s[0]] + Squeeze(s[1..], false)
  }

  function CollapseSpaces(s: string): string
  {
    Squeeze(s, false)
  }

  /** Whether the end of `s` is inside a white-space run, when the
      character before `s` was (`inRun`) or was not. */
  function EndsInRun(s: string, inRun: bool): bool
  {
    if s == [] then inRun else IsSpace(s[|s| - 1])
  }

  /** A text without white space is left as it is. */
  lemma {:induction false} SqueezeNoSpace(s: string, inRun: bool)
    requires NoSpace(s)
    ensures Squeeze(s, inRun) == s
  {
    if s != [] {
      SqueezeNoSpace(s[1..], false);
    }
  }

  /** Collapsing commutes with splitting the text, once the second part is
      told whether the first part ended inside a run. */
  lemma {:induction false} SqueezeAppend(a: string, b: string, inRun: bool)
    ensures Squeeze(a + b, inRun) == Squeeze(a, inRun) + Squeeze(b, EndsInRun(a, inRun))
  {
    if a == [] {
      assert a + b == b;
    } else {
      var c := a[0];
      assert (a + b)[0] == c;
      assert (a + b)[1..] == a[1..] + b;
      SqueezeAppend(a[1..], b, IsSpace(c));
      var head := if IsSpace(c) then (if inRun then [] else "-") else [c];
      assert Squeeze(a + b, inRun) == head + Squeeze(a[1..] + b, IsSpace(c));
      assert Squeeze(a, inRun) == head + Squeeze(a[1..], IsSpace(c));
      assert EndsInRun(a[1..], IsSpace(c)) == EndsInRun(a, inRun);
    }
  }

  /** A run of white space collapses to one hyphen, or to nothing when it
      continues a run. */
  lemma {:induction false} SqueezeRun(w: string, inRun: bool)
    requires forall i :: 0 <= i < |w| ==> IsSpace(w[i])
    ensures Squeeze(w, inRun) == if w == [] || inRun then [] else "-"
  {
    if w != [] {
      SqueezeRun(w[1..], true);
    }
  }

  /** The collapse holds no white space and adds nothing but hyphens; it
      starts and ends with a hyphen exactly where the text starts or ends
      with white space, and otherwise with the same character. */
  lemma {:induction false} CollapseSpacesFacts(s: string, inRun: bool)
    ensures |Squeeze(s, inRun)| <= |s|
    ensures NoSpace(Squeeze(s, inRun))
    ensures forall i :: 0 <= i < |Squeeze(s, inRun)| ==>
      Squeeze(s, inRun)[i] == '-' || Squeeze(s, inRun)[i] in s
    ensures |s| > 0 && !inRun ==>
      |Squeeze(s, inRun)| > 0 && Squeeze(s, inRun)[0] == (if IsSpace(s[0]) then '-' else s[0])
    ensures |s| > 0 && !inRun ==>
      |Squeeze(s, inRun)| > 0 &&
      Squeeze(s, inRun)[|Squeeze(s, inRun)| - 1] == (if IsSpace(s[|s| - 1]) then '-' else s[|s| - 1])
    decreases |s|
  {
    if s != [] {
      var t := s[1..];
      CollapseSpacesFacts(t, IsSpace(s[0]));
      var r := Squeeze(s, inRun);
      var q := Squeeze(t, IsSpace(s[0]));
      assert r == (if IsSpace(s[0]) then (if inRun then [] else "-") else [s[0]]) + q;
      forall i | 0 <= i < |r| && r[i] != '-' ensures r[i] in s {
        if i > 0 || IsSpace(s[0]) {
          var k := if IsSpace(s[0]) && !inRun then i - 1 else if IsSpace(s[0]) then i else i - 1;
          assert r[i] == q[k];
          var j :| 0 <= j < |t| && t[j] == q[k];
          assert s[j + 1] == t[j];
        }
      }
      if !inRun {
        CollapseLast(s);
      }
    }
  }

  /** The last character of the collapse of a non-empty text. */
  lemma {:induction false} CollapseLast(s: string)
    requires |s| > 0
    ensures |Squeeze(s, false)| > 0
    ensures Squeeze(s, false)[|Squeeze(s, false)| - 1] == (if IsSpace(s[|s| - 1]) then '-' else s[|s| - 1])
    decreases |s|
  {
    var p, c := s[..|s| - 1], s[|s| - 1];
    assert s == p + [c];
    SqueezeAppend(p, [c], false);
    assert Squeeze([c], EndsInRun(p, false)) ==
      (if IsSpace(c) then (if EndsInRun(p, false) then [] else "-") else [c]);
    if IsSpace(c) && EndsInRun(p, false) {
      CollapseLast(p);
    }
  }

  function GenerateSlug(title: string): string
  {
    Trim(CollapseSpaces(RemoveDisallowed(LowerCase(title))))
  }

  /** The steps before `trim` already yield a slug, so `trim` changes
      nothing: a slug holds only lower-case ASCII letters, digits, `_` and
      `-`, and in particular no white space. */
  lemma SlugAlphabet(title: string)
    ensures GenerateSlug(title) == CollapseSpaces(RemoveDisallowed(LowerCase(title)))
    ensures IsSlug(GenerateSlug(title))
    ensures NoSpace(GenerateSlug(title))
  {
    var l := LowerCase(title);
    var k := RemoveDisallowed(l);
    var c := CollapseSpaces(k);
    RemoveDisallowedFacts(l);
    CollapseSpacesFacts(k, false);
    forall i | 0 <= i < |k| ensures !IsUpper(k[i]) {
      var j :| 0 <= j < |l| && l[j] == k[i];
    }
    forall i | 0 <= i < |c| ensures IsSlugChar(c[i]) {
      if c[i] != '-' {
        var j :| 0 <= j < |k| && k[j] == c[i];
        assert Allowed(k[j]) && !IsUpper(k[j]) && !IsSpace(k[j]);
      }
    }
  }

  /** The slug is never longer than the title. */
  lemma SlugLength(title: string)
    ensures |GenerateSlug(title)| <= |title|
  {
    SlugAlphabet(title);
    RemoveDisallowedFacts(LowerCase(title));
    CollapseSpacesFacts(RemoveDisallowed(LowerCase(title)), false);
  }

  /** Generating a slug from a slug gives it back. */
  lemma SlugIdempotent(title: string)
    ensures GenerateSlug(GenerateSlug(title)) == GenerateSlug(title)
  {
    var s := GenerateSlug(title);
    SlugAlphabet(title);
    assert LowerCase(s) == s;
    RemoveAllowed(s);
    SqueezeNoSpace(s, false);
  }

  /** White space at the start (end) of the title becomes a hyphen at the
      start (end) of the slug, since nothing after the collapse trims it. */
  lemma SlugKeepsOuterSpace(title: string)
    requires |title| > 0
    ensures IsSpace(title[0]) ==> |GenerateSlug(title)| > 0 && GenerateSlug(title)[0] == '-'
    ensures IsSpace(title[|title| - 1]) ==>
      |GenerateSlug(title)| > 0 && GenerateSlug(title)[|GenerateSlug(title)| - 1] == '-'
  {
    SlugAlphabet(title);
    var l := LowerCase(title);
    assert l[0] == title[0] || !IsSpace(title[0]);
    assert l[|l| - 1] == title[|title| - 1] || !IsSpace(title[|title| - 1]);
    RemoveDisallowedFacts(l);
    CollapseSpacesFacts(RemoveDisallowed(l), false);
  }

  /** A run `w` of white space between a part `u` that does not end in
      white space and a part `v` that does not start with white space is
      replaced by exactly one hyphen; together with SqueezeNoSpace this says every hyphen already in the
      text is kept and every maximal run becomes one hyphen. */
  lemma CollapseRun(u: string, w: string, v: string)
    requires u == [] || !IsSpace(u[|u| - 1])
    requires |w| > 0 && forall i :: 0 <= i < |w| ==> IsSpace(w[i])
    requires v == [] || !IsSpace(v[0])
    ensures CollapseSpaces(u + w + v) == CollapseSpaces(u) + "-" + CollapseSpaces(v)
  {
    SqueezeAppend(u + w, v, false);
    SqueezeAppend(u, w, false);
    SqueezeRun(w, false);
    assert EndsInRun(u + w, false) && !EndsInRun(u, false);
    if v != [] {
      assert Squeeze(v, true) == [v[0]] + Squeeze(v[1..], false) == Squeeze(v, false);
    }
  }

  lemma PunctuationLower()
    ensures LowerCase("Hi #1!") == "hi #1!"
  {
  }

  lemma PunctuationRemove()
    ensures RemoveDisallowed("hi #1!") == "hi 1"
  {
  }

  lemma PunctuationCollapse()
    ensures CollapseSpaces("hi 1") == "hi-1"
  {
  }

  /** Punctuation disappears and a single space becomes a hyphen. */
  lemma PunctuationExample()
    ensures GenerateSlug("Hi #1!") == "hi-1"
  {
    PunctuationLower();
    PunctuationRemove();
    PunctuationCollapse();
    CollapseSpacesFacts("hi 1", false);
  }

  lemma OuterSpaceLower()
    ensures LowerCase(" Hi ") == " hi "
  {
  }

  lemma OuterSpaceRemove()
    ensures RemoveDisallowed(" hi ") == " hi "
  {
  }

  lemma OuterSpaceCollapse()
    ensures CollapseSpaces(" hi ") == "-hi-"
  {
  }

  /** White space around the title is not trimmed away: it has become a
      hyphen before `trim` runs. */
  lemma OuterSpaceExample()
    ensures GenerateSlug(" Hi ") == "-hi-"
  {
    OuterSpaceLower();
    OuterSpaceRemove();
    OuterSpaceCollapse();
    CollapseSpacesFacts(" hi ", false);
  }

  /** Non-ASCII white space is kept by the removal and becomes a hyphen,
      as any other white space does. */
  lemma NonAsciiSpaceExample()
    ensures LowerCase("a\U{00A0}b") == "a\U{00A0}b"
    ensures RemoveDisallowed("a\U{00A0}b") == "a\U{00A0}b"
    ensures CollapseSpaces("a\U{00A0}b") == "a-b"
  {
  }

  /** A one-letter title. */
  lemma SingleLetterExample()
    ensures GenerateSlug("A") == "a"
  {
    assert LowerCase("A") == "a";
    assert RemoveDisallowed("a") == "a";
    assert CollapseSpaces("a") == "a";
    CollapseSpacesFacts("a", false);
  }
}
