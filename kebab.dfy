/**
 * `getKebabName`: a string becomes a slug by turning every character outside the
 * regular-expression class `[A-z0-9]` into `-`, splitting on `-`, dropping the empty
 * pieces and joining the rest with `-`.
 */
module Kebab {
  import JsString

  /**
   * Membership in `[A-z0-9]`. The range `A-z` runs from U+0041 to U+007A, so besides the
   * letters it holds the six characters `[`, `\`, `]`, `^`, `_` and the backquote.
   */
  predicate Kept(c: char) {
    ('A' <= c <= 'z') || ('0' <= c <= '9')
  }

  /** A word of a slug: characters of the class only. */
  predicate AllKept(w: string) {
    forall i :: 0 <= i < |w| ==> Kept(w[i])
  }

  /** `replace(/[^A-z0-9]/g, '-')`: each character outside the class becomes one hyphen. */
  function Hyphenate(s: string): (r: string)
    ensures |r| == |s|
    ensures forall i :: 0 <= i < |s| ==> r[i] == (if Kept(s[i]) then s[i] else '-')
  {
    if |s| == 0 then ""
    else [if Kept(s[0]) then s[0] else '-'] + Hyphenate(s[1..])
  }

  /** `filter((val) => val)`: the non-empty pieces, in order. */
  function NonEmpty(parts: seq<string>): (r: seq<string>)
    ensures forall i :: 0 <= i < |r| ==> r[i] != ""
    ensures forall i :: 0 <= i < |r| ==> r[i] in parts
    ensures forall p :: p in parts && p != "" ==> p in r
  {
    if |parts| == 0 then []
    else if parts[0] == "" then NonEmpty(parts[1..])
    else [parts[0]] + NonEmpty(parts[1..])
  }

  /** The pieces that survive the filter: the maximal runs of characters of the class. */
  function Words(s: string): seq<string>
  {
    NonEmpty(JsString.Split(Hyphenate(s), '-'))
  }

  /** `getKebabName(link)` (src/utils.js:9-13). */
  function KebabName(s: string): string
  {
    JsString.Join(Words(s), '-')
  }

  /** A slug: no hyphen at either end and never two hyphens in a row. */
  predicate IsSlug(k: string) {
    && (|k| > 0 ==> k[0] != '-' && k[|k| - 1] != '-')
    && (forall i :: 0 <= i < |k| - 1 && k[i] == '-' ==> k[i + 1] != '-')
  }

  /** Every character is a hyphen or a character of the class. */
  predicate SlugAlphabet(k: string) {
    forall i :: 0 <= i < |k| ==> k[i] == '-' || Kept(k[i])
  }

  /** The characters of `s` that lie in the class, in their order. */
  function KeptChars(s: string): (r: string)
    ensures AllKept(r)
    ensures |r| <= |s|
  {
    if |s| == 0 then ""
    else (if Kept(s[0]) then [s[0]] else "") + KeptChars(s[1..])
  }

  /** `s` with every hyphen removed. */
  function RemoveHyphens(s: string): (r: string)
    ensures '-' !in r
    ensures |r| <= |s|
  {
    if |s| == 0 then ""
    else (if s[0] == '-' then "" else [s[0]]) + RemoveHyphens(s[1..])
  }

  /** The slug of two parts, given the slugs of the parts: joined with a hyphen when both are non-empty. */
  function JoinSlugs(x: string, y: string): string
  {
    if x == "" then y else if y == "" then x else x + "-" + y
  }

  // ---------------------------------------------------------------------------
  // Words

  lemma {:induction false} WordsOfHyphenated(t: string)
    requires forall i :: 0 <= i < |t| ==> t[i] == '-' || Kept(t[i])
    ensures forall i :: 0 <= i < |NonEmpty(JsString.Split(t, '-'))| ==>
      AllKept(NonEmpty(JsString.Split(t, '-'))[i])
    decreases |t|
  {
    var parts := JsString.Split(t, '-');
    PiecesKept(t);
    forall i | 0 <= i < |NonEmpty(parts)|
      ensures AllKept(NonEmpty(parts)[i])
    {
      var w := NonEmpty(parts)[i];
      var j :| 0 <= j < |parts| && parts[j] == w;
    }
  }

  /** Each piece of a split of a hyphenated string holds only characters of the class. */
  lemma {:induction false} PiecesKept(t: string)
    requires forall i :: 0 <= i < |t| ==> t[i] == '-' || Kept(t[i])
    ensures forall j :: 0 <= j < |JsString.Split(t, '-')| ==> AllKept(JsString.Split(t, '-')[j])
    decreases |t|
  {
    if |t| > 0 {
      PiecesKept(t[1..]);
      var rest := JsString.Split(t[1..], '-');
      if t[0] != '-' {
        assert t[0] != '-' && Kept(t[0]);
        assert AllKept([t[0]] + rest[0]) by {
          forall i | 0 <= i < |[t[0]] + rest[0]| ensures Kept(([t[0]] + rest[0])[i]) {
            if i > 0 { assert ([t[0]] + rest[0])[i] == rest[0][i - 1]; }
          }
        }
      }
    }
  }

  /** Every word of a string is non-empty and made of characters of the class. */
  lemma WordsAreKept(s: string)
    ensures forall i :: 0 <= i < |Words(s)| ==> Words(s)[i] != "" && AllKept(Words(s)[i])
  {
    WordsOfHyphenated(Hyphenate(s));
  }

  /** The filter works piece by piece: it keeps the surviving pieces of both halves, in order. */
  lemma {:induction false} NonEmptyAppend(ps: seq<string>, qs: seq<string>)
    ensures NonEmpty(ps + qs) == NonEmpty(ps) + NonEmpty(qs)
    decreases |ps|
  {
    if |ps| == 0 {
      assert ps + qs == qs;
    } else {
      assert (ps + qs)[0] == ps[0];
      assert (ps + qs)[1..] == ps[1..] + qs;
      NonEmptyAppend(ps[1..], qs);
    }
  }

  /** A list without empty pieces passes the filter unchanged. */
  lemma {:induction false} NonEmptyOfNonEmpty(ps: seq<string>)
    requires forall i :: 0 <= i < |ps| ==> ps[i] != ""
    ensures NonEmpty(ps) == ps
    decreases |ps|
  {
    if |ps| > 0 {
      NonEmptyOfNonEmpty(ps[1..]);
    }
  }

  lemma {:induction false} HyphenateConcat(x: string, y: string)
    ensures Hyphenate(x + y) == Hyphenate(x) + Hyphenate(y)
    decreases |x|
  {
    if |x| == 0 {
      assert x + y == y;
    } else {
      assert (x + y)[0] == x[0];
      assert (x + y)[1..] == x[1..] + y;
      HyphenateConcat(x[1..], y);
    }
  }

  lemma HyphenateAppend(a: string, c: char, b: string)
    requires !Kept(c)
    ensures Hyphenate(a + [c] + b) == Hyphenate(a) + ['-'] + Hyphenate(b)
  {
    HyphenateConcat(a + [c], b);
    HyphenateConcat(a, [c]);
    assert Hyphenate([c]) == ['-'];
  }

  /** A character outside the class splits the words of a string in two. */
  lemma WordsAppend(a: string, c: char, b: string)
    requires !Kept(c)
    ensures Words(a + [c] + b) == Words(a) + Words(b)
  {
    HyphenateAppend(a, c, b);
    JsString.SplitAppend(Hyphenate(a), Hyphenate(b), '-');
    NonEmptyAppend(JsString.Split(Hyphenate(a), '-'), JsString.Split(Hyphenate(b), '-'));
  }

  /** A string of characters of the class is the only word of itself. */
  lemma WordsOfWord(w: string)
    requires w != "" && AllKept(w)
    ensures Words(w) == [w]
  {
    assert Hyphenate(w) == w;
    assert '-' !in w by {
      forall i | 0 <= i < |w| ensures w[i] != '-' { assert Kept(w[i]); }
    }
    JsString.SplitNoSeparator(w, '-');
    assert [w][1..] == [];
    assert NonEmpty([w]) == [w] + NonEmpty([]);
  }

  /** The empty string has no words and an empty slug. */
  lemma KebabOfEmpty()
    ensures Words("") == [] && KebabName("") == ""
  {
    assert JsString.Split("", '-') == [""];
    assert [""][1..] == [];
  }

  // ---------------------------------------------------------------------------
  // Joining words

  lemma {:induction false} JoinWordsEmpty(ws: seq<string>)
    requires forall i :: 0 <= i < |ws| ==> ws[i] != ""
    ensures JsString.Join(ws, '-') == "" <==> ws == []
  {
    if |ws| >= 2 {
      assert |JsString.Join(ws, '-')| >= |ws[0]|;
    }
  }

  /** Two non-empty slugs joined by one hyphen form a slug. */
  lemma SlugHyphenSlug(x: string, y: string)
    requires x != "" && y != "" && IsSlug(x) && IsSlug(y)
    ensures IsSlug(x + "-" + y)
  {
    var k := x + "-" + y;
    forall i | 0 <= i < |k| - 1 && k[i] == '-' ensures k[i + 1] != '-' {
      if i < |x| - 1 {
        assert k[i] == x[i] && k[i + 1] == x[i + 1];
      } else if i == |x| {
        assert k[i + 1] == y[0];
      } else if i > |x| {
        assert k[i] == y[i - |x| - 1] && k[i + 1] == y[i - |x|];
      }
    }
  }

  lemma WordIsSlug(w: string)
    requires w != "" && AllKept(w)
    ensures IsSlug(w) && SlugAlphabet(w)
  {
    forall i | 0 <= i < |w| ensures w[i] != '-' {
      assert Kept(w[i]);
    }
  }

  /** Words joined by hyphens form a slug over the class and the hyphen. */
  lemma {:induction false} JoinWordsIsSlug(ws: seq<string>)
    requires forall i :: 0 <= i < |ws| ==> ws[i] != "" && AllKept(ws[i])
    ensures IsSlug(JsString.Join(ws, '-')) && SlugAlphabet(JsString.Join(ws, '-'))
    decreases |ws|
  {
    if |ws| == 1 {
      WordIsSlug(ws[0]);
    } else if |ws| >= 2 {
      var tail := JsString.Join(ws[1..], '-');
      JoinWordsIsSlug(ws[1..]);
      JoinWordsEmpty(ws[1..]);
      WordIsSlug(ws[0]);
      SlugHyphenSlug(ws[0], tail);
      var k := ws[0] + "-" + tail;
      assert JsString.Join(ws, '-') == k;
      forall i | 0 <= i < |k| ensures k[i] == '-' || Kept(k[i]) {
        if i > |ws[0]| { assert k[i] == tail[i - |ws[0]| - 1]; }
      }
    }
  }

  lemma {:induction false} RemoveHyphensAppend(x: string, y: string)
    ensures RemoveHyphens(x + y) == RemoveHyphens(x) + RemoveHyphens(y)
    decreases |x|
  {
    if |x| == 0 {
      assert x + y == y;
    } else {
      assert (x + y)[0] == x[0];
      assert (x + y)[1..] == x[1..] + y;
      RemoveHyphensAppend(x[1..], y);
    }
  }

  lemma {:induction false} KeptCharsAppend(x: string, y: string)
    ensures KeptChars(x + y) == KeptChars(x) + KeptChars(y)
    decreases |x|
  {
    if |x| == 0 {
      assert x + y == y;
    } else {
      assert (x + y)[0] == x[0];
      assert (x + y)[1..] == x[1..] + y;
      KeptCharsAppend(x[1..], y);
    }
  }

  lemma {:induction false} KeptCharsOfWord(w: string)
    requires AllKept(w)
    ensures KeptChars(w) == w && RemoveHyphens(w) == w
    decreases |w|
  {
    if |w| > 0 {
      assert Kept(w[0]);
      KeptCharsOfWord(w[1..]);
      assert w == [w[0]] + w[1..];
    }
  }

  // ---------------------------------------------------------------------------
  // The properties of getKebabName

  /** The slug never begins or ends with a hyphen and never holds two hyphens in a row. */
  lemma KebabIsSlug(s: string)
    ensures IsSlug(KebabName(s))
  {
    WordsAreKept(s);
    JoinWordsIsSlug(Words(s));
  }

  /** Every character of the slug is a hyphen or lies in `[A-z0-9]`. */
  lemma KebabAlphabet(s: string)
    ensures SlugAlphabet(KebabName(s))
  {
    WordsAreKept(s);
    JoinWordsIsSlug(Words(s));
  }

  /** The slug of a string splits at a character outside the class into the slugs of the two sides. */
  lemma KebabAppend(a: string, c: char, b: string)
    requires !Kept(c)
    ensures KebabName(a + [c] + b) == JoinSlugs(KebabName(a), KebabName(b))
  {
    WordsAppend(a, c, b);
    WordsAreKept(a);
    WordsAreKept(b);
    JoinWordsEmpty(Words(a));
    JoinWordsEmpty(Words(b));
    if Words(a) != [] && Words(b) != [] {
      JsString.JoinAppend(Words(a), Words(b), '-');
    } else if Words(a) == [] {
      assert Words(a) + Words(b) == Words(b);
    } else {
      assert Words(a) + Words(b) == Words(a);
    }
  }

  /** Characters outside the class at the end of a string do not change its slug. */
  lemma {:induction false} KebabIgnoresTrailing(s: string, t: string)
    requires forall i :: 0 <= i < |t| ==> !Kept(t[i])
    ensures KebabName(s + t) == KebabName(s)
    decreases |t|
  {
    if |t| > 0 {
      var t' := t[..|t| - 1];
      assert s + t == (s + t') + [t[|t| - 1]] + "";
      KebabAppend(s + t', t[|t| - 1], "");
      assert forall i :: 0 <= i < |t'| ==> t'[i] == t[i];
      KebabOfEmpty();
      KebabIgnoresTrailing(s, t');
    } else {
      assert s + t == s;
    }
  }

  /** Characters outside the class at the start of a string do not change its slug. */
  lemma {:induction false} KebabIgnoresLeading(t: string, s: string)
    requires forall i :: 0 <= i < |t| ==> !Kept(t[i])
    ensures KebabName(t + s) == KebabName(s)
    decreases |t|
  {
    if |t| > 0 {
      assert t + s == "" + [t[0]] + (t[1..] + s);
      KebabAppend("", t[0], t[1..] + s);
      assert forall i :: 0 <= i < |t[1..]| ==> t[1..][i] == t[i + 1];
      KebabOfEmpty();
      KebabIgnoresLeading(t[1..], s);
    } else {
      assert t + s == s;
    }
  }

  /** A word of the class is its own slug. */
  lemma KebabOfWord(w: string)
    requires w != "" && AllKept(w)
    ensures KebabName(w) == w
  {
    WordsOfWord(w);
  }

  /** Removing the hyphens from the slug leaves exactly the characters of `s` in `[A-z0-9]`, in order. */
  lemma KebabPreservesKept(s: string)
    ensures RemoveHyphens(KebabName(s)) == KeptChars(s)
  {
    WordsAreKept(s);
    KeptInWords(s);
    RemoveHyphensOfJoin(Words(s));
  }

  /** The words of `s`, run together, are the characters of `s` in the class. */
  lemma KeptInWords(s: string)
    ensures Concat(Words(s)) == KeptChars(s)
  {
    var t := Hyphenate(s);
    ConcatNonEmpty(JsString.Split(t, '-'));
    ConcatSplit(t);
    RemoveHyphensOfHyphenated(s);
  }

  /** Empty pieces add nothing when pieces are run together. */
  lemma {:induction false} ConcatNonEmpty(ps: seq<string>)
    ensures Concat(NonEmpty(ps)) == Concat(ps)
    decreases |ps|
  {
    if |ps| > 0 {
      ConcatNonEmpty(ps[1..]);
      if ps[0] == "" {
        assert Concat(ps) == "" + Concat(ps[1..]);
        assert "" + Concat(ps[1..]) == Concat(ps[1..]);
      } else {
        assert NonEmpty(ps) == [ps[0]] + NonEmpty(ps[1..]);
        assert ([ps[0]] + NonEmpty(ps[1..]))[1..] == NonEmpty(ps[1..]);
      }
    }
  }

  /** The pieces of a split at hyphens, run together, are the string without its hyphens. */
  lemma {:induction false} ConcatSplit(t: string)
    ensures Concat(JsString.Split(t, '-')) == RemoveHyphens(t)
    decreases |t|
  {
    if |t| == 0 {
      assert Concat([""]) == "" + Concat([]);
    } else {
      var rest := JsString.Split(t[1..], '-');
      ConcatSplit(t[1..]);
      assert t == [t[0]] + t[1..];
      JsString.SplitCons(t[0], t[1..], '-');
      ConcatCons(rest[0], rest[1..]);
      assert rest == [rest[0]] + rest[1..];
      if t[0] == '-' {
        ConcatCons("", rest);
        JsString.EmptyLeft(Concat(rest));
        JsString.EmptyLeft(RemoveHyphens(t[1..]));
      } else {
        ConcatCons([t[0]] + rest[0], rest[1..]);
        JsString.ConcatAssoc([t[0]], rest[0], Concat(rest[1..]));
      }
    }
  }

  lemma ConcatCons(w: string, ws: seq<string>)
    ensures Concat([w] + ws) == w + Concat(ws)
  {
    assert ([w] + ws)[1..] == ws;
  }

  /** Hyphenating turns exactly the characters outside the class into hyphens. */
  lemma {:induction false} RemoveHyphensOfHyphenated(s: string)
    ensures RemoveHyphens(Hyphenate(s)) == KeptChars(s)
    decreases |s|
  {
    if |s| > 0 {
      RemoveHyphensOfHyphenated(s[1..]);
      var h := Hyphenate(s);
      assert h == [h[0]] + Hyphenate(s[1..]);
      assert h[1..] == Hyphenate(s[1..]);
    }
  }

  /** The pieces of a list run together without separators. */
  function Concat(ws: seq<string>): string
  {
    if |ws| == 0 then "" else ws[0] + Concat(ws[1..])
  }

  lemma {:induction false} RemoveHyphensOfJoin(ws: seq<string>)
    requires forall i :: 0 <= i < |ws| ==> AllKept(ws[i])
    ensures RemoveHyphens(JsString.Join(ws, '-')) == Concat(ws)
    decreases |ws|
  {
    if |ws| == 1 {
      KeptCharsOfWord(ws[0]);
      assert Concat(ws) == ws[0] + Concat([]);
    } else if |ws| >= 2 {
      RemoveHyphensOfJoin(ws[1..]);
      KeptCharsOfWord(ws[0]);
      var tail := JsString.Join(ws[1..], '-');
      RemoveHyphensAppend(ws[0] + "-", tail);
      RemoveHyphensAppend(ws[0], "-");
      assert RemoveHyphens("-") == "";
    }
  }

  /** Slugging a slug changes nothing: `getKebabName(getKebabName(s)) === getKebabName(s)`. */
  lemma KebabIdempotent(s: string)
    ensures KebabName(KebabName(s)) == KebabName(s)
  {
    var k := KebabName(s);
    var ws := Words(s);
    WordsAreKept(s);
    KebabAlphabet(s);
    assert Hyphenate(k) == k;
    if ws == [] {
      assert k == "";
    } else {
      assert forall i :: 0 <= i < |ws| ==> '-' !in ws[i] by {
        forall i, j | 0 <= i < |ws| && 0 <= j < |ws[i]| ensures ws[i][j] != '-' {
          assert AllKept(ws[i]);
          assert Kept(ws[i][j]);
        }
      }
      JsString.SplitJoin(ws, '-');
      NonEmptyOfNonEmpty(ws);
    }
  }

  /** The slug is empty exactly when `s` has no character of the class. */
  lemma KebabEmptyIff(s: string)
    ensures KebabName(s) == "" <==> KeptChars(s) == ""
  {
    KebabPreservesKept(s);
    var k := KebabName(s);
    if k != "" {
      KebabIsSlug(s);
      KebabAlphabet(s);
      assert k == [k[0]] + k[1..];
      RemoveHyphensAppend([k[0]], k[1..]);
      assert Kept(k[0]);
    }
  }
}
