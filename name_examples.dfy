/**
 * Names from the loader's own test suite and the edge cases of the resource-file rule,
 * each derived from the general lemmas about slugs and names.
 */
module NameExamples {
  import opened Wrappers
  import opened Kebab
  import NodePath
  import JsString
  import opened Utils

  /** One more separator and word at the end of a string with a non-empty slug. */
  lemma SlugSnoc(a: string, sep: string, w: string)
    requires KebabName(a) != "" && |sep| == 1 && !Kept(sep[0]) && w != "" && AllKept(w)
    ensures KebabName(a + sep + w) == KebabName(a) + "-" + w
  {
    assert sep == [sep[0]];
    KebabAppend(a, sep[0], w);
    KebabOfWord(w);
  }

  /**
   * A host of three words and a top-level domain, such as `lunar-sea-surgel.sh` in the loader's
   * tests, has the four words for its slug: `lunar-sea-surgel-sh`.
   */
  lemma HostSlug(a: string, b: string, c: string, d: string)
    requires a != "" && AllKept(a) && b != "" && AllKept(b)
    requires c != "" && AllKept(c) && d != "" && AllKept(d)
    ensures KebabName(a + "-" + b + "-" + c + "." + d) == a + "-" + b + "-" + c + "-" + d
  {
    KebabOfWord(a);
    SlugSnoc(a, "-", b);
    SlugSnoc(a + "-" + b, "-", c);
    SlugSnoc(a + "-" + b + "-" + c, ".", d);
  }

  /**
   * The page at the root of such a host, `http://lunar-sea-surgel.sh` in the tests, is saved as
   * `lunar-sea-surgel-sh.html` beside the directory `lunar-sea-surgel-sh_files`.
   */
  lemma PageNamesOfTestSite(a: string, b: string, c: string, d: string)
    requires a != "" && AllKept(a) && b != "" && AllKept(b)
    requires c != "" && AllKept(c) && d != "" && AllKept(d)
    ensures var u, k := Url(a + "-" + b + "-" + c + "." + d, "/", "", ""), a + "-" + b + "-" + c + "-" + d;
      && SiteUrlName(u) == k
      && HtmlFileName(u) == k + ".html"
      && ResourceDirName(u) == k + "_files"
  {
    HostSlug(a, b, c, d);
    SharedStem(Url(a + "-" + b + "-" + c + "." + d, "/", "", ""));
  }

  /** The slug of `/d/b` for two words `d` and `b`. */
  lemma PathSlug(d: string, sep: string, b: string)
    requires d != "" && AllKept(d) && b != "" && AllKept(b) && |sep| == 1 && !Kept(sep[0])
    ensures KebabName("/" + d + sep + b) == d + "-" + b
  {
    KebabOfWord(d);
    KebabIgnoresLeading("/", d);
    SlugSnoc("/" + d, sep, b);
  }

  /** `/d/b.e` under the site name `s` is saved as `s-d-b.e`. */
  lemma ResourceOnSite(h: string, d: string, b: string, e: string, s: string)
    requires d != "" && AllKept(d) && b != "" && AllKept(b) && e != "" && AllKept(e)
    ensures ResourceFileName(Url(h, "/" + d + "/" + b + "." + e, "", ""), Some(s))
      == s + "-" + d + "-" + b + "." + e
  {
    SameName(h, d, "/", b, e, s);
  }

  /** The test page `http://lunar-sea-surgel.sh` is saved as `lunar-sea-surgel-sh.html`. */
  lemma TestPageFile()
    ensures HtmlFileName(Url("lunar-sea-surgel.sh", "/", "", "")) == "lunar-sea-surgel-sh.html"
  {
    TestPageFileSpelled();
    PageNamesOfTestSite("lunar", "sea", "surgel", "sh");
  }

  /** The resources of the test page are saved in `lunar-sea-surgel-sh_files`. */
  lemma TestResourceDir()
    ensures ResourceDirName(Url("lunar-sea-surgel.sh", "/", "", "")) == "lunar-sea-surgel-sh_files"
  {
    TestResourceDirSpelled();
    PageNamesOfTestSite("lunar", "sea", "surgel", "sh");
  }

  /** The stylesheet of the test page, `/styles/style.css`, is saved as `lunar-sea-surgel-sh-styles-style.css`. */
  lemma TestStylesheet(h: string)
    ensures ResourceFileName(Url(h, "/styles/style.css", "", ""), Some("lunar-sea-surgel-sh"))
      == "lunar-sea-surgel-sh-styles-style.css"
  {
    TestStylesheetSpelled();
    ResourceOnSite(h, "styles", "style", "css", "lunar-sea-surgel-sh");
  }

  /** The script of the test page, `/scripts/index.js`, is saved as `lunar-sea-surgel-sh-scripts-index.js`. */
  lemma TestScript(h: string)
    ensures ResourceFileName(Url(h, "/scripts/index.js", "", ""), Some("lunar-sea-surgel-sh"))
      == "lunar-sea-surgel-sh-scripts-index.js"
  {
    TestScriptSpelled();
    ResourceOnSite(h, "scripts", "index", "js", "lunar-sea-surgel-sh");
  }

  /** The image of the test page, `/images/banner.png`, is saved as `lunar-sea-surgel-sh-images-banner.png`. */
  lemma TestImage(h: string)
    ensures ResourceFileName(Url(h, "/images/banner.png", "", ""), Some("lunar-sea-surgel-sh"))
      == "lunar-sea-surgel-sh-images-banner.png"
  {
    TestImageSpelled();
    ResourceOnSite(h, "images", "banner", "png", "lunar-sea-surgel-sh");
  }

  /** `/foo`, whose slug has no hyphen, is saved as `s-fo`. */
  lemma TestWithoutHyphen(h: string, s: string)
    ensures ResourceFileName(Url(h, "/foo", "", ""), Some(s)) == s + "-" + "fo"
  {
    TestWithoutHyphenSpelled();
    ResourceWithoutHyphen(h, "foo", Some(s));
  }

  /**
   * A resource `/w` whose slug is one word loses the word's last character and has no
   * extension: `/foo` is saved as `s-fo`, or `undefined-fo` without a site name.
   */
  lemma ResourceWithoutHyphen(h: string, w: string, siteName: Option<string>)
    requires w != "" && AllKept(w)
    ensures ResourceFileName(Url(h, "/" + w, "", ""), siteName) == TemplateText(siteName) + "-" + w[..|w| - 1]
  {
    KebabOfWord(w);
    KebabIgnoresLeading("/", w);
    assert '-' !in w && '.' !in w by {
      forall j | 0 <= j < |w| ensures w[j] != '-' && w[j] != '.' { assert Kept(w[j]); }
    }
    assert WithoutExtname(w) == w[..|w| - 1];
    var p := "/" + w;
    assert p[|p| - 1] == w[|w| - 1];
    NodePath.ExtnameOfUnslashed(p);
    JsString.LastIndexOfAppend("/", w, '/');
    assert NodePath.LastSegment(p) == w;
    assert NodePath.Extname(p) == "";
    JsString.EmptyRight(TemplateText(siteName) + "-" + w[..|w| - 1]);
  }

  /**
   * A dot file in a directory, `/a/.e`, has no extension for `path.extname`, yet the slug
   * `a-e` still loses its last word: the resource is saved as `s-a`, without `e`.
   */
  lemma DotFileInDirectory(h: string, a: string, e: string, s: string)
    requires a != "" && AllKept(a) && e != "" && AllKept(e)
    ensures ResourceFileName(Url(h, "/" + a + "/." + e, "", ""), Some(s)) == s + "-" + a
  {
    var p := "/" + a + "/." + e;
    DotFileSlug(a, e);
    Utils.CutLastWord(a, e);
    DotFileExtname(a, e);
    assert WithoutExtname(KebabName(p)) == a;
    JsString.EmptyRight(s + "-" + a);
  }

  /** The slug of `/a/.e` is `a-e`. */
  lemma DotFileSlug(a: string, e: string)
    requires a != "" && AllKept(a) && e != "" && AllKept(e)
    ensures KebabName("/" + a + "/." + e) == a + "-" + e
  {
    var dir := "/" + a + "/";
    DirSlug(a);
    SlugSnoc(dir, ".", e);
    DotPath(a, e);
    JsString.ConcatAssoc(dir, ".", e);
  }

  /** `path.extname("/a/.e")` is empty: the last segment `.e` has its only dot in front. */
  lemma DotFileExtname(a: string, e: string)
    requires e != "" && AllKept(e)
    ensures NodePath.Extname("/" + a + "/." + e) == ""
  {
    var dir := "/" + a + "/";
    var tail := "." + e;
    var p := dir + tail;
    DotPath(a, e);
    assert '.' !in e && '/' !in e by {
      forall j | 0 <= j < |e| ensures e[j] != '.' && e[j] != '/' { assert Kept(e[j]); }
    }
    assert '/' !in tail;
    assert p[|p| - 1] == e[|e| - 1];
    NodePath.ExtnameOfUnslashed(p);
    NodePath.LastSegmentAppend(dir, tail);
    DirLastSegment(a);
    JsString.EmptyLeft(tail);
    assert tail[1..] == e;
  }

  /** `/a/.e` is the directory `/a/` followed by the dot file `.e`. */
  lemma DotPath(a: string, e: string)
    ensures "/" + a + "/." + e == ("/" + a + "/") + ("." + e)
  {
    assert "/." == "/" + ".";
    JsString.ConcatAssoc("/" + a, "/", ".");
    JsString.ConcatAssoc("/" + a + "/", ".", e);
  }

  /** The slug of the directory path `/a/` is the word `a`. */
  lemma DirSlug(a: string)
    requires a != "" && AllKept(a)
    ensures KebabName("/" + a + "/") == a
  {
    KebabOfWord(a);
    KebabIgnoresLeading("/", a);
    KebabIgnoresTrailing("/" + a, "/");
  }

  /** A path ending in a slash has an empty last segment. */
  lemma DirLastSegment(a: string)
    ensures NodePath.LastSegment("/" + a + "/") == ""
  {
  }

  /** The root path as a resource has an empty slug and no extension: it is saved as `s-`. */
  lemma ResourceAtRoot(u: Url, s: string)
    requires u.pathname == "/"
    ensures ResourceFileName(u, Some(s)) == s + "-"
  {
    var k := KebabName(u.pathname);
    RootSlug();
    assert k == "";
    assert WithoutExtname(k) == "";
    RootExtname();
    assert NodePath.Extname(u.pathname) == "";
    JsString.EmptyRight(s + "-");
    JsString.EmptyRight(s + "-" + "");
  }

  /** The root path has no character of the class, so its slug is empty. */
  lemma RootSlug()
    ensures KebabName("/") == ""
  {
    KebabIgnoresTrailing("", "/");
    KebabOfEmpty();
    JsString.EmptyLeft("/");
  }

  /** The root path is all slashes, so it has no extension. */
  lemma RootExtname()
    ensures NodePath.Extname("/") == ""
  {
    assert NodePath.StripTrailingSlashes("/") == "";
  }

  /**
   * Different resource paths on one host can be saved under one name: `/d/b.e`, `/d-b.e`
   * and `/d.b.e` all become `s-d-b.e`.
   */
  lemma ResourceNamesCollide(h: string, d: string, b: string, e: string, s: string)
    requires d != "" && AllKept(d) && b != "" && AllKept(b) && e != "" && AllKept(e)
    ensures var p1, p2, p3 := "/" + d + "/" + b + "." + e, "/" + d + "-" + b + "." + e, "/" + d + "." + b + "." + e;
      && p1 != p2 && p2 != p3 && p1 != p3
      && ResourceFileName(Url(h, p1, "", ""), Some(s)) == s + "-" + d + "-" + b + "." + e
      && ResourceFileName(Url(h, p2, "", ""), Some(s)) == s + "-" + d + "-" + b + "." + e
      && ResourceFileName(Url(h, p3, "", ""), Some(s)) == s + "-" + d + "-" + b + "." + e
  {
    ResourceOnSite(h, d, b, e, s);
    SameName(h, d, "-", b, e, s);
    SameName(h, d, ".", b, e, s);
    SeparatorAt(d, "/", b, e);
    SeparatorAt(d, "-", b, e);
    SeparatorAt(d, ".", b, e);
  }

  /** The character after `/d` in the path `/d` `sep` `b.e` is the separator. */
  lemma SeparatorAt(d: string, sep: string, b: string, e: string)
    requires |sep| == 1
    ensures var p := "/" + d + sep + b + "." + e; |p| > |d| + 1 && p[|d| + 1] == sep[0]
  {
    var p := "/" + d + sep + b + "." + e;
    assert p == ("/" + d + sep) + (b + "." + e);
  }

  /** `/d` `c` `b.e` is saved as `s-d-b.e` for any separator `c` outside the slug class. */
  lemma SameName(h: string, d: string, sep: string, b: string, e: string, s: string)
    requires d != "" && AllKept(d) && b != "" && AllKept(b) && e != "" && AllKept(e)
    requires |sep| == 1 && !Kept(sep[0])
    ensures ResourceFileName(Url(h, "/" + d + sep + b + "." + e, "", ""), Some(s)) == s + "-" + d + "-" + b + "." + e
  {
    var x := "/" + d + sep + b;
    PathSlug(d, sep, b);
    KebabEmptyIff(x);
    assert x[|x| - 1] == b[|b| - 1];
    ResourceFileOfFile(Url(h, x + "." + e, "", ""), Some(s), x, e);
    Regroup(s, d, b);
  }

  /** The loader asks for the page's names with no role, and `dispatcher[undefined]` is no function. */
  lemma MissingRoleThrows(u: Url)
    ensures GetNameFromUrl(Some(u), None, None) == Failure(NotCallable)
    ensures GetNameFromUrl(None, None, None) == Failure(InvalidUrl)
  {
  }

  // ---------------------------------------------------------------------------
  // Proof hints: the literal names of the tests written as the concatenations the general
  // lemmas produce, and one regrouping of a concatenation. They state nothing about the
  // loader; they only spare the verifier from unfolding long literals.

  /** `s-` followed by the slug `d-b` is `s-d-b`. */
  lemma Regroup(s: string, d: string, b: string)
    ensures s + "-" + (d + "-" + b) == s + "-" + d + "-" + b
  {
  }

  lemma TestPageFileSpelled()
    ensures "lunar" + "-" + "sea" + "-" + "surgel" + "." + "sh" == "lunar-sea-surgel.sh"
    ensures "lunar" + "-" + "sea" + "-" + "surgel" + "-" + "sh" + ".html" == "lunar-sea-surgel-sh.html"
  {
  }

  lemma TestResourceDirSpelled()
    ensures "lunar" + "-" + "sea" + "-" + "surgel" + "." + "sh" == "lunar-sea-surgel.sh"
    ensures "lunar" + "-" + "sea" + "-" + "surgel" + "-" + "sh" + "_files" == "lunar-sea-surgel-sh_files"
  {
  }

  lemma TestStylesheetSpelled()
    ensures "/" + "styles" + "/" + "style" + "." + "css" == "/styles/style.css"
    ensures "lunar-sea-surgel-sh" + "-" + "styles" + "-" + "style" + "." + "css" == "lunar-sea-surgel-sh-styles-style.css"
  {
  }

  lemma TestScriptSpelled()
    ensures "/" + "scripts" + "/" + "index" + "." + "js" == "/scripts/index.js"
    ensures "lunar-sea-surgel-sh" + "-" + "scripts" + "-" + "index" + "." + "js" == "lunar-sea-surgel-sh-scripts-index.js"
  {
  }

  lemma TestImageSpelled()
    ensures "/" + "images" + "/" + "banner" + "." + "png" == "/images/banner.png"
    ensures "lunar-sea-surgel-sh" + "-" + "images" + "-" + "banner" + "." + "png" == "lunar-sea-surgel-sh-images-banner.png"
  {
  }

  lemma TestWithoutHyphenSpelled()
    ensures "/" + "foo" == "/foo"
    ensures "foo"[..2] == "fo"
  {
  }
}
