/**
 * The URL-to-local-name mapper of the page loader: the element/attribute table `tags`, the
 * role table `types`, and `getNameFromURL`, which turns a parsed URL and a role into the
 * name of the saved page, of its resource directory, or of one saved resource.
 */
module Utils {
  import opened Wrappers
  import JsString
  import NodePath
  import opened Kebab

  // ---------------------------------------------------------------------------
  // tags: which attribute of which element refers to a resource

  /** The `tags` table: element name to the attribute holding the resource reference. */
  function Tags(): map<string, string>
  {
    map["link" := "href", "script" := "src", "img" := "src"]
  }

  /** `tags[tag]`: the reference attribute of an element, if the element is one the loader mirrors. */
  function ReferenceAttribute(tag: string): (r: Option<string>)
    ensures r.Some? <==> tag == "link" || tag == "script" || tag == "img"
    ensures r.Some? ==> (r.value == "href" <==> tag == "link")
    ensures r.Some? ==> (r.value == "src" <==> tag != "link")
  {
    if tag in Tags() then Some(Tags()[tag]) else None
  }

  // ---------------------------------------------------------------------------
  // types: the closed set of roles a name can be asked for

  datatype Role = SiteUrl | HtmlFile | ResourceDir | ResourceFile

  /** The `types` table: the string each role is passed as, and the key of its dispatcher entry. */
  function TypeName(role: Role): string
  {
    match role
    case SiteUrl => "siteUrl"
    case HtmlFile => "htmlFile"
    case ResourceDir => "sourceDir"
    case ResourceFile => "sourceFile"
  }

  /** The dispatcher lookup `dispatcher[key]`: the role whose entry has that key, if any. */
  function RoleOf(key: string): (r: Option<Role>)
    ensures r.Some? ==> TypeName(r.value) == key
    ensures r.None? ==> forall role :: TypeName(role) != key
  {
    if key == "siteUrl" then Some(SiteUrl)
    else if key == "htmlFile" then Some(HtmlFile)
    else if key == "sourceDir" then Some(ResourceDir)
    else if key == "sourceFile" then Some(ResourceFile)
    else None
  }

  /** The four type strings are distinct, so each role has its own dispatcher entry and finds it. */
  lemma TypeNamesDistinct(a: Role, b: Role)
    ensures TypeName(a) == TypeName(b) ==> a == b
    ensures RoleOf(TypeName(a)) == Some(a)
  {
    match a
    case SiteUrl =>
    case HtmlFile => assert TypeName(a)[0] == 'h';
    case ResourceDir => assert TypeName(a)[1] == 'o';
    case ResourceFile => assert TypeName(a)[6] == 'F';
  }

  // ---------------------------------------------------------------------------
  // getNameFromURL

  /**
   * The parts of a parsed URL (`new URL(url)`) that the mapper can see. Parsing itself follows
   * the WHATWG URL Standard and is not modelled: a URL arrives already split into its host and
   * its pathname, with its query and fragment beside them.
   */
  datatype Url = Url(host: string, pathname: string, search: string, hash: string)

  /** What `getNameFromURL` throws: `new URL` rejects the string, or the role has no dispatcher entry. */
  datatype NameError = InvalidUrl | NotCallable

  /** How a value that may be `undefined` is written inside a template literal. */
  function TemplateText(v: Option<string>): string
  {
    match v
    case Some(s) => s
    case None => "undefined"
  }

  /** The `siteUrl` entry: the slug of the host. */
  function SiteUrlName(url: Url): string
  {
    KebabName(url.host)
  }

  /** The slug of host and pathname that the page and its resource directory are both named after. */
  function PageStem(url: Url): string
  {
    KebabName(NodePath.Join(url.host, url.pathname))
  }

  /** The `sourceDir` entry: the directory that holds the saved resources of one page. */
  function ResourceDirName(url: Url): string
  {
    PageStem(url) + "_files"
  }

  /** The `htmlFile` entry: the file the rewritten page is saved as. */
  function HtmlFileName(url: Url): string
  {
    PageStem(url) + ".html"
  }

  /**
   * `filePath.slice(0, filePath.lastIndexOf('-'))`: the slug of the pathname cut before its last
   * hyphen. Without a hyphen `lastIndexOf` is -1 and the slice drops the last character.
   */
  function WithoutExtname(k: string): (r: string)
    ensures |r| <= |k| && r == k[..|r|]
    ensures k != "" ==> |r| < |k|
  {
    JsString.SliceTo(k, JsString.LastIndexOf(k, '-'))
  }

  /** The `sourceFile` entry: the file one resource is saved as inside the resource directory. */
  function ResourceFileName(url: Url, siteName: Option<string>): string
  {
    TemplateText(siteName) + "-" + WithoutExtname(KebabName(url.pathname)) + NodePath.Extname(url.pathname)
  }

  /** The name the dispatcher entry of `role` gives. */
  function NameFor(role: Role, url: Url, siteName: Option<string>): string
  {
    match role
    case SiteUrl => SiteUrlName(url)
    case HtmlFile => HtmlFileName(url)
    case ResourceDir => ResourceDirName(url)
    case ResourceFile => ResourceFileName(url, siteName)
  }

  /**
   * `getNameFromURL(url, type, siteName)`. `parsed` is the outcome of `new URL(url)`, `None`
   * when it throws; an omitted `type` is `None` and is looked up as the key "undefined".
   * JavaScript evaluates `dispatcher[type]` and then `new URL(url)` before it calls, so an
   * unparsable URL is reported even when the type is unknown.
   */
  function GetNameFromUrl(parsed: Option<Url>, typeArg: Option<string>, siteName: Option<string>)
    : (r: Result<string, NameError>)
    ensures parsed.None? ==> r == Failure(InvalidUrl)
    ensures parsed.Some? && typeArg.None? ==> r == Failure(NotCallable)
    ensures parsed.Some? && typeArg.Some? ==>
      (r.Success? <==> exists role :: TypeName(role) == typeArg.value)
    ensures parsed.Some? && typeArg.Some? && (forall role :: TypeName(role) != typeArg.value) ==>
      r == Failure(NotCallable)
    ensures forall role :: parsed.Some? && typeArg == Some(TypeName(role)) ==>
      r == Success(NameFor(role, parsed.value, siteName))
  {
    var key := TemplateText(typeArg);
    var entry := RoleOf(key);
    if parsed.None? then Failure(InvalidUrl)
    else if entry.None? then Failure(NotCallable)
    else Success(NameFor(entry.value, parsed.value, siteName))
  }

  // ---------------------------------------------------------------------------
  // Properties of the names

  /**
   * The resource directory and the page file share one stem, a slug of host and pathname, and
   * differ only in the suffixes `_files` and `.html`. For the root pathname the stem is the
   * name of the site.
   */
  lemma SharedStem(url: Url)
    ensures var d, h := ResourceDirName(url), HtmlFileName(url);
      && |d| >= 6 && |h| >= 5
      && d[..|d| - 6] == h[..|h| - 5]
      && d[|d| - 6..] == "_files" && h[|h| - 5..] == ".html"
      && IsSlug(d[..|d| - 6]) && SlugAlphabet(d[..|d| - 6])
    ensures url.pathname == "/" ==> ResourceDirName(url) == SiteUrlName(url) + "_files"
    ensures url.pathname == "/" ==> HtmlFileName(url) == SiteUrlName(url) + ".html"
  {
    var stem := PageStem(url);
    var d, h := ResourceDirName(url), HtmlFileName(url);
    assert d[..|d| - 6] == stem && h[..|h| - 5] == stem;
    KebabIsSlug(NodePath.Join(url.host, url.pathname));
    KebabAlphabet(NodePath.Join(url.host, url.pathname));
    if url.pathname == "/" {
      assert NodePath.Join(url.host, url.pathname) == url.host + "//";
      KebabIgnoresTrailing(url.host, "//");
    }
  }

  /**
   * The truncation rule: a slug with a hyphen loses its last word and that hyphen; a slug
   * without one loses its last character; the empty slug stays empty. What is left is a slug.
   */
  lemma WithoutExtnameRule(k: string)
    requires IsSlug(k)
    ensures var w := WithoutExtname(k);
      && ('-' in k ==> |w| < |k| && k[..|w|] == w && k[|w|] == '-' && '-' !in k[|w| + 1..] && k[|w| + 1..] != "")
      && ('-' !in k && k != "" ==> w == k[..|k| - 1])
      && (k == "" ==> w == "")
      && IsSlug(w)
  {
    var i := JsString.LastIndexOf(k, '-');
    var w := WithoutExtname(k);
    if '-' in k {
      assert w == k[..i];
      assert i < |k| - 1;
      assert i > 0;
      assert k[i - 1] != '-';
      assert k[i + 1..] != "";
    } else if k != "" {
      assert w == k[..|k| - 1];
      assert forall j :: 0 <= j < |w| ==> w[j] == k[j];
    }
  }

  /**
   * For a resource path `x.e` whose extension `e` is made of slug characters and whose stem `x`
   * holds at least one, the saved name is the site name, a hyphen, the slug of `x`, and `.e`.
   */
  lemma ResourceFileOfFile(url: Url, siteName: Option<string>, x: string, e: string)
    requires url.pathname == x + "." + e
    requires x != "" && x[|x| - 1] != '/' && KeptChars(x) != ""
    requires e != "" && AllKept(e)
    ensures ResourceFileName(url, siteName) == TemplateText(siteName) + "-" + KebabName(x) + "." + e
  {
    var kx := KebabName(x);
    assert '.' !in e && '/' !in e by {
      forall j | 0 <= j < |e| ensures e[j] != '.' && e[j] != '/' { assert Kept(e[j]); }
    }
    SlugOfFile(x, e);
    CutLastWord(kx, e);
    NodePath.ExtnameOfFile(x, e);
    var k := KebabName(url.pathname);
    assert k == kx + "-" + e;
    assert WithoutExtname(k) == kx;
    assert NodePath.Extname(url.pathname) == "." + e;
    var pre := TemplateText(siteName) + "-" + kx;
    assert ResourceFileName(url, siteName) == pre + ("." + e);
    JsString.ConcatAssoc(pre, ".", e);
  }

  /** The slug of `x.e` is the slug of `x`, a hyphen and `e`. */
  lemma SlugOfFile(x: string, e: string)
    requires KeptChars(x) != ""
    requires e != "" && AllKept(e)
    ensures KebabName(x + "." + e) == KebabName(x) + "-" + e
  {
    KebabEmptyIff(x);
    KebabOfWord(e);
    assert x + "." + e == x + ['.'] + e;
    KebabAppend(x, '.', e);
  }

  /** Cutting before the last hyphen removes a final word that has no hyphen. */
  lemma CutLastWord(k: string, e: string)
    requires AllKept(e)
    ensures WithoutExtname(k + "-" + e) == k
  {
    assert '-' !in e by {
      forall j | 0 <= j < |e| ensures e[j] != '-' { assert Kept(e[j]); }
    }
    var tail := "-" + e;
    JsString.ConcatAssoc(k, "-", e);
    assert tail[1..] == e;
    var i := JsString.LastIndexOf(tail, '-');
    assert i == 0 by {
      assert tail[0] == '-';
    }
    JsString.LastIndexOfAppend(k, tail, '-');
    assert (k + tail)[..|k|] == k;
  }

  /** Query string and fragment never reach a name: URLs that differ only there get the same name. */
  lemma QueryIgnored(u: Url, v: Url, role: Role, siteName: Option<string>)
    requires u.host == v.host && u.pathname == v.pathname
    ensures NameFor(role, u, siteName) == NameFor(role, v, siteName)
  {
  }
}
