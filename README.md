# Page-loader name mapper in Dafny

This project models the name mapper of a command-line page loader. The loader downloads a
web page and the stylesheets, scripts and images it refers to. Every local name it saves
comes from `src/utils.js`:

- `tags`: the table of elements whose attribute refers to a resource (`link`/`href`,
  `script`/`src`, `img`/`src`);
- `getKebabName`: turns a string into a slug. Each character outside `[A-z0-9]` becomes `-`,
  the result is split at `-`, the empty pieces are dropped, and the rest are joined with `-`;
- `types`: the four roles a name can be asked for (`siteUrl`, `htmlFile`, `sourceDir`,
  `sourceFile`);
- `getNameFromURL`: parses the URL and calls the dispatcher entry for the role. The entries
  give the host slug, the page file `<slug>.html`, the resource directory `<slug>_files`, and
  the resource file `<siteName>-<slug cut before its last hyphen><extname>`.

Everything in the core is pure, so the model is datatypes, functions and lemmas:

| file | module | what it holds |
|---|---|---|
| `wrappers.dfy` | `Wrappers` | `Option` and `Result` |
| `js_string.dfy` | `JsString` | `split`, `join`, `lastIndexOf` and `slice(0, end)` as JavaScript defines them, with their algebra |
| `kebab.dfy` | `Kebab` | `getKebabName` and its properties |
| `node_path.dfy` | `NodePath` | `path.join` for a host and a pathname, and Node's POSIX `path.extname` |
| `utils.dfy` | `Utils` | `tags`, `types`, the dispatcher, `getNameFromURL`, and the laws of the names it gives |
| `name_examples.dfy` | `NameExamples` | the names the loader's tests expect, and the edge cases of the resource-file rule |

Facts the model states about the code:

- The character class `[A-z0-9]` also holds `[`, `\`, `]`, `^`, `_` and the backquote, and
  the slug keeps them.
- A slug with no hyphen loses its last character in the resource-file rule, because
  `lastIndexOf` returns -1 and `slice(0, -1)` drops one character. For example `/foo` is
  saved as `<siteName>-fo`.
- JavaScript evaluates `dispatcher[type]`, then `new URL(url)`, then the call. An unparsable
  URL therefore throws before an unknown role does.
- `src/index.js` (lines 17, 42 and 46) calls `getNameFromURL(url)` with no role, and
  `dispatcher[undefined]` is not a function, so those calls throw.
- The page file always gets `.html` appended, whatever the URL's extension.
- A resource file is named after the `siteName` argument, not after the URL's host.
- A resource path without an extension gets no extension in its name.
- A dot file in a directory, `/a/.e`, has no extension for `path.extname`, and its name
  `s-a` loses `e` (`NameExamples.DotFileInDirectory`).
- Distinct resource paths on one host can get the same name. `/d/b.e`, `/d-b.e` and `/d.b.e`
  all become `s-d-b.e` (`NameExamples.ResourceNamesCollide`).

## Model

In the rows below, a *class word* is a non-empty string made only of characters of `[A-z0-9]`.

| member | source | states |
|---|---|---|
| Kebab.Kept | src/utils.js:10 | The class `[A-z0-9]`: the range U+0041 to U+007A and the ten digits (definition; its consequences are stated by `Kebab.Hyphenate` and `Kebab.KebabAlphabet`) |
| Kebab.Words | src/utils.js:10-12 | The pieces that survive the filter after the replacement and the split (definition; `Kebab.WordsAreKept` states what they are) |
| Kebab.KebabName | src/utils.js:9-13 | `getKebabName` (definition; its properties are the `Kebab.Kebab*` lemmas below) |
| JsString.Join | src/utils.js:13 | `join('-')` (definition; `JsString.JoinSplit`, `JsString.SplitJoin` and `JsString.JoinAppend` state its meaning) |
| NodePath.Join | src/utils.js:26 | `path.join(host, pathname)` as host, a slash and the pathname (definition, also used at line 29) |
| Utils.Tags | src/utils.js:3-7 | The `tags` table (definition; `Utils.ReferenceAttribute` states its contents) |
| Utils.TypeName | src/utils.js:15-20 | The `types` table (definition; `Utils.TypeNamesDistinct` and `Utils.RoleOf` state its properties) |
| Utils.TemplateText | src/utils.js:35 | How `${siteName}` renders: the string itself, or `undefined` when no site name is given (definition) |
| Utils.SiteUrlName | src/utils.js:24 | The `siteUrl` entry: the slug of the host (definition) |
| Utils.PageStem | src/utils.js:25-30 | The slug of `path.join(host, pathname)` shared by the two page entries (definition; `Utils.SharedStem` states its properties) |
| Utils.ResourceDirName | src/utils.js:25-27 | The `sourceDir` entry: the page stem and `_files` (definition; `Utils.SharedStem`) |
| Utils.HtmlFileName | src/utils.js:28-30 | The `htmlFile` entry: the page stem and `.html` (definition; `Utils.SharedStem`) |
| Utils.WithoutExtname | src/utils.js:33 | `filePath.slice(0, filePath.lastIndexOf('-'))` is a prefix of the slug, strictly shorter when the slug is non-empty; `Utils.WithoutExtnameRule` states where it cuts |
| Utils.ResourceFileName | src/utils.js:31-36 | The `sourceFile` entry: site name, a hyphen, the cut slug of the pathname and its extension (definition; `Utils.ResourceFileOfFile` and the `NameExamples` lemmas state its values) |
| Utils.NameFor | src/utils.js:23-37 | The dispatcher: each role's entry applied to the parsed URL (definition; `Utils.GetNameFromUrl` states how the call reaches it) |
| Utils.ReferenceAttribute | src/utils.js:3-7 | An element has a reference attribute exactly when it is `link`, `script` or `img`; the attribute is `href` exactly for `link` and `src` for the other two |
| Utils.RoleOf | src/utils.js:15-20 | A dispatcher key finds a role exactly when it is the type string of that role; any other key finds none |
| Utils.TypeNamesDistinct | src/utils.js:15-20 | The four type strings are pairwise distinct and each one finds its own role |
| JsString.Split | src/utils.js:11 | `split` always yields at least one piece |
| JsString.SplitPiecesFree | src/utils.js:11 | No piece of a split holds the separator |
| JsString.JoinSplit | src/utils.js:11-13 | Joining the pieces of a split with the same separator gives back the string |
| JsString.SplitJoin | src/utils.js:11-13 | Splitting the join of a non-empty list of separator-free pieces gives back the pieces |
| JsString.SplitAppend | src/utils.js:11 | Splitting `x`, a separator and `y` gives the pieces of `x` followed by the pieces of `y` |
| JsString.JoinAppend | src/utils.js:13 | Joining two non-empty lists puts one separator between their joins |
| JsString.LastIndexOf | src/utils.js:33 | `lastIndexOf` is -1 exactly when the character is absent; otherwise it is a position of the character with none after it |
| JsString.LastIndexOfAppend | src/utils.js:33 | The last occurrence in `a + b` lies in `b`, shifted by the length of `a`, when `b` has one, and is the last occurrence in `a` otherwise |
| JsString.SliceTo | src/utils.js:33 | `slice(0, end)` is the prefix of length `end`; a negative `end` counts back from the end, and the result is clamped to the string |
| Kebab.Hyphenate | src/utils.js:10 | The replacement keeps the length and changes exactly the characters outside `[A-z0-9]` into hyphens |
| Kebab.NonEmpty | src/utils.js:12 | The filter keeps only non-empty pieces, each one taken from the input, and every non-empty piece of the input survives |
| Kebab.NonEmptyAppend | src/utils.js:12 | The filter works piece by piece: the survivors of two lists, in order, are the survivors of their concatenation |
| Kebab.NonEmptyOfNonEmpty | src/utils.js:12 | A list with no empty piece passes the filter unchanged |
| Kebab.KebabIsSlug | src/utils.js:9-13 | A slug never begins or ends with a hyphen and never holds two hyphens in a row |
| Kebab.KebabAlphabet | src/utils.js:9-13 | Every character of a slug is a hyphen or lies in `[A-z0-9]` |
| Kebab.KebabPreservesKept | src/utils.js:9-13 | Removing the hyphens from the slug leaves exactly the characters of the input in `[A-z0-9]`, in order |
| Kebab.KebabEmptyIff | src/utils.js:9-13 | The slug is empty exactly when the input has no character in `[A-z0-9]` |
| Kebab.KebabIdempotent | src/utils.js:9-13 | Slugging a slug changes nothing |
| Kebab.KebabAppend | src/utils.js:9-13 | For a character `c` outside the class, the slug of `a`, `c` and `b` is the two slugs joined by one hyphen, or just one of them when the other is empty |
| Kebab.KebabIgnoresTrailing | src/utils.js:9-13 | Characters outside the class at the end of a string do not change its slug |
| Kebab.KebabIgnoresLeading | src/utils.js:9-13 | Characters outside the class at the start of a string do not change its slug |
| Kebab.KebabOfWord | src/utils.js:9-13 | A non-empty word made only of `[A-z0-9]` is its own slug |
| Kebab.WordsAreKept | src/utils.js:10-12 | Every piece that survives the filter is non-empty and made only of characters of the class |
| NodePath.StripTrailingSlashes | src/utils.js:35 | Before `extname` looks for the last segment it drops exactly the trailing slashes of the path |
| NodePath.LastSegment | src/utils.js:35 | The last segment is the slash-free suffix after the last slash |
| NodePath.SegmentExtension | src/utils.js:35 | A segment has no extension exactly when it has no dot, when its only dot is its first character, or when it is `..`; otherwise the extension is the suffix from its last dot |
| NodePath.Extname | src/utils.js:35 | `path.extname` is empty or a dot followed by dot-free, slash-free text, and is a suffix of the path without its trailing slashes |
| NodePath.ExtnameOfFile | src/utils.js:35 | `x.e` has the extension `.e`, when `x` is non-empty and does not end in `/`, and `e` is non-empty and free of dots and slashes |
| Utils.GetNameFromUrl | src/utils.js:22-39 | An unparsable URL throws `InvalidUrl`. For a parsable URL, a missing role or a role string that is none of the four type strings throws `NotCallable`. Otherwise the call succeeds exactly when the role string is one of the four type strings, and then it gives that role's name |
| Utils.SharedStem | src/utils.js:24-30 | The resource directory and the page file share one slug stem and differ only by `_files` and `.html`. For the root path the stem is the host's slug |
| Utils.WithoutExtnameRule | src/utils.js:32-33 | Cutting a slug at its last hyphen drops the last word and that hyphen. A slug without a hyphen loses its last character, `""` stays `""`, and what is left is a slug |
| Utils.ResourceFileOfFile | src/utils.js:31-36 | A resource `x.e` is saved as `siteName-`, the slug of `x`, and `.e`, when `e` is a non-empty word of `[A-z0-9]` and `x` is non-empty, does not end in `/` and holds at least one character of the class |
| Utils.SlugOfFile | src/utils.js:32 | The slug of `x.e` is the slug of `x`, a hyphen, and `e`, when `x` holds at least one character of `[A-z0-9]` and `e` is a class word |
| Utils.CutLastWord | src/utils.js:33 | Cutting `k-e` before its last hyphen gives `k`, for any `k` and any `e` made only of characters of `[A-z0-9]` |
| Utils.QueryIgnored | src/utils.js:24-36 | Two URLs with the same host and pathname, which may differ in query or fragment, get the same name for every role |
| NameExamples.HostSlug | src/utils.js:24 | A host of three class words and a domain, `a-b-c.d` like `lunar-sea-surgel.sh`, has the slug `a-b-c-d` |
| NameExamples.PageNamesOfTestSite | src/utils.js:24-30 | At the root of such a host, with `a`, `b`, `c` and `d` class words, the site name is the host slug, the page is `<host slug>.html` and its directory `<host slug>_files` |
| NameExamples.TestPageFile | __tests__/index.test.js:61-65 | The test page `http://lunar-sea-surgel.sh/` is saved as `lunar-sea-surgel-sh.html` |
| NameExamples.TestResourceDir | __tests__/index.test.js:58 | Its resources go into `lunar-sea-surgel-sh_files` |
| NameExamples.TestStylesheet | __tests__/index.test.js:66-70 | `/styles/style.css` is saved as `lunar-sea-surgel-sh-styles-style.css` |
| NameExamples.TestScript | __tests__/index.test.js:71-75 | `/scripts/index.js` is saved as `lunar-sea-surgel-sh-scripts-index.js` |
| NameExamples.TestImage | __tests__/index.test.js:76-80 | `/images/banner.png` is saved as `lunar-sea-surgel-sh-images-banner.png` |
| NameExamples.PathSlug | src/utils.js:32 | The slug of `/d`, one character outside the class, and `b` is `d-b`, for class words `d` and `b` |
| NameExamples.ResourceOnSite | src/utils.js:31-36 | `/d/b.e` under the site name `s` is saved as `s-d-b.e`, for class words `d`, `b` and `e` |
| NameExamples.SameName | src/utils.js:31-36 | `/d`, any one character outside the class, and then `b.e`, is saved as `s-d-b.e`, for class words `d`, `b` and `e` |
| NameExamples.ResourceWithoutHyphen | src/utils.js:32-35 | A resource `/w`, for a class word `w`, is saved as the site name, a hyphen, and `w` without its last character, with no extension |
| NameExamples.TestWithoutHyphen | src/utils.js:32-35 | `/foo` is saved as `s-fo` |
| NameExamples.DotFileInDirectory | src/utils.js:32-35 | For class words `a` and `e`, the dot file `/a/.e` has no extension and its cut slug drops `e`, so it is saved as `s-a` |
| NameExamples.ResourceAtRoot | src/utils.js:32-35 | A URL whose pathname is `/` has an empty slug and no extension as a resource, so it is saved as `s-` |
| NameExamples.ResourceNamesCollide | src/utils.js:31-36 | For class words `d`, `b` and `e`, the distinct paths `/d/b.e`, `/d-b.e` and `/d.b.e` all get the one name `s-d-b.e` |
| NameExamples.MissingRoleThrows | src/index.js:17 | A call without a role throws `NotCallable` for a parsable URL and `InvalidUrl` for an unparsable one |

## Left out

- Parsing by `new URL` (the WHATWG URL Standard) is not modelled. A parsed URL arrives as its
  host, pathname, query and fragment, and a URL that does not parse arrives as `None`.
- NodePath.Join: `path.join(host, pathname)` is modelled as `host + "/" + pathname`, without its
  normalisation of `.`, `..` and repeated slashes. For a hierarchical pathname, which every
  `http` and `https` URL has, the parser has already resolved the `.` and `..` segments. For
  such pathnames the slug is the same, because it also collapses repeated slashes.
- NodePath.Join: URLs with an opaque path are not modelled faithfully. For such a URL, like `foo:a/../b`,
  the pathname may hold `..` segments. `path.join` would resolve them, and the source names
  the page `b.html`. The model gives `a-b.html`, and the resource directory differs the same
  way.
- Only the POSIX form of `path.extname` is modelled; the Windows form is not.
- Object-prototype keys are not modelled. In the dispatcher object, a role string such as
  `toString` finds an inherited function instead of throwing. In `tags`, a key such as
  `constructor` finds an inherited value, where `Utils.ReferenceAttribute` gives none.
- JavaScript strings are UTF-16 code units, while the model's strings are sequences of
  characters. For an astral character, the JavaScript code makes two hyphens and the model
  one. Both collapse to the same slug.
- `siteName` may be any value in JavaScript. The model takes a string or `undefined`, which
  is written as `undefined` inside the template.
- The download and file writing in `src/index.js` are not modelled. It is network and file
  system I/O, and it only calls the mapper.
- `src/htmlWorker.js` is not part of this model. It does the HTML parsing and the link
  rewriting.
- The command-line entry `src/cli.js` is not modelled.
