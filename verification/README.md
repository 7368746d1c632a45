# GitHub parser hook, modelled in Dafny

This project models the `github` parser function of the MediaWiki GitHub
extension (class `GitHubParserHook`). A wiki page calls it with four
parameters: `file`, `repo`, `branch` and `lang`. The hook then:

- builds the raw-content URL `<base>/<repo>/<branch>/<file>`;
- fetches that URL, reading a fetch failure as the empty file;
- sends `.md` and `.markdown` files (matched case-sensitively) to the
  Markdown transformer;
- wraps every other file in `<source lang="L">…</source>` and passes it to
  the wiki parser for tag expansion. `L` is the requested `lang`, or, when
  `lang` is exactly `auto`, the file's extension, with `py` spelled `python`.

Files:

- `php_strings.dfy`, module `PhpStrings`: the PHP string built-ins the hook
  relies on. These are `substr` with a negative offset and the extension that
  `pathinfo` reports. Each comes with an independent characterisation: a
  suffix test, and "the longest suffix without the separator". The module
  also holds `IndexOf`, a first-occurrence search. The hook never searches a
  string; `IndexOf` only serves the model's own reader of the source tag,
  which states what the generated tag holds.
- `github_parser_hook.dfy`, module `GitHub`: the class `GitHubParserHook`.
  Its PHP fields are Dafny fields. `Handle` and `SetFields` are methods that
  assign them. The private getters are functions that read them. Lemmas cover
  dispatch, language resolution, the fetch URL, fetch failure and four
  worked scenarios.

The three collaborators are values of arrow type:

- the file fetcher, `string -> FetchResult`, given to the constructor as in
  the source;
- the Markdown transformer, `string -> string`, also given to the constructor;
- the wiki parser's `recursiveTagParse`, `string -> string`, passed to each
  call of `Handle`.

Being Dafny arrows, they are total, deterministic and free of effects; the
"## Left out" section says what this assumes about the real collaborators.

The extension is computed as PHP's `pathinfo` computes it: the text after the
last `.` of the last `/`-separated segment. This is narrower than "the text
after the last `.` of the file name". For example, `v1.2/Makefile` has the
empty extension, not `2/Makefile`. The model follows the code here
(`AutoLangWithoutExtension`).

## Model

| member | source | states |
|---|---|---|
| `GitHub.GitHubParserHook.constructor` | src/GitHubParserHook.php:30-33 | The fetcher and the base URL are the ones given; the Markdown transformer is fixed here too. |
| `GitHub.GitHubParserHook.Handle` | src/GitHubParserHook.php:35-39 | After a call the four fields hold the call's parameters, and the result is the rendered content for them. A failed fetch does not make it fail. |
| `GitHub.GitHubParserHook.SetFields` | src/GitHubParserHook.php:41-48 | `fileName`, `repoName`, `branchName`, `lang` become `file`, `repo`, `branch`, `lang` respectively. |
| `GitHub.GitHubParserHook.GetRenderedContent` | src/GitHubParserHook.php:50-63 | A name ending in `.md` or `.markdown` gives exactly the Markdown transform of the fetched text. Any other name gives exactly `parser("<source lang=\"" + lang + "\">" + content + "</source>")` with the resolved language. |
| `GitHub.MarkdownIgnoresLangAndParser` | src/GitHubParserHook.php:53-55 | For a Markdown file, two hooks that differ only in `lang` give the same result, whatever wiki parser each is given. So `lang` is never consulted and the parser is not used. |
| `GitHub.GitHubParserHook.RenderAsMarkdown` | src/GitHubParserHook.php:107-109 | The result is the Markdown transform of the content, with nothing added around it. |
| `GitHub.GitHubParserHook.GetFileContent` | src/GitHubParserHook.php:65-72 | A failed fetch of the file URL gives the empty string. A successful one gives exactly the fetched text. |
| `GitHub.ContentOf` | src/GitHubParserHook.php:66-71 | The caught `FileFetchingException` becomes the empty string, and a fetched text passes through unchanged. |
| `GitHub.FetchFailureRendersEmpty` | src/GitHubParserHook.php:65-72 | When the fetch fails, the file renders as an empty file along its normal branch: Markdown of `""`, or an empty source tag. |
| `GitHub.GitHubParserHook.GetFileUrl` | src/GitHubParserHook.php:74-82 | The URL is the base URL, `/`, repo, `/`, branch, `/`, file name, each at its position, with no encoding and no slash merging. Its length is the sum of the parts plus 3. |
| `GitHub.FileUrlDeterminesBranchAndFile` | src/GitHubParserHook.php:74-82 | For one base URL and repo, equal URLs mean equal branch and file, when branch names contain no `/`. |
| `GitHub.FileUrlAmbiguousWithSlashedBranch` | src/GitHubParserHook.php:74-82 | Without that condition two requests share a URL: branch `feature/x` with file `a.py`, and branch `feature` with file `x/a.py`. |
| `GitHub.GitHubParserHook.GetLang` | src/GitHubParserHook.php:84-96 | Any `lang` other than exactly `auto` (so `Auto` too) is returned verbatim. For `auto`, extension `py` gives `python` and any other extension, the empty one included, is returned as is. |
| `GitHub.AutoLangOfDottedName` | src/GitHubParserHook.php:84-95 | With `auto`, a file `p.e` (`e` free of `.` and `/`) gets language `e`, or `python` when `e` is `py`. |
| `GitHub.AutoLangWithoutExtension` | src/GitHubParserHook.php:86-94 | With `auto`, a last path segment without `.` gives the empty language. This holds for a bare name such as `Makefile` and for a name below a directory, even when a directory name has a `.`. |
| `GitHub.LangIsPython` | src/GitHubParserHook.php:84-95 | The language is `python` exactly when `lang` is `python`, or `lang` is `auto` and the extension is `py` or `python`. |
| `GitHub.GitHubParserHook.IsMarkdownFile` | src/GitHubParserHook.php:98-100 | True exactly when the file name ends with `.md` or with `.markdown`. |
| `GitHub.UpperCaseMdIsNotMarkdown` | src/GitHubParserHook.php:98-105 | `README.MD` is not a Markdown file: the match is case-sensitive. |
| `GitHub.NotMarkdownByLastChar` | src/GitHubParserHook.php:98-105 | A non-empty name whose last character is neither `d` nor `n` is never treated as Markdown. |
| `GitHub.GitHubParserHook.FileHasExtension` | src/GitHubParserHook.php:102-105 | True exactly when the file name ends with `.` followed by the extension, case-sensitively. A name no longer than the extension never matches. |
| `PhpStrings.SubstrFromEnd` | src/GitHubParserHook.php:104 | `substr($s, -$n)` returns a suffix of `s`, with exactly `n` characters when `0 < n <= |s|`. |
| `PhpStrings.SubstrSuffixTest` | src/GitHubParserHook.php:104 | For non-empty `t`, `substr($s, -strlen($t)) === $t` holds exactly when `s` ends with `t`. A string shorter than `t` never ends with it. |
| `PhpStrings.AfterLast` | src/GitHubParserHook.php:87 | Gives a suffix of `s` without `c`. It is all of `s` when `s` has no `c`; otherwise the character just before it is `c`. |
| `PhpStrings.AfterLastUnique` | src/GitHubParserHook.php:87 | The three facts of `AfterLast` determine its result: any suffix that satisfies them is that result. |
| `PhpStrings.PathInfoExtension` | src/GitHubParserHook.php:87 | The extension contains no `.` and no `/`. It is a suffix of the last path segment, preceded by `.` when that segment has one, and empty when the segment has no `.`. |
| `PhpStrings.ExtensionOfDottedName` | src/GitHubParserHook.php:87 | The extension of `p.e` is `e` for every `e` free of `.` and `/`, whatever `p` is. |
| `PhpStrings.ExtensionOfPlainName` | src/GitHubParserHook.php:87 | The extension of `dir/name` is empty when `name` has no `.` and no `/`. |
| `GitHub.ParseSourceTagSound` | src/GitHubParserHook.php:58 | Any string the tag reader accepts is exactly the source tag of the language and content it returns, and that language has no `"`. |
| `GitHub.SourceTagRoundTrip` | src/GitHubParserHook.php:58 | For a language without `"`, the wiki parser receives a tag that reads back as exactly that language and content. |
| `GitHub.SourceTagNotInjective` | src/GitHubParserHook.php:58 | The language goes into the attribute unescaped, so language `x">y` with content `z` and language `x` with content `y">z` build the same tag. |
| `GitHub.ScenarioMarkdown` | src/GitHubParserHook.php:50-82 | `README.md` in `acme/widgets` on `main` with `lang=auto`, fetched as `# Hi`, renders as the Markdown transform of `# Hi`. |
| `GitHub.ScenarioPython` | src/GitHubParserHook.php:50-95 | `main.py` with `lang=auto`, fetched as `print(1)`, renders as the parser's expansion of a `python` source tag around `print(1)`. |
| `GitHub.ScenarioExplicitLang` | src/GitHubParserHook.php:50-85 | `app.rb` with `lang=ruby`, fetched as `puts 1`, renders as the expansion of a `ruby` source tag around `puts 1`. |
| `GitHub.ScenarioFetchFailure` | src/GitHubParserHook.php:50-95 | When the fetch of `missing.txt` with `lang=auto` fails, the result is the expansion of an empty `txt` source tag. |

## Left out

- The collaborators are modelled as Dafny arrows, which assumes three things.
  (a) Fetching one URL twice gives the same outcome;
  `MarkdownIgnoresLangAndParser` compares two hooks that share a fetcher and
  relies on this. (b) `fetchFile` throws nothing but `FileFetchingException`.
  The source catches only that exception, so in PHP any other exception from
  `fetchFile`, from `Markdown::defaultTransform` or from `recursiveTagParse`
  leaves `handle`; the model has no such path. (c) `recursiveTagParse` is a
  method of a `Parser` object that keeps state between calls, and the model
  treats it as a pure string function.
- The network read inside `FileFetcher::fetchFile` is left out. The fetcher is
  the function `fileFetcher` from URL to `Fetched(content)` or `FetchFailed`;
  `FetchFailed` stands for the `FileFetchingException`.
- `Markdown::defaultTransform` is a static call into the Michelf library. It is
  modelled as the arrow value `markdown`, given to the constructor because a
  Dafny model cannot name a foreign static function. `RenderAsMarkdown` only
  applies it.
- `Parser::recursiveTagParse` is the host wiki engine's tag expansion. It is
  the arrow argument `parser` of `Handle`. Its second argument (`null`, no
  frame) is dropped.
- The `ParamProcessor` parameter bag is collapsed into the four strings of
  `Parameters`. Validation and defaults belong to that library.
- Registering the hook with the wiki engine (the `HookHandler` interface) is
  left out.
- Before the first `Handle` call the PHP fields are `null`. The constructor
  here sets them to empty strings. Every path through `Handle` sets them
  before they are read, so no result depends on this.
- PHP strings are byte strings; here they are sequences of characters. No
  operation in the hook depends on the encoding.
- PathInfoExtension: does not model the finer behaviour of PHP's `pathinfo`.
  It ignores trailing slashes (PHP takes the segment before them), backslash
  separators and locale effects. The extension is the text after the last
  `.` of the last `/`-separated segment.
- PHP's `switch` compares `$fileExt` with `"py"` loosely. Since `"py"` is not
  a numeric string, that comparison is exact, and the model compares exactly.
