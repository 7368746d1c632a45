/**
 * The `github` parser function of the wiki extension: it renders a file kept
 * in a GitHub repository into the page. It builds the raw-content URL of the
 * file, fetches it (a failed fetch gives the empty string), and then either
 * hands the text to the Markdown transformer (for `.md` and `.markdown`
 * files) or wraps it in a `<source lang="...">` tag that the wiki parser
 * expands into highlighted code.
 *
 * The three collaborators are values of arrow type: the file fetcher and the
 * Markdown transformer are fixed when the hook is built, the wiki parser's
 * `recursiveTagParse` is passed to each call of `Handle`.
 */
module GitHub {
  import opened PhpStrings

  /** What the file fetcher reports: the file's text, or a `FileFetchingException`. */
  datatype FetchResult = Fetched(content: string) | FetchFailed

  /** The parser function's named parameters `file`, `repo`, `branch` and `lang`, already validated. */
  datatype Parameters = Parameters(file: string, repo: string, branch: string, lang: string)

  /** The pieces of the syntax-highlighting tag. */
  const SourceOpen: string := "<source lang=\""
  const SourceMid: string := "\">"
  const SourceClose: string := "</source>"

  /** The tag put around a non-Markdown file's text, carrying the language as an attribute. */
  function SourceTag(lang: string, content: string): string
  {
    SourceOpen + lang + SourceMid + content + SourceClose
  }

  /**
   * Reads a source tag back into its language attribute and its content: the
   * attribute ends at the first `"`.
   */
  function ParseSourceTag(t: string): Option<(string, string)>
  {
    var n, m := |SourceOpen|, |SourceClose|;
    if |t| < n + m || t[..n] != SourceOpen || t[|t| - m..] != SourceClose then None
    else
      var body := t[n..|t| - m];
      match IndexOf(body, '"')
      case None => None
      case Some(i) =>
        if i + 1 < |body| && body[i + 1] == '>' then Some((body[..i], body[i + 2..])) else None
  }

  /** Whatever `ParseSourceTag` accepts is the tag of what it returns, with a language free of `"`. */
  lemma ParseSourceTagSound(t: string)
    ensures var r := ParseSourceTag(t);
      r.Some? ==> '"' !in r.value.0 && SourceTag(r.value.0, r.value.1) == t
  {
  }

  /**
   * The tag round-trips: a language without `"` and any content are read
   * back exactly from the tag the hook builds.
   */
  lemma SourceTagRoundTrip(lang: string, content: string)
    requires '"' !in lang
    ensures ParseSourceTag(SourceTag(lang, content)) == Some((lang, content))
  {
    var t := SourceTag(lang, content);
    var n, m := |SourceOpen|, |SourceClose|;
    var body := lang + SourceMid + content;
    assert t == SourceOpen + body + SourceClose;
    assert t[..n] == SourceOpen;
    assert t[|t| - m..] == SourceClose;
    assert t[n..|t| - m] == body;
    IndexOfAfterPrefix(lang, ">" + content, '"');
    assert body == lang + ['"'] + (">" + content);
    assert body[..|lang|] == lang;
    assert body[|lang| + 2..] == content;
  }

  /**
   * The language attribute is not escaped: a language holding `">` lets two
   * different (language, content) pairs give the same tag.
   */
  lemma SourceTagNotInjective()
    ensures SourceTag("x\">y", "z") == SourceTag("x", "y\">z")
    ensures ("x\">y", "z") != ("x", "y\">z")
  {
  }

  /**
   * The `FileFetcher::fetchFile` call with its exception caught: a failed
   * fetch is read as the empty file.
   */
  function ContentOf(outcome: FetchResult): (r: string)
    ensures outcome.FetchFailed? ==> r == []
    ensures outcome.Fetched? ==> r == outcome.content
  {
    match outcome
    case Fetched(content) => content
    case FetchFailed => []
  }

  class GitHubParserHook {
    const fileFetcher: string -> FetchResult
    const gitHubUrl: string
    /** `Markdown::defaultTransform` of the Markdown library. */
    const markdown: string -> string

    var fileName: string
    var repoName: string
    var branchName: string
    var lang: string

    constructor (fileFetcher: string -> FetchResult, gitHubUrl: string, markdown: string -> string)
      ensures this.fileFetcher == fileFetcher && this.gitHubUrl == gitHubUrl
      ensures this.markdown == markdown
      ensures fileName == [] && repoName == [] && branchName == [] && lang == []
    {
      this.fileFetcher := fileFetcher;
      this.gitHubUrl := gitHubUrl;
      this.markdown := markdown;
      fileName, repoName, branchName, lang := [], [], [], [];
    }

    /**
     * Renders one call of the parser function: records the parameters, then
     * returns the rendered file. A failed fetch is absorbed and does not leave it.
     */
    method Handle(parser: string -> string, params: Parameters) returns (r: string)
      modifies this
      ensures fileName == params.file && repoName == params.repo
      ensures branchName == params.branch && lang == params.lang
      ensures r == GetRenderedContent(parser)
    {
      SetFields(params);
      r := GetRenderedContent(parser);
    }

    /** Copies the four parameters into the fields; nothing else changes. */
    method SetFields(params: Parameters)
      modifies this
      ensures fileName == params.file && repoName == params.repo
      ensures branchName == params.branch && lang == params.lang
    {
      fileName := params.file;
      repoName := params.repo;
      branchName := params.branch;
      lang := params.lang;
    }

    /**
     * Markdown files go through the Markdown transformer alone; every other
     * file is wrapped in a source tag that the wiki parser expands.
     */
    function GetRenderedContent(parser: string -> string): (r: string)
      reads this
      ensures EndsWith(fileName, ".md") || EndsWith(fileName, ".markdown") ==>
        r == markdown(GetFileContent())
      ensures !EndsWith(fileName, ".md") && !EndsWith(fileName, ".markdown") ==>
        r == parser("<source lang=\"" + GetLang() + "\">" + GetFileContent() + "</source>")
    {
      var content := GetFileContent();
      if IsMarkdownFile() then RenderAsMarkdown(content)
      else parser(SourceTag(GetLang(), content))
    }

    /** The fetched file, or the empty string when fetching failed. */
    function GetFileContent(): (r: string)
      reads this
      ensures fileFetcher(GetFileUrl()).FetchFailed? ==> r == []
      ensures fileFetcher(GetFileUrl()).Fetched? ==> r == fileFetcher(GetFileUrl()).content
    {
      ContentOf(fileFetcher(GetFileUrl()))
    }

    /**
     * `sprintf('%s/%s/%s/%s', ...)`: the base URL, repository, branch and file
     * name joined by single slashes, with nothing encoded or merged. The file
     * name is the URL's tail, right after the slash that ends the branch.
     */
    function GetFileUrl(): (r: string)
      reads this
      ensures |r| == |gitHubUrl| + |repoName| + |branchName| + |fileName| + 3
      ensures r[..|gitHubUrl|] == gitHubUrl && r[|gitHubUrl|] == '/'
      ensures r[|gitHubUrl| + 1..|gitHubUrl| + 1 + |repoName|] == repoName
      ensures r[|gitHubUrl| + 1 + |repoName|] == '/'
      ensures r[|r| - |fileName| - |branchName| - 1..|r| - |fileName| - 1] == branchName
      ensures r[|r| - |fileName| - 1] == '/' && r[|r| - |fileName|..] == fileName
    {
      gitHubUrl + "/" + repoName + "/" + branchName + "/" + fileName
    }

    /**
     * The language of the source tag: `lang` unless it is exactly `auto`;
     * for `auto`, the file's extension, with `py` spelled `python`.
     */
    function GetLang(): (r: string)
      reads this
      ensures lang != "auto" ==> r == lang
      ensures lang == "auto" && PathInfoExtension(fileName) == "py" ==> r == "python"
      ensures lang == "auto" && PathInfoExtension(fileName) != "py" ==> r == PathInfoExtension(fileName)
    {
      if lang != "auto" then lang
      else
        var fileExt := PathInfoExtension(fileName);
        if fileExt == "py" then "python" else fileExt
    }

    /** A file is Markdown exactly when its name ends in `.md` or `.markdown`, case-sensitively. */
    predicate IsMarkdownFile()
      reads this
      ensures IsMarkdownFile() <==> EndsWith(fileName, ".md") || EndsWith(fileName, ".markdown")
    {
      assert "." + "md" == ".md" && "." + "markdown" == ".markdown";
      FileHasExtension("md") || FileHasExtension("markdown")
    }

    /**
     * `substr($fileName, -strlen(".ext")) === ".ext"`: the file name ends in
     * a dot and `extension`. A name shorter than that suffix never matches.
     */
    predicate FileHasExtension(extension: string)
      reads this
      ensures FileHasExtension(extension) <==> EndsWith(fileName, "." + extension)
      ensures |fileName| <= |extension| ==> !FileHasExtension(extension)
    {
      var fullExtension := "." + extension;
      SubstrSuffixTest(fileName, fullExtension);
      SubstrFromEnd(fileName, |fullExtension|) == fullExtension
    }

    /** `Markdown::defaultTransform` applied to the fetched text, with nothing added around it. */
    function RenderAsMarkdown(content: string): (r: string)
      ensures r == markdown(content)
    {
      markdown(content)
    }
  }

  /**
   * For a Markdown file neither the requested language nor the wiki parser
   * has any effect on the result.
   */
  lemma MarkdownIgnoresLangAndParser(h1: GitHubParserHook, h2: GitHubParserHook, p1: string -> string, p2: string -> string)
    requires h1.fileFetcher == h2.fileFetcher && h1.gitHubUrl == h2.gitHubUrl && h1.markdown == h2.markdown
    requires h1.fileName == h2.fileName && h1.repoName == h2.repoName && h1.branchName == h2.branchName
    requires h1.IsMarkdownFile()
    ensures h1.GetRenderedContent(p1) == h2.GetRenderedContent(p2)
  {
  }

  /**
   * A failed fetch is not an error: the file renders as if it were empty,
   * through the same branch a fetched file would take.
   */
  lemma FetchFailureRendersEmpty(h: GitHubParserHook, parser: string -> string)
    requires h.fileFetcher(h.GetFileUrl()) == FetchFailed
    ensures h.IsMarkdownFile() ==> h.GetRenderedContent(parser) == h.markdown([])
    ensures !h.IsMarkdownFile() ==> h.GetRenderedContent(parser) == parser(SourceTag(h.GetLang(), []))
  {
  }

  /**
   * The file name's case matters: `README.MD` is not a Markdown file (and so
   * is rendered as source code).
   */
  lemma UpperCaseMdIsNotMarkdown(h: GitHubParserHook)
    requires h.fileName == "README.MD"
    ensures !h.IsMarkdownFile()
  {
    assert SubstrFromEnd(h.fileName, 3) == ".MD";
    assert h.FileHasExtension("md") == (SubstrFromEnd(h.fileName, 3) == ".md");
  }

  /**
   * Only a name ending in `d` or `n` can be a Markdown file name.
   */
  lemma NotMarkdownByLastChar(h: GitHubParserHook)
    requires h.fileName != [] && h.fileName[|h.fileName| - 1] != 'd' && h.fileName[|h.fileName| - 1] != 'n'
    ensures !h.IsMarkdownFile()
  {
    if EndsWith(h.fileName, ".md") {
      EndsWithLastChar(h.fileName, ".md");
    }
    if EndsWith(h.fileName, ".markdown") {
      EndsWithLastChar(h.fileName, ".markdown");
    }
  }

  /**
   * With `lang` set to `auto`, a file `p.e` (where `e` has no `.` and no `/`)
   * is highlighted as `e`, except that `py` becomes `python`.
   */
  lemma AutoLangOfDottedName(h: GitHubParserHook, p: string, e: string)
    requires h.lang == "auto" && h.fileName == p + "." + e
    requires '.' !in e && '/' !in e
    ensures h.GetLang() == if e == "py" then "python" else e
  {
    ExtensionOfDottedName(p, e);
  }

  /**
   * With `lang` set to `auto`, a file whose last segment has no `.` gets the
   * empty language, whether it is a bare name or sits below a directory, and
   * even when a directory above it has a `.` in its name.
   */
  lemma AutoLangWithoutExtension(h: GitHubParserHook, dir: string, name: string)
    requires h.lang == "auto" && (h.fileName == name || h.fileName == dir + "/" + name)
    requires '.' !in name && '/' !in name
    ensures h.GetLang() == []
  {
    ExtensionOfPlainName(dir, name);
  }

  /**
   * The language is `python` exactly when it was asked for by name, or when
   * `auto` meets a file whose extension is `py` or `python`.
   */
  lemma LangIsPython(h: GitHubParserHook)
    ensures h.GetLang() == "python" <==>
      h.lang == "python" ||
      (h.lang == "auto" && (PathInfoExtension(h.fileName) == "py" || PathInfoExtension(h.fileName) == "python"))
  {
  }

  /**
   * For one base URL and repository, the fetch URL determines the branch and
   * the file, provided branch names hold no `/`.
   */
  lemma FileUrlDeterminesBranchAndFile(h1: GitHubParserHook, h2: GitHubParserHook)
    requires h1.gitHubUrl == h2.gitHubUrl && h1.repoName == h2.repoName
    requires '/' !in h1.branchName && '/' !in h2.branchName
    requires h1.GetFileUrl() == h2.GetFileUrl()
    ensures h1.branchName == h2.branchName && h1.fileName == h2.fileName
  {
  }

  /**
   * Without that proviso the URL is ambiguous: branch `feature/x` with file
   * `a.py` and branch `feature` with file `x/a.py` are fetched from one URL.
   */
  lemma FileUrlAmbiguousWithSlashedBranch(h1: GitHubParserHook, h2: GitHubParserHook)
    requires h1.gitHubUrl == h2.gitHubUrl && h1.repoName == h2.repoName
    requires h1.branchName == "feature/x" && h1.fileName == "a.py"
    requires h2.branchName == "feature" && h2.fileName == "x/a.py"
    ensures h1.GetFileUrl() == h2.GetFileUrl()
    ensures h1.branchName != h2.branchName
  {
  }

  /** `README.md` in `acme/widgets` on `main`, with `lang=auto`: the Markdown transform of `# Hi`. */
  lemma ScenarioMarkdown(h: GitHubParserHook, parser: string -> string)
    requires h.fileName == "README.md" && h.repoName == "acme/widgets" && h.branchName == "main"
    requires h.lang == "auto"
    requires h.fileFetcher(h.gitHubUrl + "/acme/widgets/main/README.md") == Fetched("# Hi")
    ensures h.GetRenderedContent(parser) == h.markdown("# Hi")
  {
    assert "README" + ".md" == h.fileName;
    assert h.GetFileUrl() == h.gitHubUrl + "/acme/widgets/main/README.md";
  }

  /** `main.py` with `lang=auto`: highlighted as `python`. */
  lemma ScenarioPython(h: GitHubParserHook, parser: string -> string)
    requires h.fileName == "main.py" && h.repoName == "acme/widgets" && h.branchName == "main"
    requires h.lang == "auto"
    requires h.fileFetcher(h.gitHubUrl + "/acme/widgets/main/main.py") == Fetched("print(1)")
    ensures h.GetRenderedContent(parser) == parser(SourceTag("python", "print(1)"))
  {
    assert h.GetFileUrl() == h.gitHubUrl + "/acme/widgets/main/main.py";
    assert h.GetFileContent() == "print(1)";
    NotMarkdownByLastChar(h);
    assert h.fileName == "main" + "." + "py";
    AutoLangOfDottedName(h, "main", "py");
  }

  /** `app.rb` with `lang=ruby`: the requested language is used as it is. */
  lemma ScenarioExplicitLang(h: GitHubParserHook, parser: string -> string)
    requires h.fileName == "app.rb" && h.repoName == "acme/widgets" && h.branchName == "main"
    requires h.lang == "ruby"
    requires h.fileFetcher(h.gitHubUrl + "/acme/widgets/main/app.rb") == Fetched("puts 1")
    ensures h.GetRenderedContent(parser) == parser(SourceTag("ruby", "puts 1"))
  {
    assert h.GetFileUrl() == h.gitHubUrl + "/acme/widgets/main/app.rb";
    assert h.GetFileContent() == "puts 1";
    NotMarkdownByLastChar(h);
  }

  /** `missing.txt` whose fetch fails, with `lang=auto`: an empty `txt` source block. */
  lemma ScenarioFetchFailure(h: GitHubParserHook, parser: string -> string)
    requires h.fileName == "missing.txt" && h.repoName == "x" && h.branchName == "y"
    requires h.lang == "auto"
    requires h.fileFetcher(h.gitHubUrl + "/x/y/missing.txt") == FetchFailed
    ensures h.GetRenderedContent(parser) == parser(SourceTag("txt", []))
  {
    assert h.GetFileUrl() == h.gitHubUrl + "/x/y/missing.txt";
    assert h.GetFileContent() == [];
    NotMarkdownByLastChar(h);
    assert h.fileName == "missing" + "." + "txt";
    AutoLangOfDottedName(h, "missing", "txt");
  }
}
