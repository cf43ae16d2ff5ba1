/**
 * The top level of og-image-generator/app.js: the command-line arguments,
 * the post read, the filled-in page and the exit status of the process.
 * Reading and parsing the post file is a parameter `readPost`, queried with
 * the language and the post name; the template file's text is an input.
 */
module Invocation {
  import opened Wrappers
  import opened Replace
  import opened Template
  import opened IsoDate

  /** The front-matter attributes the page uses. */
  datatype PostMeta = PostMeta(title: string, date: UtcDateTime)

  /** How a run ends before the capture pipeline starts. */
  datatype Outcome =
    | UsageError              // no post argument: exit status 1
    | ReadFailed              // the post could not be read or parsed: exit status 2
    | Rendered(page: string)  // the page served to the browser; exit status 0

  /** Settings of the screenshot step, recorded but not modelled. */
  datatype CaptureConfig = CaptureConfig(
    defaultPort: nat, width: nat, height: nat, deviceScaleFactor: nat,
    selector: string, browserArgs: seq<string>)

  const CAPTURE := CaptureConfig(3000, 1200, 630, 2, ".window", ["--no-sandbox"])

  /** `process.argv[2]`, kept only when truthy (present and non-empty). */
  function PostArg(argv: seq<string>): (r: Option<string>)
    ensures r.Some? <==> |argv| > 2 && argv[2] != []
    ensures r.Some? ==> r.value == argv[2]
  {
    if |argv| > 2 && argv[2] != [] then Some(argv[2]) else None
  }

  /** `process.argv[3] || ""`. */
  function LangArg(argv: seq<string>): string {
    if |argv| > 3 && argv[3] != [] then argv[3] else ""
  }

  /** The language is the fourth argument when there is one and the empty string otherwise. */
  lemma LangDefault(argv: seq<string>)
    ensures |argv| <= 3 ==> LangArg(argv) == ""
    ensures |argv| > 3 ==> LangArg(argv) == argv[3]
  {
  }

  /** Lines 13-38: check the post argument, read the post, fill in the template. */
  function Run(argv: seq<string>, readPost: (string, string) -> Option<PostMeta>, template: string): Outcome {
    match PostArg(argv)
    case None => UsageError
    case Some(post) =>
      match readPost(LangArg(argv), post)
      case None => ReadFailed
      case Some(meta) => Rendered(Render(template, meta.title, PublishedDate(meta.date)))
  }

  /** The status passed to `process.exit`. */
  function ExitStatus(o: Outcome): (status: nat)
    ensures status <= 2
  {
    match o
    case UsageError => 1
    case ReadFailed => 2
    case Rendered(_) => 0
  }

  /**
   * The status the process ends with: 1 exactly when the post argument is
   * missing or empty, 2 exactly when a post is named but reading it fails,
   * 0 exactly when it is read, and then the page is the filled-in template.
   */
  function RunExitStatus(argv: seq<string>, readPost: (string, string) -> Option<PostMeta>, template: string): (status: nat)
    ensures status == 1 <==> (|argv| <= 2 || argv[2] == [])
    ensures status == 2 <==> (|argv| > 2 && argv[2] != [] && readPost(LangArg(argv), argv[2]).None?)
    ensures status == 0 <==> (|argv| > 2 && argv[2] != [] && readPost(LangArg(argv), argv[2]).Some?)
    ensures status == 0 ==>
      var meta := readPost(LangArg(argv), argv[2]).value;
      Run(argv, readPost, template) == Rendered(Render(template, meta.title, PublishedDate(meta.date)))
  {
    ExitStatus(Run(argv, readPost, template))
  }

  /** Without a post argument nothing is read: the outcome does not depend on the reader. */
  lemma NoPostReadsNothing(argv: seq<string>, r1: (string, string) -> Option<PostMeta>,
                           r2: (string, string) -> Option<PostMeta>, template: string)
    requires |argv| <= 2 || argv[2] == []
    ensures Run(argv, r1, template) == Run(argv, r2, template) == UsageError
  {
  }

  /** Only the post named by the arguments, in their language, is read. */
  lemma RunReadsNamedPost(argv: seq<string>, r1: (string, string) -> Option<PostMeta>,
                          r2: (string, string) -> Option<PostMeta>, template: string)
    requires |argv| > 2 && argv[2] != []
    requires r1(LangArg(argv), argv[2]) == r2(LangArg(argv), argv[2])
    ensures Run(argv, r1, template) == Run(argv, r2, template)
  {
  }

  /** No character of a placeholder token is a digit or a dash. */
  lemma TokensHaveNoDateCharacters()
    ensures forall c :: c in DATE_TOKEN ==> !IsDigit(c) && c != '-'
    ensures forall c :: c in TITLE_TOKEN ==> !IsDigit(c) && c != '-'
  {
  }

  /** A published date can neither hold nor help form a placeholder token. */
  lemma PublishedDateIsolatesTokens(d: UtcDateTime)
    ensures Isolates(PublishedDate(d), DATE_TOKEN)
    ensures Isolates(PublishedDate(d), TITLE_TOKEN)
  {
    var date := PublishedDate(d);
    TokensHaveNoDateCharacters();
    assert date[4] == '-';
    assert '{' !in date && '}' !in date by {
      forall k | 0 <= k < |date|
        ensures date[k] != '{' && date[k] != '}'
      {
        if k != 4 && k != 7 {
          assert IsDigit(date[k]);
        }
      }
    }
  }

  /** A rendered page holds no `{{publishedDate}}`, whatever the template and the title. */
  lemma RunResolvesDate(argv: seq<string>, readPost: (string, string) -> Option<PostMeta>, template: string)
    requires Run(argv, readPost, template).Rendered?
    ensures !Contains(Run(argv, readPost, template).page, DATE_TOKEN)
  {
    var meta := readPost(LangArg(argv), argv[2]).value;
    PublishedDateIsolatesTokens(meta.date);
    RenderResolvesDate(template, meta.title, PublishedDate(meta.date));
  }

  /** It holds no `{{title}}` either, provided the title cannot form that token. */
  lemma RunResolvesTitle(argv: seq<string>, readPost: (string, string) -> Option<PostMeta>, template: string)
    requires Run(argv, readPost, template).Rendered?
    requires Isolates(readPost(LangArg(argv), argv[2]).value.title, TITLE_TOKEN)
    ensures !Contains(Run(argv, readPost, template).page, TITLE_TOKEN)
  {
    var meta := readPost(LangArg(argv), argv[2]).value;
    PublishedDateIsolatesTokens(meta.date);
    RenderResolvesAll(template, meta.title, PublishedDate(meta.date));
  }

  /** `npm run og-image -- "xss-article"`: no language, and the page gets the post's title and day. */
  lemma RunExample(readPost: (string, string) -> Option<PostMeta>, title: string, date: UtcDateTime)
    requires readPost("", "xss-article") == Some(PostMeta(title, date))
    requires '{' !in title
    ensures Run(["node", "app.js", "xss-article"], readPost, "<h1>{{title}}</h1><p>{{publishedDate}}</p>")
         == Rendered("<h1>" + title + "</h1><p>" + PublishedDate(date) + "</p>")
  {
    var argv := ["node", "app.js", "xss-article"];
    assert PostArg(argv) == Some("xss-article");
    assert LangArg(argv) == "";
    RenderExample(title, PublishedDate(date));
  }
}
