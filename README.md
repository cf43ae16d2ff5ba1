# Blog preview image and post data, in Dafny

This project models the parts of the blog repository that compute something:

- The social-preview image generator, `og-image-generator/app.js`. It reads the
  post named on the command line, fills the title and the publication day into
  an HTML template, and exits with status 1, 2 or 0. It also defines an
  angle-bracket `escape` helper.
- The Eleventy computed data of the posts directory, `posts/posts.11tydata.js`.
  A draft gets `permalink: false`, so its page is not written. Every other post
  has `posts` pushed onto its own tag list.

Modules:

- `Replace` (`replace.dfy`): the global, literal, left-to-right replace that
  `String.prototype.replace` performs with a `/…/g` pattern. It comes with its
  reference definitions: leftmost occurrence `IndexOf`, `Count`, and
  `Split`/`Join`.
- `Template` (`template.dfy`): the two chained passes of app.js:36-38, title
  first, then date.
- `IsoDate` (`iso_date.dfy`): the UTC fields of a `Date`, and
  `toISOString()` in the Date Time String Format of ECMA-262. It also models
  `substr(0, 10)`, which keeps `YYYY-MM-DD`.
- `Escape` (`escape.dfy`): `escape`, with a character-by-character reference
  it is proved equal to.
- `Invocation` (`invocation.dfy`): the argument handling, the post read, the
  rendered page and the exit status. Reading and parsing the post is a function
  parameter `readPost(lang, post)`; `None` stands for a read or parse failure.
- `PostsData` (`posts_data.dfy`): classes `TagList` and `PostData`. The array
  that `tags` pushes onto and returns is a `TagList` object, so "returns the
  same list" is reference equality.
- `Wrappers` (`wrappers.dfy`): `Option`.

What `app.js` does not guarantee, and the model therefore does not promise:

- `app.js` does not guarantee that no placeholder is left after rendering. No
  date placeholder is left, whatever the title: `Invocation.RunResolvesDate`. It holds for the title only when the
  title cannot form `{{title}}` again: `Invocation.RunResolvesTitle`. A title
  that is itself `{{title}}` stays in the page:
  `Template.RenderTitleTokenInTitleStays`.
- `app.js` does not stop the server or close the browser on a failure, so the
  model has no cleanup step.
- `app.js` has no exit statuses besides 1, 2 and 0.

## Model

| member | source | states |
|---|---|---|
| `Replace.ReplaceAll` | og-image-generator/app.js:37-38 | one global literal replace pass, scanning left to right and never rescanning inserted text; its meaning is given by the lemmas below |
| `Replace.Count` | og-image-generator/app.js:37-38 | the matches a pass finds never overlap: their total length fits in the text |
| `Replace.IndexOf` | og-image-generator/app.js:37 | a match, when found, is a real occurrence of the token; when none is found, the token does not occur |
| `Replace.IndexOfLeftmost` | og-image-generator/app.js:37 | the match found is the leftmost one: no occurrence starts before it |
| `Replace.ReplaceAllAtFirst` | og-image-generator/app.js:37 | a pass copies the text before the leftmost match, inserts the value, and carries on after the match |
| `Replace.CountAtFirst` | og-image-generator/app.js:37 | the number of matches follows the same leftmost steps |
| `Replace.CountZeroIff` | og-image-generator/app.js:37 | a pass finds no match exactly when the token does not occur |
| `Replace.ReplaceAllWithoutToken` | og-image-generator/app.js:37-38 | a text without the token passes through unchanged |
| `Replace.ReplaceAllSelf` | og-image-generator/app.js:37-38 | replacing a token by itself is the identity |
| `Replace.ReplaceAllLength` | og-image-generator/app.js:37-38 | result length = text length + matches × (value length − token length) |
| `Replace.Split` | og-image-generator/app.js:37 | cutting at every leftmost match gives at least one piece, and no piece holds the token |
| `Replace.JoinSplit` | og-image-generator/app.js:37 | joining the pieces with the token gives back the text, so the text between matches is kept |
| `Replace.ReplaceAllIsJoin` | og-image-generator/app.js:37 | a pass equals joining the pieces with the value |
| `Replace.SplitCount` | og-image-generator/app.js:37 | there is one more piece than there are matches |
| `Replace.ReplaceAllPlainPrefix` | og-image-generator/app.js:37 | text without the token's first character is copied unchanged ahead of the rest |
| `Replace.ReplaceAllTokenPrefix` | og-image-generator/app.js:37 | a leading token becomes the value |
| `Replace.ReplaceAllOneMatch` | og-image-generator/app.js:37 | a single token between plain text is replaced and the text around it kept |
| `Replace.ReplaceAllRemovesToken` | og-image-generator/app.js:37-38 | after a pass with a value that cannot form the token, the token no longer occurs |
| `Replace.ReplaceAllKeepsAbsent` | og-image-generator/app.js:37-38 | a pass does not create another token that neither the text nor the value can form |
| `Template.Render` | og-image-generator/app.js:36-38 | the template with every `{{title}}` replaced by the title, then every `{{publishedDate}}` by the date; its meaning is given by the lemmas below |
| `Template.RenderWithoutPlaceholders` | og-image-generator/app.js:36-38 | a template without placeholders is served unchanged |
| `Template.RenderResolvesDate` | og-image-generator/app.js:38 | with a date that cannot form `{{publishedDate}}`, none is left, whatever the title |
| `Template.RenderResolvesAll` | og-image-generator/app.js:37-38 | with values that cannot form either token, neither token is left |
| `Template.RenderTitleBeforeDate` | og-image-generator/app.js:37-38 | for any template text around a title placeholder and any title text around a date placeholder, the date placeholder inside the title is replaced by the date too, since the title goes in first |
| `Template.RenderTitleTokenInTitleStays` | og-image-generator/app.js:37-38 | a title that reads `{{title}}` stays in the page as that token |
| `Template.RenderFillsPlaceholders` | og-image-generator/app.js:36-38 | a template with one title and one date placeholder gets both values and keeps the text around them |
| `Template.RenderExample` | og-image-generator/app.js:36-38 | `<h1>{{title}}</h1><p>{{publishedDate}}</p>` becomes the heading with the title and the paragraph with the date |
| `IsoDate.Digit` | og-image-generator/app.js:38 | a decimal digit character with the value asked for |
| `IsoDate.Pad` | og-image-generator/app.js:38 | zero-padding gives exactly the requested number of digits |
| `IsoDate.PadRoundTrip` | og-image-generator/app.js:38 | reading a padded number back gives the number |
| `IsoDate.ToIsoString` | og-image-generator/app.js:38 | the ISO string has 24 characters with its separators `- - T : : . Z` in their places |
| `IsoDate.Substr` | og-image-generator/app.js:38 | `substr(start, length)` gives at most `length` characters from `start`, cut at the end of the string |
| `IsoDate.PublishedDate` | og-image-generator/app.js:38 | the published date has 10 characters, dashes at 4 and 7 and digits elsewhere |
| `IsoDate.PublishedDateIsDatePart` | og-image-generator/app.js:38 | it is exactly the first ten characters of the ISO string, the padded year, month and day |
| `IsoDate.PublishedDateIgnoresTime` | og-image-generator/app.js:38 | the time of day does not change it |
| `IsoDate.PublishedDateRoundTrip` | og-image-generator/app.js:38 | reading it back gives the year, month and day, so no information about the day is lost |
| `IsoDate.PublishedDateSameDay` | og-image-generator/app.js:38 | two instants give the same published date exactly when they fall on the same UTC day |
| `IsoDate.PublishedDateExample` | og-image-generator/app.js:38 | 2021-03-07 at 23:59:59.999 gives `2021-03-07` |
| `Escape.Escape` | og-image-generator/app.js:61-64 | `""` for a missing or empty input, otherwise the `<` pass then the `>` pass; its meaning is given by the lemmas below |
| `Escape.ReplaceAllOneChar` | og-image-generator/app.js:63 | a pass with a one-character token replaces that character wherever it stands |
| `Escape.TwoPassesAreEach` | og-image-generator/app.js:63 | the `<` pass followed by the `>` pass maps every character on its own |
| `Escape.EscapeIsEach` | og-image-generator/app.js:61-64 | `escape` equals the character-by-character reference |
| `Escape.EscapeEachConcat` | og-image-generator/app.js:63 | the reference maps a concatenation part by part |
| `Escape.EscapeEachLength` | og-image-generator/app.js:63 | the reference adds three characters per angle bracket |
| `Escape.EscapeEachNoBrackets` | og-image-generator/app.js:63 | the reference leaves no angle bracket |
| `Escape.EscapeEachPlain` | og-image-generator/app.js:63 | the reference keeps text without angle brackets |
| `Escape.EscapeMissingOrEmpty` | og-image-generator/app.js:62 | a missing or empty input gives the empty string |
| `Escape.EscapeRemovesBrackets` | og-image-generator/app.js:61-64 | the result holds no `<` and no `>` |
| `Escape.EscapeLength` | og-image-generator/app.js:63 | result length = input length + 3 × count of `<` + 3 × count of `>` |
| `Escape.EscapeConcat` | og-image-generator/app.js:63 | escaping a concatenation escapes each part, so every character keeps its place in the order |
| `Escape.EscapeKeepsPlainText` | og-image-generator/app.js:63 | text without angle brackets, `&` included, is returned unchanged |
| `Escape.EscapeIdempotent` | og-image-generator/app.js:61-64 | escaping twice is escaping once |
| `Escape.EscapeNotInjective` | og-image-generator/app.js:63 | because `&` is kept, `<` and the text `&lt;` escape to the same output |
| `Invocation.PostArg` | og-image-generator/app.js:13-18 | the post argument counts exactly when `argv[2]` is present and non-empty, and then it is `argv[2]` |
| `Invocation.LangArg` | og-image-generator/app.js:14 | `process.argv[3]`, or `""` when it is absent or empty; `Invocation.LangDefault` states its value |
| `Invocation.LangDefault` | og-image-generator/app.js:14 | the language is `argv[3]` when there is one, `""` otherwise |
| `Invocation.Run` | og-image-generator/app.js:13-38 | checks the post argument, reads the post, fills in the template; `Invocation.RunExitStatus` states each outcome |
| `Invocation.ExitStatus` | og-image-generator/app.js:18-34 | the status is one of 0, 1 and 2 |
| `Invocation.RunExitStatus` | og-image-generator/app.js:13-38 | status 1 exactly when the post argument is missing; 2 exactly when the post cannot be read; 0 exactly when it is read, and then the page is the template filled with its title and published date |
| `Invocation.NoPostReadsNothing` | og-image-generator/app.js:18-21 | without a post argument the run stops before reading anything: the outcome does not depend on the reader |
| `Invocation.RunReadsNamedPost` | og-image-generator/app.js:24-30 | only the post named by the arguments, in their language, is read |
| `Invocation.TokensHaveNoDateCharacters` | og-image-generator/app.js:37-38 | neither placeholder holds a digit or a dash |
| `Invocation.PublishedDateIsolatesTokens` | og-image-generator/app.js:38 | a published date can neither hold nor help form a placeholder |
| `Invocation.RunResolvesDate` | og-image-generator/app.js:36-38 | a rendered page never holds `{{publishedDate}}` |
| `Invocation.RunResolvesTitle` | og-image-generator/app.js:36-38 | a rendered page holds no `{{title}}` when the title cannot form it |
| `Invocation.RunExample` | og-image-generator/app.js:13-38 | `npm run og-image -- "xss-article"` reads that post with no language and renders its title and day |
| `PostsData.TagList.constructor` | posts/posts.11tydata.js:11 | a new list holds exactly the given tags |
| `PostsData.TagList.Push` | posts/posts.11tydata.js:8 | `push` appends one tag at the end and changes nothing else |
| `PostsData.PostData.constructor` | posts/posts.11tydata.js:6 | the page data holds the given draft flag and tag list |
| `PostsData.PostData.Permalink` | posts/posts.11tydata.js:3-5 | `false` exactly for a draft; no value (undefined) for any other post |
| `PostsData.PostData.ComputedTags` | posts/posts.11tydata.js:6-12 | not a draft: returns the page's own list, now with `posts` after its old entries; draft: a new empty list, and the page's list is unchanged |
| `PostsData.TagsAfter` | posts/posts.11tydata.js:7-11 | the tag list `tags` leaves behind; `PostData.ComputedTags` is proved to produce it, and the lemmas below state its properties |
| `PostsData.TagsAfterAppends` | posts/posts.11tydata.js:7-9 | outside drafts the list grows by one, keeps every earlier entry in place and ends with `posts` |
| `PostsData.TagsAfterDraft` | posts/posts.11tydata.js:11 | a draft's computed tags are empty, whatever it was tagged with |
| `PostsData.InCollectionIffPublished` | posts/posts.11tydata.js:3-12 | a page is in the `posts` collection exactly when its permalink is not overridden |
| `PostsData.TagsAfterNotIdempotent` | posts/posts.11tydata.js:8 | computing the tags twice pushes `posts` twice, which differs from computing them once |
| `PostsData.ComputeTagsTwice` | posts/posts.11tydata.js:8-9 | two evaluations on one page return the same list that the page holds, with two `posts` appended |

## Left out

- The Express server (app.js:7-8, 41-59): listening on a port, the `/` route and the static files are network I/O.
- The Puppeteer capture (app.js:66-89): the browser launch, the page, the viewport, the navigation and the screenshot are calls into a browser-automation library. Only their fixed settings are recorded, as `Invocation.CAPTURE`: 1200×630 at scale 2, selector `.window`, `--no-sandbox`, default port 3000.
- The exit status 0 at app.js:82 is reached only after the capture. The model gives it to every run that renders a page, and does not model the capture failing.
- A failed capture ends with an unhandled promise rejection, and its exit status is not modelled.
- Reading the post (app.js:29-30) and the front-matter library are a parameter, `readPost`. Reading the template (app.js:36) is an input. A failure to read the template is not modelled: it happens outside the `try` and ends with an uncaught exception.
- The post path built with `path.join` (app.js:24) is not modelled. The reader gets the language and the post name it would be built from.
- A post without a `date` throws at app.js:38, outside the `try`. The model makes the date a required field of `PostMeta` rather than a handled error.
- A post without a `title` would be inserted as the text `undefined`. The model makes the title a required string.
- `Replace.ReplaceAll`: the replacement is literal. JavaScript expands `$$`, `$&`, `` $` `` and `$'` in a replacement string (the patterns here have no capture groups, so `$1` stays literal); the model treats `$` as an ordinary character, which is exact for titles and dates without `$`.
- `IsoDate.ToIsoString`: covers years 0 to 9999 only. JavaScript writes other years in the extended form `+YYYYYY`. Time zones are also left out: the fields are taken to be UTC already.
- `process.env.PORT`, console output and the side effects of `process.exit` are ambient process state and are left out.
- Dafny strings are sequences of Unicode scalar values, while JavaScript strings are sequences of UTF-16 code units. The lengths in `Replace.ReplaceAllLength` and `Escape.EscapeLength` count characters, not code units, and a lone surrogate cannot be represented.
- `Escape.Escape` takes `Option<string>`. In JavaScript a falsy value that is not a string (`0`, `false`) also gives `""`, and a truthy value that is not a string throws; neither case is modelled.
- `draft` is a plain boolean. JavaScript truthiness of other values is not modelled.
- `PostsData.PostData.ComputedTags`: requires an existing tag list for a post that is not a draft, where JavaScript would throw when calling `push` on `undefined`.
