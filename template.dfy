/**
 * The page behind the preview image (app.js:36-38): the template's title
 * placeholder is replaced by the post's title, then its date placeholder by
 * the published date. Each step is one global literal replace.
 */
module Template {
  import opened Replace

  const TITLE_TOKEN := "{{title}}"
  const DATE_TOKEN := "{{publishedDate}}"

  /** Both replace passes, title first. */
  function Render(template: string, title: string, publishedDate: string): string {
    ReplaceAll(ReplaceAll(template, TITLE_TOKEN, title), DATE_TOKEN, publishedDate)
  }

  /** A template without placeholders is served as it is. */
  lemma RenderWithoutPlaceholders(template: string, title: string, publishedDate: string)
    requires !Contains(template, TITLE_TOKEN) && !Contains(template, DATE_TOKEN)
    ensures Render(template, title, publishedDate) == template
  {
    ReplaceAllWithoutToken(template, TITLE_TOKEN, title);
    ReplaceAllWithoutToken(template, DATE_TOKEN, publishedDate);
  }

  /**
   * The date placeholder is always fully resolved when the date cannot take
   * part in a date placeholder, whatever the title and the template.
   */
  lemma RenderResolvesDate(template: string, title: string, publishedDate: string)
    requires Isolates(publishedDate, DATE_TOKEN)
    ensures !Contains(Render(template, title, publishedDate), DATE_TOKEN)
  {
    ReplaceAllRemovesToken(ReplaceAll(template, TITLE_TOKEN, title), DATE_TOKEN, publishedDate);
  }

  /** Neither placeholder is left when both values are isolating. */
  lemma RenderResolvesAll(template: string, title: string, publishedDate: string)
    requires Isolates(title, TITLE_TOKEN)
    requires Isolates(publishedDate, TITLE_TOKEN) && Isolates(publishedDate, DATE_TOKEN)
    ensures !Contains(Render(template, title, publishedDate), TITLE_TOKEN)
    ensures !Contains(Render(template, title, publishedDate), DATE_TOKEN)
  {
    var once := ReplaceAll(template, TITLE_TOKEN, title);
    ReplaceAllRemovesToken(template, TITLE_TOKEN, title);
    ReplaceAllKeepsAbsent(once, DATE_TOKEN, publishedDate, TITLE_TOKEN);
    ReplaceAllRemovesToken(once, DATE_TOKEN, publishedDate);
  }

  /**
   * The title is substituted first, so a date placeholder inside the title is
   * replaced by the date as well, together with the template's own text.
   */
  lemma RenderTitleBeforeDate(a: string, b: string, x: string, y: string, publishedDate: string)
    requires '{' !in a && '{' !in b && '{' !in x && '{' !in y
    ensures Render(a + TITLE_TOKEN + b, x + DATE_TOKEN + y, publishedDate)
         == a + x + publishedDate + y + b
  {
    var title := x + DATE_TOKEN + y;
    PlainPrefixWithout(b, [], TITLE_TOKEN);
    assert b + [] == b;
    ReplaceAllOneMatch(a, b, TITLE_TOKEN, title);
    assert a + title + b == (a + x) + DATE_TOKEN + (y + b);
    PlainPrefixWithout(y + b, [], DATE_TOKEN);
    assert (y + b) + [] == y + b;
    ReplaceAllOneMatch(a + x, y + b, DATE_TOKEN, publishedDate);
    assert (a + x) + publishedDate + (y + b) == a + x + publishedDate + y + b;
  }

  /** Inserted text is never scanned again: a title placeholder inside the title stays. */
  lemma RenderTitleTokenInTitleStays(publishedDate: string)
    ensures Render(TITLE_TOKEN, TITLE_TOKEN, publishedDate) == TITLE_TOKEN
  {
    ReplaceAllSelf(TITLE_TOKEN, TITLE_TOKEN);
    ReplaceAllWithoutToken(TITLE_TOKEN, DATE_TOKEN, publishedDate);
  }

  lemma DateTokenParts(c: string)
    ensures DATE_TOKEN + c == "{{" + ("publishedDate}}" + c)
    ensures '{' !in "publishedDate}}"
  {
  }

  lemma TitleMismatchAtHead(c: string)
    ensures !OccursAt("{{" + ("publishedDate}}" + c), TITLE_TOKEN, 0)
    ensures !OccursAt("{{" + ("publishedDate}}" + c), TITLE_TOKEN, 1)
  {
    var w := "{{" + ("publishedDate}}" + c);
    assert w[2] == 'p' && w[3] == 'u';
    assert w[0..9][2] == 'p';
    assert w[1..10][2] == 'u';
  }

  /** A date placeholder followed by text without `{` holds no title placeholder. */
  lemma DateTokenWithoutTitle(c: string)
    requires '{' !in c
    ensures !Contains(DATE_TOKEN + c, TITLE_TOKEN)
  {
    DateTokenParts(c);
    TitleMismatchAtHead(c);
    NoMatchPastHead("{{", "publishedDate}}" + c, TITLE_TOKEN);
  }

  /**
   * A template made of plain text around one title placeholder followed by
   * one date placeholder renders to that text with the two values in place.
   */
  lemma RenderFillsPlaceholders(a: string, b: string, c: string, title: string, publishedDate: string)
    requires '{' !in a && '{' !in b && '{' !in c && '{' !in title
    ensures Render(a + TITLE_TOKEN + b + DATE_TOKEN + c, title, publishedDate)
         == a + title + b + publishedDate + c
  {
    var rest := b + (DATE_TOKEN + c);
    DateTokenWithoutTitle(c);
    PlainPrefixWithout(b, DATE_TOKEN + c, TITLE_TOKEN);
    assert a + TITLE_TOKEN + b + DATE_TOKEN + c == a + TITLE_TOKEN + rest;
    ReplaceAllOneMatch(a, rest, TITLE_TOKEN, title);
    var x := a + title + b;
    assert a + title + rest == x + DATE_TOKEN + c;
    PlainPrefixWithout(c, [], DATE_TOKEN);
    assert c + [] == c;
    ReplaceAllOneMatch(x, c, DATE_TOKEN, publishedDate);
  }

  /** A heading-and-paragraph template, cut at its placeholders. */
  lemma ExampleTemplateParts()
    ensures "<h1>{{title}}</h1><p>{{publishedDate}}</p>" == "<h1>" + TITLE_TOKEN + "</h1><p>" + DATE_TOKEN + "</p>"
  {
  }

  /** A heading and a paragraph filled with a title and a date. */
  lemma RenderExample(title: string, publishedDate: string)
    requires '{' !in title
    ensures Render("<h1>{{title}}</h1><p>{{publishedDate}}</p>", title, publishedDate)
         == "<h1>" + title + "</h1><p>" + publishedDate + "</p>"
  {
    ExampleTemplateParts();
    RenderFillsPlaceholders("<h1>", "</h1><p>", "</p>", title, publishedDate);
  }
}
