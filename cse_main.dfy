/** cse/main.py: `google_SERP_links` and `fetch_main_content`. */
module CseMain {
  import opened Wrappers
  import Web
  import Lines
  import Serp

  /** The text of the assertion on `items`. */
  const ItemsMessage := "The API response does not contain 'items'. Check the API response for issues."

  /** What `fetch_main_content` returns on a non-200 status or a page without
      a container. */
  const FailureMessage := "Failed to fetch content or no content available."

  /** Lines of at most this many characters are dropped. */
  const MinLineLength: nat := 50

  /** The parsed page after script, style, nav, footer, aside and form
      elements are removed: the `get_text()` of the first `<main>`, of the
      first `<article>` and of `<body>`, each None when the page has none. */
  datatype Document = Document(main: Option<string>, article: Option<string>, body: Option<string>)

  /** `google_SERP_links` of this script. */
  method GoogleSerpLinks(numResults: int, params: Serp.Params, api: Serp.Params -> Serp.Reply)
    returns (result: Result<seq<string>, Serp.SerpError>, requested: seq<Serp.Params>)
    ensures Serp.Run(requested, result) == Serp.Collected(Serp.Offsets(numResults), params, api, ItemsMessage)
  {
    result, requested := Serp.CollectLinks(numResults, params, api, ItemsMessage);
  }

  /** `soup.find("main") or soup.find("article") or soup.body`: a found tag is
      always true, so this is the first container present. */
  function MainContainer(doc: Document): (r: Option<string>)
    ensures r.None? <==> doc.main.None? && doc.article.None? && doc.body.None?
    ensures doc.main.Some? ==> r == doc.main
    ensures doc.main.None? && doc.article.Some? ==> r == doc.article
    ensures doc.main.None? && doc.article.None? ==> r == doc.body
  {
    if doc.main.Some? then doc.main
    else if doc.article.Some? then doc.article
    else doc.body
  }

  /** `fetch_main_content`: "" when an exception was raised, the fixed failure
      message exactly when the status is not 200 or there is no container,
      and otherwise the filtered text of the container, which is "" exactly
      when the container has no line longer than 50 characters. */
  function FetchMainContent(fetched: Web.Fetch<Document>): (r: string)
    ensures fetched.Raised? ==> r == ""
    ensures r == FailureMessage <==>
              fetched.Response? && (fetched.status != Web.StatusOk || MainContainer(fetched.page).None?)
    ensures fetched.Response? && fetched.status == Web.StatusOk && MainContainer(fetched.page).Some? ==>
              r == Lines.VisibleText(MainContainer(fetched.page).value, MinLineLength)
    ensures r == "" <==>
              fetched.Raised?
              || (fetched.status == Web.StatusOk && MainContainer(fetched.page).Some?
                  && forall l :: l in Lines.StrippedLines(MainContainer(fetched.page).value) ==> |l| <= MinLineLength)
  {
    match fetched
    case Raised => ""
    case Response(status, doc) =>
      if status == Web.StatusOk && MainContainer(doc).Some? then
        var text := MainContainer(doc).value;
        Lines.VisibleTextLength(text, MinLineLength);
        Lines.VisibleText(text, MinLineLength)
      else FailureMessage
  }

  /** Apart from the failure message, every line of the result is non-empty,
      longer than 50 characters and free of surrounding whitespace. */
  lemma FetchedLinesAreLong(fetched: Web.Fetch<Document>)
    requires FetchMainContent(fetched) != FailureMessage
    ensures forall l :: l in Lines.SplitLines(FetchMainContent(fetched)) ==>
              l != [] && |l| > MinLineLength && Lines.IsStripped(l)
  {
    if fetched.Response? {
      Lines.VisibleLinesWellFormed(MainContainer(fetched.page).value, MinLineLength);
    }
  }

  /** A `<main>` holding one line of more than 50 characters and one of at
      most 50 gives just the long line. */
  lemma LongLineScenario(long: string, short: string, article: Option<string>, body: Option<string>)
    requires long != [] && Lines.NoBreak(long) && Lines.IsStripped(long) && |long| > MinLineLength
    requires short != [] && Lines.NoBreak(short) && Lines.IsStripped(short) && |short| <= MinLineLength
    ensures FetchMainContent(Web.Response(Web.StatusOk, Document(Some(long + "\n" + short), article, body))) == long
  {
    var text := long + "\n" + short;
    assert Lines.Join([long, short]) == text;
    Lines.SplitJoin([long, short]);
    Lines.StripAllStripped([long, short]);
    assert Lines.StrippedLines(text) == [long, short];
    assert Lines.KeepLines([short], MinLineLength) == [];
  }
}
