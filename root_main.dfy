/** main.py: `google_SERP_links` and `scrape_url_content`. */
module RootMain {
  import opened Wrappers
  import Web
  import Lines
  import Serp

  /** The assertion on `items` is bare, so its message is empty. */
  const ItemsMessage := ""

  /** `google_SERP_links` of this script. */
  method GoogleSerpLinks(numResults: int, params: Serp.Params, api: Serp.Params -> Serp.Reply)
    returns (result: Result<seq<string>, Serp.SerpError>, requested: seq<Serp.Params>)
    ensures Serp.Run(requested, result) == Serp.Collected(Serp.Offsets(numResults), params, api, ItemsMessage)
  {
    result, requested := Serp.CollectLinks(numResults, params, api, ItemsMessage);
  }

  /** One body's contribution: its non-empty stripped lines joined by "\n". */
  function BodyText(body: string): string {
    Lines.VisibleText(body, 0)
  }

  /** f applied to each element, the results concatenated in order. Unlike
      `Lines.Concat` it takes elements off the end, as `overall +=` does, so
      the loop's invariant holds by one unfolding. */
  function ConcatMap(f: string -> string, xs: seq<string>): string
    decreases |xs|
  {
    if xs == [] then "" else ConcatMap(f, xs[..|xs| - 1]) + f(xs[|xs| - 1])
  }

  /** The text of all bodies, concatenated with nothing between them. */
  function BodiesText(bodies: seq<string>): string {
    ConcatMap(BodyText, bodies)
  }

  /** `scrape_url_content`: the page is given as the `get_text()` of every
      `<body>` element in document order. "" on an exception or a status
      other than 200; otherwise the bodies' filtered texts, concatenated. */
  method ScrapeUrlContent(fetched: Web.Fetch<seq<string>>) returns (content: string)
    ensures fetched.Raised? ==> content == ""
    ensures fetched.Response? && fetched.status != Web.StatusOk ==> content == ""
    ensures fetched.Response? && fetched.status == Web.StatusOk ==> content == BodiesText(fetched.page)
  {
    match fetched
    case Raised =>
      content := "";
    case Response(status, bodies) =>
      if status == Web.StatusOk {
        var overall := "";
        for i := 0 to |bodies|
          invariant overall == BodiesText(bodies[..i])
        {
          assert bodies[..i + 1][..i] == bodies[..i];
          overall := overall + BodyText(bodies[i]);
        }
        assert bodies[..|bodies|] == bodies;
        content := overall;
      } else {
        content := "";
      }
  }

  lemma {:induction false} ConcatMapAppend(f: string -> string, a: seq<string>, b: seq<string>)
    ensures ConcatMap(f, a + b) == ConcatMap(f, a) + ConcatMap(f, b)
    decreases |b|
  {
    if b == [] {
      assert a + b == a;
    } else {
      var init := b[..|b| - 1];
      assert (a + b)[..|a + b| - 1] == a + init;
      ConcatMapAppend(f, a, init);
    }
  }

  /** The text of a + b is the text of a followed by that of b: bodies are
      taken in order, with no separator. */
  lemma BodiesTextAppend(a: seq<string>, b: seq<string>)
    ensures BodiesText(a + b) == BodiesText(a) + BodiesText(b)
  {
    ConcatMapAppend(BodyText, a, b);
  }

  /** Each body contributes exactly its non-empty stripped lines: there is no
      length threshold. */
  lemma BodyKeepsEveryNonEmptyLine(text: string)
    ensures forall l :: l in Lines.SplitLines(Lines.VisibleText(text, 0)) <==>
              l in Lines.StrippedLines(text) && l != []
  {
    Lines.VisibleLinesWellFormed(text, 0);
  }

  /** A body's contribution is the "\n"-join of good lines. */
  lemma BodyTextGood(body: string)
    ensures Lines.GoodLines(Lines.KeepLines(Lines.StrippedLines(body), 0))
  {
  }

  /** The whole text of the bodies is a "\n"-join of good lines. */
  lemma {:induction false} BodiesTextJoin(bodies: seq<string>) returns (lines: seq<string>)
    ensures Lines.GoodLines(lines) && BodiesText(bodies) == Lines.Join(lines)
    decreases |bodies|
  {
    if bodies == [] {
      lines := [];
    } else {
      var init := BodiesTextJoin(bodies[..|bodies| - 1]);
      var kept := Lines.KeepLines(Lines.StrippedLines(bodies[|bodies| - 1]), 0);
      BodyTextGood(bodies[|bodies| - 1]);
      lines := Lines.JoinGlue(init, kept);
    }
  }

  /** However the bodies' texts run together, the output of the extractor has
      no blank line, and no line begins or ends with whitespace. */
  lemma BodiesTextLines(bodies: seq<string>)
    ensures forall l :: l in Lines.SplitLines(BodiesText(bodies)) ==> l != [] && Lines.IsStripped(l)
  {
    var lines := BodiesTextJoin(bodies);
    Lines.SplitJoin(lines);
  }

  lemma ConcatMapPair(f: string -> string, x: string, y: string)
    ensures ConcatMap(f, [x, y]) == f(x) + f(y)
  {
    assert [x, y][..1] == [x];
    assert [x][..0] == [];
    assert ConcatMap(f, [x]) == "" + f(x) == f(x);
  }

  /** Two one-line bodies give one line, the two glued together. */
  lemma BodiesMergeLines(first: string, second: string)
    requires first != [] && Lines.NoBreak(first) && Lines.IsStripped(first)
    requires second != [] && Lines.NoBreak(second) && Lines.IsStripped(second)
    ensures BodiesText([first, second]) == first + second
    ensures Lines.SplitLines(BodiesText([first, second])) == [first + second]
  {
    assert BodyText(first) == first by { Lines.SingleLine(first, 0); }
    assert BodyText(second) == second by { Lines.SingleLine(second, 0); }
    ConcatMapPair(BodyText, first, second);
    Lines.GluedLine(first, second);
  }
}
