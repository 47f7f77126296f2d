/** The link collector `google_SERP_links`, identical in both scripts except
    for the message of its assertion: one GET per offset of
    `range(1, num_results, 10)`, each with the caller's parameters and
    `start` set to the offset, appending every `items[].link` of the reply.
    The search API is a function from request parameters to a reply, so the
    requests the loop issues can be stated. */
module Serp {
  import opened Wrappers

  /** The step of the offsets: the API returns at most ten items a page. */
  const PageSize := 10

  /** A query parameter value: the scripts pass strings and the int offset. */
  datatype Value = Text(text: string) | Number(number: int)

  type Params = map<string, Value>

  /** One element of `items`; `link` is None when the key is absent. */
  datatype Item = Item(link: Option<string>)

  /** `response.json()` of one page: with or without an `items` list. */
  datatype Reply = NoItems | Items(items: seq<Item>)

  /** The two exceptions the loop can raise by itself. */
  datatype SerpError = AssertionError(message: string) | KeyError(key: string)

  /** The requests issued so far and the outcome of the call. */
  datatype Run = Run(requested: seq<Params>, result: Result<seq<string>, SerpError>)

  /** Python's `range(start, stop, step)` for a positive step. */
  function Range(start: int, stop: int, step: int): seq<int>
    requires step > 0
    decreases stop - start
  {
    if start >= stop then [] else [start] + Range(start + step, stop, step)
  }

  /** The offsets `google_SERP_links` requests. */
  function Offsets(numResults: int): seq<int> {
    Range(1, numResults, PageSize)
  }

  /** `params | {"start": start}`: the caller's parameters with only `start`
      set to the offset. */
  function WithStart(params: Params, start: int): (r: Params)
    ensures r.Keys == params.Keys + {"start"}
    ensures r["start"] == Number(start)
    ensures forall k :: k in params && k != "start" ==> r[k] == params[k]
  {
    params["start" := Number(start)]
  }

  /** The links of one page's items, in order; KeyError if one has none. */
  function PageLinks(items: seq<Item>): (r: Result<seq<string>, SerpError>)
    ensures r.Ok? <==> forall k :: 0 <= k < |items| ==> items[k].link.Some?
    ensures r.Ok? ==> |r.value| == |items|
                      && forall k :: 0 <= k < |items| ==> r.value[k] == items[k].link.value
    ensures r.Err? ==> r.error == KeyError("link")
    decreases |items|
  {
    if items == [] then Ok([])
    else
      var init := PageLinks(items[..|items| - 1]);
      match items[|items| - 1].link
      case None => Err(KeyError("link"))
      case Some(link) => if init.Ok? then Ok(init.value + [link]) else init
  }

  /** What one reply contributes: the links of all its items in order when it
      has `items` and each has a `link`; otherwise the failed assertion, or the
      KeyError of the first item without a link. */
  function ReplyLinks(reply: Reply, message: string): (r: Result<seq<string>, SerpError>)
    ensures r.Ok? <==> reply.Items? && forall k :: 0 <= k < |reply.items| ==> reply.items[k].link.Some?
    ensures r.Err? ==> r.error == if reply.NoItems? then AssertionError(message) else KeyError("link")
    ensures r.Ok? ==> |r.value| == |reply.items|
                      && forall k :: 0 <= k < |reply.items| ==> r.value[k] == reply.items[k].link.value
  {
    match reply
    case NoItems => Err(AssertionError(message))
    case Items(items) => PageLinks(items)
  }

  /** Continue a run that has issued `requested` and collected `links` with
      the run of the remaining offsets. */
  function Then(requested: seq<Params>, links: seq<string>, rest: Run): Run {
    Run(requested + rest.requested,
        if rest.result.Ok? then Ok(links + rest.result.value) else rest.result)
  }

  /** What the loop does over the given offsets: requests are the caller's
      parameters with each offset in turn, and the first failing page ends
      the run with its error. */
  function Collected(offsets: seq<int>, params: Params, api: Params -> Reply, message: string): (run: Run)
    decreases |offsets|
  {
    if offsets == [] then Run([], Ok([]))
    else
      var request := WithStart(params, offsets[0]);
      match ReplyLinks(api(request), message)
      case Err(e) => Run([request], Err(e))
      case Ok(links) => Then([request], links, Collected(offsets[1..], params, api, message))
  }

  lemma ThenNothing(run: Run)
    ensures Then([], [], run) == run
  {
    assert [] + run.requested == run.requested;
    if run.result.Ok? {
      assert [] + run.result.value == run.result.value;
    }
  }

  lemma ThenThen(r1: seq<Params>, l1: seq<string>, r2: seq<Params>, l2: seq<string>, run: Run)
    ensures Then(r1, l1, Then(r2, l2, run)) == Then(r1 + r2, l1 + l2, run)
  {
    assert r1 + (r2 + run.requested) == (r1 + r2) + run.requested;
    if run.result.Ok? {
      assert l1 + (l2 + run.result.value) == (l1 + l2) + run.result.value;
    }
  }

  /** One turn of the loop over the offsets from `start`. */
  lemma CollectedStep(start: int, stop: int, params: Params, api: Params -> Reply, message: string)
    requires start < stop
    ensures var request := WithStart(params, start);
            var page := ReplyLinks(api(request), message);
            Collected(Range(start, stop, PageSize), params, api, message) ==
              if page.Err? then Run([request], page)
              else Then([request], page.value, Collected(Range(start + PageSize, stop, PageSize), params, api, message))
  {
    var offsets := Range(start, stop, PageSize);
    assert offsets[0] == start && offsets[1..] == Range(start + PageSize, stop, PageSize);
  }

  /** The inner loop of `google_SERP_links`: append the links of one page's
      items in order; it stops, with ok false, at the first item without a
      link. */
  method AppendLinks(items: seq<Item>, links: seq<string>) returns (ok: bool, out: seq<string>)
    ensures ok <==> PageLinks(items).Ok?
    ensures ok ==> out == links + PageLinks(items).value
  {
    out := links;
    var j := 0;
    while j < |items|
      invariant 0 <= j <= |items|
      invariant PageLinks(items[..j]).Ok? && out == links + PageLinks(items[..j]).value
    {
      assert items[..j + 1][..j] == items[..j];
      match items[j].link {
        case None =>
          assert PageLinks(items).Err?;
          ok := false;
          return;
        case Some(link) =>
          out := out + [link];
      }
      j := j + 1;
    }
    assert items[..j] == items;
    ok := true;
  }

  /** The loop of `google_SERP_links`, with `message` the text of its
      assertion. */
  method CollectLinks(numResults: int, params: Params, api: Params -> Reply, message: string)
    returns (result: Result<seq<string>, SerpError>, requested: seq<Params>)
    ensures Run(requested, result) == Collected(Offsets(numResults), params, api, message)
  {
    ghost var whole := Collected(Offsets(numResults), params, api, message);
    var links: seq<string> := [];
    requested := [];
    var start := 1;
    ThenNothing(whole);
    while start < numResults
      invariant whole == Then(requested, links, Collected(Range(start, numResults, PageSize), params, api, message))
      decreases numResults - start
    {
      var request := WithStart(params, start);
      CollectedStep(start, numResults, params, api, message);
      requested := requested + [request];
      var reply := api(request);
      if reply.NoItems? {
        result := Err(AssertionError(message));
        return;
      }
      var items := reply.items;
      ghost var before := links;
      var ok;
      ok, links := AppendLinks(items, links);
      if !ok {
        result := Err(KeyError("link"));
        return;
      }
      ThenThen(requested[..|requested| - 1], before, [request], PageLinks(items).value,
               Collected(Range(start + PageSize, numResults, PageSize), params, api, message));
      assert requested[..|requested| - 1] + [request] == requested;
      start := start + PageSize;
    }
    assert Range(start, numResults, PageSize) == [];
    assert requested + [] == requested && links + [] == links;
    result := Ok(links);
  }

  /** The offsets are 1, 11, 21, ..., all below numResults, and there are
      ceil((numResults - 1) / 10) of them; none when numResults <= 1. */
  lemma OffsetsShape(numResults: int)
    ensures |Offsets(numResults)| == if numResults <= 1 then 0 else (numResults + 8) / 10
    ensures forall k :: 0 <= k < |Offsets(numResults)| ==>
              Offsets(numResults)[k] == 1 + 10 * k && Offsets(numResults)[k] < numResults
  {
    RangeShape(1, numResults);
  }

  lemma {:induction false} RangeShape(start: int, stop: int)
    ensures |Range(start, stop, PageSize)| == if stop <= start then 0 else (stop - start + 9) / 10
    ensures forall k :: 0 <= k < |Range(start, stop, PageSize)| ==>
              Range(start, stop, PageSize)[k] == start + 10 * k && Range(start, stop, PageSize)[k] < stop
    decreases stop - start
  {
    if start < stop {
      RangeShape(start + PageSize, stop);
      var r := Range(start, stop, PageSize);
      assert forall k :: 1 <= k < |r| ==> r[k] == Range(start + PageSize, stop, PageSize)[k - 1];
    }
  }

  /** An offset is requested exactly when it is 1 more than a multiple of 10
      and below numResults. */
  lemma OffsetsMembers(numResults: int, offset: int)
    ensures offset in Offsets(numResults) <==> 1 <= offset < numResults && offset % 10 == 1
  {
    OffsetsShape(numResults);
    var r := Offsets(numResults);
    if 1 <= offset < numResults && offset % 10 == 1 {
      var k := (offset - 1) / 10;
      assert offset == 1 + 10 * k;
      assert k < |r|;
      assert r[k] == offset;
    }
    if offset in r {
      var k :| 0 <= k < |r| && r[k] == offset;
      assert offset == 1 + 10 * k;
    }
  }

  /** Request i is the caller's parameters with `start` set to offset i, as
      many requests as offsets on success and never more. */
  lemma {:induction false} CollectedRequests(offsets: seq<int>, params: Params, api: Params -> Reply, message: string)
    ensures var run := Collected(offsets, params, api, message);
            && |run.requested| <= |offsets|
            && (run.result.Ok? ==> |run.requested| == |offsets|)
            && forall i :: 0 <= i < |run.requested| ==> run.requested[i] == WithStart(params, offsets[i])
    decreases |offsets|
  {
    if offsets != [] {
      CollectedRequests(offsets[1..], params, api, message);
    }
  }

  /** Running the loop over a + b is running it over a, then, only if every
      page of a succeeded, over b: the links are a's followed by b's, and
      after a failure nothing more is requested. */
  lemma {:induction false} CollectedSplit(a: seq<int>, b: seq<int>, params: Params, api: Params -> Reply, message: string)
    ensures var first := Collected(a, params, api, message);
            Collected(a + b, params, api, message) ==
              if first.result.Ok? then Then(first.requested, first.result.value, Collected(b, params, api, message))
              else first
    decreases |a|
  {
    if a == [] {
      assert a + b == b;
      ThenNothing(Collected(b, params, api, message));
    } else {
      assert (a + b)[0] == a[0] && (a + b)[1..] == a[1..] + b;
      CollectedSplit(a[1..], b, params, api, message);
      var request := WithStart(params, a[0]);
      var page := ReplyLinks(api(request), message);
      if page.Ok? {
        var rest := Collected(a[1..], params, api, message);
        if rest.result.Ok? {
          ThenThen([request], page.value, rest.requested, rest.result.value, Collected(b, params, api, message));
        }
      }
    }
  }

  /** The reply the loop gets for offsets[i]. */
  function PageReply(offsets: seq<int>, params: Params, api: Params -> Reply, i: nat): Reply
    requires i < |offsets|
  {
    api(WithStart(params, offsets[i]))
  }

  /** The call succeeds exactly when every page has `items` and every item a
      `link`. */
  lemma {:induction false} CollectedSucceedsIff(offsets: seq<int>, params: Params, api: Params -> Reply, message: string)
    ensures Collected(offsets, params, api, message).result.Ok? <==>
              forall i :: 0 <= i < |offsets| ==> ReplyLinks(PageReply(offsets, params, api, i), message).Ok?
    decreases |offsets|
  {
    if offsets != [] {
      CollectedSucceedsIff(offsets[1..], params, api, message);
      var page := ReplyLinks(PageReply(offsets, params, api, 0), message);
      var rest := Collected(offsets[1..], params, api, message);
      if Collected(offsets, params, api, message).result.Ok? {
        assert page.Ok? && rest.result.Ok?;
        forall i | 0 <= i < |offsets|
          ensures ReplyLinks(PageReply(offsets, params, api, i), message).Ok?
        {
          if i > 0 {
            assert PageReply(offsets, params, api, i) == PageReply(offsets[1..], params, api, i - 1);
          }
        }
      } else if page.Ok? {
        assert !rest.result.Ok?;
        var i :| 0 <= i < |offsets| - 1 && !ReplyLinks(PageReply(offsets[1..], params, api, i), message).Ok?;
        assert PageReply(offsets, params, api, i + 1) == PageReply(offsets[1..], params, api, i);
      }
    }
  }

  /** The number of items over all pages that have them. */
  function ItemCount(offsets: seq<int>, params: Params, api: Params -> Reply): nat
    decreases |offsets|
  {
    if offsets == [] then 0
    else
      var reply := api(WithStart(params, offsets[0]));
      (if reply.Items? then |reply.items| else 0) + ItemCount(offsets[1..], params, api)
  }

  /** On success there is one link per item of every page: duplicates are
      kept. */
  lemma {:induction false} CollectedLinkCount(offsets: seq<int>, params: Params, api: Params -> Reply, message: string)
    requires Collected(offsets, params, api, message).result.Ok?
    ensures |Collected(offsets, params, api, message).result.value| == ItemCount(offsets, params, api)
    decreases |offsets|
  {
    if offsets != [] {
      CollectedLinkCount(offsets[1..], params, api, message);
    }
  }

  /** On failure the last page requested is the first one that failed, its
      error is the call's error, and every earlier page succeeded. */
  lemma {:induction false} CollectedStopsAtFailure(offsets: seq<int>, params: Params, api: Params -> Reply, message: string)
    requires Collected(offsets, params, api, message).result.Err?
    ensures var run := Collected(offsets, params, api, message);
            var m := |run.requested|;
            1 <= m <= |offsets|
            && ReplyLinks(PageReply(offsets, params, api, m - 1), message) == run.result
            && forall i :: 0 <= i < m - 1 ==> ReplyLinks(PageReply(offsets, params, api, i), message).Ok?
    decreases |offsets|
  {
    var request := WithStart(params, offsets[0]);
    var page := ReplyLinks(api(request), message);
    assert PageReply(offsets, params, api, 0) == api(request);
    if page.Ok? {
      var rest := Collected(offsets[1..], params, api, message);
      assert Collected(offsets, params, api, message) == Then([request], page.value, rest);
      CollectedStopsAtFailure(offsets[1..], params, api, message);
      var m := |rest.requested|;
      assert PageReply(offsets, params, api, m) == PageReply(offsets[1..], params, api, m - 1);
      forall i | 1 <= i < m
        ensures ReplyLinks(PageReply(offsets, params, api, i), message).Ok?
      {
        assert PageReply(offsets, params, api, i) == PageReply(offsets[1..], params, api, i - 1);
      }
    } else {
      assert Collected(offsets, params, api, message) == Run([request], page);
    }
  }
}
