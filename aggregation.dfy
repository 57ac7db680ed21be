/** `spider_website` and the gathering of candidate addresses in `main`:
    every URL's page is fetched and scanned, and the static list is added. */
module Aggregation {
  import opened Extractor
  import opened Blocklist
  import opened Messages

  /** The answer to one GET: a response with its status and the text that the
      HTML parser extracts from its body, or a transport failure. */
  datatype Fetch = Page(status: int, text: string) | Unreachable(reason: string)

  /** `raise_for_status` raises for client and server errors, 400 to 599;
      every other status lets the page through. */
  predicate Raises(f: Fetch) {
    f.Unreachable? || 400 <= f.status < 600
  }

  function ErrorOf(f: Fetch): FetchError
    requires Raises(f)
  {
    if f.Unreachable? then TransportFailure(f.reason) else HttpError(f.status)
  }

  /** The addresses that `spider_website` returns for one fetch. */
  function Scraped(f: Fetch): seq<string> {
    if Raises(f) then [] else Extract(f.text)
  }

  /** `spider_website(url)`: the addresses and what it prints. A fetch that
      raises contributes nothing and reports the URL; any other page gives
      every match in its text, in order, and prints nothing. */
  function SpiderWebsite(url: string, f: Fetch): (r: (seq<string>, seq<Message>))
    ensures r.1 != [] <==> Raises(f)
    ensures Raises(f) ==> r.0 == [] && r.1 == [SpiderFailed(url, ErrorOf(f))]
    ensures !Raises(f) ==> r.0 == Extract(f.text)
    ensures AllDotted(r.0)
  {
    if Raises(f) then ([], [SpiderFailed(url, ErrorOf(f))])
    else
      ExtractIsMatches(f.text);
      (Extract(f.text), [])
  }

  /** Every address a spider returns is a dotted quad found in the page text. */
  lemma ScrapedAreMatches(f: Fetch, k: nat)
    requires k < |Scraped(f)|
    ensures !Raises(f) && IsDottedQuad(Scraped(f)[k])
  {
    ExtractIsMatches(f.text);
  }

  /** The union of what the spiders of the given fetches return. */
  function Harvested(fetches: seq<Fetch>): set<string>
    decreases |fetches|
  {
    if fetches == [] then {}
    else Harvested(fetches[..|fetches| - 1]) + ToSet(Scraped(fetches[|fetches| - 1]))
  }

  /** The console lines the spiders print, in URL order. */
  function SpiderLogs(urls: seq<string>, fetches: seq<Fetch>): seq<Message>
    requires |urls| == |fetches|
    decreases |urls|
  {
    if urls == [] then []
    else
      var n := |urls| - 1;
      SpiderLogs(urls[..n], fetches[..n]) + SpiderWebsite(urls[n], fetches[n]).1
  }

  /** The candidate set: every spidered address and every static line. */
  function Candidates(fetches: seq<Fetch>, staticIps: seq<string>): set<string> {
    Harvested(fetches) + ToSet(staticIps)
  }

  /** An address harvested from some fetches comes from one of them. */
  lemma {:induction false} HarvestedSound(fetches: seq<Fetch>, ip: string) returns (f: Fetch)
    requires ip in Harvested(fetches)
    ensures f in fetches && ip in Scraped(f)
    decreases |fetches|
  {
    var n := |fetches| - 1;
    var init := fetches[..n];
    if ip in Harvested(init) {
      f := HarvestedSound(init, ip);
      assert forall g :: g in init ==> g in fetches;
    } else {
      f := fetches[n];
    }
  }

  /** Whatever the spider returns for one of the fetches is harvested. */
  lemma {:induction false} HarvestedComplete(fetches: seq<Fetch>, f: Fetch, ip: string)
    requires f in fetches && ip in Scraped(f)
    ensures ip in Harvested(fetches)
    decreases |fetches|
  {
    var n := |fetches| - 1;
    var init := fetches[..n];
    if f != fetches[n] {
      var k :| 0 <= k < |fetches| && fetches[k] == f;
      assert init[k] == f;
      HarvestedComplete(init, f, ip);
    }
  }

  /** An address is harvested exactly when some fetch's spider returns it. */
  lemma HarvestedIff(fetches: seq<Fetch>, ip: string)
    ensures ip in Harvested(fetches) <==> exists f :: f in fetches && ip in Scraped(f)
  {
    if ip in Harvested(fetches) {
      var f := HarvestedSound(fetches, ip);
    }
    forall f | f in fetches && ip in Scraped(f) ensures ip in Harvested(fetches) {
      HarvestedComplete(fetches, f, ip);
    }
  }

  /** The candidates are every address some page yields and every static line,
      whichever order the URLs come in and whichever fetches fail. */
  lemma CandidatesIff(fetches: seq<Fetch>, staticIps: seq<string>, ip: string)
    ensures ip in Candidates(fetches, staticIps) <==>
              (exists f :: f in fetches && !Raises(f) && ip in Extract(f.text)) || ip in staticIps
  {
    HarvestedIff(fetches, ip);
  }

  /** The candidate set does not depend on the order of the URLs. */
  lemma CandidatesOrderFree(fetches: seq<Fetch>, reordered: seq<Fetch>, staticIps: seq<string>)
    requires multiset(fetches) == multiset(reordered)
    ensures Candidates(fetches, staticIps) == Candidates(reordered, staticIps)
  {
    forall ip ensures ip in Harvested(fetches) <==> ip in Harvested(reordered) {
      HarvestedIff(fetches, ip);
      HarvestedIff(reordered, ip);
      forall f ensures f in fetches <==> f in reordered {
        assert f in fetches <==> f in multiset(fetches);
        assert f in reordered <==> f in multiset(reordered);
      }
    }
  }

  /** A URL whose fetch fails adds nothing to the candidates. */
  lemma FailedFetchAddsNothing(fetches: seq<Fetch>, f: Fetch, staticIps: seq<string>)
    requires Raises(f)
    ensures Candidates(fetches + [f], staticIps) == Candidates(fetches, staticIps)
  {
    assert (fetches + [f])[..|fetches|] == fetches;
  }

  /** Lines 95 to 102 as the comment on line 101 describes them: every URL's
      addresses are added to the set, and then the static list. */
  method AggregateCandidates(urls: seq<string>, fetches: seq<Fetch>, staticIps: seq<string>)
    returns (candidates: set<string>, log: seq<Message>)
    requires |fetches| == |urls|
    ensures candidates == Candidates(fetches, staticIps)
    ensures log == SpiderLogs(urls, fetches)
  {
    candidates := {};
    log := [];
    var k := 0;
    while k < |urls|
      invariant 0 <= k <= |urls|
      invariant candidates == Harvested(fetches[..k])
      invariant log == SpiderLogs(urls[..k], fetches[..k])
    {
      var (found, printed) := SpiderWebsite(urls[k], fetches[k]);
      assert fetches[..k + 1][..k] == fetches[..k];
      assert urls[..k + 1][..k] == urls[..k];
      candidates := candidates + ToSet(found);
      log := log + printed;
      k := k + 1;
    }
    assert fetches[..|urls|] == fetches;
    assert urls[..|urls|] == urls;
    candidates := candidates + ToSet(staticIps);
  }
}
