/** `main`: read the two list files, gather the candidates, read the current
    blocklist, then add what is missing. Files, HTTP and the console are inputs
    and outputs of the method. */
module Importer {
  import opened Extractor
  import opened Rules
  import opened Blocklist
  import opened Lines
  import opened Messages
  import opened Aggregation
  import opened Reconcile

  /** One run of `main` with the script's lines 98 and 99 corrected to add
      each URL's addresses to the candidate set.

      `urlLines` and `ipLines` are the lines of the URL and IP files;
      `fetches[k]` is the answer to the GET of the k-th URL; `listStatus`,
      `listBody` and `snippets` are the answer to the snippet-list GET; and
      `postStatus`, `postBody` give the answer to the POST for each address. */
  method RunImport(name: string, urlLines: seq<string>, ipLines: seq<string>, fetches: seq<Fetch>,
                   listStatus: int, listBody: string, snippets: seq<Snippet>,
                   postStatus: string -> int, postBody: string -> string)
    returns (order: seq<string>, added: seq<string>, payloads: seq<Payload>, log: seq<Message>)
    requires |fetches| == |urlLines|
    ensures var candidates := Candidates(fetches, StripLines(ipLines));
            var current := CurrentBlocklist(listStatus, snippets, name);
            && Distinct(order) && ToSet(order) == candidates
            && added == Additions(order, current)
            && ToSet(added) == candidates - current && Distinct(added)
            && payloads == Payloads(name, added)
            && log == SpiderLogs(StripLines(urlLines), fetches)
                      + (if listStatus == 200 then [] else [BlocklistReadFailed(listStatus, listBody)])
                      + Outcomes(order, current, postStatus, postBody)
  {
    var urls := StripLines(urlLines);
    var candidates, spidered := AggregateCandidates(urls, fetches, StripLines(ipLines));
    var current, read := GetCurrentBlocklist(listStatus, listBody, snippets, name);
    var outcomes;
    order, added, payloads, outcomes := ReconcileCandidates(name, candidates, current, postStatus, postBody);
    log := spidered + read + outcomes;
  }

  /** A candidate that is not a dotted quad is never current, so every run
      posts a rule for it again: blank lines of the IP file, for one, are
      posted on every run as the rule for "". */
  lemma UndottedAlwaysAdded(order: seq<string>, listStatus: int, snippets: seq<Snippet>, name: string, ip: string)
    requires ip in order && !IsDottedQuad(ip)
    ensures ip in Additions(order, CurrentBlocklist(listStatus, snippets, name))
  {
    var current := CurrentBlocklist(listStatus, snippets, name);
    if ip in current {
      CurrentAreDotted(listStatus, snippets, name, ip);
    }
    AdditionsFrom(order, current, ip);
  }

  /** When the snippet list cannot be read, every candidate gets an add call. */
  lemma ReadFailureAddsAll(order: seq<string>, listStatus: int, snippets: seq<Snippet>, name: string)
    requires listStatus != 200
    ensures Additions(order, CurrentBlocklist(listStatus, snippets, name)) == Additions(order, {})
    ensures ToSet(Additions(order, {})) == ToSet(order)
  {
    AdditionsSet(order, {});
  }

  lemma {:induction false} AllDottedConcat(a: seq<string>, b: seq<string>)
    requires AllDotted(a) && AllDotted(b)
    ensures AllDotted(a + b)
    decreases |a|
  {
    if a == [] {
      assert a + b == b;
    } else {
      AllDottedConcat(a[1..], b);
      assert (a + b)[0] == a[0];
      assert (a + b)[1..] == a[1..] + b;
    }
  }

  /** A list whose every element is in a list of dotted quads is one too. */
  lemma {:induction false} AllDottedSubset(s: seq<string>, t: seq<string>)
    requires AllDotted(s) && forall x :: x in t ==> x in s
    ensures AllDotted(t)
    decreases |t|
  {
    if t != [] {
      AllDottedMember(s, t[0]);
      forall x | x in t[1..] ensures x in s {
        assert x in t;
      }
      AllDottedSubset(s, t[1..]);
    }
  }

  lemma RenderedSnippetsConcat(name: string, a: seq<string>, b: seq<string>)
    ensures RenderedSnippets(name, a + b) == RenderedSnippets(name, a) + RenderedSnippets(name, b)
  {
    forall k | 0 <= k < |a| + |b|
      ensures RenderedSnippets(name, a + b)[k] == (RenderedSnippets(name, a) + RenderedSnippets(name, b))[k]
    {
      RenderedSnippetsAt(name, a + b, k);
      if k < |a| {
        RenderedSnippetsAt(name, a, k);
      } else {
        RenderedSnippetsAt(name, b, k - |a|);
      }
    }
  }

  /** The payloads for a list of addresses describe exactly the rule snippets
      of those addresses, one each, in the same order. */
  lemma PostsCreateRenderedSnippets(name: string, added: seq<string>)
    ensures PostedSnippets(Payloads(name, added)) == RenderedSnippets(name, added)
  {
    forall k | 0 <= k < |added|
      ensures PostedSnippets(Payloads(name, added))[k] == RenderedSnippets(name, added)[k]
    {
      PayloadsAt(name, added, k);
      RenderedSnippetsAt(name, added, k);
    }
  }

  /** The snippets that a run's POSTs create: one for each addition whose POST
      answered 200, in the order of the add calls. A POST answered with any
      other status creates nothing. */
  function Created(name: string, added: seq<string>, postStatus: string -> int): seq<Snippet> {
    PostedSnippets(Payloads(name, Succeeded(added, postStatus)))
  }

  /** Whatever the blocklist held before, an address that a run adds and whose
      POST answered 200 is current once the run's snippets follow the existing
      ones, so the next run does not add it again, whatever order it visits
      the candidates in. */
  lemma AddedBecomesCurrent(name: string, olds: seq<Snippet>, listStatus: int, order: seq<string>,
                            postStatus: string -> int, order2: seq<string>, ip: string)
    requires IsDottedQuad(ip) && postStatus(ip) == 200
    requires ip in Additions(order, CurrentBlocklist(listStatus, olds, name))
    ensures var added := Additions(order, CurrentBlocklist(listStatus, olds, name));
            var after := olds + Created(name, added, postStatus);
            ip in CurrentBlocklist(200, after, name) && ip !in Additions(order2, CurrentBlocklist(200, after, name))
  {
    var added := Additions(order, CurrentBlocklist(listStatus, olds, name));
    var succ := Succeeded(added, postStatus);
    var after := olds + Created(name, added, postStatus);
    SucceededIff(added, postStatus, ip);
    var k :| 0 <= k < |succ| && succ[k] == ip;
    PostsCreateRenderedSnippets(name, succ);
    RenderedSnippetsAt(name, succ, k);
    assert after[|olds| + k] == RuleSnippet(name, ip);
    RuleSnippetIsCurrent(after, |olds| + k, name, ip);
    AdditionsFrom(order2, CurrentBlocklist(200, after, name), ip);
  }

  /** A second run retries exactly the failed add calls. Take a blocklist made
      of the importer's own rules for dotted quads, and dotted candidates. Once
      the POSTs of a run that answered 200 have created their snippets after
      the existing ones, a run with the same candidates, visited in any order,
      adds exactly the addresses whose POST did not answer 200. */
  lemma RerunRetriesFailed(name: string, olds: seq<string>, order: seq<string>,
                           postStatus: string -> int, order2: seq<string>)
    requires AllDotted(olds) && AllDotted(order) && ToSet(order2) == ToSet(order)
    ensures var added := Additions(order, CurrentBlocklist(200, RenderedSnippets(name, olds), name));
            var after := RenderedSnippets(name, olds) + Created(name, added, postStatus);
            ToSet(Additions(order2, CurrentBlocklist(200, after, name))) == set x | x in added && postStatus(x) != 200
  {
    RenderedBlocklistReadBack(name, olds);
    var current := ToSet(olds);
    var added := Additions(order, current);
    var succ := Succeeded(added, postStatus);
    PostsCreateRenderedSnippets(name, succ);
    forall x | x in succ ensures x in order {
      SucceededIff(added, postStatus, x);
      AdditionsFrom(order, current, x);
    }
    AllDottedSubset(order, succ);
    AllDottedConcat(olds, succ);
    RenderedSnippetsConcat(name, olds, succ);
    RenderedBlocklistReadBack(name, olds + succ);
    var current' := ToSet(olds + succ);
    var again := Additions(order2, current');
    AdditionsSet(order2, current');
    forall x ensures x in ToSet(again) <==> x in added && postStatus(x) != 200 {
      AdditionsFrom(order, current, x);
      SucceededIff(added, postStatus, x);
      assert x in ToSet(order2) <==> x in order;
      assert x in current' <==> x in olds || x in succ;
    }
  }

  /** A second run finds nothing to add when every add call of the first run
      succeeded: the case of RerunRetriesFailed with no failed POST. */
  lemma RerunAddsNothing(name: string, olds: seq<string>, order: seq<string>,
                         postStatus: string -> int, order2: seq<string>)
    requires AllDotted(olds) && AllDotted(order) && ToSet(order2) == ToSet(order)
    requires forall x :: x in Additions(order, CurrentBlocklist(200, RenderedSnippets(name, olds), name)) ==>
                           postStatus(x) == 200
    ensures var added := Additions(order, CurrentBlocklist(200, RenderedSnippets(name, olds), name));
            var after := RenderedSnippets(name, olds) + Created(name, added, postStatus);
            Additions(order2, CurrentBlocklist(200, after, name)) == []
  {
    var added := Additions(order, CurrentBlocklist(200, RenderedSnippets(name, olds), name));
    var after := RenderedSnippets(name, olds) + Created(name, added, postStatus);
    RerunRetriesFailed(name, olds, order, postStatus, order2);
    ToSetEmpty(Additions(order2, CurrentBlocklist(200, after, name)));
  }

  /** A list is empty exactly when its set is. */
  lemma ToSetEmpty(r: seq<string>)
    ensures ToSet(r) == {} <==> r == []
  {
    if r != [] {
      assert r[0] in ToSet(r);
    }
  }

  /** A quad of single digits directly followed by a rule: the rule's leading
      letter stands right after the quad, so no `\b` ends it and only the
      rule's address is read. */
  lemma QuadBeforeRuleHidden(q: string, ip: string, s: string)
    requires |q| == 7 && IsDigit(q[0]) && IsDigit(q[2]) && IsDigit(q[4]) && IsDigit(q[6])
    requires q[1] == '.' && q[3] == '.' && q[5] == '.'
    requires IsDottedQuad(ip) && s == q + RuleContent(ip)
    ensures Extract(s) == [ip]
  {
    assert s[7] == RulePrefix[0];
    assert forall k :: 0 <= k < 7 ==> s[k] == q[k];
    QuadBeforeWordChar(s);
    assert s[7..] == RuleContent(ip) + "";
    TextsOverRule(s, 7, ip, "");
    assert Spans(s, |s|) == [];
  }

  /** Without the assumption of RerunAddsNothing that the blocklist holds only
      the importer's own rules, a second run can add an address again. Say the
      blocklist is one snippet "1.2.3.4" and the candidates are "1.2.3.4" and
      "5.6.7.8": the first run adds "5.6.7.8", whose rule then hides "1.2.3.4",
      and the second run adds "1.2.3.4". */
  lemma RerunCanReAdd(name: string, q: string, ip: string, postStatus: string -> int)
    requires |q| == 7 && IsDigit(q[0]) && IsDigit(q[2]) && IsDigit(q[4]) && IsDigit(q[6])
    requires q[1] == '.' && q[3] == '.' && q[5] == '.'
    requires IsDottedQuad(ip) && ip != q && postStatus(ip) == 200
    ensures Additions([q, ip], CurrentBlocklist(200, [Snippet(name, q)], name)) == [ip]
    ensures Additions([q, ip], CurrentBlocklist(200, [Snippet(name, q)] + Created(name, [ip], postStatus), name)) == [q]
  {
    assert [ip][..0] == [];
    assert Succeeded([ip], postStatus) == [ip];
    LoneQuadCurrent(name, q);
    AdditionsPair(q, ip, {q});
    RuleHidesLoneQuad(name, q, ip);
    AdditionsPair(q, ip, {ip});
  }

  /** A blocklist of one snippet holding a lone quad holds that quad. */
  lemma LoneQuadCurrent(name: string, q: string)
    requires |q| == 7 && IsDigit(q[0]) && IsDigit(q[2]) && IsDigit(q[4]) && IsDigit(q[6])
    requires q[1] == '.' && q[3] == '.' && q[5] == '.'
    ensures CurrentBlocklist(200, [Snippet(name, q)], name) == {q}
  {
    LoneQuad(q);
    SingleContent(Snippet(name, q), name);
    ToSetSingle(q);
  }

  /** The rule posted after a lone quad's snippet leaves only its own address. */
  lemma RuleHidesLoneQuad(name: string, q: string, ip: string)
    requires |q| == 7 && IsDigit(q[0]) && IsDigit(q[2]) && IsDigit(q[4]) && IsDigit(q[6])
    requires q[1] == '.' && q[3] == '.' && q[5] == '.'
    requires IsDottedQuad(ip)
    ensures CurrentBlocklist(200, [Snippet(name, q)] + PostedSnippets(Payloads(name, [ip])), name) == {ip}
  {
    QuadThenRuleContent(name, q, ip);
    QuadBeforeRuleHidden(q, ip, q + RuleContent(ip));
    ToSetSingle(ip);
  }

  /** The content of a snippet holding q followed by the rule posted for ip. */
  lemma QuadThenRuleContent(name: string, q: string, ip: string)
    ensures BlocklistContent([Snippet(name, q)] + PostedSnippets(Payloads(name, [ip])), name) == q + RuleContent(ip)
  {
    PostsCreateRenderedSnippets(name, [ip]);
    var rule := RuleSnippet(name, ip);
    assert RenderedSnippets(name, [ip]) == [rule];
    ContentConcat([Snippet(name, q)], [rule], name);
    SingleContent(Snippet(name, q), name);
    SingleContent(rule, name);
  }

  lemma ToSetSingle(x: string)
    ensures ToSet([x]) == {x}
  {
    assert forall y :: y in [x] <==> y == x;
  }

  lemma SingleContent(sn: Snippet, name: string)
    ensures BlocklistContent([sn], name) == if sn.name == name then sn.content else ""
  {
    assert [sn][..0] == [];
  }

  lemma AdditionsPair(x: string, y: string, current: set<string>)
    ensures Additions([x, y], current) == (if x in current then [] else [x]) + (if y in current then [] else [y])
  {
    assert [x, y][..1] == [x];
    assert [x][..0] == [];
    assert Additions([x], current) == Additions([], current) + (if x in current then [] else [x]);
  }

  // ---------------------------------------------------------------------------
  // Lines 95 to 99 as written

  /** How the candidate gathering of lines 95 to 102 ends as written. */
  datatype Gathered =
    | Gathered(candidates: set<string>)
    | AttributeError(printed: seq<Message>)

  /** Line 98 replaces the set with the list `spider_website` returns, and line
      99 then looks up `update` on that list, which raises AttributeError
      before the undefined name `ip_addresses` is even evaluated. So the first
      URL is spidered and the script stops; only an empty URL file reaches
      line 102. */
  function GatherAsWritten(urls: seq<string>, fetches: seq<Fetch>, staticIps: seq<string>): (g: Gathered)
    requires |fetches| == |urls|
    ensures g.AttributeError? <==> urls != []
    ensures urls == [] ==> g == Gathered(Candidates(fetches, staticIps))
  {
    if urls == [] then Gathered(ToSet(staticIps))
    else AttributeError(SpiderWebsite(urls[0], fetches[0]).1)
  }

  /** The address text of the counterexample below. */
  lemma TenZeroZeroFive(s: string)
    requires s == "10.0.0.5"
    ensures s in Extract(s)
  {
    DigitRunEndUnique(s, 0, 2);
    DigitRunEndUnique(s, 3, 4);
    DigitRunEndUnique(s, 5, 6);
    DigitRunEndUnique(s, 7, 8);
    assert GroupsEnd(s, 3, 3) == Some(8);
    MatchEndIff(s, 0, 8);
    ExtractFindsDelimited(s, 0, 8);
    assert s[0..8] == s;
  }

  /** One URL whose page holds 10.0.0.5: as written, the script stops with
      AttributeError and blocks nothing; the corrected gathering makes
      10.0.0.5 a candidate. */
  lemma OneUrlCrashes()
    ensures GatherAsWritten(["https://example.com/report"], [Page(200, "10.0.0.5")], []).AttributeError?
    ensures "10.0.0.5" in Candidates([Page(200, "10.0.0.5")], [])
  {
    TenZeroZeroFive("10.0.0.5");
    CandidatesIff([Page(200, "10.0.0.5")], [], "10.0.0.5");
    assert Page(200, "10.0.0.5") in [Page(200, "10.0.0.5")];
  }
}
