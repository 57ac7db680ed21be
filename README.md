# Threat-intelligence report importer for a Fastly blocklist, in Dafny

The importer is a single Python script. `main` reads a file of URLs and a
file of IPv4 addresses, one per line. It is meant to do four things:
1. Spider every URL and pull the dotted quads out of each page's text with
   the regular expression `\b(?:[0-9]{1,3}\.){3}[0-9]{1,3}\b`.
2. Join those addresses and the static list into one candidate set.
3. Read the snippets of the blocklist's service version and extract the
   addresses already blocked.
4. Post one VCL snippet, `if (client.ip == <ip>) { error 403; }`, for each
   candidate that is not blocked yet.

As written, with a non-empty URL file it spiders the first URL and then
stops with AttributeError at line 99, so no read and no POST happens (see
"## Findings"). The model has both: the gathering as written, and the whole
run as the comment on line 101 describes it.

The model keeps the script's own split:

- `Extractor` is `extract_ip_addresses`.
  - `MatchAt` is what the pattern matches at a position.
  - `MatchEnd` is the deterministic matcher that decides it. Each group
    takes the whole run of digits, because `.` or `\b` must follow it.
  - `Spans`/`Extract` is the left-to-right, non-overlapping scan of
    `findall`.
  - `IsFindAll` is the declarative meaning of `findall`: every reported
    span is a match, the spans are in order, and every match starts inside
    a span. It is proved to determine the scan uniquely.
  - `ExtractIpAddresses` is the index-walking scanner, proved against
    `Extract`.
- `Rules` is the payload of `add_ip_to_blocklist` and the proof that the
  extractor reads a rendered rule back as exactly its address.
- `Blocklist` is `get_current_blocklist`. Its `+=` loop over the decoded
  snippets is a method proved against `CurrentBlocklist`.
- `Lines` is `read_urls` and `read_ip_addresses`. It models Python's
  `str.strip()` over the characters for which `str.isspace()` holds.
- `Aggregation` is `spider_website` and the candidate gathering of `main`,
  as the comment on line 101 describes it.
- `Reconcile` is the loop over the candidates, with the add or skip
  decision and the messages it prints.
- `Importer` is `main` end to end, properties of re-runs, and the
  candidate gathering of lines 98–99 as written.
- `ExtractorExamples` is the extractor on particular texts.
- `Messages` holds the console output as values.

HTTP answers are inputs:
- each URL's fetch is a page with its status and parsed text, or a
  transport failure;
- the snippet-list GET is a status, a body and the decoded snippets;
- the POST for each address is given by a status function and a body
  function of the address.

The console is a returned `seq<Message>`.

Three points of the code's behaviour that a reader might expect otherwise.
The model follows the code in each:
- A match is bounded by `\b`, a word boundary, not by "a neighbour that is
  neither a digit nor a dot". So `"1.2.3.4.5"` gives `["1.2.3.4"]`, and a
  letter right next to the address stops the match.
- `raise_for_status` raises only for statuses 400–599. Any other status,
  such as a 3xx that was not followed or a 1xx, lets the page be scanned.
- Blank lines of the IP file are not skipped. Each one is kept as `""`,
  and that entry is a candidate that is posted on every run.

## Model

The definitions that do the modelling are `Extractor.Extract` and
`Extractor.MatchAt`, `Lines.Strip` and `Lines.StripLines`,
`Blocklist.CurrentBlocklist`, `Aggregation.Candidates`,
`Reconcile.Additions`, `Reconcile.Outcomes`, `Reconcile.Succeeded` and
`Importer.Created`. Each has no row of its own:
the rows of the lemmas and methods about it stand for it. These are
`Extractor.ExtractIpAddresses`, `Extractor.MatchEndIff` and
`Extractor.FindAllUnique`; `Lines.StripBounds` and `Lines.StripLinesEntry`;
`Blocklist.GetCurrentBlocklist`; `Aggregation.CandidatesIff`; and
`Reconcile.AdditionsFrom`, `Reconcile.OutcomesIff` and
`Reconcile.SucceededIff`; and `Importer.AddedBecomesCurrent` and
`Importer.RerunRetriesFailed`.

| member | source | states |
|---|---|---|
| Extractor.MatchEndIff | threat-intelligence-report-fastly-importer.py:67 | the matcher returns end j at i exactly when the pattern matches s[i..j] with `\b` on both sides |
| Extractor.MatchAtUnique | threat-intelligence-report-fastly-importer.py:67 | a match starting at i has only one possible end |
| Extractor.SpansIsFindAll | threat-intelligence-report-fastly-importer.py:68 | the scan's spans are matches, come left to right without overlap, and every match starts inside one of them |
| Extractor.FindAllUnique | threat-intelligence-report-fastly-importer.py:68 | any span list with those three properties is the scan's list |
| Extractor.ExtractIsMatches | threat-intelligence-report-fastly-importer.py:66-68 | each extracted string is the text of its span, a match, and a dotted quad, and the spans do not overlap |
| Extractor.ExtractEmptyIff | threat-intelligence-report-fastly-importer.py:66-68 | nothing is extracted exactly when the pattern matches nowhere in the text |
| Extractor.MatchStartsAtDelimiter | threat-intelligence-report-fastly-importer.py:67 | a match covering a position whose left neighbour is neither a digit nor a dot starts there |
| Extractor.ExtractFindsDelimited | threat-intelligence-report-fastly-importer.py:66-68 | a match whose left neighbour is neither a digit nor a dot is always among the extracted strings |
| Extractor.DottedShape | threat-intelligence-report-fastly-importer.py:67 | a dotted quad starts and ends with a digit and holds only digits and dots |
| Extractor.ExtractIpAddresses | threat-intelligence-report-fastly-importer.py:66-68 | the scanner returns exactly the findall list, and every element is a dotted quad |
| ExtractorExamples.OctetsNotRangeChecked | threat-intelligence-report-fastly-importer.py:67 | "999.999.999.999" is extracted: group values are not range-checked |
| ExtractorExamples.FifthGroupLeftOut | threat-intelligence-report-fastly-importer.py:67 | "1.2.3.4.5" gives ["1.2.3.4"] |
| ExtractorExamples.LongLastGroupNoMatch | threat-intelligence-report-fastly-importer.py:67 | "1.2.3.4567" gives [] |
| ExtractorExamples.LetterBeforeNoMatch | threat-intelligence-report-fastly-importer.py:67 | "a1.2.3.4" gives [] |
| Extractor.LoneQuad | threat-intelligence-report-fastly-importer.py:67-68 | four single digits joined by dots, alone, are extracted whole |
| Extractor.QuadBeforeWordChar | threat-intelligence-report-fastly-importer.py:67 | four single-digit groups directly followed by a letter start no match anywhere in them |
| ExtractorExamples.RepeatsKept | threat-intelligence-report-fastly-importer.py:68 | "1.2.3.4 1.2.3.4" gives the address twice: the list keeps repeats |
| Rules.RenderPayload | threat-intelligence-report-fastly-importer.py:39-44 | the payload carries the blocklist name, dynamic 1 and type "recv"; its content reads back as [ip] for a dotted quad and never holds ip otherwise |
| Rules.RuleReadBack | threat-intelligence-report-fastly-importer.py:43 | the rule for a dotted quad reads back as exactly [ip] |
| Rules.RuleFoundInAnyText | threat-intelligence-report-fastly-importer.py:43 | whatever text stands before and after a rule, its address is extracted |
| Rules.RuleMissesUndotted | threat-intelligence-report-fastly-importer.py:43 | a candidate that is not a dotted quad is never read back from its own rule |
| Rules.RulesReadBack | threat-intelligence-report-fastly-importer.py:43 | rules for dotted quads laid end to end read back as exactly that list, in order |
| Blocklist.GetCurrentBlocklist | threat-intelligence-report-fastly-importer.py:20-30 | the result is the set of addresses in the concatenated content of the snippets with the blocklist's name when the status is 200, and empty otherwise; a failure prints one message |
| Blocklist.ContentConcat | threat-intelligence-report-fastly-importer.py:23-26 | the content of a list of snippets is the content of its halves, one after the other |
| Blocklist.OtherNamesIgnored | threat-intelligence-report-fastly-importer.py:25 | a snippet with another name changes nothing, wherever it stands |
| Blocklist.CurrentAreDotted | threat-intelligence-report-fastly-importer.py:27-30 | every current address is a dotted quad read with status 200 |
| Blocklist.RuleSnippetIsCurrent | threat-intelligence-report-fastly-importer.py:24-27 | a rule snippet for a dotted quad makes that address current, whatever the other snippets hold |
| Blocklist.RenderedContent | threat-intelligence-report-fastly-importer.py:23-26 | the content of the rendered snippets is their rules laid end to end |
| Blocklist.RenderedBlocklistReadBack | threat-intelligence-report-fastly-importer.py:24-27 | a blocklist made only of rendered rules for dotted quads reads back as exactly the set of their addresses |
| Lines.StripBounds | threat-intelligence-report-fastly-importer.py:73 | the stripped line is the line without a whitespace prefix and suffix, and a non-empty result starts and ends with a non-space |
| Lines.TrimsUnique | threat-intelligence-report-fastly-importer.py:73 | a line has only one such trim |
| Lines.StripIsTrim | threat-intelligence-report-fastly-importer.py:73 | any trim of the line is what `strip()` returns |
| Lines.StripEmptyIff | threat-intelligence-report-fastly-importer.py:73 | a line strips to "" exactly when it is all whitespace |
| Lines.StripIdempotent | threat-intelligence-report-fastly-importer.py:73 | stripping twice is stripping once |
| Lines.StripDropsTerminator | threat-intelligence-report-fastly-importer.py:72-73 | a trailing whitespace character, such as the newline `readlines` keeps, does not change the stripped line |
| Lines.StripLinesEntry | threat-intelligence-report-fastly-importer.py:79 | entry k is line k stripped, one entry per line, and a blank line gives a kept "" |
| Aggregation.SpiderWebsite | threat-intelligence-report-fastly-importer.py:53-63 | a fetch that raises returns [] and prints one failure naming the URL; any other page returns the extracted addresses without printing; every address returned is a dotted quad |
| Aggregation.ScrapedAreMatches | threat-intelligence-report-fastly-importer.py:55-60 | an address a spider returns comes from a page that did not raise and is a dotted quad |
| Aggregation.HarvestedSound | threat-intelligence-report-fastly-importer.py:97-99 | a harvested address comes from the spider of one of the fetches |
| Aggregation.HarvestedComplete | threat-intelligence-report-fastly-importer.py:97-99 | whatever the spider returns for one of the fetches is harvested |
| Aggregation.HarvestedIff | threat-intelligence-report-fastly-importer.py:97-99 | an address is harvested exactly when some fetch's spider returns it |
| Aggregation.CandidatesIff | threat-intelligence-report-fastly-importer.py:95-102 | a candidate is exactly an address extracted from some page that did not raise, or a static line |
| Aggregation.CandidatesOrderFree | threat-intelligence-report-fastly-importer.py:97-102 | the candidate set does not depend on the order of the URLs |
| Aggregation.FailedFetchAddsNothing | threat-intelligence-report-fastly-importer.py:61-63 | a URL whose fetch raises adds no candidate |
| Aggregation.AggregateCandidates | threat-intelligence-report-fastly-importer.py:95-102 | the loop returns the candidate set and prints the spiders' failures in URL order |
| Reconcile.ReconcileCandidates | threat-intelligence-report-fastly-importer.py:108-114 | every candidate is visited exactly once; the add calls go to exactly the candidates not current, each once, one payload each; the messages follow the visiting order |
| Reconcile.OutcomesIff | threat-intelligence-report-fastly-importer.py:108-114 | an address is reported added exactly when it is a new candidate whose POST answered 200, failed exactly when the POST answered anything else, and skipped exactly when it is current |
| Reconcile.OutcomesAt | threat-intelligence-report-fastly-importer.py:108-114 | message k is the outcome for the k-th visited candidate |
| Reconcile.PayloadsAt | threat-intelligence-report-fastly-importer.py:112 | payload k is the rule for the k-th address added |
| Reconcile.AdditionsSet | threat-intelligence-report-fastly-importer.py:110-112 | the addresses added are the visited candidates minus the current ones |
| Reconcile.AdditionsFrom | threat-intelligence-report-fastly-importer.py:110-112 | an address is added exactly when it is visited and not current |
| Reconcile.AdditionsDistinct | threat-intelligence-report-fastly-importer.py:108-112 | when each candidate is visited once, no address is added twice |
| Reconcile.DistinctCard | threat-intelligence-report-fastly-importer.py:108 | a list without repeats has as many elements as its set, so there are as many add calls as new candidates |
| Importer.RunImport | threat-intelligence-report-fastly-importer.py:83-114 | one corrected run: the candidates come from the stripped lines and the pages, the adds are exactly the candidates not current, and the log is the spider failures, then the read failure, then one message per candidate |
| Importer.UndottedAlwaysAdded | threat-intelligence-report-fastly-importer.py:102-112 | a candidate that is not a dotted quad, such as a blank line's "", is never current and is posted on every run |
| Importer.ReadFailureAddsAll | threat-intelligence-report-fastly-importer.py:28-30 | when the snippet list cannot be read, every candidate gets an add call |
| Reconcile.SucceededIff | threat-intelligence-report-fastly-importer.py:45-48 | an address is among the successful additions exactly when it got an add call and its POST answered 200 |
| Reconcile.SucceededReported | threat-intelligence-report-fastly-importer.py:47-48 | the addresses printed as added are exactly the successful additions |
| Importer.PostsCreateRenderedSnippets | threat-intelligence-report-fastly-importer.py:39-44 | the payloads for a list of addresses describe exactly the rule snippets of those addresses, one each, in the same order |
| Importer.AddedBecomesCurrent | threat-intelligence-report-fastly-importer.py:24-27 | whatever the blocklist held, a dotted quad a run adds with a POST that answered 200 is current once the snippets created by the run follow the existing ones, so the next run does not add it again, in whatever order it visits |
| Importer.RerunRetriesFailed | threat-intelligence-report-fastly-importer.py:105-112 | when the blocklist holds only the importer's own rules for dotted quads and the candidates are dotted quads, a second run, in any visiting order, adds exactly the first run's additions whose POST did not answer 200 |
| Importer.RerunAddsNothing | threat-intelligence-report-fastly-importer.py:105-112 | under the same assumptions, when every add call of the first run answered 200, a second run in any visiting order adds nothing |
| Importer.QuadBeforeRuleHidden | threat-intelligence-report-fastly-importer.py:26-27 | a single-digit quad directly followed by a rule is not read: only the rule's address is extracted |
| Importer.RerunCanReAdd | threat-intelligence-report-fastly-importer.py:23-27 | with one snippet holding a single-digit quad q and the candidates q and another dotted quad ip, the first run adds ip, its POST answers 200, and the second run adds q again |
| Importer.GatherAsWritten | threat-intelligence-report-fastly-importer.py:95-99 | as written, the gathering stops with AttributeError exactly when the URL list is non-empty, and only an empty list reaches the static addresses |
| Importer.OneUrlCrashes | threat-intelligence-report-fastly-importer.py:98-99 | one URL whose page holds 10.0.0.5 crashes as written, while the corrected gathering makes 10.0.0.5 a candidate |

## Left out

- HTTP: `requests.get` and `requests.post`, the URLs they build, the headers and the API key. Their answers are inputs: page status and text, list status, body and snippets, and the POST status and body as functions of the address.
- HTML parsing: `BeautifulSoup(...).get_text()` is a foreign library, so each page's text is an input.
- JSON decoding of the snippet list: it is a sequence of name and content records. A record without `name` or `content`, which raises KeyError in the script, is not modelled.
- Configuration and command line: `configparser` and `argparse`. A missing configuration key, which raises KeyError, is not modelled.
- File reading: opening the files and `readlines`. The lines are inputs. `Lines.StripDropsTerminator` shows that the newline `readlines` keeps does not change the stripped line. Universal-newline translation is not modelled.
- Console output: each `print` is a `Message` value in a returned log.
- Word characters for `\b` are ASCII letters, digits and `_`. Python's Unicode-aware `\b` also counts other letters and digits, and this is not modelled. Digits are ASCII `0`–`9`, as the pattern's `[0-9]` says.
- Set iteration order on line 108 is unspecified in Python. `Reconcile.ReconcileCandidates` picks any remaining candidate at each step and returns the order it chose as `order`. Its properties hold for every order.
- Exceptions other than `requests.RequestException` in `spider_website`, and any exception from the two other HTTP calls, are not modelled.
- Reconcile.ReconcileCandidates: the POST answer is a function of the address alone. The model does not capture a remote service whose answer depends on earlier calls.
- Importer.Created: the effect of the POST on the service is assumed, not modelled: an answer of 200 is taken to have created the payload's snippet after the existing ones, and any other answer to have created nothing. The script itself only reads the status.
- Aggregation.SpiderWebsite: the printed error is the status that `raise_for_status` rejects or the transport failure's reason. The exact exception text is not modelled.
- Blocklist.CurrentBlocklist: snippet contents are joined with no separator, exactly as the script does it. The model keeps this behaviour. The end of one snippet can run into the start of the next one and change what is extracted. The address of the importer's own rule is always read (`Blocklist.RuleSnippetIsCurrent`). But a rule can hide an address at the very end of the snippet before it: the rule starts with the letter `i`, so no `\b` follows that address (`Importer.QuadBeforeRuleHidden`).
- Importer.RerunRetriesFailed: it assumes that the blocklist holds only the importer's own rules for dotted quads, that every candidate is a dotted quad, and that the created snippets follow the existing ones. An undotted candidate such as a blank line's `""` is retried on every run whatever its POST answered (`Importer.UndottedAlwaysAdded`).
- Importer.RerunAddsNothing: it assumes four things. First, the blocklist holds only the importer's own rules for dotted quads. Second, every candidate is a dotted quad; a candidate that is not one, such as the `""` a blank line of the IP file gives, is never current and is posted on every run (`Importer.UndottedAlwaysAdded`). Third, the snippets the first run creates follow the existing ones. Fourth, every add call of the first run answered 200; without this, the second run retries exactly the failed ones (`Importer.RerunRetriesFailed`, which makes the first three assumptions). Without the first assumption, a run can add an address again (`Importer.RerunCanReAdd`). For any existing blocklist, what holds is that a dotted quad a run adds with a POST that answered 200 is not added by the next one (`Importer.AddedBecomesCurrent`).

## Findings

| source | as written | input that shows it | evidently intended | confidence | as-written member | corrected member |
|---|---|---|---|---|---|---|
| threat-intelligence-report-fastly-importer.py:98-99 | line 98 replaces the candidate set with the list `spider_website` returns, and line 99 calls `update` on that list, which raises AttributeError, with the undefined name `ip_addresses` as argument | a URL file with one URL whose page text is "10.0.0.5" and a status of 200 | each URL's addresses are added to the set, as the comment on line 101 says, and the static list is added after the loop | not executed | Importer.GatherAsWritten | Aggregation.AggregateCandidates |
