/** `get_current_blocklist`: the addresses that the blocklist's snippets already
    hold, as the extractor reads them back from the snippets' VCL. */
module Blocklist {
  import opened Extractor
  import opened Rules
  import opened Messages

  /** One entry of the decoded snippet list of a service version. */
  datatype Snippet = Snippet(name: string, content: string)

  /** The concatenated content of the snippets named `name`, in list order. */
  function BlocklistContent(snippets: seq<Snippet>, name: string): string
    decreases |snippets|
  {
    if snippets == [] then ""
    else
      var last := snippets[|snippets| - 1];
      BlocklistContent(snippets[..|snippets| - 1], name) + (if last.name == name then last.content else "")
  }

  /** The strings of a list, as a set: Python's `set(...)`. */
  function ToSet(xs: seq<string>): set<string> {
    set x | x in xs
  }

  /** What `get_current_blocklist` returns for a list response with this status
      and, when the status is 200, these decoded snippets. */
  function CurrentBlocklist(status: int, snippets: seq<Snippet>, name: string): set<string> {
    if status == 200 then ToSet(Extract(BlocklistContent(snippets, name))) else {}
  }

  /** The loop over the decoded snippets, then the extraction. */
  method GetCurrentBlocklist(status: int, body: string, snippets: seq<Snippet>, name: string)
    returns (current: set<string>, log: seq<Message>)
    ensures current == CurrentBlocklist(status, snippets, name)
    ensures status == 200 ==> log == []
    ensures status != 200 ==> log == [BlocklistReadFailed(status, body)]
  {
    if status == 200 {
      var content := "";
      var k := 0;
      while k < |snippets|
        invariant 0 <= k <= |snippets|
        invariant content == BlocklistContent(snippets[..k], name)
      {
        assert snippets[..k + 1][..k] == snippets[..k];
        if snippets[k].name == name {
          content := content + snippets[k].content;
        }
        k := k + 1;
      }
      assert snippets[..|snippets|] == snippets;
      var found := ExtractIpAddresses(content);
      current := set ip | ip in found;
      log := [];
    } else {
      current := {};
      log := [BlocklistReadFailed(status, body)];
    }
  }

  /** The content of a list is the content of its two halves, one after the other. */
  lemma {:induction false} ContentConcat(a: seq<Snippet>, b: seq<Snippet>, name: string)
    ensures BlocklistContent(a + b, name) == BlocklistContent(a, name) + BlocklistContent(b, name)
    decreases |b|
  {
    if b == [] {
      assert a + b == a;
    } else {
      var b' := b[..|b| - 1];
      assert (a + b)[..|a + b| - 1] == a + b';
      assert (a + b)[|a + b| - 1] == b[|b| - 1];
      ContentConcat(a, b', name);
    }
  }

  /** Only the snippets with the blocklist's name contribute: the content is
      unchanged when any other snippet is added anywhere. */
  lemma OtherNamesIgnored(a: seq<Snippet>, other: Snippet, b: seq<Snippet>, name: string)
    requires other.name != name
    ensures BlocklistContent(a + [other] + b, name) == BlocklistContent(a + b, name)
  {
    ContentConcat(a + [other], b, name);
    ContentConcat(a, [other], name);
    ContentConcat(a, b, name);
    assert [other][..0] == [];
  }

  /** Every address in the current blocklist is a dotted quad, and a failed
      read reports none. */
  lemma CurrentAreDotted(status: int, snippets: seq<Snippet>, name: string, ip: string)
    requires ip in CurrentBlocklist(status, snippets, name)
    ensures status == 200 && IsDottedQuad(ip)
  {
    ExtractIsMatches(BlocklistContent(snippets, name));
  }

  /** The snippet that the importer's payload creates. */
  function SnippetOf(p: Payload): Snippet {
    Snippet(p.name, p.content)
  }

  /** The snippet holding the rule for one address. */
  function RuleSnippet(name: string, ip: string): Snippet {
    Snippet(name, RuleContent(ip))
  }

  /** The snippets that a sequence of POSTs creates, one per payload, in order. */
  function PostedSnippets(payloads: seq<Payload>): (r: seq<Snippet>)
    ensures |r| == |payloads|
  {
    seq(|payloads|, k requires 0 <= k < |payloads| => SnippetOf(payloads[k]))
  }

  /** A snippet of the blocklist holding the rule for a dotted quad makes that
      address current, whatever the other snippets hold. */
  lemma RuleSnippetIsCurrent(snippets: seq<Snippet>, k: nat, name: string, ip: string)
    requires k < |snippets| && snippets[k] == RuleSnippet(name, ip)
    requires IsDottedQuad(ip)
    ensures ip in CurrentBlocklist(200, snippets, name)
  {
    var a := snippets[..k];
    var b := snippets[k + 1..];
    assert snippets == a + [snippets[k]] + b;
    ContentConcat(a + [snippets[k]], b, name);
    ContentConcat(a, [snippets[k]], name);
    assert [snippets[k]][..0] == [];
    assert BlocklistContent([snippets[k]], name) == RuleContent(ip);
    RuleFoundInAnyText(BlocklistContent(a, name), ip, BlocklistContent(b, name));
  }

  /** The snippets that the importer creates for a list of addresses. */
  function RenderedSnippets(name: string, ips: seq<string>): (r: seq<Snippet>)
    ensures |r| == |ips|
  {
    if ips == [] then [] else [RuleSnippet(name, ips[0])] + RenderedSnippets(name, ips[1..])
  }

  /** Rendered snippet k holds the rule for address k. */
  lemma {:induction false} RenderedSnippetsAt(name: string, ips: seq<string>, k: nat)
    requires k < |ips|
    ensures RenderedSnippets(name, ips)[k] == RuleSnippet(name, ips[k])
    decreases k
  {
    if k > 0 {
      RenderedSnippetsAt(name, ips[1..], k - 1);
    }
  }

  /** The content of the rendered snippets is their rules laid end to end. */
  lemma {:induction false} RenderedContent(name: string, ips: seq<string>)
    ensures BlocklistContent(RenderedSnippets(name, ips), name) == RulesText(ips)
    decreases |ips|
  {
    if ips != [] {
      var head := [RuleSnippet(name, ips[0])];
      RenderedContent(name, ips[1..]);
      ContentConcat(head, RenderedSnippets(name, ips[1..]), name);
      assert head[..0] == [];
    }
  }

  /** A blocklist made only of the importer's own rules for dotted quads reads
      back as exactly the set of their addresses. */
  lemma RenderedBlocklistReadBack(name: string, ips: seq<string>)
    requires AllDotted(ips)
    ensures CurrentBlocklist(200, RenderedSnippets(name, ips), name) == ToSet(ips)
  {
    RenderedContent(name, ips);
    RulesReadBack(ips);
  }
}
