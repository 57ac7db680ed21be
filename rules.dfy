/** The blocking rule that `add_ip_to_blocklist` uploads for one address, and
    why the importer's own rules read back as exactly the addresses they block. */
module Rules {
  import opened Extractor

  /** The JSON body of the snippet-creation request. */
  datatype Payload = Payload(name: string, dynamic: int, kind: string, content: string)

  /** The VCL text in front of and behind the address in a rule. */
  const RulePrefix: string := "if (client.ip == "
  const RuleSuffix: string := ") { error 403; }\n"

  /** The VCL condition that blocks one address with a 403. */
  function RuleContent(ip: string): string {
    RulePrefix + ip + RuleSuffix
  }

  /** The payload posted for one address: a dynamic `recv` snippet named after
      the blocklist whose content, read back by the extractor, is that address
      when it is a dotted quad, and never holds it otherwise. */
  function RenderPayload(name: string, ip: string): (p: Payload)
    ensures p.name == name && p.dynamic == 1 && p.kind == "recv"
    ensures IsDottedQuad(ip) ==> Extract(p.content) == [ip]
    ensures !IsDottedQuad(ip) ==> ip !in Extract(p.content)
  {
    if IsDottedQuad(ip) then
      RuleReadBack(ip);
      Payload(name, 1, "recv", RuleContent(ip))
    else
      RuleMissesUndotted(ip);
      Payload(name, 1, "recv", RuleContent(ip))
  }

  /** s holds the rule for ip at position i, piece by piece. */
  ghost predicate RuleAt(s: string, i: nat, ip: string) {
    var a := i + |RulePrefix|;
    var b := a + |ip|;
    b + |RuleSuffix| <= |s| &&
    s[i..a] == RulePrefix && s[a..b] == ip && s[b..b + |RuleSuffix|] == RuleSuffix
  }

  /** Slicing a text at the end of its first part. */
  lemma SliceConcat(s: string, i: nat, x: string, y: string)
    requires i <= |s| && s[i..] == x + y
    ensures i + |x| <= |s| && s[i..i + |x|] == x && s[i + |x|..] == y
  {
    assert s[i..i + |x|] == s[i..][..|x|];
    assert s[i + |x|..] == s[i..][|x|..];
  }

  /** A rule at the front of the rest of a text is there piece by piece. */
  lemma RuleAtFront(s: string, i: nat, ip: string, rest: string)
    requires i <= |s| && s[i..] == RuleContent(ip) + rest
    ensures RuleAt(s, i, ip)
    ensures s[i + |RuleContent(ip)|..] == rest
  {
    assert RuleContent(ip) + rest == RulePrefix + (ip + (RuleSuffix + rest));
    SliceConcat(s, i, RulePrefix, ip + (RuleSuffix + rest));
    SliceConcat(s, i + |RulePrefix|, ip, RuleSuffix + rest);
    SliceConcat(s, i + |RulePrefix| + |ip|, RuleSuffix, rest);
  }

  /** The rule prefix holds no digit, so no match starts inside it. */
  lemma SpansOverPrefix(s: string, i: nat, a: nat)
    requires a == i + |RulePrefix| <= |s| && s[i..a] == RulePrefix
    ensures Spans(s, i) == Spans(s, a)
  {
    forall m | i <= m < a ensures !IsDigit(s[m]) {
      assert s[m] == s[i..a][m - i];
    }
    SpansSkipNoDigits(s, i, a);
  }

  /** The only digits in the suffix are the status code 403, which no dot
      follows, so no match starts inside the suffix either. */
  lemma SpansOverSuffix(s: string, b: nat, e: nat)
    requires e == b + |RuleSuffix| <= |s| && s[b..e] == RuleSuffix
    ensures Spans(s, b) == Spans(s, e)
  {
    SuffixChars(s, b, e);
    SpansOverStatus(s, b, e);
  }

  /** Ten characters without digits, three digits and a ';', then four more
      characters without digits: the shape of the suffix. */
  predicate SuffixShape(s: string, b: nat) {
    b + 17 <= |s|
    && (forall m :: b <= m < b + 10 ==> !IsDigit(s[m]))
    && IsDigit(s[b + 10]) && IsDigit(s[b + 11]) && IsDigit(s[b + 12]) && s[b + 13] == ';'
    && (forall m :: b + 13 <= m < b + 17 ==> !IsDigit(s[m]))
  }

  /** The scan passes over text of the shape of the suffix. */
  lemma SpansOverStatus(s: string, b: nat, e: nat)
    requires e == b + 17 && SuffixShape(s, b)
    ensures Spans(s, b) == Spans(s, e)
  {
    var p := b + 10;
    SpansSkipNoDigits(s, b, p);
    SpansOverCode(s, p);
    SpansSkipNoDigits(s, p + 3, e);
  }

  /** Three digits and a ';' start no match. */
  lemma SpansOverCode(s: string, p: nat)
    requires p + 4 <= |s|
    requires IsDigit(s[p]) && IsDigit(s[p + 1]) && IsDigit(s[p + 2]) && s[p + 3] == ';'
    ensures Spans(s, p) == Spans(s, p + 3)
  {
    DigitRunEndUnique(s, p, p + 3);
    SpansSkipUndotted(s, p, p + 3);
    SpansSkipInRun(s, p + 1);
    SpansSkipInRun(s, p + 2);
  }

  /** Where the digits of the suffix are. */
  lemma SuffixChars(s: string, b: nat, e: nat)
    requires e == b + |RuleSuffix| <= |s| && s[b..e] == RuleSuffix
    ensures e == b + 17 && SuffixShape(s, b)
  {
    forall m | b <= m < e ensures s[m] == RuleSuffix[m - b] {
      assert s[m] == s[b..e][m - b];
    }
  }

  /** The address in a rule for a dotted quad is a match of the pattern: a
      space stands before it and a parenthesis after it. */
  lemma MatchInRule(s: string, i: nat, ip: string)
    requires IsDottedQuad(ip) && RuleAt(s, i, ip)
    ensures MatchAt(s, i + |RulePrefix|, i + |RulePrefix| + |ip|)
    ensures s[i + |RulePrefix| - 1] == ' '
  {
    var a := i + |RulePrefix|;
    var b := a + |ip|;
    DottedShape(ip, 4);
    assert s[a - 1] == s[i..a][|RulePrefix| - 1];
    assert s[a] == s[a..b][0];
    assert s[b - 1] == s[a..b][|ip| - 1];
    assert s[b] == s[b..b + |RuleSuffix|][0];
  }

  /** The scan passes over the text of a rule around its address. */
  lemma SpansAroundAddress(s: string, i: nat, ip: string)
    requires RuleAt(s, i, ip)
    ensures Spans(s, i) == Spans(s, i + |RulePrefix|)
    ensures Spans(s, i + |RulePrefix| + |ip|) == Spans(s, i + |RuleContent(ip)|)
  {
    assert s[i..i + |RulePrefix|] == RulePrefix;
    assert s[i + |RulePrefix| + |ip|..i + |RuleContent(ip)|] == RuleSuffix;
    SpansOverPrefix(s, i, i + |RulePrefix|);
    SpansOverSuffix(s, i + |RulePrefix| + |ip|, i + |RuleContent(ip)|);
  }

  /** The scan reports the address of a rule for a dotted quad. */
  lemma SpansAtAddress(s: string, i: nat, ip: string)
    requires IsDottedQuad(ip) && RuleAt(s, i, ip)
    ensures Spans(s, i + |RulePrefix|) ==
              [(i + |RulePrefix|, i + |RulePrefix| + |ip|)] + Spans(s, i + |RulePrefix| + |ip|)
  {
    MatchInRule(s, i, ip);
    SpansAtMatch(s, i + |RulePrefix|, i + |RulePrefix| + |ip|);
  }

  /** Over one rule for a dotted quad, the scan reports the address and nothing else. */
  lemma SpansOverRule(s: string, i: nat, ip: string)
    requires IsDottedQuad(ip) && RuleAt(s, i, ip)
    ensures Spans(s, i) ==
              [(i + |RulePrefix|, i + |RulePrefix| + |ip|)] + Spans(s, i + |RuleContent(ip)|)
  {
    SpansAroundAddress(s, i, ip);
    SpansAtAddress(s, i, ip);
  }

  /** Where the address of a rule for a dotted quad stands. */
  lemma RuleAddress(s: string, i: nat, ip: string)
    requires IsDottedQuad(ip) && RuleAt(s, i, ip)
    ensures 0 < |ip| && i + |RuleContent(ip)| <= |s|
    ensures s[i + |RulePrefix|..i + |RulePrefix| + |ip|] == ip
  {
    DottedNonEmpty(ip, 4);
  }

  /** What the extractor reads from a rule for a dotted quad at position i. */
  lemma TextsOverRuleAt(s: string, i: nat, ip: string)
    requires IsDottedQuad(ip) && RuleAt(s, i, ip)
    ensures Texts(s, Spans(s, i)) == [ip] + Texts(s, Spans(s, i + |RuleContent(ip)|))
  {
    RuleAddress(s, i, ip);
    SpansOverRule(s, i, ip);
    TextsOverAddress(s, i, ip);
  }

  /** The texts over a rule, from where its address stands and how the scan
      passes over it. */
  lemma TextsOverAddress(s: string, i: nat, ip: string)
    requires 0 < |ip| && i + |RuleContent(ip)| <= |s|
    requires s[i + |RulePrefix|..i + |RulePrefix| + |ip|] == ip
    requires Spans(s, i) == [(i + |RulePrefix|, i + |RulePrefix| + |ip|)] + Spans(s, i + |RuleContent(ip)|)
    ensures Texts(s, Spans(s, i)) == [ip] + Texts(s, Spans(s, i + |RuleContent(ip)|))
  {
    var a := i + |RulePrefix|;
    TextsOverSpan(s, i, a, a + |ip|, i + |RuleContent(ip)|, ip);
  }

  /** When the scan from i finds the text t at (a, b) first and resumes at e,
      the texts from i are t and then the texts from e. */
  lemma TextsOverSpan(s: string, i: nat, a: nat, b: nat, e: nat, t: string)
    requires i <= e <= |s| && a < b <= |s| && s[a..b] == t
    requires Spans(s, i) == [(a, b)] + Spans(s, e)
    ensures Texts(s, Spans(s, i)) == [t] + Texts(s, Spans(s, e))
  {
    TextsCons(s, a, b, Spans(s, e));
  }

  /** What the extractor reads from a rule at the front of the rest of a text. */
  lemma TextsOverRule(s: string, i: nat, ip: string, rest: string)
    requires IsDottedQuad(ip)
    requires i <= |s| && s[i..] == RuleContent(ip) + rest
    ensures i + |RuleContent(ip)| <= |s| && s[i + |RuleContent(ip)|..] == rest
    ensures Texts(s, Spans(s, i)) == [ip] + Texts(s, Spans(s, i + |RuleContent(ip)|))
  {
    RuleAtFront(s, i, ip, rest);
    TextsOverRuleAt(s, i, ip);
  }

  /** The rule for a dotted quad reads back as exactly that address. */
  lemma RuleReadBack(ip: string)
    requires IsDottedQuad(ip)
    ensures Extract(RuleContent(ip)) == [ip]
  {
    var r := RuleContent(ip);
    assert r[0..] == r;
    assert r == r + "";
    TextsOverRule(r, 0, ip, "");
    assert Spans(r, |r|) == [];
  }

  /** The extractor finds the address of a rule for a dotted quad wherever
      the rule stands in a text. */
  lemma RuleFoundAt(s: string, i: nat, ip: string)
    requires IsDottedQuad(ip) && RuleAt(s, i, ip)
    ensures ip in Extract(s)
  {
    MatchInRule(s, i, ip);
    var a := i + |RulePrefix|;
    ExtractFindsDelimited(s, a, a + |ip|);
  }

  /** What follows the first part of a text of three parts. */
  lemma DropFront(x: string, y: string, z: string)
    ensures |x| <= |x + y + z| && (x + y + z)[|x|..] == y + z
  {
  }

  /** Whatever text surrounds a rule, the extractor finds its address. */
  lemma RuleFoundInAnyText(before: string, ip: string, after: string)
    requires IsDottedQuad(ip)
    ensures ip in Extract(before + RuleContent(ip) + after)
  {
    DropFront(before, RuleContent(ip), after);
    RuleAtFront(before + RuleContent(ip) + after, |before|, ip, after);
    RuleFoundAt(before + RuleContent(ip) + after, |before|, ip);
  }

  /** A candidate that is not a dotted quad never reads back from its own rule. */
  lemma RuleMissesUndotted(ip: string)
    requires !IsDottedQuad(ip)
    ensures ip !in Extract(RuleContent(ip))
  {
    ExtractIsMatches(RuleContent(ip));
  }

  /** The rules for a list of addresses, one after the other. */
  function RulesText(ips: seq<string>): string {
    if ips == [] then "" else RuleContent(ips[0]) + RulesText(ips[1..])
  }

  lemma {:induction false} TextsOverRules(s: string, i: nat, ips: seq<string>)
    requires AllDotted(ips)
    requires i <= |s| && s[i..] == RulesText(ips)
    ensures Texts(s, Spans(s, i)) == ips
    decreases |ips|
  {
    if ips == [] {
      assert i == |s|;
    } else {
      var j := TextsOverFirstRule(s, i, ips);
      TextsOverRules(s, j, ips[1..]);
      assert ips == [ips[0]] + ips[1..];
    }
  }

  /** The first rule of a list of rules reads back as its address. */
  lemma TextsOverFirstRule(s: string, i: nat, ips: seq<string>) returns (j: nat)
    requires ips != [] && AllDotted(ips)
    requires i <= |s| && s[i..] == RulesText(ips)
    ensures AllDotted(ips[1..]) && j <= |s| && s[j..] == RulesText(ips[1..])
    ensures Texts(s, Spans(s, i)) == [ips[0]] + Texts(s, Spans(s, j))
  {
    var ip, tail := ips[0], ips[1..];
    assert AllDotted(tail) && IsDottedQuad(ip);
    assert s[i..] == RuleContent(ip) + RulesText(tail);
    TextsOverRule(s, i, ip, RulesText(tail));
    j := i + |RuleContent(ip)|;
  }

  /** Rules for dotted quads, laid end to end, read back as exactly those
      addresses, in order and with repeats. */
  lemma RulesReadBack(ips: seq<string>)
    requires AllDotted(ips)
    ensures Extract(RulesText(ips)) == ips
  {
    var s := RulesText(ips);
    assert s[0..] == s;
    TextsOverRules(s, 0, ips);
  }
}
