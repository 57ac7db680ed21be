/**
 * The address extractor of the importer, `extract_ip_addresses`: Python's
 * `re.findall` of the pattern `\b(?:[0-9]{1,3}\.){3}[0-9]{1,3}\b`.
 *
 * MatchAt is the declarative reading of one match of the pattern; MatchEnd is
 * the matcher run at one position; Spans is the left-to-right, non-overlapping
 * scan of findall; ExtractIpAddresses walks the text with an index.  The word
 * characters of `\b` are the ASCII letters, the ASCII digits and '_'.
 */
module Extractor {

  datatype Option<T> = None | Some(value: T)

  predicate IsDigit(c: char) { '0' <= c <= '9' }

  /** A word character of `\b`, restricted to ASCII. */
  predicate IsWordChar(c: char) {
    IsDigit(c) || ('a' <= c <= 'z') || ('A' <= c <= 'Z') || c == '_'
  }

  /** `\b` at position i of s: one side is a word character and the other is not
      (the two ends of s count as non-word). */
  predicate BoundaryAt(s: string, i: nat)
    requires i <= |s|
  {
    (i > 0 && IsWordChar(s[i - 1])) != (i < |s| && IsWordChar(s[i]))
  }

  // ---------------------------------------------------------------------------
  // The declarative reading of the pattern

  /** Index of the first '.' of t, or |t| when t has none. */
  function FirstDot(t: string): (k: nat)
    ensures k <= |t|
  {
    if t == [] || t[0] == '.' then 0 else 1 + FirstDot(t[1..])
  }

  lemma {:induction false} FirstDotSpec(t: string)
    ensures forall m :: 0 <= m < FirstDot(t) ==> t[m] != '.'
    ensures FirstDot(t) < |t| ==> t[FirstDot(t)] == '.'
    decreases |t|
  {
    if t != [] && t[0] != '.' {
      FirstDotSpec(t[1..]);
    }
  }

  /** One group `[0-9]{1,3}`. */
  predicate IsOctetText(g: string) {
    1 <= |g| <= 3 && forall c :: 0 <= c < |g| ==> IsDigit(g[c])
  }

  /** t is n groups `[0-9]{1,3}` joined by dots: a group, and, when n > 1, a dot
      and the remaining n - 1 groups. */
  predicate IsDotted(t: string, n: nat)
    decreases n
  {
    if n <= 1 then n == 1 && IsOctetText(t)
    else
      var k := FirstDot(t);
      k < |t| && IsOctetText(t[..k]) && IsDotted(t[k + 1..], n - 1)
  }

  /** The text of one match: `(?:[0-9]{1,3}\.){3}[0-9]{1,3}`.  The value of a
      group is not checked, so "999.999.999.999" is a dotted quad. */
  predicate IsDottedQuad(t: string) { IsDotted(t, 4) }

  /** Every string in the list is a dotted quad. */
  predicate AllDotted(ips: seq<string>) {
    ips == [] || (IsDottedQuad(ips[0]) && AllDotted(ips[1..]))
  }

  /** The list is all dotted quads exactly when each of its entries is one. */
  lemma {:induction false} AllDottedIff(ips: seq<string>)
    ensures AllDotted(ips) <==> forall k :: 0 <= k < |ips| ==> IsDottedQuad(ips[k])
    decreases |ips|
  {
    if ips != [] {
      AllDottedIff(ips[1..]);
      assert forall k :: 0 < k < |ips| ==> ips[k] == ips[1..][k - 1];
    }
  }

  /** Every member of a list of dotted quads is one. */
  lemma AllDottedMember(ips: seq<string>, x: string)
    requires AllDotted(ips) && x in ips
    ensures IsDottedQuad(x)
  {
    AllDottedIff(ips);
  }

  /** s[i..j] is a match of the whole pattern, with `\b` on both sides. */
  predicate MatchAt(s: string, i: nat, j: nat) {
    i < j <= |s| && BoundaryAt(s, i) && BoundaryAt(s, j) && IsDottedQuad(s[i..j])
  }

  // ---------------------------------------------------------------------------
  // The matcher

  /** The end of the run of digits that starts at p. */
  function DigitRunEnd(s: string, p: nat): (q: nat)
    requires p <= |s|
    ensures p <= q <= |s|
    decreases |s| - p
  {
    if p < |s| && IsDigit(s[p]) then DigitRunEnd(s, p + 1) else p
  }

  /** The run is all digits and is not followed by one. */
  lemma {:induction false} DigitRunEndSpec(s: string, p: nat)
    requires p <= |s|
    ensures forall m :: p <= m < DigitRunEnd(s, p) ==> IsDigit(s[m])
    ensures DigitRunEnd(s, p) == |s| || !IsDigit(s[DigitRunEnd(s, p)])
    decreases |s| - p
  {
    if p < |s| && IsDigit(s[p]) {
      DigitRunEndSpec(s, p + 1);
    }
  }

  /**
   * Matches n groups joined by dots at p, the last group followed by `\b`.
   * A group `[0-9]{1,3}` must be followed by '.' or by `\b`, and neither can
   * stand between two digits, so the group takes the whole run of digits at p
   * and fails when that run is longer than three.
   */
  function GroupsEnd(s: string, p: nat, n: nat): (r: Option<nat>)
    requires p <= |s| && n >= 1
    ensures r.Some? ==> p < r.value <= |s| && IsDigit(s[p])
    decreases n
  {
    var q := DigitRunEnd(s, p);
    if q - p < 1 || q - p > 3 then None
    else if n == 1 then (if BoundaryAt(s, q) then Some(q) else None)
    else if q < |s| && s[q] == '.' then GroupsEnd(s, q + 1, n - 1)
    else None
  }

  /** The end of the match of the pattern that starts at i, if there is one. */
  function MatchEnd(s: string, i: nat): (r: Option<nat>)
    requires i <= |s|
    ensures r.Some? ==> i < r.value <= |s| && IsDigit(s[i]) && (i == 0 || !IsWordChar(s[i - 1]))
  {
    if BoundaryAt(s, i) then GroupsEnd(s, i, 4) else None
  }

  lemma DigitRunEndUnique(s: string, p: nat, q: nat)
    requires p <= q <= |s|
    requires forall m :: p <= m < q ==> IsDigit(s[m])
    requires q == |s| || !IsDigit(s[q])
    ensures DigitRunEnd(s, p) == q
  {
    DigitRunEndSpec(s, p);
  }

  /** A slice of s is one group exactly when it is one to three digits. */
  lemma OctetSlice(s: string, p: nat, q: nat)
    requires p <= q <= |s|
    ensures IsOctetText(s[p..q]) <==> 1 <= q - p <= 3 && forall m :: p <= m < q ==> IsDigit(s[m])
  {
    assert forall m :: p <= m < q ==> s[m] == s[p..q][m - p];
  }

  /** Splitting s[p..j] at its first dot, at position q of s. */
  lemma DotSplit(s: string, p: nat, q: nat, j: nat)
    requires p <= q < j <= |s|
    requires forall m :: p <= m < q ==> IsDigit(s[m])
    requires s[q] == '.'
    ensures FirstDot(s[p..j]) == q - p
    ensures s[p..j][..q - p] == s[p..q]
    ensures s[p..j][q - p + 1..] == s[q + 1..j]
  {
    var t := s[p..j];
    FirstDotSpec(t);
    assert forall m :: 0 <= m < q - p ==> t[m] == s[p + m];
    assert t[q - p] == s[q];
  }

  lemma DottedNonEmpty(t: string, n: nat)
    requires IsDotted(t, n)
    ensures |t| > 0
  {
  }

  /** A group, a dot and n - 1 more groups make n groups. */
  lemma DottedCons(s: string, p: nat, q: nat, j: nat, n: nat)
    requires p <= q < j <= |s| && n > 1
    requires 1 <= q - p <= 3 && (forall m :: p <= m < q ==> IsDigit(s[m])) && s[q] == '.'
    requires IsDotted(s[q + 1..j], n - 1)
    ensures IsDotted(s[p..j], n)
  {
    DotSplit(s, p, q, j);
    OctetSlice(s, p, q);
  }

  /** One group at p that the matcher accepts. */
  lemma GroupsEndSoundLast(s: string, p: nat)
    requires p <= |s| && GroupsEnd(s, p, 1).Some?
    ensures BoundaryAt(s, GroupsEnd(s, p, 1).value)
    ensures IsDotted(s[p..GroupsEnd(s, p, 1).value], 1)
  {
    DigitRunEndSpec(s, p);
    OctetSlice(s, p, DigitRunEnd(s, p));
  }

  lemma {:induction false} GroupsEndSound(s: string, p: nat, n: nat)
    requires p <= |s| && n >= 1
    requires GroupsEnd(s, p, n).Some?
    ensures BoundaryAt(s, GroupsEnd(s, p, n).value)
    ensures IsDotted(s[p..GroupsEnd(s, p, n).value], n)
    decreases n
  {
    if n == 1 {
      GroupsEndSoundLast(s, p);
    } else {
      var q := DigitRunEnd(s, p);
      DigitRunEndSpec(s, p);
      GroupsEndStep(s, p, n, q);
      GroupsEndSound(s, q + 1, n - 1);
      DottedCons(s, p, q, GroupsEnd(s, p, n).value, n);
    }
  }

  /** The first group of a run of n > 1 groups at p, read off the run of digits. */
  lemma DottedHead(s: string, p: nat, j: nat, n: nat) returns (q: nat)
    requires p < j <= |s| && n > 1
    requires IsDotted(s[p..j], n)
    ensures q + 1 < j && DigitRunEnd(s, p) == q && 1 <= q - p <= 3 && s[q] == '.'
    ensures IsDotted(s[q + 1..j], n - 1)
  {
    var t := s[p..j];
    var k := FirstDot(t);
    FirstDotSpec(t);
    assert t[..k] == s[p..p + k];
    OctetSlice(s, p, p + k);
    assert s[p + k] == t[k];
    DigitRunEndUnique(s, p, p + k);
    assert t[k + 1..] == s[p + k + 1..j];
    DottedNonEmpty(s[p + k + 1..j], n - 1);
    q := p + k;
  }

  lemma GroupsEndStep(s: string, p: nat, n: nat, q: nat)
    requires p <= q < |s| && n > 1
    requires DigitRunEnd(s, p) == q && 1 <= q - p <= 3 && s[q] == '.'
    ensures GroupsEnd(s, p, n) == GroupsEnd(s, q + 1, n - 1)
  {
  }

  lemma GroupsEndLast(s: string, p: nat, j: nat)
    requires p < j <= |s|
    requires BoundaryAt(s, j) && IsOctetText(s[p..j])
    ensures GroupsEnd(s, p, 1) == Some(j)
  {
    OctetSlice(s, p, j);
    DigitRunEndUnique(s, p, j);
  }

  lemma {:induction false} GroupsEndComplete(s: string, p: nat, n: nat, j: nat)
    requires p < j <= |s| && n >= 1
    requires BoundaryAt(s, j) && IsDotted(s[p..j], n)
    ensures GroupsEnd(s, p, n) == Some(j)
    decreases n
  {
    if n == 1 {
      GroupsEndLast(s, p, j);
    } else {
      var q := DottedHead(s, p, j, n);
      GroupsEndComplete(s, q + 1, n - 1, j);
      GroupsEndStep(s, p, n, q);
    }
  }

  /** The matcher finds a match at i exactly when the pattern matches there. */
  lemma MatchEndIff(s: string, i: nat, j: nat)
    requires i <= |s|
    ensures MatchEnd(s, i) == Some(j) <==> MatchAt(s, i, j)
  {
    if MatchEnd(s, i) == Some(j) {
      GroupsEndSound(s, i, 4);
    }
    if MatchAt(s, i, j) {
      GroupsEndComplete(s, i, 4, j);
    }
  }

  /** When the matcher fails at i, the pattern has no match starting at i. */
  lemma NoMatchAt(s: string, i: nat)
    requires i <= |s| && MatchEnd(s, i).None?
    ensures forall q :: !MatchAt(s, i, q)
  {
    forall q ensures !MatchAt(s, i, q) {
      MatchEndIff(s, i, q);
    }
  }

  /** The pattern is deterministic: a match at i has only one possible end. */
  lemma MatchAtUnique(s: string, i: nat, j1: nat, j2: nat)
    requires MatchAt(s, i, j1) && MatchAt(s, i, j2)
    ensures j1 == j2
  {
    MatchEndIff(s, i, j1);
    MatchEndIff(s, i, j2);
  }

  /** A dotted quad starts and ends with a digit and holds only digits and dots. */
  lemma {:induction false} DottedShape(t: string, n: nat)
    requires IsDotted(t, n)
    ensures |t| > 0 && IsDigit(t[0]) && IsDigit(t[|t| - 1])
    ensures forall c :: 0 <= c < |t| ==> IsDigit(t[c]) || t[c] == '.'
    decreases n
  {
    if n > 1 {
      var k := FirstDot(t);
      FirstDotSpec(t);
      var rest := t[k + 1..];
      DottedShape(rest, n - 1);
      assert t[0] == t[..k][0];
      assert t[|t| - 1] == rest[|rest| - 1];
      forall c | 0 <= c < |t| ensures IsDigit(t[c]) || t[c] == '.' {
        if c < k {
          assert t[c] == t[..k][c];
        } else if c > k {
          assert t[c] == rest[c - k - 1];
        }
      }
    }
  }

  // ---------------------------------------------------------------------------
  // The scan of findall

  /** The spans findall reports from position i on: try the pattern at i; on a
      match report it and go on at its end, otherwise go on at i + 1. */
  function Spans(s: string, i: nat): (sp: seq<(nat, nat)>)
    requires i <= |s|
    ensures forall k :: 0 <= k < |sp| ==> i <= sp[k].0 < sp[k].1 <= |s|
    decreases |s| - i
  {
    if i == |s| then []
    else match MatchEnd(s, i)
      case Some(j) => [(i, j)] + Spans(s, j)
      case None => Spans(s, i + 1)
  }

  predicate SpansIn(s: string, sp: seq<(nat, nat)>) {
    forall k :: 0 <= k < |sp| ==> sp[k].0 <= sp[k].1 <= |s|
  }

  /** The substrings of s that the spans select, in order. */
  function Texts(s: string, sp: seq<(nat, nat)>): (r: seq<string>)
    requires SpansIn(s, sp)
    ensures |r| == |sp|
  {
    if sp == [] then [] else [s[sp[0].0..sp[0].1]] + Texts(s, sp[1..])
  }

  /** The k-th text is the slice the k-th span selects. */
  lemma {:induction false} TextsAt(s: string, sp: seq<(nat, nat)>, k: nat)
    requires SpansIn(s, sp) && k < |sp|
    ensures Texts(s, sp)[k] == s[sp[k].0..sp[k].1]
  {
    if k > 0 {
      TextsAt(s, sp[1..], k - 1);
    }
  }

  /** What `extract_ip_addresses(s)` returns. */
  function Extract(s: string): seq<string> {
    Texts(s, Spans(s, 0))
  }

  /** Every span is a match of the pattern starting at i or later. */
  ghost predicate AllMatch(s: string, i: nat, sp: seq<(nat, nat)>) {
    forall k :: 0 <= k < |sp| ==> i <= sp[k].0 && MatchAt(s, sp[k].0, sp[k].1)
  }

  /** The spans come left to right and do not overlap. */
  ghost predicate InOrder(sp: seq<(nat, nat)>) {
    forall k, l :: 0 <= k < l < |sp| ==> sp[k].1 <= sp[l].0
  }

  /** Position p lies inside one of the spans. */
  predicate Covered(sp: seq<(nat, nat)>, p: nat) {
    sp != [] && (sp[0].0 <= p < sp[0].1 || Covered(sp[1..], p))
  }

  lemma {:induction false} CoveredIndex(sp: seq<(nat, nat)>, p: nat) returns (k: nat)
    requires Covered(sp, p)
    ensures k < |sp| && sp[k].0 <= p < sp[k].1
  {
    if sp[0].0 <= p < sp[0].1 {
      k := 0;
    } else {
      var l := CoveredIndex(sp[1..], p);
      k := l + 1;
    }
  }

  /** Every match starting at i or later begins inside one of the spans. */
  ghost predicate CoversMatches(s: string, i: nat, sp: seq<(nat, nat)>) {
    forall p, q :: i <= p && MatchAt(s, p, q) ==> Covered(sp, p)
  }

  /** The declarative meaning of findall from position i. */
  ghost predicate IsFindAll(s: string, i: nat, sp: seq<(nat, nat)>) {
    AllMatch(s, i, sp) && InOrder(sp) && CoversMatches(s, i, sp)
  }

  lemma AllMatchCons(s: string, i: nat, j: nat, rest: seq<(nat, nat)>)
    requires MatchAt(s, i, j) && AllMatch(s, j, rest)
    ensures AllMatch(s, i, [(i, j)] + rest)
  {
    var sp := [(i, j)] + rest;
    forall k | 0 <= k < |sp| ensures i <= sp[k].0 && MatchAt(s, sp[k].0, sp[k].1) {
      if k > 0 { assert sp[k] == rest[k - 1]; }
    }
  }

  lemma {:induction false} SpansAllMatch(s: string, i: nat)
    requires i <= |s|
    ensures AllMatch(s, i, Spans(s, i))
    decreases |s| - i
  {
    if i < |s| {
      match MatchEnd(s, i)
      case Some(j) =>
        MatchEndIff(s, i, j);
        SpansAllMatch(s, j);
        AllMatchCons(s, i, j, Spans(s, j));
      case None =>
        SpansAllMatch(s, i + 1);
    }
  }

  lemma InOrderCons(i: nat, j: nat, rest: seq<(nat, nat)>)
    requires InOrder(rest)
    requires forall k :: 0 <= k < |rest| ==> j <= rest[k].0
    ensures InOrder([(i, j)] + rest)
  {
    var sp := [(i, j)] + rest;
    forall k, l | 0 <= k < l < |sp| ensures sp[k].1 <= sp[l].0 {
      assert sp[l] == rest[l - 1];
      if k > 0 { assert sp[k] == rest[k - 1]; }
    }
  }

  lemma {:induction false} SpansInOrder(s: string, i: nat)
    requires i <= |s|
    ensures InOrder(Spans(s, i))
    decreases |s| - i
  {
    if i < |s| {
      match MatchEnd(s, i)
      case Some(j) =>
        SpansInOrder(s, j);
        InOrderCons(i, j, Spans(s, j));
      case None =>
        SpansInOrder(s, i + 1);
    }
  }

  lemma CoverCons(s: string, i: nat, j: nat, rest: seq<(nat, nat)>)
    requires i < j <= |s| && MatchEnd(s, i) == Some(j)
    requires rest == Spans(s, j) && CoversMatches(s, j, rest)
    ensures CoversMatches(s, i, Spans(s, i))
  {
    assert Spans(s, i) == [(i, j)] + rest;
    var sp := [(i, j)] + rest;
    assert sp[1..] == rest;
  }

  lemma CoverSkip(s: string, i: nat, sp: seq<(nat, nat)>)
    requires i < |s| && MatchEnd(s, i).None?
    requires sp == Spans(s, i + 1) && CoversMatches(s, i + 1, sp)
    ensures CoversMatches(s, i, Spans(s, i))
  {
    NoMatchAt(s, i);
  }

  lemma {:induction false} SpansCoverMatches(s: string, i: nat)
    requires i <= |s|
    ensures CoversMatches(s, i, Spans(s, i))
    decreases |s| - i
  {
    if i < |s| {
      match MatchEnd(s, i)
      case Some(j) =>
        SpansCoverMatches(s, j);
        CoverCons(s, i, j, Spans(s, j));
      case None =>
        SpansCoverMatches(s, i + 1);
        CoverSkip(s, i, Spans(s, i + 1));
    }
  }

  /** The scan meets the declarative meaning of findall. */
  lemma SpansIsFindAll(s: string, i: nat)
    requires i <= |s|
    ensures IsFindAll(s, i, Spans(s, i))
  {
    SpansAllMatch(s, i);
    SpansInOrder(s, i);
    SpansCoverMatches(s, i);
  }

  /** A findall from position i whose first match is at i reports that match first. */
  lemma FindAllHead(s: string, i: nat, j: nat, sp: seq<(nat, nat)>)
    requires MatchAt(s, i, j) && IsFindAll(s, i, sp)
    ensures |sp| > 0 && sp[0] == (i, j)
  {
    var k := CoveredIndex(sp, i);
    assert i <= sp[0].0 && MatchAt(s, sp[0].0, sp[0].1);
    assert k == 0;
    MatchAtUnique(s, i, j, sp[0].1);
  }

  /** What is left of a findall after its first span is a findall from that span's end. */
  lemma FindAllTail(s: string, i: nat, j: nat, sp: seq<(nat, nat)>)
    requires |sp| > 0 && sp[0] == (i, j) && i < j
    requires IsFindAll(s, i, sp)
    ensures IsFindAll(s, j, sp[1..])
  {
    AllMatchTail(s, i, j, sp);
    InOrderTail(sp);
    CoversTail(s, i, j, sp);
  }

  lemma AllMatchTail(s: string, i: nat, j: nat, sp: seq<(nat, nat)>)
    requires |sp| > 0 && sp[0] == (i, j)
    requires AllMatch(s, i, sp) && InOrder(sp)
    ensures AllMatch(s, j, sp[1..])
  {
    var rest := sp[1..];
    forall k | 0 <= k < |rest| ensures j <= rest[k].0 && MatchAt(s, rest[k].0, rest[k].1) {
      assert rest[k] == sp[k + 1];
    }
  }

  lemma InOrderTail(sp: seq<(nat, nat)>)
    requires |sp| > 0 && InOrder(sp)
    ensures InOrder(sp[1..])
  {
    var rest := sp[1..];
    forall k, l | 0 <= k < l < |rest| ensures rest[k].1 <= rest[l].0 {
      assert rest[k] == sp[k + 1] && rest[l] == sp[l + 1];
    }
  }

  lemma CoversTail(s: string, i: nat, j: nat, sp: seq<(nat, nat)>)
    requires |sp| > 0 && sp[0] == (i, j)
    requires CoversMatches(s, i, sp) && i < j
    ensures CoversMatches(s, j, sp[1..])
  {
  }

  /** With no match at i, a findall from i is a findall from i + 1. */
  lemma FindAllSkip(s: string, i: nat, sp: seq<(nat, nat)>)
    requires forall q :: !MatchAt(s, i, q)
    requires IsFindAll(s, i, sp)
    ensures IsFindAll(s, i + 1, sp)
  {
    forall k | 0 <= k < |sp| ensures i + 1 <= sp[k].0 {
      assert MatchAt(s, sp[k].0, sp[k].1);
    }
  }

  /** A findall from i when the pattern matches at i: its first span is that
      match and the rest is a findall from the match's end. */
  lemma FindAllMatchStep(s: string, i: nat, j: nat, sp: seq<(nat, nat)>)
    requires i < |s| && MatchEnd(s, i) == Some(j) && IsFindAll(s, i, sp)
    ensures |sp| > 0 && sp == [(i, j)] + sp[1..] && IsFindAll(s, j, sp[1..])
    ensures Spans(s, i) == [(i, j)] + Spans(s, j)
  {
    MatchEndIff(s, i, j);
    FindAllHead(s, i, j, sp);
    FindAllTail(s, i, j, sp);
  }

  /** A findall from i when the pattern does not match at i. */
  lemma FindAllNoMatchStep(s: string, i: nat, sp: seq<(nat, nat)>)
    requires i < |s| && MatchEnd(s, i).None? && IsFindAll(s, i, sp)
    ensures IsFindAll(s, i + 1, sp) && Spans(s, i) == Spans(s, i + 1)
  {
    NoMatchAt(s, i);
    FindAllSkip(s, i, sp);
  }

  /** The declarative meaning determines the scan: whatever sequence of spans
      meets it is the one findall reports. */
  lemma {:induction false} FindAllUnique(s: string, i: nat, sp: seq<(nat, nat)>)
    requires i <= |s|
    requires IsFindAll(s, i, sp)
    ensures sp == Spans(s, i)
    decreases |s| - i
  {
    if i == |s| {
      assert |sp| > 0 ==> MatchAt(s, sp[0].0, sp[0].1);
    } else if MatchEnd(s, i).Some? {
      var j := MatchEnd(s, i).value;
      FindAllMatchStep(s, i, j, sp);
      FindAllUnique(s, j, sp[1..]);
    } else {
      FindAllNoMatchStep(s, i, sp);
      FindAllUnique(s, i + 1, sp);
    }
  }

  // ---------------------------------------------------------------------------
  // What extract_ip_addresses promises

  /** Every extracted string is a match of the pattern: a dotted quad that stands
      in the text between two `\b`, and the matches come left to right without
      overlapping. */
  lemma ExtractIsMatches(s: string)
    ensures |Extract(s)| == |Spans(s, 0)|
    ensures forall k :: 0 <= k < |Extract(s)| ==>
              var (p, q) := Spans(s, 0)[k]; MatchAt(s, p, q) && Extract(s)[k] == s[p..q]
    ensures AllDotted(Extract(s))
    ensures forall k, l :: 0 <= k < l < |Spans(s, 0)| ==> Spans(s, 0)[k].1 <= Spans(s, 0)[l].0
  {
    SpansIsFindAll(s, 0);
    forall k | 0 <= k < |Spans(s, 0)| ensures Extract(s)[k] == s[Spans(s, 0)[k].0..Spans(s, 0)[k].1] {
      TextsAt(s, Spans(s, 0), k);
    }
    AllDottedIff(Extract(s));
  }

  /** Nothing is extracted exactly when the pattern matches nowhere. */
  lemma ExtractEmptyIff(s: string)
    ensures Extract(s) == [] <==> forall p, q :: !MatchAt(s, p, q)
  {
    SpansIsFindAll(s, 0);
    var sp := Spans(s, 0);
    if sp != [] {
      assert MatchAt(s, sp[0].0, sp[0].1);
    }
  }

  /** A match holds only digits and dots, so one that covers position a with a
      delimiter just before a starts at a. */
  lemma MatchStartsAtDelimiter(s: string, p: nat, q: nat, a: nat)
    requires MatchAt(s, p, q) && p <= a < q
    requires a == 0 || !(IsDigit(s[a - 1]) || s[a - 1] == '.')
    ensures p == a
  {
    DottedShape(s[p..q], 4);
    forall c | p <= c < q ensures IsDigit(s[c]) || s[c] == '.' {
      assert s[c] == s[p..q][c - p];
    }
  }

  /** A match whose left neighbour is neither a digit nor a dot is always
      extracted: no earlier match can run over it. */
  lemma ExtractFindsDelimited(s: string, a: nat, b: nat)
    requires MatchAt(s, a, b)
    requires a == 0 || !(IsDigit(s[a - 1]) || s[a - 1] == '.')
    ensures s[a..b] in Extract(s)
  {
    var k := DelimitedSpan(s, a, b);
    TextsAt(s, Spans(s, 0), k);
  }

  lemma DelimitedSpan(s: string, a: nat, b: nat) returns (k: nat)
    requires MatchAt(s, a, b)
    requires a == 0 || !(IsDigit(s[a - 1]) || s[a - 1] == '.')
    ensures k < |Spans(s, 0)| && Spans(s, 0)[k] == (a, b)
  {
    SpansCoverMatches(s, 0);
    SpansAllMatch(s, 0);
    var sp := Spans(s, 0);
    k := CoveredIndex(sp, a);
    MatchStartsAtDelimiter(s, sp[k].0, sp[k].1, a);
    MatchAtUnique(s, a, b, sp[k].1);
  }

  // ---------------------------------------------------------------------------
  // How the scan passes over stretches of a text

  /** A stretch without digits holds no match: the scan passes over it. */
  lemma {:induction false} SpansSkipNoDigits(s: string, i: nat, j: nat)
    requires i <= j <= |s|
    requires forall m :: i <= m < j ==> !IsDigit(s[m])
    ensures Spans(s, i) == Spans(s, j)
    decreases j - i
  {
    if i < j {
      assert MatchEnd(s, i).None?;
      SpansSkipNoDigits(s, i + 1, j);
    }
  }

  /** No match starts between two digits, since `\b` fails there. */
  lemma SpansSkipInRun(s: string, i: nat)
    requires 0 < i < |s| && IsDigit(s[i - 1]) && IsDigit(s[i])
    ensures Spans(s, i) == Spans(s, i + 1)
  {
    assert !BoundaryAt(s, i);
  }

  /** A run of digits followed by something other than a dot starts no match. */
  lemma SpansSkipUndotted(s: string, i: nat, q: nat)
    requires i < q < |s| && DigitRunEnd(s, i) == q && s[q] != '.'
    ensures Spans(s, i) == Spans(s, i + 1)
  {
    assert GroupsEnd(s, i, 4).None?;
  }

  /** At a match the scan reports it and resumes at its end. */
  lemma SpansAtMatch(s: string, i: nat, j: nat)
    requires MatchAt(s, i, j)
    ensures Spans(s, i) == [(i, j)] + Spans(s, j)
  {
    MatchEndIff(s, i, j);
  }

  /** The texts of a span list that starts with (i, j). */
  lemma TextsCons(s: string, i: nat, j: nat, rest: seq<(nat, nat)>)
    requires i < j <= |s| && SpansIn(s, rest)
    ensures SpansIn(s, [(i, j)] + rest)
    ensures Texts(s, [(i, j)] + rest) == [s[i..j]] + Texts(s, rest)
  {
    assert ([(i, j)] + rest)[1..] == rest;
  }

  /** The scanner: walks the text with an index, as `findall` does. */
  method ExtractIpAddresses(text: string) returns (found: seq<string>)
    ensures found == Extract(text)
    ensures AllDotted(found)
  {
    found := [];
    var i := 0;
    while i < |text|
      invariant 0 <= i <= |text|
      invariant found + Texts(text, Spans(text, i)) == Extract(text)
      decreases |text| - i
    {
      match MatchEnd(text, i)
      case Some(j) =>
        assert Texts(text, Spans(text, i)) == [text[i..j]] + Texts(text, Spans(text, j));
        found := found + [text[i..j]];
        i := j;
      case None =>
        i := i + 1;
    }
    ExtractIsMatches(text);
  }

  /** Four single digits joined by dots, standing between two `\b`, match. */
  lemma SingleDigitQuad(s: string, i: nat)
    requires i + 7 <= |s| && BoundaryAt(s, i) && BoundaryAt(s, i + 7)
    requires IsDigit(s[i]) && IsDigit(s[i + 2]) && IsDigit(s[i + 4]) && IsDigit(s[i + 6])
    requires s[i + 1] == '.' && s[i + 3] == '.' && s[i + 5] == '.'
    ensures MatchAt(s, i, i + 7)
  {
    DigitRunEndUnique(s, i, i + 1);
    DigitRunEndUnique(s, i + 2, i + 3);
    DigitRunEndUnique(s, i + 4, i + 5);
    DigitRunEndUnique(s, i + 6, i + 7);
    assert GroupsEnd(s, i + 4, 2) == Some(i + 7);
    assert GroupsEnd(s, i, 4) == Some(i + 7);
    MatchEndIff(s, i, i + 7);
  }

  /** Four single digits joined by dots, alone, are extracted whole. */
  lemma LoneQuad(s: string)
    requires |s| == 7 && IsDigit(s[0]) && IsDigit(s[2]) && IsDigit(s[4]) && IsDigit(s[6])
    requires s[1] == '.' && s[3] == '.' && s[5] == '.'
    ensures Extract(s) == [s] && IsDottedQuad(s)
  {
    SingleDigitQuad(s, 0);
    SpansAtMatch(s, 0, 7);
    assert Spans(s, 7) == [];
    TextsCons(s, 0, 7, []);
    assert s[0..7] == s;
  }

  /** Four single-digit groups followed by a letter start no match: the last
      group ends between two word characters, where `\b` fails, and every later
      start has too few groups. */
  lemma QuadBeforeWordChar(s: string)
    requires |s| > 7 && IsWordChar(s[7]) && !IsDigit(s[7])
    requires IsDigit(s[0]) && IsDigit(s[2]) && IsDigit(s[4]) && IsDigit(s[6])
    requires s[1] == '.' && s[3] == '.' && s[5] == '.'
    ensures Spans(s, 0) == Spans(s, 7)
  {
    DigitRunEndUnique(s, 0, 1);
    DigitRunEndUnique(s, 2, 3);
    DigitRunEndUnique(s, 4, 5);
    DigitRunEndUnique(s, 6, 7);
    SpansSkipUndotted(s, 6, 7);
    assert MatchEnd(s, 4) == None;
    assert MatchEnd(s, 2) == None;
    assert MatchEnd(s, 0) == None;
    SpansSkipNoDigits(s, 5, 6);
    SpansSkipNoDigits(s, 3, 4);
    SpansSkipNoDigits(s, 1, 2);
  }
}
