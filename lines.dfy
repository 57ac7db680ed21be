/** `read_urls` and `read_ip_addresses`: each line read from a list file,
    stripped of leading and trailing whitespace as Python's `str.strip()` does. */
module Lines {
  /** The characters for which Python's `str.isspace()` holds; `strip()` with
      no argument removes exactly these. */
  predicate IsSpace(c: char) {
    ('\t' <= c <= '\r') || ('\U{1c}' <= c <= ' ') || c == '\U{85}' || c == '\U{a0}'
    || c == '\U{1680}' || ('\U{2000}' <= c <= '\U{200a}') || c == '\U{2028}' || c == '\U{2029}'
    || c == '\U{202f}' || c == '\U{205f}' || c == '\U{3000}'
  }

  predicate AllSpace(s: string) {
    forall k :: 0 <= k < |s| ==> IsSpace(s[k])
  }

  function StripLeading(s: string): (r: string)
    ensures |r| <= |s|
  {
    if s != [] && IsSpace(s[0]) then StripLeading(s[1..]) else s
  }

  function StripTrailing(s: string): (r: string)
    ensures |r| <= |s|
  {
    if s != [] && IsSpace(s[|s| - 1]) then StripTrailing(s[..|s| - 1]) else s
  }

  /** Python's `line.strip()`. */
  function Strip(s: string): string {
    StripTrailing(StripLeading(s))
  }

  /** StripLeading drops a whitespace prefix and stops at the first other character. */
  lemma {:induction false} LeadingBound(s: string) returns (a: nat)
    ensures a <= |s| && StripLeading(s) == s[a..] && AllSpace(s[..a])
    ensures a < |s| ==> !IsSpace(s[a])
  {
    if s != [] && IsSpace(s[0]) {
      var a' := LeadingBound(s[1..]);
      a := a' + 1;
      assert s[1..][a'..] == s[a..];
      forall k | 0 <= k < a ensures IsSpace(s[..a][k]) {
        if k > 0 { assert s[..a][k] == s[1..][..a'][k - 1]; }
      }
    } else {
      a := 0;
    }
  }

  /** StripTrailing drops a whitespace suffix and stops at the last other character. */
  lemma {:induction false} TrailingBound(s: string) returns (b: nat)
    ensures b <= |s| && StripTrailing(s) == s[..b] && AllSpace(s[b..])
    ensures b > 0 ==> !IsSpace(s[b - 1])
  {
    if s != [] && IsSpace(s[|s| - 1]) {
      var t := s[..|s| - 1];
      b := TrailingBound(t);
      assert t[..b] == s[..b];
      forall k | 0 <= k < |s| - b ensures IsSpace(s[b..][k]) {
        if b + k < |t| { assert s[b..][k] == t[b..][k]; }
      }
    } else {
      b := |s|;
    }
  }

  /** s[a..b] is s trimmed: what lies on either side is whitespace, and a
      non-empty middle starts and ends with a character that is not. */
  ghost predicate Trims(s: string, a: nat, b: nat) {
    a <= b <= |s| && AllSpace(s[..a]) && AllSpace(s[b..])
    && (a < b ==> !IsSpace(s[a]) && !IsSpace(s[b - 1]))
  }

  /** The stripped line is s trimmed. */
  lemma StripBounds(s: string) returns (a: nat, b: nat)
    ensures Trims(s, a, b) && Strip(s) == s[a..b]
  {
    a := LeadingBound(s);
    var t := s[a..];
    var c := TrailingBound(t);
    b := a + c;
    assert t[..c] == s[a..b];
    forall k | 0 <= k < |s| - b ensures IsSpace(s[b..][k]) {
      assert s[b..][k] == t[c..][k];
    }
    if a < b {
      assert s[a] == t[0];
      assert s[b - 1] == t[c - 1];
    }
  }

  /** A trim is empty exactly when the line is all whitespace. */
  lemma TrimsEmptyIff(s: string, a: nat, b: nat)
    requires Trims(s, a, b)
    ensures a == b <==> AllSpace(s)
  {
    if a == b {
      forall k | 0 <= k < |s| ensures IsSpace(s[k]) {
        if k < a { assert s[k] == s[..a][k]; } else { assert s[k] == s[b..][k - b]; }
      }
    } else {
      assert !IsSpace(s[a]);
    }
  }

  /** Every character outside the trim is whitespace. */
  lemma TrimsInside(s: string, a: nat, b: nat, k: nat)
    requires Trims(s, a, b) && k < |s|
    ensures k < a || b <= k ==> IsSpace(s[k])
  {
    if k < a {
      assert s[k] == s[..a][k];
    } else if b <= k {
      assert s[k] == s[b..][k - b];
    }
  }

  lemma TrimsSame(s: string, a: nat, b: nat, a': nat, b': nat)
    requires Trims(s, a, b) && Trims(s, a', b') && !AllSpace(s)
    ensures a == a' && b == b'
  {
    TrimsEmptyIff(s, a, b);
    TrimsEmptyIff(s, a', b');
    TrimsInside(s, a', b', a);
    TrimsInside(s, a', b', b - 1);
    TrimsInside(s, a, b, a');
    TrimsInside(s, a, b, b' - 1);
  }

  /** A line has one trim only, so `strip()` is fully described by Trims. */
  lemma TrimsUnique(s: string, a: nat, b: nat, a': nat, b': nat)
    requires Trims(s, a, b) && Trims(s, a', b')
    ensures s[a..b] == s[a'..b']
  {
    if AllSpace(s) {
      TrimsEmptyIff(s, a, b);
      TrimsEmptyIff(s, a', b');
    } else {
      TrimsSame(s, a, b, a', b');
    }
  }

  /** Whatever trim of s is given, it is what `strip()` returns. */
  lemma StripIsTrim(s: string, a: nat, b: nat)
    requires Trims(s, a, b)
    ensures Strip(s) == s[a..b]
  {
    var a', b' := StripBounds(s);
    TrimsUnique(s, a, b, a', b');
  }

  /** A line strips to "" exactly when it is all whitespace. */
  lemma StripEmptyIff(s: string)
    ensures Strip(s) == "" <==> AllSpace(s)
  {
    var a, b := StripBounds(s);
    TrimsEmptyIff(s, a, b);
  }

  /** A stripped line has nothing left to strip. */
  lemma StripIdempotent(s: string)
    ensures Strip(Strip(s)) == Strip(s)
  {
    var a, b := StripBounds(s);
    var r := s[a..b];
    assert r[..0] == [] && r[|r|..] == [];
    if a < b {
      assert r[0] == s[a] && r[|r| - 1] == s[b - 1];
    }
    StripIsTrim(r, 0, |r|);
    assert r[0..|r|] == r;
  }

  /** The line terminator that `readlines` keeps is whitespace, so it does not
      change what the line strips to. */
  lemma StripDropsTerminator(s: string, c: char)
    requires IsSpace(c)
    ensures Strip(s + [c]) == Strip(s)
  {
    var a, b := StripBounds(s);
    var t := s + [c];
    assert t[..a] == s[..a];
    assert t[b..] == s[b..] + [c];
    forall k | 0 <= k < |t| - b ensures IsSpace(t[b..][k]) {
      if k < |s| - b { assert t[b..][k] == s[b..][k]; }
    }
    if a < b {
      assert t[a] == s[a] && t[b - 1] == s[b - 1];
    }
    StripIsTrim(t, a, b);
    assert t[a..b] == s[a..b];
  }

  /** What `read_urls` and `read_ip_addresses` return for the lines of a file:
      one stripped entry per line, blank lines included. */
  function StripLines(lines: seq<string>): (r: seq<string>)
    ensures |r| == |lines|
  {
    seq(|lines|, k requires 0 <= k < |lines| => Strip(lines[k]))
  }

  /** Entry k is line k stripped; a blank line gives "" and is kept. */
  lemma StripLinesEntry(lines: seq<string>, k: nat)
    requires k < |lines|
    ensures StripLines(lines)[k] == Strip(lines[k])
    ensures StripLines(lines)[k] == "" <==> AllSpace(lines[k])
  {
    StripEmptyIff(lines[k]);
  }
}
