/** The loop at the end of `main`: each candidate not yet in the blocklist gets
    one add call, each one already there is reported and skipped. */
module Reconcile {
  import opened Rules
  import opened Blocklist
  import opened Messages

  /** No string occurs twice. */
  predicate Distinct(s: seq<string>) {
    forall i, j :: 0 <= i < j < |s| ==> s[i] != s[j]
  }

  /** What the loop prints for one candidate, given the status and body that
      the snippet-creation POST for that address answers with. */
  function OutcomeOf(ip: string, current: set<string>, postStatus: string -> int,
                     postBody: string -> string): Message
  {
    if ip in current then AlreadyPresent(ip)
    else if postStatus(ip) == 200 then AddSucceeded(ip)
    else AddFailed(ip, postStatus(ip), postBody(ip))
  }

  /** The messages for the candidates in the order the loop visits them. */
  function Outcomes(order: seq<string>, current: set<string>, postStatus: string -> int,
                    postBody: string -> string): (r: seq<Message>)
    ensures |r| == |order|
    decreases |order|
  {
    if order == [] then []
    else
      var n := |order| - 1;
      Outcomes(order[..n], current, postStatus, postBody) + [OutcomeOf(order[n], current, postStatus, postBody)]
  }

  /** The candidates that get an add call, in visiting order. */
  function Additions(order: seq<string>, current: set<string>): seq<string>
    decreases |order|
  {
    if order == [] then []
    else
      var n := |order| - 1;
      Additions(order[..n], current) + (if order[n] in current then [] else [order[n]])
  }

  /** The payloads posted for the additions, one each. */
  function Payloads(name: string, added: seq<string>): (r: seq<Payload>)
    ensures |r| == |added|
    decreases |added|
  {
    if added == [] then []
    else
      var n := |added| - 1;
      Payloads(name, added[..n]) + [RenderPayload(name, added[n])]
  }

  /** Entry k of the messages belongs to entry k of the visiting order. */
  lemma {:induction false} OutcomesAt(order: seq<string>, current: set<string>, postStatus: string -> int,
                                      postBody: string -> string, k: nat)
    requires k < |order|
    ensures Outcomes(order, current, postStatus, postBody)[k] == OutcomeOf(order[k], current, postStatus, postBody)
    decreases |order|
  {
    var n := |order| - 1;
    if k < n {
      OutcomesAt(order[..n], current, postStatus, postBody, k);
    }
  }

  /** Payload k is the rule for addition k. */
  lemma {:induction false} PayloadsAt(name: string, added: seq<string>, k: nat)
    requires k < |added|
    ensures Payloads(name, added)[k] == RenderPayload(name, added[k])
    decreases |added|
  {
    var n := |added| - 1;
    if k < n {
      PayloadsAt(name, added[..n], k);
    }
  }

  /** The set of one more element. */
  lemma ToSetSnoc(s: seq<string>, x: string)
    ensures ToSet(s + [x]) == ToSet(s) + {x}
  {
    forall y ensures y in ToSet(s + [x]) <==> y in ToSet(s) + {x} {
      assert y in s + [x] <==> y in s || y == x;
    }
  }

  /** The loop visits one more candidate. */
  lemma VisitOne(order: seq<string>, ip: string, current: set<string>, postStatus: string -> int,
                 postBody: string -> string, name: string)
    ensures Additions(order + [ip], current) == Additions(order, current) + (if ip in current then [] else [ip])
    ensures Outcomes(order + [ip], current, postStatus, postBody) ==
              Outcomes(order, current, postStatus, postBody) + [OutcomeOf(ip, current, postStatus, postBody)]
    ensures ip !in current ==>
              Payloads(name, Additions(order, current) + [ip]) == Payloads(name, Additions(order, current)) + [RenderPayload(name, ip)]
  {
    assert (order + [ip])[..|order|] == order;
    var added := Additions(order, current);
    assert (added + [ip])[..|added|] == added;
  }

  /** A list without repeats stays so when an element not in it is appended. */
  lemma DistinctSnoc(s: seq<string>, x: string)
    requires Distinct(s) && x !in s
    ensures Distinct(s + [x])
  {
    var t := s + [x];
    forall i, j | 0 <= i < j < |t| ensures t[i] != t[j] {
      assert t[i] == s[i];
      if j < |s| { assert t[j] == s[j]; }
    }
  }

  /** Moving one remaining candidate to the visiting order keeps the order
      free of repeats and its set the candidates visited so far. */
  lemma VisitFresh(order: seq<string>, remaining: set<string>, candidates: set<string>, ip: string)
    requires remaining <= candidates && ip in remaining
    requires Distinct(order) && ToSet(order) == candidates - remaining
    ensures remaining - {ip} <= candidates
    ensures Distinct(order + [ip]) && ToSet(order + [ip]) == candidates - (remaining - {ip})
  {
    assert ip !in order by {
      assert ip !in ToSet(order);
    }
    DistinctSnoc(order, ip);
    ToSetSnoc(order, ip);
    assert candidates - (remaining - {ip}) == (candidates - remaining) + {ip};
  }

  /** The add calls go to exactly the candidates that are not yet current. */
  lemma {:induction false} AdditionsSet(order: seq<string>, current: set<string>)
    ensures ToSet(Additions(order, current)) == ToSet(order) - current
    decreases |order|
  {
    if order != [] {
      var n := |order| - 1;
      var init := order[..n];
      AdditionsSet(init, current);
      assert order == init + [order[n]];
      ToSetSnoc(init, order[n]);
      if order[n] !in current {
        assert Additions(order, current) == Additions(init, current) + [order[n]];
        ToSetSnoc(Additions(init, current), order[n]);
      } else {
        assert Additions(order, current) == Additions(init, current);
      }
    }
  }

  /** Every address that gets an add call is a candidate that is not current. */
  lemma AdditionsFrom(order: seq<string>, current: set<string>, ip: string)
    ensures ip in Additions(order, current) <==> ip in order && ip !in current
  {
    AdditionsSet(order, current);
    assert ip in Additions(order, current) <==> ip in ToSet(Additions(order, current));
    assert ip in order <==> ip in ToSet(order);
  }

  /** When the loop visits each candidate once, no address gets two add calls. */
  lemma {:induction false} AdditionsDistinct(order: seq<string>, current: set<string>)
    requires Distinct(order)
    ensures Distinct(Additions(order, current))
    decreases |order|
  {
    if order != [] {
      var n := |order| - 1;
      var init := order[..n];
      assert Distinct(init) by {
        forall i, j | 0 <= i < j < |init| ensures init[i] != init[j] {
          assert init[i] == order[i] && init[j] == order[j];
        }
      }
      AdditionsDistinct(init, current);
      if order[n] !in current {
        AdditionsFrom(init, current, order[n]);
        forall i | 0 <= i < n ensures order[i] != order[n] { }
      }
    }
  }

  /** A list without repeats has as many elements as its set. */
  lemma {:induction false} DistinctCard(s: seq<string>)
    requires Distinct(s)
    ensures |ToSet(s)| == |s|
    decreases |s|
  {
    if s != [] {
      var n := |s| - 1;
      var init := s[..n];
      assert Distinct(init) by {
        forall i, j | 0 <= i < j < |init| ensures init[i] != init[j] {
          assert init[i] == s[i] && init[j] == s[j];
        }
      }
      DistinctCard(init);
      assert s == init + [s[n]];
      assert ToSet(s) == ToSet(init) + {s[n]};
      forall i | 0 <= i < n ensures init[i] != s[n] { }
    }
  }

  /** An address is reported as added exactly when it is a candidate that is
      not current and its POST answered 200; as failed exactly when the POST
      answered anything else; as skipped exactly when it is current. */
  lemma {:induction false} OutcomesIff(order: seq<string>, current: set<string>, postStatus: string -> int,
                                       postBody: string -> string, ip: string)
    ensures AddSucceeded(ip) in Outcomes(order, current, postStatus, postBody) <==>
              ip in order && ip !in current && postStatus(ip) == 200
    ensures (exists st, b :: AddFailed(ip, st, b) in Outcomes(order, current, postStatus, postBody)) <==>
              ip in order && ip !in current && postStatus(ip) != 200
    ensures AlreadyPresent(ip) in Outcomes(order, current, postStatus, postBody) <==>
              ip in order && ip in current
    decreases |order|
  {
    if order != [] {
      var n := |order| - 1;
      OutcomesIff(order[..n], current, postStatus, postBody, ip);
      assert order == order[..n] + [order[n]];
      var out := Outcomes(order, current, postStatus, postBody);
      assert out == Outcomes(order[..n], current, postStatus, postBody) + [OutcomeOf(order[n], current, postStatus, postBody)];
      if ip in order && ip !in current && postStatus(ip) != 200 {
        if ip != order[n] {
          var st, b :| AddFailed(ip, st, b) in Outcomes(order[..n], current, postStatus, postBody);
          assert AddFailed(ip, st, b) in out;
        } else {
          assert AddFailed(ip, postStatus(ip), postBody(ip)) in out;
        }
      }
    }
  }

  /** The additions whose POST answered 200, in order: the ones for which the
      service created a snippet. */
  function Succeeded(added: seq<string>, postStatus: string -> int): seq<string>
    decreases |added|
  {
    if added == [] then []
    else
      var n := |added| - 1;
      Succeeded(added[..n], postStatus) + (if postStatus(added[n]) == 200 then [added[n]] else [])
  }

  /** An address succeeded exactly when it was added and its POST answered 200. */
  lemma {:induction false} SucceededIff(added: seq<string>, postStatus: string -> int, ip: string)
    ensures ip in Succeeded(added, postStatus) <==> ip in added && postStatus(ip) == 200
    decreases |added|
  {
    if added != [] {
      var n := |added| - 1;
      SucceededIff(added[..n], postStatus, ip);
      assert added == added[..n] + [added[n]];
    }
  }

  /** The addresses reported as added are exactly the successful additions. */
  lemma SucceededReported(order: seq<string>, current: set<string>, postStatus: string -> int,
                          postBody: string -> string, ip: string)
    ensures AddSucceeded(ip) in Outcomes(order, current, postStatus, postBody) <==>
              ip in Succeeded(Additions(order, current), postStatus)
  {
    OutcomesIff(order, current, postStatus, postBody, ip);
    SucceededIff(Additions(order, current), postStatus, ip);
    AdditionsFrom(order, current, ip);
  }

  /** The reconciliation loop. The set's iteration order is not specified, so
      the loop picks any remaining candidate and returns the order it chose. */
  method ReconcileCandidates(name: string, candidates: set<string>, current: set<string>,
                             postStatus: string -> int, postBody: string -> string)
    returns (order: seq<string>, added: seq<string>, payloads: seq<Payload>, log: seq<Message>)
    ensures Distinct(order) && ToSet(order) == candidates
    ensures added == Additions(order, current)
    ensures payloads == Payloads(name, added)
    ensures log == Outcomes(order, current, postStatus, postBody)
    ensures ToSet(added) == candidates - current && Distinct(added)
    ensures |added| == |candidates - current|
  {
    order, added, payloads, log := [], [], [], [];
    var remaining := candidates;
    while remaining != {}
      invariant remaining <= candidates
      invariant Distinct(order) && ToSet(order) == candidates - remaining
      invariant added == Additions(order, current)
      invariant payloads == Payloads(name, added)
      invariant log == Outcomes(order, current, postStatus, postBody)
      decreases |remaining|
    {
      var ip :| ip in remaining;
      VisitOne(order, ip, current, postStatus, postBody, name);
      VisitFresh(order, remaining, candidates, ip);
      if ip !in current {
        payloads := payloads + [RenderPayload(name, ip)];
        added := added + [ip];
      }
      log := log + [OutcomeOf(ip, current, postStatus, postBody)];
      order := order + [ip];
      remaining := remaining - {ip};
    }
    AdditionsSet(order, current);
    AdditionsDistinct(order, current);
    DistinctCard(added);
  }
}
