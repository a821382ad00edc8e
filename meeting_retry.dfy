/** The decision logic of `retryMeetingTimes` in searchResultsParser.js: a
    response is accepted when its status is 200 and its body has a truthy
    `fmt`; otherwise the request is tried again after a short delay, until
    the try counter exceeds 5. Responses are an abstract sequence indexed by
    the try counter; the timer and the randomness are parameters. */
module MeetingRetry {
  import opened Js

  /** What the scraper sees as the previous response: its status code and
      its body, both JavaScript values. */
  datatype Response = Response(statusCode: Json, body: Json)

  /** A pending promise read as a response: it has neither a status code
      nor a body. */
  const PendingPromise := Response(Undefined, Undefined)

  /** How the attempts end: the callback gets the body, or `null`, or the
      check of `body.fmt` throws because a 200 response has no body. */
  datatype Outcome = Delivered(body: Json) | GaveUp | Threw

  /** Reading `body.fmt` throws on `undefined` and `null`. */
  predicate BodyThrows(r: Response) {
    r.statusCode == Num(200) && (r.body.Undefined? || r.body.Null?)
  }

  /** The first test of `retryMeetingTimes`. */
  predicate Accepted(r: Response) {
    r.statusCode == Num(200) && r.body.Obj? && Truthy(Get(r.body.fields, "fmt"))
  }

  /** The last try counter that still leads to another request. */
  const MaxTries := 5

  /** The delay before the next request, for a random draw rounded to an
      integer in [0, 500]; `setTimeout` reads it as milliseconds. The delay
      only decides when the next request is sent: how the attempts end
      (`Run`) does not depend on it, so `Run` does not take it. */
  function RetryDelay(jitter: int): (d: int)
    requires 0 <= jitter <= 500
    ensures 1 <= d <= 501
    ensures d - 1 == jitter
  {
    1 + jitter
  }

  /** The attempts from try counter `tries` on, where `respond(k)` is the
      response the scraper holds at try counter k: how they end and how
      many responses were looked at. */
  function Run(respond: nat -> Response, tries: nat): (r: (Outcome, nat))
    requires tries <= MaxTries + 1
    ensures 1 <= r.1 <= MaxTries + 2 - tries
    decreases MaxTries + 1 - tries
  {
    var previous := respond(tries);
    if BodyThrows(previous) then (Threw, 1)
    else if Accepted(previous) then (Delivered(previous.body), 1)
    else if tries > MaxTries then (GaveUp, 1)
    else
      var rest := Run(respond, tries + 1);
      (rest.0, rest.1 + 1)
  }

  /** Nothing before try counter k was accepted or threw. */
  predicate FailedBefore(respond: nat -> Response, from: nat, k: nat) {
    forall j :: from <= j < k ==> !Accepted(respond(j)) && !BodyThrows(respond(j))
  }

  /** The run delivers a body exactly when some response up to try counter
      6 is accepted with no earlier one accepted or throwing, and then it
      delivers that response's body after looking at the responses up to it. */
  lemma {:induction false} RunDelivers(respond: nat -> Response, tries: nat, k: nat)
    requires tries <= k <= MaxTries + 1
    requires FailedBefore(respond, tries, k)
    ensures Accepted(respond(k)) ==> Run(respond, tries) == (Delivered(respond(k).body), k - tries + 1)
    ensures BodyThrows(respond(k)) ==> Run(respond, tries) == (Threw, k - tries + 1)
    decreases k - tries
  {
    if tries < k {
      RunDelivers(respond, tries + 1, k);
    } else {
      assert !(Accepted(respond(k)) && BodyThrows(respond(k)));
    }
  }

  /** An endpoint that never answers properly is asked seven times: the
      first request and six retries, after which the callback gets `null`. */
  lemma {:induction false} RunGivesUp(respond: nat -> Response, tries: nat)
    requires tries <= MaxTries + 1
    requires FailedBefore(respond, tries, MaxTries + 2)
    ensures Run(respond, tries) == (GaveUp, MaxTries + 2 - tries)
    decreases MaxTries + 1 - tries
  {
    if tries <= MaxTries {
      RunGivesUp(respond, tries + 1);
    }
  }

  /** Every run ends in one of three ways: a delivered body that some
      accepted response carried, a throw that some response caused, or
      giving up after all seven responses failed. */
  lemma RunOutcomes(respond: nat -> Response)
    ensures Run(respond, 0).0.Delivered? ==>
            exists k :: 0 <= k <= MaxTries + 1 && Accepted(respond(k)) && Run(respond, 0).0.body == respond(k).body
    ensures Run(respond, 0).0.GaveUp? <==> FailedBefore(respond, 0, MaxTries + 2)
  {
    if FailedBefore(respond, 0, MaxTries + 2) {
      RunGivesUp(respond, 0);
    } else {
      var k := FirstFailure(respond, 0);
      RunDelivers(respond, 0, k);
    }
  }

  /** The first try counter at which a response was accepted or threw. */
  lemma FirstFailure(respond: nat -> Response, from: nat) returns (k: nat)
    requires from <= MaxTries + 1
    requires !FailedBefore(respond, from, MaxTries + 2)
    ensures from <= k <= MaxTries + 1 && FailedBefore(respond, from, k)
    ensures Accepted(respond(k)) || BodyThrows(respond(k))
  {
    k := from;
    while !(Accepted(respond(k)) || BodyThrows(respond(k)))
      invariant from <= k <= MaxTries + 1 && FailedBefore(respond, from, k)
      decreases MaxTries + 1 - k
    {
      if k == MaxTries + 1 {
        assert FailedBefore(respond, from, MaxTries + 2);
      }
      k := k + 1;
    }
  }

  /** The meeting times of one section, with every retry awaited: the
      initial response and then the fresh response of each retry. */
  function MeetingTimes(respond: nat -> Response): (r: (Outcome, nat))
    ensures 1 <= r.1 <= MaxTries + 2
  {
    Run(respond, 0)
  }

  /** The corrected retry recovers: a redirect to the login page followed by
      a proper answer delivers that answer. */
  lemma RecoversAfterRedirect(respond: nat -> Response)
    requires respond(0).statusCode == Num(302)
    requires Accepted(respond(1))
    ensures MeetingTimes(respond) == (Delivered(respond(1).body), 2)
  {
    RunDelivers(respond, 0, 1);
  }

  /** The retry as written: each retry hands on the promise that
      `request.get` returns, not its response, so every retry sees a
      pending promise. */
  function RetryAsWritten(first: Response): (r: (Outcome, nat))
    ensures 1 <= r.1 <= MaxTries + 2
  {
    Run(k => if k == 0 then first else PendingPromise, 0)
  }

  /** As written, a first response that is not accepted can never be
      recovered from: the run always ends with `null` after seven looks. */
  lemma AsWrittenNeverRecovers(first: Response)
    requires !Accepted(first) && !BodyThrows(first)
    ensures RetryAsWritten(first) == (GaveUp, MaxTries + 2)
  {
    var respond: nat -> Response := k => if k == 0 then first else PendingPromise;
    assert FailedBefore(respond, 0, MaxTries + 2);
    RunGivesUp(respond, 0);
  }

  /** The input that shows it: a spontaneous 302 and then a good answer. The
      corrected logic delivers the answer; the code as written gives up. */
  lemma RedirectThenAnswer(answer: Json)
    requires answer.Obj? && Truthy(Get(answer.fields, "fmt"))
    ensures var respond: nat -> Response := k => if k == 0 then Response(Num(302), Null) else Response(Num(200), answer);
            MeetingTimes(respond).0 == Delivered(answer) && RetryAsWritten(respond(0)).0 == GaveUp
  {
    var respond: nat -> Response := k => if k == 0 then Response(Num(302), Null) else Response(Num(200), answer);
    RecoversAfterRedirect(respond);
    AsWrittenNeverRecovers(respond(0));
  }
}
