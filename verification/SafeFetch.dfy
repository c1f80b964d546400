// The fetcher of safe-fetch.ts: a page redirect loop whose every hop first runs a robots redirect loop, under one
// policy and one deadline. The server, the name service and the clock answer anything at any moment.
module SafeFetch {
  import opened Text
  import opened FetchPolicy
  import opened FetchTrace

  /** A body is read to the end exactly when it fits; nothing is kept of a larger one. */
  method ReadBody(chunks: seq<seq<Byte>>, maxBytes: int) returns (r: Result<seq<Byte>>)
    requires maxBytes > 0
    ensures r.Ok? <==> |Joined(chunks, |chunks|)| <= maxBytes
    ensures r == if r.Ok? then Ok(Joined(chunks, |chunks|)) else Failed(TooLarge)
  {
    var kept: seq<Byte> := [];
    var size := 0;
    for k := 0 to |chunks|
      invariant kept == Joined(chunks, k) && size == |kept| <= maxBytes
    {
      size := size + |chunks[k]|;
      if size > maxBytes {
        JoinedGrows(chunks, k + 1, |chunks|);
        return Failed(TooLarge);
      }
      kept := kept + chunks[k];
    }
    r := Ok(kept);
  }

  class Fetcher {
    const policy: Policy
    const maxRedirects: nat
    const maxBytes: nat
    const deadline: int
    var trace: seq<Exchange>
    var log: seq<Event>

    constructor (policy: Policy, maxRedirects: nat, maxBytes: nat, deadline: int)
      ensures this.policy == policy && this.maxRedirects == maxRedirects && this.maxBytes == maxBytes
          && this.deadline == deadline
      ensures trace == [] && log == []
    {
      this.policy, this.maxRedirects, this.maxBytes, this.deadline := policy, maxRedirects, maxBytes, deadline;
      trace, log := [], [];
    }

    /** Nothing went wrong so far. */
    predicate Quiet()
      reads this
    {
      Calm(policy, deadline, log)
    }

    /** What the trace keeps at every moment. */
    ghost predicate Sound(guarded: bool, secure: bool)
      reads this
    {
      && Clean(policy, deadline, secure, trace) && Bounded(trace, maxBytes)
      && (guarded ==> Guarded(policy, trace))
    }

    /** `remaining`: the time left until the deadline by a clock that may read anything; none left is a failure. */
    method Remaining() returns (r: Result<int>, now: int)
      requires Quiet()
      modifies this`log
      ensures log == old(log) + [Read(now)]
      ensures r == if now < deadline then Ok(deadline - now) else Failed(TimedOut)
      ensures Ended(policy, deadline, log, r)
    {
      var reading: int := *;
      now := reading;
      log := log + [Read(now)];
      OneMoreEvent(policy, deadline, old(log), Read(now), TimedOut);
      r := if deadline - now <= 0 then Failed(TimedOut) else Ok(deadline - now);
    }

    /**
     `beforeDeadline`: the time left is read, then what is awaited ends, breaks, or comes after the deadline timer. It
     ends in time exactly when nothing goes wrong.
     */
    method Await(broken: Event, error: Error) returns (r: Result<()>)
      requires Quiet() && Failure(policy, deadline, broken) == Some(error) && ByEnvironment(error)
      modifies this`log
      ensures |old(log)| < |log| && log[..|old(log)|] == old(log) && log[|old(log)|].Read?
      ensures r.Ok? <==> Quiet()
      ensures r.Failed? ==> Struck(policy, deadline, log, r.error) && (r.error == TimedOut || r.error == error)
    {
      var left, now := Remaining();
      if left.Failed? {
        OneMoreEvent(policy, deadline, old(log), Read(now), TimedOut);
        return Failed(left.error);
      }
      ghost var before := log;
      var breaks: bool, late: bool := *, *;
      OneMoreEvent(policy, deadline, before, broken, error);
      OneMoreEvent(policy, deadline, before, Expired, TimedOut);
      if breaks {
        log := log + [broken];
        return Failed(error);
      }
      if late {
        log := log + [Expired];
        return Failed(TimedOut);
      }
      r := Ok(());
    }

    /** The addresses a host was looked up to: at least one, all public. */
    method Resolved(addresses: seq<string>) returns (r: Result<string>)
      requires Quiet()
      modifies this`log
      ensures r.Ok? ==> r.value in addresses && policy.isPublic(r.value)
      ensures r.Ok? <==> Quiet()
      ensures r.Failed? ==> Struck(policy, deadline, log, r.error) && ByEnvironment(r.error)
    {
      log := log + [LookedUp(addresses)];
      OneMoreEvent(policy, deadline, old(log), LookedUp(addresses), NoAddress);
      OneMoreEvent(policy, deadline, old(log), LookedUp(addresses), NonPublicAnswer);
      if addresses == [] {
        return Failed(NoAddress);
      }
      if exists a | a in addresses :: !policy.isPublic(a) {
        return Failed(NonPublicAnswer);
      }
      r := Ok(addresses[0]);
    }

    /** The first half of `requestOnce`: the public address the request goes to, looked up with time left. */
    method Aim() returns (r: Result<string>)
      requires Quiet()
      modifies this`log
      ensures r.Ok? ==> policy.isPublic(r.value)
      ensures r.Ok? <==> Quiet()
      ensures r.Failed? ==> Struck(policy, deadline, log, r.error) && ByEnvironment(r.error)
    {
      var start, _ := Remaining();
      if start.Failed? {
        return Failed(start.error);
      }
      var lookup := Await(LookupBroke, LookupFailed);
      if lookup.Failed? {
        return Failed(lookup.error);
      }
      var looked, _ := Remaining();
      if looked.Failed? {
        return Failed(looked.error);
      }
      var addresses: seq<string> := *;
      r := Resolved(addresses);
    }

    /**
     `requestOnce`: at most one request leaves, only to a public address and only with time left; it is answered
     exactly when nothing goes wrong.
     */
    method RequestOnce(url: Url, purpose: Purpose) returns (r: Result<Response>)
      requires Quiet()
      modifies this
      ensures |trace| <= |old(trace)| + 1 && Extends(old(trace), trace)
      ensures |trace| == |old(trace)| + 1 ==>
                var e := trace[|old(trace)|];
                && e.url == url && e.purpose == purpose && policy.isPublic(e.address) && e.body.None?
                && e.startedAt < deadline && e.timeout == deadline - e.startedAt
                && (r.Ok? ==> e.answer == Some(r.value))
      ensures r.Ok? ==> |trace| == |old(trace)| + 1
      ensures r.Ok? <==> Quiet()
      ensures r.Ok? ==> log != [] && log[|log| - 1].Read?
      ensures r.Failed? ==> ByEnvironment(r.error) && Struck(policy, deadline, log, r.error)
    {
      var address := Aim();
      if address.Failed? {
        return Failed(address.error);
      }
      var left, now := Remaining();
      if left.Failed? {
        return Failed(left.error);
      }
      trace := trace + [Exchange(url, purpose, address.value, now, left.value, None, None)];
      var answered := Await(RequestBroke, TransportFailed);
      if answered.Failed? {
        return Failed(answered.error);
      }
      var response: Response := *;
      trace := trace[|trace| - 1 := trace[|trace| - 1].(answer := Some(response))];
      var end, _ := Remaining();
      r := if end.Failed? then Failed(end.error) else Ok(response);
    }

    /** One turn of the redirect loop up to the answer: the robots check of a guarded page, then the request. */
    method Hop(url: Url, purpose: Purpose, guarded: bool, ghost secure: bool) returns (r: Result<Response>)
      requires maxBytes > 0 && Lawful(policy, secure)
      requires Sound(guarded, secure) && (guarded ==> purpose == Page)
      requires policy.permitted(url) && Quiet()
      requires secure ==> url.protocol == "https:"
      modifies this
      ensures Sound(guarded, secure) && |trace| <= |old(trace)| + HopCost(guarded)
      ensures Ended(policy, deadline, log, r)
      ensures r.Ok? ==> Answered(url, purpose, r.value)
      ensures Hopped(policy, old(trace), trace, purpose, guarded, maxBytes, url, r) && r != Failed(TooManyRedirects)
      decreases guarded, 0
    {
      ghost var j := |trace|;
      if guarded {
        var cleared := CheckRobots(url, secure);
        if cleared.Failed? {
          return Failed(cleared.error);
        }
      }
      ghost var checked := trace;
      r := RequestOnce(url, purpose);
      RequestKeepsSound(policy, deadline, secure, guarded, maxBytes, checked, trace, j, url);
      RequestEndsHop(policy, old(trace), checked, trace, purpose, guarded, maxBytes, url, r);
    }

    /** The last exchange is this one, answered, and nothing of the answer is read yet. */
    predicate Answered(url: Url, purpose: Purpose, response: Response)
      reads this
    {
      Answers(trace, url, purpose, response) && trace[|trace| - 1].body.None?
    }

    /**
     The answer that ends a redirect loop. Nothing is read of a missing robots file or of a refused answer. A body is
     read once the clock shows time left, and it is returned, or found too large, exactly when nothing goes wrong.
     */
    method Receive(purpose: Purpose, response: Response) returns (r: Result<Option<seq<Byte>>>)
      requires maxBytes > 0 && Quiet()
      modifies this`log
      ensures !Readable(response, purpose) ==> log == old(log)
      ensures r == Ok(None) <==> purpose == Robots && response.status in {404, 410}
      ensures !Readable(response, purpose) ==>
                r == Ok(None) || (r.Failed? && Refuses(response, purpose, maxBytes, r.error))
      ensures Readable(response, purpose) ==>
                && |old(log)| < |log| && log[..|old(log)|] == old(log) && log[|old(log)|].Read?
                && if Quiet() then
                     var body := Joined(response.chunks, |response.chunks|);
                     r == if |body| <= maxBytes then Ok(Some(body)) else Failed(TooLarge)
                   else r.Failed? && ByEnvironment(r.error) && Struck(policy, deadline, log, r.error)
    {
      if purpose == Robots && response.status in {404, 410} {
        return Ok(None);
      }
      if !IsSuccess(response.status) {
        return Failed(HttpStatus(response.status));
      }
      if !TypeFits(response.contentType, purpose) {
        return Failed(UnsupportedType);
      }
      var read := Await(BodyBroke, TransportFailed);
      if read.Failed? {
        return Failed(read.error);
      }
      var body := ReadBody(response.chunks, maxBytes);
      r := if body.Failed? then Failed(body.error) else Ok(Some(body.value));
    }

    /** What a fetch returns of its last answer, the body being recorded with the exchange. */
    method Finish(url: Url, purpose: Purpose, response: Response, guarded: bool, ghost secure: bool)
        returns (r: Result<Fetched>)
      requires maxBytes > 0 && Sound(guarded, secure) && Answered(url, purpose, response)
          && !IsRedirect(response.status) && Quiet()
      modifies this
      ensures Sound(guarded, secure) && SameButBody(old(trace), trace)
      ensures r.Ok? ==> Completed(purpose, r.value)
      ensures Ended(policy, deadline, log, r)
      ensures r.Failed? ==> ByEnvironment(r.error) || Refuses(response, purpose, maxBytes, r.error)
    {
      var received := Receive(purpose, response);
      if received.Failed? {
        return Failed(received.error);
      }
      var text := "";
      if received.value.Some? {
        var bytes := received.value.value;
        BodyKeepsSound(policy, deadline, secure, guarded, maxBytes, trace, bytes);
        trace := WithBody(trace, bytes);
        text := policy.decode(bytes);
      }
      r := Ok(Fetched(url, response.status, response.contentType, text));
    }

    /** The last exchange of a fetch that succeeds. */
    predicate Completed(purpose: Purpose, f: Fetched)
      reads this
    {
      trace != [] && Returns(policy, trace[|trace| - 1], purpose, f)
    }

    /** The most requests a fetch can make in `hops` turns. */
    function Allowance(guarded: bool, hops: nat): nat {
      if guarded then Budget(maxRedirects, hops) else hops
    }

    /** The most requests one turn can make. */
    function HopCost(guarded: bool): nat {
      if guarded then maxRedirects + 2 else 1
    }

    lemma OneMoreHop(guarded: bool, hops: nat)
      requires hops <= maxRedirects
      ensures Allowance(guarded, hops) + HopCost(guarded)
          == Allowance(guarded, hops + 1) <= Allowance(guarded, maxRedirects + 1)
    {
      BudgetGrows(maxRedirects, hops + 1, maxRedirects + 1);
    }

    /** One turn of the redirect loop: done with a body, or redirected to the next permitted address. */
    method Turn(url: Url, purpose: Purpose, guarded: bool, ghost secure: bool, mayFollow: bool)
        returns (r: Result<Step>)
      requires maxBytes > 0 && Lawful(policy, secure)
      requires Sound(guarded, secure) && (guarded ==> purpose == Page)
      requires policy.permitted(url) && Quiet()
      requires secure ==> url.protocol == "https:"
      modifies this
      ensures Sound(guarded, secure) && |trace| <= |old(trace)| + HopCost(guarded)
      ensures Ended(policy, deadline, log, r)
      ensures Took(policy, old(trace), trace, purpose, guarded, maxBytes, url, r)
      ensures r.Ok? && r.value.Done? ==> Completed(purpose, r.value.fetched)
      ensures r.Ok? && r.value.Next? ==>
          mayFollow && policy.permitted(r.value.url) && (secure ==> r.value.url.protocol == "https:")
      ensures r == Failed(TooManyRedirects) ==> !mayFollow
      decreases guarded, 1
    {
      var response := Hop(url, purpose, guarded, secure);
      if response.Failed? {
        return Failed(response.error);
      }
      if !IsRedirect(response.value.status) {
        ghost var mid := trace;
        var fetched := Finish(url, purpose, response.value, guarded, secure);
        TookFinal(policy, old(trace), mid, trace, purpose, guarded, maxBytes, url, response.value, fetched);
        return if fetched.Ok? then Ok(Done(fetched.value)) else Failed(fetched.error);
      }
      TookRedirect(policy, old(trace), trace, purpose, guarded, maxBytes, url, response.value);
      if !mayFollow {
        return Failed(TooManyRedirects);
      }
      var next := policy.follow(url, response.value);
      r := if next.Ok? then Ok(Next(next.value)) else Failed(next.error);
    }

    /** `fetchFollowingRedirects`: the initial address goes through the policy, then the loop follows redirects. */
    method FetchFollowing(initial: Url, purpose: Purpose, guarded: bool, ghost secure: bool)
        returns (r: Result<Fetched>)
      requires maxBytes > 0 && Lawful(policy, secure)
      requires Sound(guarded, secure) && (guarded ==> purpose == Page) && Quiet()
      requires policy.validated(initial) && (secure ==> initial.protocol == "https:")
      modifies this
      ensures Sound(guarded, secure) && |trace| <= |old(trace)| + Allowance(guarded, maxRedirects + 1)
      ensures if policy.admit(initial).Failed? then
                r == Failed(policy.admit(initial).error) && trace == old(trace) && log == old(log)
              else
                && Looped(policy, old(trace), trace, purpose, guarded, maxBytes, maxRedirects, initial, r)
                && Ended(policy, deadline, log, r)
      decreases guarded, 4
    {
      var start := policy.admit(initial);
      if start.Failed? {
        return Failed(start.error);
      }
      LoopIsKept(policy, trace, purpose, guarded, maxBytes, maxRedirects, initial);
      r := Follow(initial, purpose, guarded, secure, LoopGoes(policy, trace, purpose, guarded, initial),
                  LoopDone(policy, trace, purpose, guarded, maxBytes, maxRedirects, initial));
    }

    /** The redirect loop: what its turns keep and end with holds of the whole loop. */
    method Follow(initial: Url, purpose: Purpose, guarded: bool, ghost secure: bool,
                  ghost going: (seq<Exchange>, nat, Url) -> bool,
                  ghost done: (seq<Exchange>, Result<Fetched>) -> bool)
        returns (r: Result<Fetched>)
      requires KeptByTurns(policy, purpose, guarded, maxBytes, maxRedirects, going, done) && going(trace, 0, initial)
      requires maxBytes > 0 && Lawful(policy, secure)
      requires Sound(guarded, secure) && (guarded ==> purpose == Page) && Quiet()
      requires policy.permitted(initial) && (secure ==> initial.protocol == "https:")
      modifies this
      ensures Sound(guarded, secure) && |trace| <= |old(trace)| + Allowance(guarded, maxRedirects + 1)
      ensures done(trace, r)
      ensures Ended(policy, deadline, log, r)
      decreases guarded, 3
    {
      var current, redirects := initial, 0;
      while true
        invariant 0 <= redirects <= maxRedirects
        invariant Sound(guarded, secure) && Quiet()
        invariant |trace| <= |old(trace)| + Allowance(guarded, redirects)
        invariant policy.permitted(current) && (secure ==> current.protocol == "https:")
        invariant going(trace, redirects, current)
        decreases maxRedirects - redirects
      {
        OneMoreHop(guarded, redirects);
        ghost var was := trace;
        var step := Turn(current, purpose, guarded, secure, redirects < maxRedirects);
        assert TurnKeeps(policy, purpose, guarded, maxBytes, maxRedirects, going, done, was, redirects, current, trace,
                         step);
        if step.Failed? || step.value.Done? {
          return Outcome(step);
        }
        current, redirects := step.value.url, redirects + 1;
      }
    }

    /** `checkRobots`: succeeds only on an exchange that clears the address. */
    method CheckRobots(target: Url, ghost secure: bool) returns (r: Result<()>)
      requires maxBytes > 0 && Lawful(policy, secure) && Sound(true, secure)
      requires policy.permitted(target) && Quiet()
      requires secure ==> target.protocol == "https:"
      modifies this
      ensures Sound(true, secure) && Extends(old(trace), trace)
      ensures |trace| <= |old(trace)| + maxRedirects + 1
      ensures Ended(policy, deadline, log, r)
      ensures r.Ok? ==> RobotsCleared(policy, trace, |old(trace)|, |trace|, target)
      ensures NoPage(trace, |old(trace)|, |trace|)
      ensures r.Failed? ==> CheckFailed(policy, trace, maxBytes, target, r.error)
      decreases false, 5
    {
      var file := FetchFollowing(RobotsUrl(target), Robots, false, secure);
      GuardedThenRobots(policy, old(trace), trace);
      if file.Failed? {
        return Failed(if file.error == BlockedByRobots then BlockedByRobots else RobotsCheckFailed(file.error));
      }
      if file.value.status !in {404, 410} && !policy.clears(target, file.value.body) {
        return Failed(BlockedByRobots);
      }
      r := Ok(());
    }
  }

  /**
   What a fetch promises about its whole trace, whatever the server, the name service and the clock do: only
   permitted public addresses, only before the deadline, no kept body over the limit, a cleared robots exchange
   immediately before every page request, and at most (R + 1)(R + 2) requests for R redirects.
   */
  ghost predicate Disciplined(policy: Policy, options: Options, deadline: int, secure: bool, target: Url,
                              trace: seq<Exchange>)
    requires options.maxRedirects >= 0
  {
    && Clean(policy, deadline, secure, trace) && Bounded(trace, options.maxBytes)
    && PageChain(policy, trace, 0, target)
    && (options.respectRobots ==> Guarded(policy, trace))
    && |trace| <= if options.respectRobots then (options.maxRedirects + 1) * (options.maxRedirects + 2)
        else options.maxRedirects + 1
  }

  predicate UsableOptions(options: Options) {
    && 0 < options.maxBytes <= MAX_SAFE_INTEGER
    && 0 < options.timeoutMs <= MAX_SAFE_INTEGER
    && 0 <= options.maxRedirects <= MAX_SAFE_INTEGER
    && options.allowedHosts != []
  }

  /** An answer, or a robots file, refuses the fetch: its last exchange shows how. */
  ghost predicate Refused(policy: Policy, options: Options, target: Url, trace: seq<Exchange>, error: Error) {
    && !ByEnvironment(Root(error))
    && FailedFor(policy, trace, Page, options.respectRobots, options.maxBytes, 0, target, error)
  }

  ghost predicate NothingRefuses(policy: Policy, options: Options, target: Url, trace: seq<Exchange>) {
    forall error :: !Refused(policy, options, target, trace, error)
  }

  /**
   How a fetch ends: with the page when nothing goes wrong and no answer refuses it; else with the one thing that went
   wrong, or with a refusal its last exchange shows.
   */
  ghost predicate EndsRight(policy: Policy, options: Options, deadline: int, target: Url, trace: seq<Exchange>,
                            log: seq<Event>, r: Result<Fetched>)
  {
    && (r.Ok? <==> Calm(policy, deadline, log) && NothingRefuses(policy, options, target, trace))
    && (r.Ok? ==> trace != [] && Returns(policy, trace[|trace| - 1], Page, r.value))
    && (r.Failed? ==>
          if ByEnvironment(Root(r.error)) then Struck(policy, deadline, log, Root(r.error))
          else Calm(policy, deadline, log) && Refused(policy, options, target, trace, r.error))
    && (r == Failed(TooManyRedirects) ==> RequestsFor(trace, Page, 0, |trace|) == options.maxRedirects + 1)
  }

  /** A page that was returned is refused by nothing. */
  lemma ReturnedIsNotRefused(policy: Policy, options: Options, target: Url, trace: seq<Exchange>, f: Fetched,
                             error: Error)
    requires trace != [] && Returns(policy, trace[|trace| - 1], Page, f) && Bounded(trace, options.maxBytes)
    ensures !Refused(policy, options, target, trace, error)
  {
    var last := trace[|trace| - 1];
    assert !Refuses(last.answer.value, Page, options.maxBytes, error);
    forall j: nat | j < |trace|
      ensures !Chain(policy, trace, Robots, j, |trace|, RobotsUrl(target))
    {
      assert last.purpose == Page;
    }
  }

  /**
   `safeFetch`, its clock reading `now` when it starts. With the downgrade rule, an https start makes every request
   https, robots ones included.
   */
  method SafeFetch(platform: Platform, options: Options, rawUrl: string, now: int)
      returns (r: Result<Fetched>, fetcher: Fetcher?)
    ensures !UsableOptions(options) ==> r == Failed(BadOptions) && fetcher == null
    ensures UsableOptions(options) ==>
              var target := Validate(platform, rawUrl, options.allowedHosts);
              if target.Failed? then r == Failed(target.error) && fetcher == null
              else if !InDomain(platform, options, target.value) then r == Failed(OutsideDomain) && fetcher == null
              else
                var secure := options.forbidHttpsDowngrade && target.value.protocol == "https:";
                var policy, deadline := PolicyOf(platform, options), now + options.timeoutMs;
                && fetcher != null
                && Disciplined(policy, options, deadline, secure, target.value, fetcher.trace)
                && EndsRight(policy, options, deadline, target.value, fetcher.trace, fetcher.log, r)
  {
    fetcher := null;
    if !UsableOptions(options) {
      return Failed(BadOptions), fetcher;
    }
    var target := Validate(platform, rawUrl, options.allowedHosts);
    if target.Failed? {
      return Failed(target.error), fetcher;
    }
    var enforced := Enforce(platform, options, target.value, None);
    if enforced.Failed? {
      return Failed(enforced.error), fetcher;
    }
    PolicyIsLawful(platform, options);
    TargetIsAdmitted(platform, options, target.value);
    ghost var secure := options.forbidHttpsDowngrade && target.value.protocol == "https:";
    LawfulEitherWay(PolicyOf(platform, options), options.forbidHttpsDowngrade, secure);
    r, fetcher := FetchUnder(PolicyOf(platform, options), options, target.value, now + options.timeoutMs, secure);
  }

  /** The fetch of an admitted target under a lawful policy. */
  method FetchUnder(policy: Policy, options: Options, target: Url, deadline: int, ghost secure: bool)
      returns (r: Result<Fetched>, fetcher: Fetcher)
    requires UsableOptions(options) && Lawful(policy, secure) && (secure ==> target.protocol == "https:")
    requires policy.validated(target) && policy.admit(target).Ok?
    ensures Disciplined(policy, options, deadline, secure, target, fetcher.trace)
    ensures EndsRight(policy, options, deadline, target, fetcher.trace, fetcher.log, r)
  {
    BudgetIsProduct(options.maxRedirects, options.maxRedirects + 1);
    fetcher := new Fetcher(policy, options.maxRedirects, options.maxBytes, deadline);
    r := fetcher.FetchFollowing(target, Page, options.respectRobots, secure);
    LoopEndsRight(policy, options, deadline, target, fetcher.trace, fetcher.log, r);
  }

  lemma ReturnedEndsRight(policy: Policy, options: Options, deadline: int, target: Url, trace: seq<Exchange>,
                          log: seq<Event>, f: Fetched)
    requires Bounded(trace, options.maxBytes) && Calm(policy, deadline, log)
    requires trace != [] && Returns(policy, trace[|trace| - 1], Page, f)
    ensures EndsRight(policy, options, deadline, target, trace, log, Ok(f))
  {
    forall error
      ensures !Refused(policy, options, target, trace, error)
    {
      ReturnedIsNotRefused(policy, options, target, trace, f, error);
    }
  }

  lemma StruckEndsRight(policy: Policy, options: Options, deadline: int, target: Url, trace: seq<Exchange>,
                        log: seq<Event>, error: Error)
    requires ByEnvironment(Root(error)) && Struck(policy, deadline, log, Root(error))
    ensures EndsRight(policy, options, deadline, target, trace, log, Failed(error))
  {
    StruckIsNotCalm(policy, deadline, log, Root(error));
  }

  lemma RefusedEndsRight(policy: Policy, options: Options, deadline: int, target: Url, trace: seq<Exchange>,
                         log: seq<Event>, error: Error)
    requires Refused(policy, options, target, trace, error) && Calm(policy, deadline, log)
    requires error == TooManyRedirects ==> RequestsFor(trace, Page, 0, |trace|) == options.maxRedirects + 1
    ensures EndsRight(policy, options, deadline, target, trace, log, Failed(error))
  {
  }

  lemma LoopEndsRight(policy: Policy, options: Options, deadline: int, target: Url, trace: seq<Exchange>,
                      log: seq<Event>, r: Result<Fetched>)
    requires options.maxRedirects >= 0
    ensures && Bounded(trace, options.maxBytes) && Ended(policy, deadline, log, r)
            && Looped(policy, [], trace, Page, options.respectRobots, options.maxBytes, options.maxRedirects, target, r)
            ==> EndsRight(policy, options, deadline, target, trace, log, r)
  {
    if && Bounded(trace, options.maxBytes) && Ended(policy, deadline, log, r)
       && Looped(policy, [], trace, Page, options.respectRobots, options.maxBytes, options.maxRedirects, target, r)
    {
      if r.Ok? {
        ReturnedEndsRight(policy, options, deadline, target, trace, log, r.value);
      } else if ByEnvironment(Root(r.error)) {
        StruckEndsRight(policy, options, deadline, target, trace, log, r.error);
      } else {
        RefusedEndsRight(policy, options, deadline, target, trace, log, r.error);
      }
    }
  }

  lemma StruckIsNotCalm(policy: Policy, deadline: int, log: seq<Event>, error: Error)
    requires Struck(policy, deadline, log, error)
    ensures !Calm(policy, deadline, log)
  {
    assert Failure(policy, deadline, log[|log| - 1]).Some?;
  }

  lemma LawfulEitherWay(policy: Policy, noDowngrade: bool, secure: bool)
    requires Lawful(policy, noDowngrade) && (secure ==> noDowngrade)
    ensures Lawful(policy, secure)
  {
  }

  lemma TargetIsAdmitted(platform: Platform, options: Options, target: Url)
    requires Permitted(platform, options, target)
    ensures PolicyOf(platform, options).validated(target) && PolicyOf(platform, options).admit(target).Ok?
  {
  }
}
