// What a fetch of safe-fetch.ts leaves behind: the requests it made and what the environment did, and the laws of its
// robots guard, its redirect chains, its request budget and its failures.
module FetchTrace {
  import opened Text
  import opened FetchPolicy

  // ---------------------------------------------------------------- the observable trace

  datatype Purpose = Page | Robots

  /** One request as the outside sees it: what was asked, when it started and with which timeout, and what came back. */
  datatype Exchange = Exchange(url: Url, purpose: Purpose, address: string, startedAt: int, timeout: int,
                               answer: Option<Response>, body: Option<seq<Byte>>)

  predicate IsRedirect(status: int) {
    status in {301, 302, 303, 307, 308}
  }

  predicate IsSuccess(status: int) {
    200 <= status < 300
  }

  predicate HasType(contentType: string, media: string) {
    contentType == media || media + ";" <= contentType
  }

  predicate TypeFits(contentType: string, purpose: Purpose) {
    match purpose
    case Page => HasType(contentType, "text/html") || HasType(contentType, "application/xhtml+xml")
    case Robots => HasType(contentType, "text/plain")
  }

  /** The answer of this exchange redirects to `next`. */
  predicate LeadsTo(policy: Policy, e: Exchange, next: Url) {
    e.answer.Some? && IsRedirect(e.answer.value.status) && policy.follow(e.url, e.answer.value) == Ok(next)
  }

  /** The exchanges from `j` up to `k` form one redirect chain for one purpose, starting at `start`. */
  predicate Chain(policy: Policy, trace: seq<Exchange>, purpose: Purpose, j: nat, k: nat, start: Url) {
    && j <= k <= |trace|
    && (j < k ==> trace[j].url == start)
    && (forall i | j <= i < k :: trace[i].purpose == purpose)
    && (forall i | j < i < k :: Linked(policy, trace, i))
  }

  /** Exchange `i` follows the redirect answered just before it. */
  predicate Linked(policy: Policy, trace: seq<Exchange>, i: nat)
    requires 0 < i < |trace|
  {
    LeadsTo(policy, trace[i - 1], trace[i].url)
  }

  /** The answer says there is no robots file, or is a robots file that explicitly allows the target. */
  predicate Clears(policy: Policy, e: Exchange, target: Url) {
    && e.answer.Some?
    && (|| e.answer.value.status in {404, 410}
        || (&& IsSuccess(e.answer.value.status) && TypeFits(e.answer.value.contentType, Robots) && e.body.Some?
            && policy.clears(target, policy.decode(e.body.value))))
  }

  /** From `j` up to `k`, a whole robots exchange that starts at the target's own authority and clears the target. */
  predicate RobotsCleared(policy: Policy, trace: seq<Exchange>, j: nat, k: nat, target: Url) {
    && j < k
    && Chain(policy, trace, Robots, j, k, RobotsUrl(target))
    && Clears(policy, trace[k - 1], target)
  }

  /** Every page request is immediately preceded by a robots exchange that clears its own address. */
  ghost predicate Guarded(policy: Policy, trace: seq<Exchange>) {
    forall k | 0 <= k < |trace| && trace[k].purpose == Page :: GuardedAt(policy, trace, k)
  }

  /**
   A request to a permitted public address, started before the deadline with no more time than is left, over https
   when `secure`.
   */
  predicate CleanExchange(policy: Policy, deadline: int, secure: bool, e: Exchange) {
    && policy.permitted(e.url)
    && policy.isPublic(e.address)
    && e.startedAt < deadline && e.timeout == deadline - e.startedAt
    && (secure ==> e.url.protocol == "https:")
  }

  predicate Clean(policy: Policy, deadline: int, secure: bool, trace: seq<Exchange>) {
    forall i | 0 <= i < |trace| :: CleanExchange(policy, deadline, secure, trace[i])
  }

  /** No body that was kept is larger than the limit. */
  predicate Bounded(trace: seq<Exchange>, maxBytes: int) {
    forall i | 0 <= i < |trace| :: trace[i].body.Some? ==> |trace[i].body.value| <= maxBytes
  }

  /** `after` extends `before` without touching the exchanges already there. */
  predicate Extends(before: seq<Exchange>, after: seq<Exchange>) {
    |before| <= |after| && forall i | 0 <= i < |before| :: after[i] == before[i]
  }

  lemma ClearedStaysCleared(policy: Policy, before: seq<Exchange>, after: seq<Exchange>, j: nat, k: nat, target: Url)
    requires RobotsCleared(policy, before, j, k, target)
    requires k <= |after| && forall i | 0 <= i < k :: after[i] == before[i]
    ensures RobotsCleared(policy, after, j, k, target)
  {
    forall i | j < i < k
      ensures Linked(policy, after, i)
    {
      assert Linked(policy, before, i);
    }
  }

  /** Since `s`, the trace is one redirect chain from `initial` that leads to `current`. */
  predicate Reached(policy: Policy, trace: seq<Exchange>, purpose: Purpose, s: nat, initial: Url, current: Url) {
    && Chain(policy, trace, purpose, s, |trace|, initial)
    && if s == |trace| then current == initial else LeadsTo(policy, trace[|trace| - 1], current)
  }

  lemma ChainGrows(policy: Policy, before: seq<Exchange>, after: seq<Exchange>, purpose: Purpose, s: nat, initial: Url,
                   current: Url)
    requires Reached(policy, before, purpose, s, initial, current)
    requires Extends(before, after) && |after| == |before| + 1
    requires after[|before|].url == current && after[|before|].purpose == purpose
    ensures Chain(policy, after, purpose, s, |after|, initial)
  {
    forall i | s < i < |after|
      ensures Linked(policy, after, i)
    {
      assert i < |before| ==> Linked(policy, before, i);
    }
  }

  ghost predicate GuardedAt(policy: Policy, trace: seq<Exchange>, k: nat)
    requires k < |trace|
  {
    exists j | 0 <= j < k :: RobotsCleared(policy, trace, j, k, trace[k].url)
  }

  /** A request keeps its guard when nothing before it changes. */
  lemma GuardStays(policy: Policy, before: seq<Exchange>, after: seq<Exchange>, k: nat)
    requires k < |before| && k < |after| && after[k].url == before[k].url
    requires forall i | 0 <= i < k :: after[i] == before[i]
    requires GuardedAt(policy, before, k)
    ensures GuardedAt(policy, after, k)
  {
    var j :| 0 <= j < k && RobotsCleared(policy, before, j, k, before[k].url);
    ClearedStaysCleared(policy, before, after, j, k, before[k].url);
  }

  /** More robots requests need no guard. */
  lemma GuardedThenRobots(policy: Policy, before: seq<Exchange>, after: seq<Exchange>)
    requires Extends(before, after) && Guarded(policy, before)
    requires forall k | |before| <= k < |after| :: after[k].purpose == Robots
    ensures Guarded(policy, after)
  {
    forall k | 0 <= k < |after| && after[k].purpose == Page
      ensures GuardedAt(policy, after, k)
    {
      GuardStays(policy, before, after, k);
    }
  }

  /** A page request right after the exchange that cleared it. */
  lemma GuardedThenPage(policy: Policy, before: seq<Exchange>, after: seq<Exchange>, j: nat)
    requires Extends(before, after) && Guarded(policy, before) && |after| == |before| + 1
    requires RobotsCleared(policy, before, j, |before|, after[|before|].url)
    ensures Guarded(policy, after)
  {
    ClearedStaysCleared(policy, before, after, j, |before|, after[|before|].url);
    forall k | 0 <= k < |after| && after[k].purpose == Page
      ensures GuardedAt(policy, after, k)
    {
      if k < |before| {
        GuardStays(policy, before, after, k);
      }
    }
  }

  /** Reading a body at the end of the trace changes no guard. */
  lemma GuardedThenBody(policy: Policy, before: seq<Exchange>, after: seq<Exchange>)
    requires Guarded(policy, before) && before != [] && |after| == |before|
    requires forall i | 0 <= i < |before| - 1 :: after[i] == before[i]
    requires after[|after| - 1].url == before[|before| - 1].url
        && after[|after| - 1].purpose == before[|before| - 1].purpose
    ensures Guarded(policy, after)
  {
    forall k | 0 <= k < |after| && after[k].purpose == Page
      ensures GuardedAt(policy, after, k)
    {
      GuardStays(policy, before, after, k);
    }
  }

  /** One more request, with its guard when there is one, keeps everything. */
  lemma RequestKeepsSound(policy: Policy, deadline: int, secure: bool, guarded: bool, maxBytes: nat,
                          before: seq<Exchange>, after: seq<Exchange>, j: nat, url: Url)
    requires Clean(policy, deadline, secure, before) && Bounded(before, maxBytes)
    requires Extends(before, after) && |after| <= |before| + 1
    requires |after| > |before| ==>
        CleanExchange(policy, deadline, secure, after[|before|]) && after[|before|].body.None?
        && after[|before|].url == url
    requires guarded ==> Guarded(policy, before) && RobotsCleared(policy, before, j, |before|, url)
    ensures Clean(policy, deadline, secure, after) && Bounded(after, maxBytes) && (guarded ==> Guarded(policy, after))
  {
    if guarded {
      if |after| > |before| {
        GuardedThenPage(policy, before, after, j);
      } else {
        assert after == before;
      }
    }
  }

  /** The body of the last exchange is recorded. */
  function WithBody(trace: seq<Exchange>, bytes: seq<Byte>): (after: seq<Exchange>)
    requires trace != []
    ensures |after| == |trace|
    ensures forall i | 0 <= i < |trace| - 1 :: after[i] == trace[i]
    ensures after[|after| - 1] == trace[|trace| - 1].(body := Some(bytes))
  {
    trace[|trace| - 1 := trace[|trace| - 1].(body := Some(bytes))]
  }

  /** Reading a body at the end of the trace keeps everything. */
  lemma BodyKeepsSound(policy: Policy, deadline: int, secure: bool, guarded: bool, maxBytes: nat,
                       before: seq<Exchange>, bytes: seq<Byte>)
    requires Clean(policy, deadline, secure, before) && Bounded(before, maxBytes)
        && (guarded ==> Guarded(policy, before))
    requires before != [] && |bytes| <= maxBytes
    ensures var after := WithBody(before, bytes);
            Clean(policy, deadline, secure, after) && Bounded(after, maxBytes) && (guarded ==> Guarded(policy, after))
  {
    if guarded {
      GuardedThenBody(policy, before, WithBody(before, bytes));
    }
  }

  lemma ExtendsThrough(a: seq<Exchange>, b: seq<Exchange>, c: seq<Exchange>)
    requires Extends(a, b) && Extends(b, c)
    ensures Extends(a, c)
  {
  }

  // ---------------------------------------------------------------- bodies

  function Joined(chunks: seq<seq<Byte>>, n: nat): seq<Byte>
    requires n <= |chunks|
  {
    if n == 0 then [] else Joined(chunks, n - 1) + chunks[n - 1]
  }

  lemma {:induction false} JoinedGrows(chunks: seq<seq<Byte>>, m: nat, n: nat)
    requires m <= n <= |chunks|
    ensures |Joined(chunks, m)| <= |Joined(chunks, n)|
    decreases n
  {
    if m < n {
      JoinedGrows(chunks, m, n - 1);
    }
  }

  // ---------------------------------------------------------------- the chain of page requests

  /** No page was requested from `a` up to `b`. */
  predicate NoPage(trace: seq<Exchange>, a: nat, b: nat)
    requires b <= |trace|
  {
    forall i | a <= i < b :: trace[i].purpose == Robots
  }

  /**
   At moment `k` of a fetch that began at `s`, `url` is the address whose turn it is: the initial one before any page
   request, else the redirect answered by the last page request, however many robots requests came in between.
   */
  predicate IsNext(policy: Policy, trace: seq<Exchange>, s: nat, k: nat, initial: Url, url: Url)
    requires k <= |trace|
  {
    && (NoPage(trace, s, k) ==> url == initial)
    && forall j | s <= j < k && trace[j].purpose == Page && NoPage(trace, j + 1, k) :: LeadsTo(policy, trace[j], url)
  }

  /** Every page request is for the address whose turn it is. */
  predicate PageChain(policy: Policy, trace: seq<Exchange>, s: nat, initial: Url) {
    forall k | s <= k < |trace| && trace[k].purpose == Page :: IsNext(policy, trace, s, k, initial, trace[k].url)
  }

  /** Robots requests, then at most one page request, for `url`. */
  predicate OnePageAtEnd(trace: seq<Exchange>, before: nat, url: Url) {
    forall k | before <= k < |trace| && trace[k].purpose == Page :: k == |trace| - 1 && trace[k].url == url
  }

  lemma PageChainGrows(policy: Policy, before: seq<Exchange>, after: seq<Exchange>, s: nat, initial: Url, current: Url)
    requires Extends(before, after) && s <= |before| && OnePageAtEnd(after, |before|, current)
    requires PageChain(policy, before, s, initial) && IsNext(policy, before, s, |before|, initial, current)
    ensures PageChain(policy, after, s, initial)
    ensures NoPage(after, |before|, |after|) ==> IsNext(policy, after, s, |after|, initial, current)
  {
    forall k | s <= k < |after| && after[k].purpose == Page
      ensures IsNext(policy, after, s, k, initial, after[k].url)
    {
      if k < |before| {
        SameTurn(policy, before, after, s, k, k, initial, before[k].url);
      } else {
        SameTurn(policy, before, after, s, |before|, k, initial, current);
      }
    }
    if NoPage(after, |before|, |after|) {
      SameTurn(policy, before, after, s, |before|, |after|, initial, current);
    }
  }

  /** Robots requests do not change whose turn it is. */
  lemma SameTurn(policy: Policy, before: seq<Exchange>, after: seq<Exchange>, s: nat, m: nat, k: nat, initial: Url,
                 url: Url)
    requires Extends(before, after) && m <= |before| && m <= k <= |after| && NoPage(after, m, k)
    requires IsNext(policy, before, s, m, initial, url)
    ensures IsNext(policy, after, s, k, initial, url)
  {
    assert NoPage(after, s, k) ==> NoPage(before, s, m);
    forall j | s <= j < k && after[j].purpose == Page && NoPage(after, j + 1, k)
      ensures LeadsTo(policy, after[j], url)
    {
      assert j < m && NoPage(before, j + 1, m);
    }
  }

  /** A redirect gives its turn to the address it leads to. */
  lemma RedirectGivesTurn(policy: Policy, trace: seq<Exchange>, s: nat, initial: Url, next: Url)
    requires s < |trace| && trace[|trace| - 1].purpose == Page && LeadsTo(policy, trace[|trace| - 1], next)
    ensures IsNext(policy, trace, s, |trace|, initial, next)
  {
    forall j | s <= j < |trace| && trace[j].purpose == Page && NoPage(trace, j + 1, |trace|)
      ensures LeadsTo(policy, trace[j], next)
    {
      assert j == |trace| - 1;
    }
  }

  // ---------------------------------------------------------------- what the environment did

  /** What the environment did, in order, as the fetch saw it. */
  datatype Event =
    | Read(now: int)                               // the clock was read
    | Expired                                      // the deadline timer fired before what was awaited
    | LookupBroke
    | LookedUp(addresses: seq<string>)
    | RequestBroke
    | BodyBroke

  /** The failure an event makes, whatever the server answers: no time left, something broken, or a bad lookup. */
  function Failure(policy: Policy, deadline: int, e: Event): Option<Error> {
    match e
    case Read(now) => if now < deadline then None else Some(TimedOut)
    case Expired => Some(TimedOut)
    case LookupBroke => Some(LookupFailed)
    case LookedUp(addresses) =>
      if addresses == [] then Some(NoAddress)
      else if exists a | a in addresses :: !policy.isPublic(a) then Some(NonPublicAnswer) else None
    case RequestBroke | BodyBroke => Some(TransportFailed)
  }

  /** Nothing went wrong so far. */
  predicate Calm(policy: Policy, deadline: int, log: seq<Event>) {
    forall i | 0 <= i < |log| :: Failure(policy, deadline, log[i]).None?
  }

  /** One thing went wrong, it is the last thing that happened, and this is how it is reported. */
  predicate Struck(policy: Policy, deadline: int, log: seq<Event>, error: Error) {
    && log != [] && Calm(policy, deadline, log[..|log| - 1])
    && Failure(policy, deadline, log[|log| - 1]) == Some(error)
  }

  /** What a failure comes from: the robots check's own, when it is one. */
  function Root(error: Error): Error {
    if error.RobotsCheckFailed? then error.cause else error
  }

  /** A failure of the environment is the last event; without one, nothing went wrong. */
  predicate Ended<T>(policy: Policy, deadline: int, log: seq<Event>, r: Result<T>) {
    if r.Failed? && ByEnvironment(Root(r.error)) then Struck(policy, deadline, log, Root(r.error))
    else Calm(policy, deadline, log)
  }

  lemma OneMoreEvent(policy: Policy, deadline: int, log: seq<Event>, e: Event, error: Error)
    requires Calm(policy, deadline, log)
    ensures Calm(policy, deadline, log + [e]) <==> Failure(policy, deadline, e).None?
    ensures Failure(policy, deadline, e) == Some(error) ==> Struck(policy, deadline, log + [e], error)
  {
    var more := log + [e];
    assert more[|log|] == e && more[..|more| - 1] == log;
  }

  // ---------------------------------------------------------------- why a fetch fails

  /** A final answer that is refused: its status, else its type, else the size of its body. */
  predicate Refuses(response: Response, purpose: Purpose, maxBytes: int, error: Error) {
    if purpose == Robots && response.status in {404, 410} then false
    else if !IsSuccess(response.status) then error == HttpStatus(response.status)
    else if !TypeFits(response.contentType, purpose) then error == UnsupportedType
    else error == TooLarge && |Joined(response.chunks, |response.chunks|)| > maxBytes
  }

  /** An answer whose body is read: a success of the expected type. */
  predicate Readable(response: Response, purpose: Purpose) {
    && !(purpose == Robots && response.status in {404, 410})
    && IsSuccess(response.status) && TypeFits(response.contentType, purpose)
  }

  /** The last answer of a redirect loop explains its failure: a refused redirect, one too many, or a refused answer. */
  predicate Explains(policy: Policy, last: Exchange, purpose: Purpose, maxBytes: int, error: Error) {
    && last.purpose == purpose && last.answer.Some?
    && if IsRedirect(last.answer.value.status)
        then error == TooManyRedirects || policy.follow(last.url, last.answer.value) == Failed(error)
       else Refuses(last.answer.value, purpose, maxBytes, error)
  }

  predicate LoopFailed(policy: Policy, trace: seq<Exchange>, purpose: Purpose, maxBytes: int, error: Error) {
    ByEnvironment(error) || (trace != [] && Explains(policy, trace[|trace| - 1], purpose, maxBytes, error))
  }

  /** The trace ends with a robots file, asked for at the target's own authority, that does not allow the target. */
  ghost predicate Disallowed(policy: Policy, trace: seq<Exchange>, target: Url) {
    && trace != [] && trace[|trace| - 1].body.Some?
    && !policy.clears(target, policy.decode(trace[|trace| - 1].body.value))
    && exists j | 0 <= j < |trace| :: Chain(policy, trace, Robots, j, |trace|, RobotsUrl(target))
  }

  /** The robots check of the target fails because the file disallows it, or because its own redirect loop fails. */
  ghost predicate CheckFailed(policy: Policy, trace: seq<Exchange>, maxBytes: int, target: Url, error: Error) {
    if error.RobotsCheckFailed? then LoopFailed(policy, trace, Robots, maxBytes, error.cause)
    else error == BlockedByRobots && Disallowed(policy, trace, target)
  }

  /** A turn for `url` fails in its own exchange, or before it in the robots check of `url`. */
  ghost predicate TurnFailed(policy: Policy, before: seq<Exchange>, trace: seq<Exchange>, purpose: Purpose,
                             guarded: bool, maxBytes: int, url: Url, error: Error)
  {
    || LoopFailed(policy, trace, purpose, maxBytes, error)
    || (guarded && NoPage(trace, |before|, |trace|) && CheckFailed(policy, trace, maxBytes, url, error))
  }

  /** A fetch fails in its redirect loop, or in the robots check of the page address whose turn it was. */
  ghost predicate FailedFor(policy: Policy, trace: seq<Exchange>, purpose: Purpose, guarded: bool, maxBytes: int,
                            s: nat, initial: Url, error: Error) {
    || LoopFailed(policy, trace, purpose, maxBytes, error)
    || (guarded && exists url: Url ::
        IsNext(policy, trace, s, |trace|, initial, url) && CheckFailed(policy, trace, maxBytes, url, error))
  }

  // ---------------------------------------------------------------- one turn of the redirect loop

  /**
   Between two turns of a loop that began at `s`: the requests so far form its chain, and it is the turn of
   `current`.
   */
  ghost predicate Going(policy: Policy, trace: seq<Exchange>, purpose: Purpose, guarded: bool, s: nat, initial: Url,
                        current: Url) {
    && s <= |trace| && PageChain(policy, trace, s, initial)
    && (!guarded ==> Reached(policy, trace, purpose, s, initial, current)) && (guarded ==> purpose == Page)
    && if purpose == Page then IsNext(policy, trace, s, |trace|, initial, current) else NoPage(trace, s, |trace|)
  }

  /** Since `s`, every request is for this purpose. */
  predicate OnlyFor(trace: seq<Exchange>, purpose: Purpose, s: nat) {
    forall i | s <= i < |trace| :: trace[i].purpose == purpose
  }

  /** What a turn may add: robots requests, then at most one request for `current`, which is alone without a guard. */
  ghost predicate Turned(before: seq<Exchange>, after: seq<Exchange>, purpose: Purpose, guarded: bool, current: Url) {
    && Extends(before, after) && OnePageAtEnd(after, |before|, current)
    && (!guarded ==> OnlyFor(after, purpose, |before|))
  }

  /** The turn ended with the exchange of `current`. */
  ghost predicate Exchanged(before: seq<Exchange>, after: seq<Exchange>, purpose: Purpose, guarded: bool,
                            current: Url) {
    && Turned(before, after, purpose, guarded, current) && |after| > |before| && after[|after| - 1].purpose == purpose
    && (!guarded ==> |after| == |before| + 1 && after[|before|].url == current)
  }

  datatype Step = Done(fetched: Fetched) | Next(url: Url)

  datatype Fetched = Fetched(url: Url, status: int, contentType: string, body: string)

  /** A fetch returns the address, status, type and whole body of its last exchange. */
  predicate Returns(policy: Policy, e: Exchange, purpose: Purpose, f: Fetched) {
    && e.url == f.url && e.purpose == purpose && e.answer.Some?
    && e.answer.value.status == f.status && e.answer.value.contentType == f.contentType
    && if purpose == Robots && f.status in {404, 410} then f.body == ""
       else && Readable(e.answer.value, purpose)
            && e.body == Some(Joined(e.answer.value.chunks, |e.answer.value.chunks|))
            && f.body == policy.decode(e.body.value)
  }

  /** What a turn for `current` did and why it ended as it did. */
  ghost predicate Took(policy: Policy, before: seq<Exchange>, after: seq<Exchange>, purpose: Purpose, guarded: bool,
                       maxBytes: int, current: Url, r: Result<Step>)
  {
    && Turned(before, after, purpose, guarded, current)
    && (r.Ok? || r.error == TooManyRedirects ==> Exchanged(before, after, purpose, guarded, current))
    && (r.Ok? && r.value.Next? ==> LeadsTo(policy, after[|after| - 1], r.value.url))
    && (r.Failed? ==> TurnFailed(policy, before, after, purpose, guarded, maxBytes, current, r.error))
  }

  /** What the robots check and the request of a turn did. */
  ghost predicate Hopped(policy: Policy, before: seq<Exchange>, after: seq<Exchange>, purpose: Purpose, guarded: bool,
                         maxBytes: int, url: Url, r: Result<Response>)
  {
    && Turned(before, after, purpose, guarded, url)
    && match r
       case Ok(response) =>
         Exchanged(before, after, purpose, guarded, url) && Answers(after, url, purpose, response)
       case Failed(error) => TurnFailed(policy, before, after, purpose, guarded, maxBytes, url, error)
  }

  /** The last exchange is this one, answered. */
  predicate Answers(trace: seq<Exchange>, url: Url, purpose: Purpose, response: Response) {
    && trace != [] && trace[|trace| - 1].url == url && trace[|trace| - 1].purpose == purpose
    && trace[|trace| - 1].answer == Some(response)
  }

  /** The request of a turn, right after the robots check of a guarded page. */
  lemma RequestEndsHop(policy: Policy, before: seq<Exchange>, checked: seq<Exchange>, after: seq<Exchange>,
                       purpose: Purpose, guarded: bool, maxBytes: int, url: Url, r: Result<Response>)
    requires Extends(before, checked) && NoPage(checked, |before|, |checked|) && (!guarded ==> checked == before)
    requires Extends(checked, after) && |after| <= |checked| + 1 && (guarded ==> purpose == Page)
    requires |after| > |checked| ==> after[|checked|].url == url && after[|checked|].purpose == purpose
    requires r.Ok? ==> |after| > |checked| && after[|checked|].answer == Some(r.value)
    requires r.Failed? ==> ByEnvironment(r.error)
    ensures Hopped(policy, before, after, purpose, guarded, maxBytes, url, r)
  {
  }

  /** At most the body of the last exchange differs. */
  predicate SameButBody(before: seq<Exchange>, after: seq<Exchange>) {
    && |after| == |before| && before != []
    && (forall i | 0 <= i < |before| - 1 :: after[i] == before[i])
    && after[|after| - 1] == before[|before| - 1].(body := after[|after| - 1].body)
  }

  /** The answer redirects: the turn gives way to the next address, or fails because of this answer. */
  lemma TookRedirect(policy: Policy, before: seq<Exchange>, after: seq<Exchange>, purpose: Purpose, guarded: bool,
                     maxBytes: int, url: Url, response: Response)
    requires Hopped(policy, before, after, purpose, guarded, maxBytes, url, Ok(response)) && IsRedirect(response.status)
    ensures Took(policy, before, after, purpose, guarded, maxBytes, url, Failed(TooManyRedirects))
    ensures var next := policy.follow(url, response);
            Took(policy, before, after, purpose, guarded, maxBytes, url, if next.Ok? then Ok(Next(next.value))
                 else Failed(next.error))
  {
  }

  /** The answer is final: the turn is done, or fails because of this answer or its environment. */
  lemma TookFinal(policy: Policy, before: seq<Exchange>, mid: seq<Exchange>, after: seq<Exchange>, purpose: Purpose,
                  guarded: bool, maxBytes: int, url: Url, response: Response, r: Result<Fetched>)
    requires Hopped(policy, before, mid, purpose, guarded, maxBytes, url, Ok(response)) && !IsRedirect(response.status)
    requires SameButBody(mid, after)
        && (r.Failed? ==> ByEnvironment(r.error) || Refuses(response, purpose, maxBytes, r.error))
    ensures Took(policy, before, after, purpose, guarded, maxBytes, url, if r.Ok? then Ok(Done(r.value))
                 else Failed(r.error))
  {
  }

  /** How many requests for this purpose were made from `s` up to `n`. */
  function RequestsFor(trace: seq<Exchange>, purpose: Purpose, s: nat, n: nat): nat
    requires s <= n <= |trace|
  {
    if n == s then 0
    else RequestsFor(trace, purpose, s, n - 1) + if trace[n - 1].purpose == purpose then 1 else 0
  }

  lemma {:induction false} SameRequests(before: seq<Exchange>, after: seq<Exchange>, purpose: Purpose, s: nat, n: nat)
    requires Extends(before, after) && s <= n <= |before|
    ensures RequestsFor(after, purpose, s, n) == RequestsFor(before, purpose, s, n)
    decreases n
  {
    if n > s {
      SameRequests(before, after, purpose, s, n - 1);
    }
  }

  lemma {:induction false} NoneInBetween(trace: seq<Exchange>, purpose: Purpose, s: nat, m: nat, n: nat)
    requires s <= m <= n <= |trace| && forall i | m <= i < n :: trace[i].purpose != purpose
    ensures RequestsFor(trace, purpose, s, n) == RequestsFor(trace, purpose, s, m)
    decreases n
  {
    if n > m {
      NoneInBetween(trace, purpose, s, m, n - 1);
    }
  }

  /** A turn that ends with its exchange adds one request of its purpose. */
  lemma OneMoreRequest(before: seq<Exchange>, after: seq<Exchange>, purpose: Purpose, guarded: bool, s: nat, url: Url)
    requires Exchanged(before, after, purpose, guarded, url) && s <= |before| && (guarded ==> purpose == Page)
    ensures RequestsFor(after, purpose, s, |after|) == RequestsFor(before, purpose, s, |before|) + 1
  {
    SameRequests(before, after, purpose, s, |before|);
    NoneInBetween(after, purpose, s, |before|, |after| - 1);
  }

  /** What a loop that began at `s` has done once a turn ended with `r`. */
  ghost predicate Advanced(policy: Policy, trace: seq<Exchange>, purpose: Purpose, guarded: bool, maxBytes: int,
                           s: nat, initial: Url, r: Result<Step>)
  {
    && PageChain(policy, trace, s, initial) && (!guarded ==> OnlyFor(trace, purpose, s))
    && (r.Ok? && r.value.Done? && !guarded ==> Chain(policy, trace, purpose, s, |trace|, initial))
    && (r.Ok? && r.value.Next? ==> Going(policy, trace, purpose, guarded, s, initial, r.value.url))
    && (r.Failed? ==> FailedFor(policy, trace, purpose, guarded, maxBytes, s, initial, r.error))
  }

  /** What a whole loop did, its trace beginning after `before`. */
  ghost predicate Looped(policy: Policy, before: seq<Exchange>, trace: seq<Exchange>, purpose: Purpose, guarded: bool,
                         maxBytes: int, maxRedirects: nat, initial: Url, r: Result<Fetched>)
  {
    && Extends(before, trace) && PageChain(policy, trace, |before|, initial)
    && (!guarded ==> OnlyFor(trace, purpose, |before|))
    && (r.Ok? ==> |trace| > |before| && Returns(policy, trace[|trace| - 1], purpose, r.value))
    && (r.Ok? && !guarded ==> Chain(policy, trace, purpose, |before|, |trace|, initial))
    && (r.Failed? ==> FailedFor(policy, trace, purpose, guarded, maxBytes, |before|, initial, r.error))
    && (r == Failed(TooManyRedirects) ==> RequestsFor(trace, purpose, |before|, |trace|) == maxRedirects + 1)
  }

  /** A loop that began after `before` and followed this many redirects: it is the turn of `current`. */
  ghost predicate Looping(policy: Policy, before: seq<Exchange>, trace: seq<Exchange>, purpose: Purpose, guarded: bool,
                          redirects: nat, initial: Url, current: Url)
  {
    && Extends(before, trace) && Going(policy, trace, purpose, guarded, |before|, initial, current)
    && RequestsFor(trace, purpose, |before|, |trace|) == redirects
  }

  /** A turn of a loop that may follow this many redirects, after it followed some. */
  ghost predicate InLoop(policy: Policy, was: seq<Exchange>, trace: seq<Exchange>, purpose: Purpose, guarded: bool,
                         maxBytes: int, maxRedirects: nat, redirects: nat, current: Url, r: Result<Step>)
  {
    && Took(policy, was, trace, purpose, guarded, maxBytes, current, r)
    && (r == Failed(TooManyRedirects) ==> redirects == maxRedirects)
    && (r.Ok? && r.value.Done? ==> trace != [] && Returns(policy, trace[|trace| - 1], purpose, r.value.fetched))
  }

  /** The outcome of a loop whose last turn ended with this, unless the turn goes on. */
  function Outcome(r: Result<Step>): Result<Fetched>
    requires r.Ok? ==> r.value.Done?
  {
    if r.Ok? then Ok(r.value.fetched) else Failed(r.error)
  }

  lemma TurnInLoop(policy: Policy, before: seq<Exchange>, was: seq<Exchange>, trace: seq<Exchange>, purpose: Purpose,
                   guarded: bool, maxBytes: int, maxRedirects: nat, redirects: nat, initial: Url, current: Url,
                   r: Result<Step>)
    ensures Looping(policy, before, was, purpose, guarded, redirects, initial, current)
            && InLoop(policy, was, trace, purpose, guarded, maxBytes, maxRedirects, redirects, current, r) ==>
              if r.Ok? && r.value.Next?
              then Looping(policy, before, trace, purpose, guarded, redirects + 1, initial, r.value.url)
              else Looped(policy, before, trace, purpose, guarded, maxBytes, maxRedirects, initial, Outcome(r))
  {
    if Looping(policy, before, was, purpose, guarded, redirects, initial, current)
       && InLoop(policy, was, trace, purpose, guarded, maxBytes, maxRedirects, redirects, current, r)
    {
      TurnAdvances(policy, was, trace, purpose, guarded, maxBytes, |before|, initial, current, r);
      ExtendsThrough(before, was, trace);
    }
  }

  /** One turn keeps what holds of a loop, with the redirects it followed and the address whose turn it is. */
  ghost predicate TurnKeeps(policy: Policy, purpose: Purpose, guarded: bool, maxBytes: int, maxRedirects: nat,
                            going: (seq<Exchange>, nat, Url) -> bool, done: (seq<Exchange>, Result<Fetched>) -> bool,
                            was: seq<Exchange>, redirects: nat, current: Url, trace: seq<Exchange>, r: Result<Step>)
  {
    going(was, redirects, current) && InLoop(policy, was, trace, purpose, guarded, maxBytes, maxRedirects, redirects,
                                             current, r) ==>
      if r.Ok? && r.value.Next? then going(trace, redirects + 1, r.value.url) else done(trace, Outcome(r))
  }

  /** Every turn keeps what holds of a loop that goes on, and ends with what holds of a loop that is done. */
  ghost predicate KeptByTurns(policy: Policy, purpose: Purpose, guarded: bool, maxBytes: int, maxRedirects: nat,
                              going: (seq<Exchange>, nat, Url) -> bool, done: (seq<Exchange>, Result<Fetched>) -> bool)
  {
    forall was, redirects, current, trace, r ::
      TurnKeeps(policy, purpose, guarded, maxBytes, maxRedirects, going, done, was, redirects, current, trace, r)
  }

  ghost function LoopGoes(policy: Policy, before: seq<Exchange>, purpose: Purpose, guarded: bool, initial: Url)
      : (seq<Exchange>, nat, Url) -> bool
  {
    (trace: seq<Exchange>, redirects: nat, current: Url) =>
      Looping(policy, before, trace, purpose, guarded, redirects, initial, current)
  }

  ghost function LoopDone(policy: Policy, before: seq<Exchange>, purpose: Purpose, guarded: bool, maxBytes: int,
                          maxRedirects: nat, initial: Url)
      : (seq<Exchange>, Result<Fetched>) -> bool
  {
    (trace: seq<Exchange>, r: Result<Fetched>) =>
      Looped(policy, before, trace, purpose, guarded, maxBytes, maxRedirects, initial, r)
  }

  lemma LoopIsKept(policy: Policy, before: seq<Exchange>, purpose: Purpose, guarded: bool, maxBytes: int,
                   maxRedirects: nat, initial: Url)
    requires guarded ==> purpose == Page
    ensures LoopGoes(policy, before, purpose, guarded, initial)(before, 0, initial)
    ensures KeptByTurns(policy, purpose, guarded, maxBytes, maxRedirects,
                        LoopGoes(policy, before, purpose, guarded, initial),
                        LoopDone(policy, before, purpose, guarded, maxBytes, maxRedirects, initial))
  {
    forall was, redirects, current, trace, r
      ensures TurnKeeps(policy, purpose, guarded, maxBytes, maxRedirects,
                        LoopGoes(policy, before, purpose, guarded, initial),
                        LoopDone(policy, before, purpose, guarded, maxBytes, maxRedirects, initial),
                        was, redirects, current, trace, r)
    {
      TurnInLoop(policy, before, was, trace, purpose, guarded, maxBytes, maxRedirects, redirects, initial, current, r);
    }
  }

  lemma TurnAdvances(policy: Policy, before: seq<Exchange>, after: seq<Exchange>, purpose: Purpose, guarded: bool,
                     maxBytes: int, s: nat, initial: Url, current: Url, r: Result<Step>)
    requires Going(policy, before, purpose, guarded, s, initial, current)
    requires Took(policy, before, after, purpose, guarded, maxBytes, current, r)
    ensures Extends(before, after) && Advanced(policy, after, purpose, guarded, maxBytes, s, initial, r)
    ensures r.Ok? ==> |after| > |before|
    ensures s <= |before| <= |after|
    ensures r.Ok? || r.error == TooManyRedirects ==>
              RequestsFor(after, purpose, s, |after|) == RequestsFor(before, purpose, s, |before|) + 1
  {
    if r.Ok? || r.error == TooManyRedirects {
      OneMoreRequest(before, after, purpose, guarded, s, current);
    }
    ChainAfterTurn(policy, before, after, purpose, guarded, s, initial, current);
    if r.Failed? {
      FailedAfterTurn(policy, before, after, purpose, guarded, maxBytes, s, initial, current, r.error);
    } else if r.value.Done? {
      DoneAfterTurn(policy, before, after, purpose, guarded, s, initial, current);
    } else {
      GoingAfterTurn(policy, before, after, purpose, guarded, s, initial, current, r.value.url);
    }
  }

  lemma ChainAfterTurn(policy: Policy, before: seq<Exchange>, after: seq<Exchange>, purpose: Purpose, guarded: bool,
                       s: nat, initial: Url, current: Url)
    requires Going(policy, before, purpose, guarded, s, initial, current)
        && Turned(before, after, purpose, guarded, current)
    ensures PageChain(policy, after, s, initial) && Extends(before, after)
    ensures !guarded ==> OnlyFor(after, purpose, s)
  {
    if purpose == Page {
      PageChainGrows(policy, before, after, s, initial, current);
    }
  }

  lemma DoneAfterTurn(policy: Policy, before: seq<Exchange>, after: seq<Exchange>, purpose: Purpose, guarded: bool,
                      s: nat, initial: Url, current: Url)
    requires Going(policy, before, purpose, guarded, s, initial, current)
        && Exchanged(before, after, purpose, guarded, current)
    ensures PageChain(policy, after, s, initial)
    ensures !guarded ==> Chain(policy, after, purpose, s, |after|, initial)
  {
    ChainAfterTurn(policy, before, after, purpose, guarded, s, initial, current);
    if !guarded {
      ChainGrows(policy, before, after, purpose, s, initial, current);
    }
  }

  lemma GoingAfterTurn(policy: Policy, before: seq<Exchange>, after: seq<Exchange>, purpose: Purpose, guarded: bool,
                       s: nat, initial: Url, current: Url, next: Url)
    requires Going(policy, before, purpose, guarded, s, initial, current)
        && Exchanged(before, after, purpose, guarded, current)
    requires LeadsTo(policy, after[|after| - 1], next)
    ensures Going(policy, after, purpose, guarded, s, initial, next)
  {
    DoneAfterTurn(policy, before, after, purpose, guarded, s, initial, current);
    if purpose == Page {
      RedirectGivesTurn(policy, after, s, initial, next);
    }
  }

  lemma FailedAfterTurn(policy: Policy, before: seq<Exchange>, after: seq<Exchange>, purpose: Purpose, guarded: bool,
                        maxBytes: int, s: nat, initial: Url, current: Url, error: Error)
    requires Going(policy, before, purpose, guarded, s, initial, current)
        && Turned(before, after, purpose, guarded, current)
    requires TurnFailed(policy, before, after, purpose, guarded, maxBytes, current, error)
    ensures PageChain(policy, after, s, initial)
        && FailedFor(policy, after, purpose, guarded, maxBytes, s, initial, error)
  {
    ChainAfterTurn(policy, before, after, purpose, guarded, s, initial, current);
    if !LoopFailed(policy, after, purpose, maxBytes, error) {
      PageChainGrows(policy, before, after, s, initial, current);
      assert IsNext(policy, after, s, |after|, initial, current);
    }
  }

  /** The most requests `hops` page requests can cost, each with its robots exchange. */
  function Budget(maxRedirects: nat, hops: nat): nat {
    if hops == 0 then 0 else Budget(maxRedirects, hops - 1) + maxRedirects + 2
  }

  lemma {:induction false} BudgetIsProduct(maxRedirects: nat, hops: nat)
    ensures Budget(maxRedirects, hops) == hops * (maxRedirects + 2)
    decreases hops
  {
    if hops > 0 {
      BudgetIsProduct(maxRedirects, hops - 1);
      assert hops * (maxRedirects + 2) == (hops - 1) * (maxRedirects + 2) + (maxRedirects + 2);
    }
  }

  lemma {:induction false} BudgetGrows(maxRedirects: nat, m: nat, n: nat)
    requires m <= n
    ensures Budget(maxRedirects, m) <= Budget(maxRedirects, n)
    decreases n
  {
    if m < n {
      BudgetGrows(maxRedirects, m, n - 1);
    }
  }
}
