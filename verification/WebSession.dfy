/**
 `gea web`: sending with a stored session, minting a new one when it has lapsed, and writing
 it down before it is used.

 Everything outside the process is a parameter: whether the credential loads, what each mint
 and each send is answered, and what becomes of each write. A `log` of what was minted,
 written and put on the wire lets whole histories of requests be talked about.
 */
module WebSession {
  import opened Wrappers
  import opened CookieAge

  type Token = nat

  datatype Credential = Credential(remember: Token, session: Option<Token>)

  /** A remember token replacing the one presented, with the attributes of its cookie and when it was read. */
  datatype Rotation = Rotation(token: Token, attrs: string, at: Instant)

  /** A successful auto-sign-in: a session, and a rotated remember token if there is one. */
  datatype Reminted = Reminted(session: Token, rotation: Option<Rotation>)

  /**
   What presenting the remember token comes to: the server declines; or it signs in and the
   answer arrives; or it signs in, rotating the token, and no usable answer arrives.
   */
  datatype Mint = Declined | Delivered(m: Reminted) | Undelivered(m: Reminted)

  /** What becomes of a write: done; done, but then reported as failed; or not done. */
  datatype WriteResult = Written | WrittenThenFailed | Lost

  datatype Renewal = Renewal(mint: Mint, write: WriteResult)

  datatype Answer = Answer(redirectsToLogin: bool, status: nat)

  /** The surroundings of one request, in the order it may meet them. */
  datatype World = World(loads: bool, initial: Renewal, first: Option<Answer>, again: Renewal, retry: Option<Answer>)

  datatype Event =
    | Minted(cred: Credential, expected: Token)
    | Stored(cred: Credential)
    | Sent(cookie: Option<Token>)

  datatype WebError = LoadFailed | SessionMissing | MintFailed | NotStored | NotSent

  /** `session::is_lapsed`: bounced to the login page, or 401. */
  predicate IsLapsed(a: Answer) {
    a.redirectsToLogin || a.status == 401
  }

  predicate WorthRenewing(a: Answer) {
    IsLapsed(a) || a.status == 404
  }

  /** `remember_from`: the rotated token, unless its lifetime cannot be read. */
  function Read(m: Reminted): Option<Token> {
    if m.rotation.Some? && End(m.rotation.value.attrs, m.rotation.value.at).Some? then Some(m.rotation.value.token)
    else None
  }

  /** The credential after a mint; the remember token is kept if no other was read. */
  function Renewed(cred: Credential, m: Reminted): Credential {
    Credential(if Read(m).Some? then Read(m).value else cred.remember, Some(m.session))
  }

  /** The remember token the server expects after a mint, read or not. */
  function Due(cred: Credential, m: Reminted): Token {
    if m.rotation.Some? then m.rotation.value.token else cred.remember
  }

  class Process {
    /** The credential document as it is on disk. */
    var stored: Option<Credential>
    var log: seq<Event>

    constructor (stored: Option<Credential>)
      ensures this.stored == stored && log == []
    {
      this.stored := stored;
      log := [];
    }

    method Store(cred: Credential, write: WriteResult) returns (ok: bool)
      modifies this
      ensures ok <==> write == Written
      ensures write == Lost ==> stored == old(stored) && log == old(log)
      ensures write != Lost ==> stored == Some(cred) && log == old(log) + [Stored(cred)]
    {
      if write != Lost {
        stored := Some(cred);
        log := log + [Stored(cred)];
      }
      return write == Written;
    }

    /** The credential handed out, if any, is the one in the store; an error leaves the log telling why. */
    method Renew(cred: Credential, r: Renewal) returns (renewed: Result<Credential, WebError>)
      modifies this
      ensures var run := RenewRun(cred, r);
              && renewed == run.result
              && log == old(log) + run.events
              && stored == StoredAfter(old(stored), run.events)
    {
      if r.mint.Declined? {
        assert log == log + [];
        return Err(MintFailed);
      }
      var next := Renewed(cred, r.mint.m);
      log := log + [Minted(next, Due(cred, r.mint.m))];
      StoredAfterTwo(old(stored), next, Due(cred, r.mint.m));
      if r.mint.Undelivered? {
        return Err(MintFailed);
      }
      var ok := Store(next, r.write);
      return if ok then Ok(next) else Err(NotStored);
    }

    /** The cookie goes out, whatever comes back. */
    method Send(cred: Credential, answer: Option<Answer>) returns (resp: Result<Answer, WebError>)
      modifies this`log
      ensures log == old(log) + [Sent(cred.session)]
      ensures resp == Answered(answer)
    {
      log := log + [Sent(cred.session)];
      return Answered(answer);
    }

    method Request(w: World) returns (resp: Result<Answer, WebError>)
      modifies this
      ensures var run := RequestRun(old(stored), w);
              && resp == run.result
              && log == old(log) + run.events
              && stored == StoredAfter(old(stored), run.events)
    {
      ghost var log0, stored0 := log, stored;
      if !w.loads {
        assert log == log + [];
        return Err(LoadFailed);
      }
      if stored.None? {
        assert log == log + [];
        return Err(SessionMissing);
      }
      var cred := stored.value;
      ghost var e1: seq<Event> := [];
      assert log == log0 + e1;
      if cred.session.None? {
        var renewed := Renew(cred, w.initial);
        e1 := RenewRun(cred, w.initial).events;
        if renewed.Err? {
          return Err(renewed.error);
        }
        cred := renewed.value;
      }
      resp := Send(cred, w.first);
      StoredAfterAppend(stored0, e1, [Sent(cred.session)]);
      assert log == log0 + (e1 + [Sent(cred.session)]);
      if resp.Err? || !WorthRenewing(resp.value) {
        return;
      }
      ghost var e2 := RenewRun(cred, w.again).events;
      var renewed := Renew(cred, w.again);
      StoredAfterAppend(stored0, e1 + [Sent(cred.session)], e2);
      assert log == log0 + (e1 + [Sent(cred.session)] + e2);
      if renewed.Err? {
        return Err(renewed.error);
      }
      resp := Send(renewed.value, w.retry);
      StoredAfterAppend(stored0, e1 + [Sent(cred.session)] + e2, [Sent(renewed.value.session)]);
    }
  }

  // -------------------------------------------------------------- what one request does

  datatype Run<T> = Run(result: Result<T, WebError>, events: seq<Event>)

  function Answered(answer: Option<Answer>): Result<Answer, WebError> {
    if answer.Some? then Ok(answer.value) else Err(NotSent)
  }

  /** What a log leaves in the store: the last credential written. */
  function StoredAfter(stored: Option<Credential>, events: seq<Event>): Option<Credential>
    decreases |events|
  {
    if events == [] then stored
    else StoredAfter(if events[0].Stored? then Some(events[0].cred) else stored, events[1..])
  }

  function RenewRun(cred: Credential, r: Renewal): Run<Credential> {
    if r.mint.Declined? then Run(Err(MintFailed), [])
    else
      var next := Renewed(cred, r.mint.m);
      var minted := Minted(next, Due(cred, r.mint.m));
      if r.mint.Undelivered? then Run(Err(MintFailed), [minted])
      else if r.write == Lost then Run(Err(NotStored), [minted])
      else Run(if r.write == Written then Ok(next) else Err(NotStored), [minted, Stored(next)])
  }

  function RequestRun(stored: Option<Credential>, w: World): Run<Answer> {
    if !w.loads then Run(Err(LoadFailed), [])
    else if stored.None? then Run(Err(SessionMissing), [])
    else
      var start := if stored.value.session.Some? then Run(Ok(stored.value), []) else RenewRun(stored.value, w.initial);
      if start.result.Err? then Run(Err(start.result.error), start.events)
      else
        var cred := start.result.value;
        var sent := start.events + [Sent(cred.session)];
        if w.first.None? then Run(Err(NotSent), sent)
        else if !WorthRenewing(w.first.value) then Run(Ok(w.first.value), sent)
        else
          var second := RenewRun(cred, w.again);
          if second.result.Err? then Run(Err(second.result.error), sent + second.events)
          else Run(Answered(w.retry), sent + second.events + [Sent(second.result.value.session)])
  }

  lemma {:induction false} StoredAfterAppend(stored: Option<Credential>, a: seq<Event>, b: seq<Event>)
    ensures StoredAfter(stored, a + b) == StoredAfter(StoredAfter(stored, a), b)
    decreases |a|
  {
    if a == [] {
      assert a + b == b;
    } else {
      assert (a + b)[1..] == a[1..] + b;
      StoredAfterAppend(if a[0].Stored? then Some(a[0].cred) else stored, a[1..], b);
    }
  }

  lemma StoredAfterTwo(stored: Option<Credential>, c: Credential, e: Token)
    ensures StoredAfter(stored, [Minted(c, e)]) == stored
    ensures StoredAfter(stored, [Minted(c, e), Stored(c)]) == Some(c)
    ensures forall log: seq<Event> :: log + [Minted(c, e)] + [Stored(c)] == log + [Minted(c, e), Stored(c)]
  {
    assert [Minted(c, e)][1..] == [];
    assert [Minted(c, e), Stored(c)][1..] == [Stored(c)] && [Stored(c)][1..] == [];
    assert StoredAfter(stored, [Stored(c)]) == Some(c);
  }

  function Count(events: seq<Event>, what: Event -> bool): nat {
    if events == [] then 0 else (if what(events[0]) then 1 else 0) + Count(events[1..], what)
  }

  function Sends(events: seq<Event>): nat {
    Count(events, (e: Event) => e.Sent?)
  }

  function Mints(events: seq<Event>): nat {
    Count(events, (e: Event) => e.Minted?)
  }

  lemma {:induction false} CountAppend(a: seq<Event>, b: seq<Event>, what: Event -> bool)
    ensures Count(a + b, what) == Count(a, what) + Count(b, what)
  {
    if a == [] {
      assert a + b == b;
    } else {
      assert (a + b)[1..] == a[1..] + b;
      CountAppend(a[1..], b, what);
    }
  }

  lemma CountSmall(what: Event -> bool, x: Event, y: Event)
    ensures Count([], what) == 0
    ensures Count([x], what) == if what(x) then 1 else 0
    ensures Count([x, y], what) == (if what(x) then 1 else 0) + (if what(y) then 1 else 0)
  {
    assert [x][1..] == [] && [x, y][1..] == [y] && [y][1..] == [];
  }

  lemma RenewCounts(cred: Credential, r: Renewal)
    ensures Sends(RenewRun(cred, r).events) == 0 && Mints(RenewRun(cred, r).events) <= 1
  {
    if !r.mint.Declined? {
      var next, due := Renewed(cred, r.mint.m), Due(cred, r.mint.m);
      CountSmall((e: Event) => e.Sent?, Minted(next, due), Stored(next));
      CountSmall((e: Event) => e.Minted?, Minted(next, due), Stored(next));
    }
  }

  /** At most two sends and two mints; a second send only after a lapsed answer or a 404. */
  lemma RequestIsBounded(stored: Option<Credential>, w: World)
    ensures var run := RequestRun(stored, w);
            && Sends(run.events) <= 2 && Mints(run.events) <= 2
            && (Sends(run.events) == 2 ==>
                  w.first.Some? && (w.first.value.redirectsToLogin || w.first.value.status in {401, 404}))
  {
    hide RenewRun, Sends, Mints;
    NothingCounted();
    if w.loads && stored.Some? {
      var start := if stored.value.session.Some? then Run(Ok(stored.value), []) else RenewRun(stored.value, w.initial);
      RenewCounts(stored.value, w.initial);
      if start.result.Ok? {
        var cred := start.result.value;
        var sent := start.events + [Sent(cred.session)];
        CountsAppend(start.events, [Sent(cred.session)]);
        OneSend(cred.session);
        var second := RenewRun(cred, w.again);
        RenewCounts(cred, w.again);
        CountsAppend(sent, second.events);
        if second.result.Ok? {
          var last := second.result.value.session;
          CountsAppend(sent + second.events, [Sent(last)]);
          OneSend(last);
        }
      }
    }
  }

  lemma CountsAppend(a: seq<Event>, b: seq<Event>)
    ensures Sends(a + b) == Sends(a) + Sends(b) && Mints(a + b) == Mints(a) + Mints(b)
  {
    CountAppend(a, b, (e: Event) => e.Sent?);
    CountAppend(a, b, (e: Event) => e.Minted?);
  }

  lemma NothingCounted()
    ensures Sends([]) == 0 && Mints([]) == 0
  {
  }

  lemma OneSend(cookie: Option<Token>)
    ensures Sends([Sent(cookie)]) == 1 && Mints([Sent(cookie)]) == 0
  {
    CountSmall((e: Event) => e.Sent?, Sent(cookie), Sent(cookie));
    CountSmall((e: Event) => e.Minted?, Sent(cookie), Sent(cookie));
  }

  /** A first answer worth renewing for, a session minted and written down, and a server that did not honour it. */
  predicate RetryLapsed(stored: Option<Credential>, w: World) {
    && w.loads && stored.Some?
    && (stored.value.session.Some? || (w.initial.mint.Delivered? && w.initial.write == Written))
    && w.first.Some? && (w.first.value.redirectsToLogin || w.first.value.status in {401, 404})
    && w.again.mint.Delivered? && w.again.write == Written
    && w.retry.Some? && (w.retry.value.redirectsToLogin || w.retry.value.status == 401)
  }

  predicate ReturnsLapsed(run: Run<Answer>) {
    run.result.Ok? && (run.result.value.redirectsToLogin || run.result.value.status == 401)
  }

  /** A lapsed answer is handed back exactly when it answered the retry, with a session just minted and written. */
  lemma LapsedIsReturnedExactly(stored: Option<Credential>, w: World)
    ensures ReturnsLapsed(RequestRun(stored, w)) <==> RetryLapsed(stored, w)
  {
  }

  /** The first send of this request gets an answer. */
  predicate FirstAnswers(stored: Option<Credential>, w: World) {
    && w.loads && stored.Some? && w.first.Some?
    && (stored.value.session.Some? || (w.initial.mint.Delivered? && w.initial.write == Written))
  }

  /** What a request has done when its first answer is there. */
  function UpToFirst(stored: Credential, w: World): seq<Event>
    requires stored.session.Some? || (w.initial.mint.Delivered? && w.initial.write == Written)
  {
    if stored.session.Some? then [Sent(stored.session)]
    else
      var m := w.initial.mint.m;
      [Minted(Renewed(stored, m), Due(stored, m)), Stored(Renewed(stored, m)), Sent(Some(m.session))]
  }

  /**
   Once there is a first answer: unless it leads to the login page or is a 401 or a 404, it is
   the result and nothing more happens. If it is one of these, a renewal is asked for with
   the remember token at hand. When that is delivered and written, the request goes out once
   more, with the new session, and its answer is the result; when not, that is the error.
   */
  lemma FirstAnswerDecides(stored: Credential, w: World)
    requires FirstAnswers(Some(stored), w)
    ensures var (run, first, before) := (RequestRun(Some(stored), w), w.first.value, UpToFirst(stored, w));
            var held := if stored.session.Some? then stored else Renewed(stored, w.initial.mint.m);
            var renew := first.redirectsToLogin || first.status == 401 || first.status == 404;
            && (!renew ==> run == Run(Ok(first), before))
            && (renew && w.again.mint.Declined? ==> run == Run(Err(MintFailed), before))
            && (renew && w.again.mint.Undelivered? ==>
                  run == Run(Err(MintFailed), before + [Minted(Renewed(held, w.again.mint.m), Due(held, w.again.mint.m))]))
            && (renew && w.again.mint.Delivered? && w.again.write != Written ==>
                  var next := Renewed(held, w.again.mint.m);
                  run == Run(Err(NotStored), before + [Minted(next, Due(held, w.again.mint.m))]
                                             + if w.again.write == Lost then [] else [Stored(next)]))
            && (renew && w.again.mint.Delivered? && w.again.write == Written ==>
                  var next := Renewed(held, w.again.mint.m);
                  && next.session == Some(w.again.mint.m.session)
                  && run.events == before + [Minted(next, Due(held, w.again.mint.m)), Stored(next), Sent(next.session)]
                  && run.result == if w.retry.Some? then Ok(w.retry.value) else Err(NotSent))
  {
  }

  /** And when there is none: why, and what had happened by then. */
  lemma NoFirstAnswer(stored: Option<Credential>, w: World)
    requires !FirstAnswers(stored, w)
    ensures var run := RequestRun(stored, w);
            if !w.loads then run == Run(Err(LoadFailed), [])
            else if stored.None? then run == Run(Err(SessionMissing), [])
            else if stored.value.session.Some? || (w.initial.mint.Delivered? && w.initial.write == Written) then
              run == Run(Err(NotSent), UpToFirst(stored.value, w))
            else if w.initial.mint.Declined? then run == Run(Err(MintFailed), [])
            else
              var next := Renewed(stored.value, w.initial.mint.m);
              var minted := Minted(next, Due(stored.value, w.initial.mint.m));
              if w.initial.mint.Undelivered? then run == Run(Err(MintFailed), [minted])
              else run == Run(Err(NotStored), [minted] + if w.initial.write == Lost then [] else [Stored(next)])
  {
  }

  /** A mint brings its session; it brings its remember token too, if there is one and its lifetime can be read. */
  lemma MintMeans(cred: Credential, session: Token, token: Token, attrs: string, at: Instant)
    ensures var m := Reminted(session, None);
            Renewed(cred, m) == Credential(cred.remember, Some(session)) && Due(cred, m) == cred.remember
    ensures var m := Reminted(session, Some(Rotation(token, attrs, at)));
            && Renewed(cred, m) == Credential(if End(attrs, at).Some? then token else cred.remember, Some(session))
            && Due(cred, m) == token
  {
  }

  // --------------------------------------------------------------- what every run keeps

  /** The session `c` was in the store before event `i`: written in the log, or there at the start. */
  ghost predicate WrittenBefore(start: Option<Credential>, log: seq<Event>, i: nat, c: Token) {
    || (start.Some? && start.value.session == Some(c))
    || exists j :: 0 <= j < i && j < |log| && log[j].Stored? && log[j].cred.session == Some(c)
  }

  /** Every send carries a session, and one that had been written down before. */
  ghost predicate PersistedFirst(start: Option<Credential>, log: seq<Event>) {
    forall i | 0 <= i < |log| && log[i].Sent? ::
      log[i].cookie.Some? && WrittenBefore(start, log, i, log[i].cookie.value)
  }

  /** What is in the store got there by being written. */
  lemma {:induction false} StoreWasWritten(start: Option<Credential>, log: seq<Event>)
    requires StoredAfter(start, log).Some? && StoredAfter(start, log).value.session.Some?
    ensures WrittenBefore(start, log, |log|, StoredAfter(start, log).value.session.value)
    decreases |log|
  {
    if log != [] {
      var init, last := log[..|log| - 1], log[|log| - 1];
      assert log == init + [last];
      StoredAfterAppend(start, init, [last]);
      assert [last][1..] == [];
      if !last.Stored? {
        StoreWasWritten(start, init);
      }
    }
  }

  lemma AppendSend(start: Option<Credential>, log: seq<Event>, c: Token)
    requires PersistedFirst(start, log) && WrittenBefore(start, log, |log|, c)
    ensures PersistedFirst(start, log + [Sent(Some(c))])
  {
    var all := log + [Sent(Some(c))];
    forall i | 0 <= i < |all| && all[i].Sent?
      ensures all[i].cookie.Some? && WrittenBefore(start, all, i, all[i].cookie.value)
    {
      var x := all[i].cookie.value;
      if i < |log| {
        assert all[i] == log[i];
      }
      assert WrittenBefore(start, log, i, x);
      if j :| 0 <= j < i && j < |log| && log[j].Stored? && log[j].cred.session == Some(x) {
        assert all[j] == log[j];
      }
    }
  }

  lemma AppendOther(start: Option<Credential>, log: seq<Event>, more: seq<Event>)
    requires PersistedFirst(start, log) && forall e | e in more :: !e.Sent?
    ensures PersistedFirst(start, log + more)
  {
    var all := log + more;
    assert forall k | |log| <= k < |all| :: all[k] in more;
    forall i | 0 <= i < |all| && all[i].Sent?
      ensures all[i].cookie.Some? && WrittenBefore(start, all, i, all[i].cookie.value)
    {
      assert i < |log|;
      assert all[i] == log[i] && WrittenBefore(start, log, i, log[i].cookie.value);
      if j :| 0 <= j < i && log[j].Stored? && log[j].cred.session == log[i].cookie {
        assert all[j] == log[j];
      }
    }
  }

  /** A renewal, and the send that follows it. */
  lemma RenewAndSend(start: Option<Credential>, log: seq<Event>, cred: Credential, r: Renewal)
    requires PersistedFirst(start, log)
    ensures var run := RenewRun(cred, r);
            && PersistedFirst(start, log + run.events)
            && (run.result.Ok? ==>
                  && run.result.value.session.Some?
                  && PersistedFirst(start, log + run.events + [Sent(run.result.value.session)]))
  {
    var run := RenewRun(cred, r);
    AppendOther(start, log, run.events);
    if run.result.Ok? {
      var all, c := log + run.events, run.result.value.session.value;
      assert all[|log| + 1] == Stored(run.result.value);
      assert WrittenBefore(start, all, |all|, c);
      AppendSend(start, all, c);
    }
  }

  /** One more request, from the store an earlier log left. */
  lemma RequestPersistsFirst(start: Option<Credential>, log: seq<Event>, w: World)
    requires PersistedFirst(start, log)
    ensures PersistedFirst(start, log + RequestRun(StoredAfter(start, log), w).events)
  {
    hide PersistedFirst, WrittenBefore, StoredAfter;
    var stored := StoredAfter(start, log);
    var run := RequestRun(stored, w);
    assert log + [] == log;
    if w.loads && stored.Some? {
      var begin := if stored.value.session.Some? then Run(Ok(stored.value), []) else RenewRun(stored.value, w.initial);
      RenewAndSend(start, log, stored.value, w.initial);
      if begin.result.Ok? {
        var cred := begin.result.value;
        var sent := begin.events + [Sent(cred.session)];
        if stored.value.session.Some? {
          StoreWasWritten(start, log);
          AppendSend(start, log, cred.session.value);
        }
        assert log + sent == log + begin.events + [Sent(cred.session)];
        RenewAndSend(start, log + sent, cred, w.again);
        var second := RenewRun(cred, w.again);
        assert log + (sent + second.events) == log + sent + second.events;
        if second.result.Ok? {
          var last := [Sent(second.result.value.session)];
          assert log + (sent + second.events + last) == log + sent + second.events + last;
        }
      }
    }
  }

  /** The log of a whole history of requests. */
  function History(start: Option<Credential>, worlds: seq<World>): seq<Event> {
    if worlds == [] then []
    else
      var before := History(start, worlds[..|worlds| - 1]);
      before + RequestRun(StoredAfter(start, before), worlds[|worlds| - 1]).events
  }

  /**
   In every history, whatever fails on the way, each session put on the wire had been written
   down before it was sent.
   */
  lemma {:induction false} SessionsArePersistedFirst(start: Option<Credential>, worlds: seq<World>)
    ensures PersistedFirst(start, History(start, worlds))
  {
    if worlds != [] {
      SessionsArePersistedFirst(start, worlds[..|worlds| - 1]);
      RequestPersistsFirst(start, History(start, worlds[..|worlds| - 1]), worlds[|worlds| - 1]);
    }
  }

  // --------------------------------------------------------- the rotating remember token

  /** The remember token the server expects next: as the last mint left it. */
  function Expected(remember: Token, log: seq<Event>): Token
    decreases |log|
  {
    if log == [] then remember
    else Expected(if log[0].Minted? then log[0].expected else remember, log[1..])
  }

  lemma {:induction false} ExpectedAppend(remember: Token, a: seq<Event>, b: seq<Event>)
    ensures Expected(remember, a + b) == Expected(Expected(remember, a), b)
    decreases |a|
  {
    if a == [] {
      assert a + b == b;
    } else {
      assert (a + b)[1..] == a[1..] + b;
      ExpectedAppend(if a[0].Minted? then a[0].expected else remember, a[1..], b);
    }
  }

  /** The store holds the remember token the server expects next, `remember` before the log. */
  predicate InStep(remember: Token, stored: Option<Credential>, log: seq<Event>) {
    var now := StoredAfter(stored, log);
    now.Some? && now.value.remember == Expected(remember, log)
  }

  /** A token presented, and what that came to. */
  datatype Attempt = Attempt(cred: Credential, r: Renewal)

  /** The server rotates the token and the replacement is not delivered, not written, or not read. */
  predicate Loses(a: Attempt) {
    && !a.r.mint.Declined? && Due(a.cred, a.r.mint.m) != a.cred.remember
    && (a.r.mint.Undelivered? || a.r.write == Lost || Read(a.r.mint.m).None?)
  }

  /** Whether a renewal hands out a credential to go on with. */
  predicate Renews(r: Renewal) {
    r.mint.Delivered? && r.write == Written
  }

  /** The renewal, if the server grants it. */
  function Granted(cred: Credential, r: Renewal): seq<Attempt> {
    if r.mint.Declined? then [] else [Attempt(cred, r)]
  }

  /** The renewals a request asks for and is granted, in order. */
  function Attempts(cred: Credential, w: World): seq<Attempt> {
    if !w.loads then []
    else
      var initial := if cred.session.None? then Granted(cred, w.initial) else [];
      if cred.session.None? && !Renews(w.initial) then initial
      else
        var held := if cred.session.Some? then cred else Renewed(cred, w.initial.mint.m);
        initial + (if w.first.Some? && WorthRenewing(w.first.value) then Granted(held, w.again) else [])
  }

  /** The last of these renewals reached the store; if there is none, it was in step before. */
  predicate LastArrives(before: bool, attempts: seq<Attempt>) {
    if attempts == [] then before else !Loses(attempts[|attempts| - 1])
  }

  lemma RenewKeepsStep(e: Token, cred: Credential, r: Renewal)
    ensures var run := RenewRun(cred, r);
            && StoredAfter(Some(cred), run.events).Some?
            && (run.result.Ok? <==> Renews(r))
            && (Renews(r) ==> run.result.value == Renewed(cred, r.mint.m)
                              && StoredAfter(Some(cred), run.events) == Some(run.result.value))
            && (InStep(e, Some(cred), run.events) <==> LastArrives(e == cred.remember, Granted(cred, r)))
  {
    hide End;
    if !r.mint.Declined? {
      var next, due := Renewed(cred, r.mint.m), Due(cred, r.mint.m);
      var minted := Minted(next, due);
      StoredAfterTwo(Some(cred), next, due);
      assert [minted][1..] == [] && [minted, Stored(next)][1..] == [Stored(next)] && [Stored(next)][1..] == [];
      assert Expected(due, [Stored(next)]) == due;
      assert Expected(e, [minted]) == Expected(e, [minted, Stored(next)]) == due;
    }
  }

  /** Events after others, judged on their own. */
  lemma StepFrom(e: Token, cred: Credential, a: seq<Event>, b: seq<Event>, held: Credential)
    requires StoredAfter(Some(cred), a) == Some(held)
    ensures InStep(e, Some(cred), a + b) <==> InStep(Expected(e, a), Some(held), b)
    ensures InStep(e, Some(cred), a) <==> Expected(e, a) == held.remember
    ensures StoredAfter(Some(cred), a + b) == StoredAfter(Some(held), b)
  {
    StoredAfterAppend(Some(cred), a, b);
    ExpectedAppend(e, a, b);
  }

  lemma SendStep(e: Token, held: Credential, cookie: Option<Token>)
    ensures InStep(e, Some(held), [Sent(cookie)]) <==> e == held.remember
    ensures StoredAfter(Some(held), [Sent(cookie)]) == Some(held)
    ensures InStep(e, Some(held), []) <==> e == held.remember
  {
    var log: seq<Event> := [Sent(cookie)];
    assert log[1..] == [] && Expected(e, log) == Expected(e, []) == e;
    assert StoredAfter(Some(held), log) == StoredAfter(Some(held), []) == Some(held);
  }

  /**
   A request leaves a store that holds the remember token the server expects, exactly unless
   the last renewal it was granted rotated the token and the new one was not delivered, not
   written or not read; granted none, it leaves the store in or out of step as it was.
   */
  lemma RememberStaysInStep(e: Token, cred: Credential, w: World)
    ensures InStep(e, Some(cred), RequestRun(Some(cred), w).events)
            <==> LastArrives(e == cred.remember, Attempts(cred, w))
    ensures StoredAfter(Some(cred), RequestRun(Some(cred), w).events).Some?
  {
    hide InStep, StoredAfter, Expected, RenewRun, Loses, Renewed;
    SendStep(e, cred, None);
    EmptyLog(cred);
    if w.loads {
      var begin := if cred.session.Some? then Run(Ok(cred), []) else RenewRun(cred, w.initial);
      RenewKeepsStep(e, cred, w.initial);
      if begin.result.Ok? {
        var held := begin.result.value;
        var sent := begin.events + [Sent(held.session)];
        ThenSend(e, cred, begin.events, held, held.session);
        var second := RenewRun(held, w.again);
        RenewKeepsStep(Expected(e, sent), held, w.again);
        StepFrom(e, cred, sent, second.events, held);
        if second.result.Ok? {
          ThenSend(e, cred, sent + second.events, second.result.value, second.result.value.session);
        }
      }
    }
  }

  /** A send changes nothing. */
  lemma ThenSend(e: Token, cred: Credential, a: seq<Event>, held: Credential, cookie: Option<Token>)
    requires StoredAfter(Some(cred), a) == Some(held)
    ensures StoredAfter(Some(cred), a + [Sent(cookie)]) == Some(held)
    ensures InStep(e, Some(cred), a + [Sent(cookie)]) <==> InStep(e, Some(cred), a)
  {
    StepFrom(e, cred, a, [Sent(cookie)], held);
    SendStep(Expected(e, a), held, cookie);
  }

  lemma EmptyLog(cred: Credential)
    ensures StoredAfter(Some(cred), []) == Some(cred)
  {
  }

  /** What the store holds after a history that began with a credential. */
  function HeldAfter(cred: Credential, worlds: seq<World>): Option<Credential> {
    StoredAfter(Some(cred), History(Some(cred), worlds))
  }

  /** The renewals granted over a history. */
  function AllAttempts(cred: Credential, worlds: seq<World>): seq<Attempt> {
    if worlds == [] then []
    else
      var before := worlds[..|worlds| - 1];
      AllAttempts(cred, before)
      + (match HeldAfter(cred, before) case None => [] case Some(held) => Attempts(held, worlds[|worlds| - 1]))
  }

  /**
   So over a whole history: the store holds the token expected next exactly unless the last
   renewal granted was lost. No later request puts right what one lost, short of a renewal
   the server still grants.
   */
  lemma {:induction false} HistoryStaysInStep(cred: Credential, worlds: seq<World>)
    ensures HeldAfter(cred, worlds).Some?
    ensures InStep(cred.remember, Some(cred), History(Some(cred), worlds)) <==> LastArrives(true, AllAttempts(cred, worlds))
  {
    hide RequestRun, InStep, Attempts, Loses;
    if worlds == [] {
      SendStep(cred.remember, cred, None);
      EmptyLog(cred);
    } else {
      var before, w := worlds[..|worlds| - 1], worlds[|worlds| - 1];
      HistoryStaysInStep(cred, before);
      var held, e := HeldAfter(cred, before).value, Expected(cred.remember, History(Some(cred), before));
      RememberStaysInStep(e, held, w);
      StepFrom(cred.remember, cred, History(Some(cred), before), RequestRun(Some(held), w).events, held);
    }
  }

  /** A renewal that is delivered and written, and out of step all the same: a bare attribute hid the lifetime. */
  lemma UnreadRotationIsLost(cred: Credential, token: Token, session: Token, bare: string, attrs: string, at: Instant)
    requires token != cred.remember && ';' !in bare && !HasValue(bare)
    ensures var r := Renewal(Delivered(Reminted(session, Some(Rotation(token, bare + ";" + attrs, at)))), Written);
            && RenewRun(cred, r).result == Ok(Credential(cred.remember, Some(session)))
            && !InStep(cred.remember, Some(cred), RenewRun(cred, r).events)
  {
    var r := Renewal(Delivered(Reminted(session, Some(Rotation(token, bare + ";" + attrs, at)))), Written);
    hide End, InStep;
    BareAttributeHides(bare, attrs, at);
    RenewKeepsStep(cred.remember, cred, r);
  }

  /** When a request is answered, the session it used last is the one in the store. */
  lemma AnsweredSessionIsStored(cred: Credential, w: World)
    requires RequestRun(Some(cred), w).result.Ok?
    ensures var events := RequestRun(Some(cred), w).events;
            && events != [] && events[|events| - 1].Sent?
            && StoredAfter(Some(cred), events).Some?
            && StoredAfter(Some(cred), events).value.session == events[|events| - 1].cookie
  {
    hide InStep, StoredAfter, Expected, RenewRun, Loses, Renewed;
    EmptyLog(cred);
    var begin := if cred.session.Some? then Run(Ok(cred), []) else RenewRun(cred, w.initial);
    RenewKeepsStep(cred.remember, cred, w.initial);
    if begin.result.Ok? {
      var held := begin.result.value;
      var sent := begin.events + [Sent(held.session)];
      SendKeepsStore(Some(cred), begin.events, held.session);
      var second := RenewRun(held, w.again);
      RenewKeepsStep(held.remember, held, w.again);
      StoredAfterAppend(Some(cred), sent, second.events);
      if second.result.Ok? {
        SendKeepsStore(Some(cred), sent + second.events, second.result.value.session);
      }
    }
  }

  lemma SendKeepsStore(stored: Option<Credential>, a: seq<Event>, cookie: Option<Token>)
    ensures StoredAfter(stored, a + [Sent(cookie)]) == StoredAfter(stored, a)
  {
    StoredAfterAppend(stored, a, [Sent(cookie)]);
    assert [Sent(cookie)][1..] == [];
  }
}
