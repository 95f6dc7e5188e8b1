/**
 OAuth sessions: refreshing a token that is about to lapse, writing the new one down, and
 only then using it.

 One command reads the stored session, may refresh it, and uses an access token. Whether the
 refresh is answered, and what becomes of each write, is a parameter.
 */
module OauthSession {
  import opened Wrappers

  type Token = nat

  /** An instant, in nanoseconds. */
  type Instant = int

  /** How long before its end a session is renewed: five minutes. */
  const SKEW: int := 300_000_000_000

  /** The stored document. An absent refresh token means the session cannot be refreshed. */
  datatype Stored = Stored(access: Token, refresh: Option<Token>, expires: Instant)

  /**
   What the token endpoint does: nothing; mint a pair and answer; or mint a pair whose answer
   never arrives.
   */
  datatype Reply = Refused | Delivered(pair: Stored) | Undelivered(pair: Stored)

  /** A write that is done, done but reported as failed, or not done. */
  datatype WriteResult = Written | WrittenThenFailed | Lost

  /** The surroundings of one command. */
  datatype World = World(
    named: bool,          // a login and its host entry are known
    now: Instant,
    reply: Reply,
    stores: WriteResult,  // `Credentials::store`
    saves: bool)          // the `hosts.toml` write after it

  datatype Event =
    | Minted(pair: Stored)
    | Recorded(doc: Stored)
    | Used(access: Token)

  datatype RefreshError = NotRefreshed | NotStored | NotSaved

  datatype Run<T> = Run(result: T, events: seq<Event>)

  // ------------------------------------------------------------------- one command, run

  class Process {
    var stored: Option<Stored>
    var log: seq<Event>

    constructor (stored: Option<Stored>)
      ensures this.stored == stored && log == []
    {
      this.stored := stored;
      log := [];
    }

    /** An error says how far it got; a pair handed back is the one the store then holds. */
    method Refresh(w: World) returns (r: Result<Stored, RefreshError>)
      modifies this
      ensures var run := RefreshRun(w);
              r == run.result && log == old(log) + run.events && stored == StoredAfter(old(stored), run.events)
    {
      match w.reply
      case Refused =>
        assert log == log + [];
        return Err(NotRefreshed);
      case Undelivered(pair) =>
        log := log + [Minted(pair)];
        EventsOf(stored, pair);
        return Err(NotRefreshed);
      case Delivered(pair) =>
        log := log + [Minted(pair)];
        EventsOf(old(stored), pair);
        if w.stores == Lost {
          return Err(NotStored);
        }
        stored := Some(pair);
        log := log + [Recorded(pair)];
        if w.stores == WrittenThenFailed {
          return Err(NotStored);
        }
        if !w.saves {
          return Err(NotSaved);
        }
        return Ok(pair);
    }

    /** The credential part of starting up: returns the access token the command will send. */
    method Start(w: World) returns (token: Option<Token>)
      modifies this
      ensures var run := CommandRun(old(stored), w);
              token == run.result && log == old(log) + run.events && stored == StoredAfter(old(stored), run.events)
    {
      ghost var stored0 := stored;
      if stored.None? {
        assert log == log + [];
        return None;
      }
      var session := stored.value;
      ghost var events: seq<Event> := [];
      assert log == log + events;
      if w.named && session.refresh.Some? && IsExpiring(session, w.now) {
        events := RefreshRun(w).events;
        var renewed := Refresh(w);
        // A refresh that failed is a warning: the old token has what life it has left.
        if renewed.Ok? {
          session := renewed.value;
        }
      }
      log := log + [Used(session.access)];
      StoredAfterAppend(stored0, events, [Used(session.access)]);
      assert [Used(session.access)][1..] == [];
      assert log == old(log) + (events + [Used(session.access)]);
      return Some(session.access);
    }
  }

  /** What a log leaves in the store. */
  function StoredAfter(stored: Option<Stored>, events: seq<Event>): Option<Stored>
    decreases |events|
  {
    if events == [] then stored
    else StoredAfter(if events[0].Recorded? then Some(events[0].doc) else stored, events[1..])
  }

  function RefreshRun(w: World): Run<Result<Stored, RefreshError>> {
    match w.reply
    case Refused => Run(Err(NotRefreshed), [])
    case Undelivered(pair) => Run(Err(NotRefreshed), [Minted(pair)])
    case Delivered(pair) =>
      if w.stores == Lost then Run(Err(NotStored), [Minted(pair)])
      else
        Run(if w.stores == WrittenThenFailed then Err(NotStored) else if !w.saves then Err(NotSaved) else Ok(pair),
            [Minted(pair), Recorded(pair)])
  }

  predicate IsExpiring(stored: Stored, now: Instant) {
    stored.expires - now <= SKEW
  }

  /** Whether the command tries to refresh. */
  predicate Refreshes(stored: Stored, w: World) {
    w.named && stored.refresh.Some? && IsExpiring(stored, w.now)
  }

  function CommandRun(stored: Option<Stored>, w: World): Run<Option<Token>> {
    if stored.None? then Run(None, [])
    else if !Refreshes(stored.value, w) then Run(Some(stored.value.access), [Used(stored.value.access)])
    else
      var r := RefreshRun(w);
      var session := if r.result.Ok? then r.result.value else stored.value;
      Run(Some(session.access), r.events + [Used(session.access)])
  }

  lemma {:induction false} StoredAfterAppend(stored: Option<Stored>, a: seq<Event>, b: seq<Event>)
    ensures StoredAfter(stored, a + b) == StoredAfter(StoredAfter(stored, a), b)
    decreases |a|
  {
    if a == [] {
      assert a + b == b;
    } else {
      assert (a + b)[1..] == a[1..] + b;
      StoredAfterAppend(if a[0].Recorded? then Some(a[0].doc) else stored, a[1..], b);
    }
  }

  lemma EventsOf(stored: Option<Stored>, pair: Stored)
    ensures StoredAfter(stored, [Minted(pair)]) == stored
    ensures StoredAfter(stored, [Minted(pair), Recorded(pair)]) == Some(pair)
    ensures forall log: seq<Event> :: log + [Minted(pair)] + [Recorded(pair)] == log + [Minted(pair), Recorded(pair)]
  {
    assert [Minted(pair)][1..] == [] && [Minted(pair), Recorded(pair)][1..] == [Recorded(pair)];
    assert StoredAfter(stored, [Recorded(pair)]) == Some(pair) by { assert [Recorded(pair)][1..] == []; }
  }

  /**
   Which token a command sends, written out. A session with more than five minutes left, or
   with nothing to refresh it by, is used as it is and nothing is asked for. One with less is
   refreshed: the new token is sent if it was delivered, written and saved, with the new
   pair in the store by then; on any failure the old token is sent.
   */
  lemma CommandMeans(stored: Stored, w: World)
    ensures var run := CommandRun(Some(stored), w);
            var asBefore := Used(stored.access);
            if !w.named || stored.refresh.None? || stored.expires - w.now > 300_000_000_000 then
              run == Run(Some(stored.access), [asBefore])
            else if w.reply.Refused? then run == Run(Some(stored.access), [asBefore])
            else if w.reply.Undelivered? then run == Run(Some(stored.access), [Minted(w.reply.pair), asBefore])
            else
              var pair := w.reply.pair;
              if w.stores == Lost then run == Run(Some(stored.access), [Minted(pair), asBefore])
              else if w.stores == Written && w.saves then
                run == Run(Some(pair.access), [Minted(pair), Recorded(pair), Used(pair.access)])
              else run == Run(Some(stored.access), [Minted(pair), Recorded(pair), asBefore])
    ensures CommandRun(None, w) == Run(None, [])
  {
  }

  // ------------------------------------------------------- recorded before it is used

  /** A document with this access token, refresh token and all, was in the store before event `i`. */
  ghost predicate RecordedBefore(start: Option<Stored>, log: seq<Event>, i: nat, access: Token) {
    || (start.Some? && start.value.access == access)
    || exists j :: 0 <= j < i && j < |log| && log[j].Recorded? && log[j].doc.access == access
  }

  ghost predicate RecordedFirst(start: Option<Stored>, log: seq<Event>) {
    forall i | 0 <= i < |log| && log[i].Used? :: RecordedBefore(start, log, i, log[i].access)
  }

  lemma {:induction false} StoreWasRecorded(start: Option<Stored>, log: seq<Event>)
    requires StoredAfter(start, log).Some?
    ensures RecordedBefore(start, log, |log|, StoredAfter(start, log).value.access)
    decreases |log|
  {
    if log != [] {
      var init, last := log[..|log| - 1], log[|log| - 1];
      assert log == init + [last];
      StoredAfterAppend(start, init, [last]);
      assert [last][1..] == [];
      if !last.Recorded? {
        StoreWasRecorded(start, init);
      }
    }
  }

  lemma AppendUse(start: Option<Stored>, log: seq<Event>, more: seq<Event>, access: Token)
    requires RecordedFirst(start, log) && forall e | e in more :: !e.Used?
    requires RecordedBefore(start, log, |log|, access)
             || exists j :: 0 <= j < |more| && more[j].Recorded? && more[j].doc.access == access
    ensures RecordedFirst(start, log + (more + [Used(access)]))
  {
    var all := log + (more + [Used(access)]);
    assert forall k | 0 <= k < |more| :: all[|log| + k] == more[k] && more[k] in more;
    assert forall k | 0 <= k < |log| :: all[k] == log[k];
    forall k | |log| <= k < |log| + |more| ensures !all[k].Used? {
      assert all[k] == more[k - |log|] && more[k - |log|] in more;
    }
    forall i | 0 <= i < |all| && all[i].Used? ensures RecordedBefore(start, all, i, all[i].access) {
      if i < |log| {
        assert RecordedBefore(start, log, i, log[i].access);
        if j :| 0 <= j < i && log[j].Recorded? && log[j].doc.access == log[i].access {
          assert all[j] == log[j];
        }
      } else {
        assert all[i] == Used(access) && i == |log| + |more|;
        if j :| 0 <= j < |more| && more[j].Recorded? && more[j].doc.access == access {
          assert all[|log| + j] == more[j];
        } else if j :| 0 <= j < |log| && log[j].Recorded? && log[j].doc.access == access {
          assert all[j] == log[j];
        }
      }
    }
  }

  lemma CommandRecordsFirst(start: Option<Stored>, log: seq<Event>, w: World)
    requires RecordedFirst(start, log)
    ensures RecordedFirst(start, log + CommandRun(StoredAfter(start, log), w).events)
  {
    var now := StoredAfter(start, log);
    if now.None? {
      assert log + [] == log;
    } else {
      StoreWasRecorded(start, log);
      if Refreshes(now.value, w) {
        var r := RefreshRun(w);
        var session := if r.result.Ok? then r.result.value else now.value;
        if r.result.Ok? {
          assert r.events[1] == Recorded(session);
        }
        AppendUse(start, log, r.events, session.access);
      } else {
        assert [] + [Used(now.value.access)] == [Used(now.value.access)];
        AppendUse(start, log, [], now.value.access);
      }
    }
  }

  function History(start: Option<Stored>, worlds: seq<World>): seq<Event> {
    if worlds == [] then []
    else
      var before := History(start, worlds[..|worlds| - 1]);
      before + CommandRun(StoredAfter(start, before), worlds[|worlds| - 1]).events
  }

  /**
   In every history of commands, whichever refreshes and writes fail, each access token used
   had been recorded in the store, in one document with its refresh token, before it was used.
   */
  lemma {:induction false} TokensAreRecordedFirst(start: Option<Stored>, worlds: seq<World>)
    ensures RecordedFirst(start, History(start, worlds))
  {
    if worlds != [] {
      TokensAreRecordedFirst(start, worlds[..|worlds| - 1]);
      CommandRecordsFirst(start, History(start, worlds[..|worlds| - 1]), worlds[|worlds| - 1]);
    }
  }

  // ----------------------------------------------------------- the latest refresh token

  /** The last pair the server minted, or the one it had at the start. */
  function Latest(server: Stored, log: seq<Event>): Stored
    decreases |log|
  {
    if log == [] then server
    else Latest(if log[0].Minted? then log[0].pair else server, log[1..])
  }

  lemma {:induction false} LatestAppend(server: Stored, a: seq<Event>, b: seq<Event>)
    ensures Latest(server, a + b) == Latest(Latest(server, a), b)
    decreases |a|
  {
    if a == [] {
      assert a + b == b;
    } else {
      assert (a + b)[1..] == a[1..] + b;
      LatestAppend(if a[0].Minted? then a[0].pair else server, a[1..], b);
    }
  }

  /** A mint of this command that did not end up in the store. */
  predicate Loses(stored: Stored, w: World) {
    && Refreshes(stored, w)
    && ((w.reply.Undelivered? && w.reply.pair != stored)
        || (w.reply.Delivered? && w.stores == Lost && w.reply.pair != stored))
  }

  /**
   From a store that holds the server's latest pair, one command leaves one that does exactly
   unless its refresh minted a pair that was not delivered, or not written.
   */
  lemma LatestIsKeptExactly(stored: Stored, w: World)
    ensures var events := CommandRun(Some(stored), w).events;
            StoredAfter(Some(stored), events) == Some(Latest(stored, events)) <==> !Loses(stored, w)
    ensures StoredAfter(Some(stored), CommandRun(Some(stored), w).events).Some?
  {
    var run := CommandRun(Some(stored), w);
    var use := [Used(run.result.value)];
    assert use[1..] == [];
    var before := if Refreshes(stored, w) then RefreshRun(w).events else [];
    assert run.events == before + use;
    StoredAfterAppend(Some(stored), before, use);
    LatestAppend(stored, before, use);
    if Refreshes(stored, w) && !w.reply.Refused? {
      var pair := w.reply.pair;
      EventsOf(Some(stored), pair);
      assert [Minted(pair)][1..] == [] && [Minted(pair), Recorded(pair)][1..] == [Recorded(pair)];
      assert Latest(pair, [Recorded(pair)]) == pair by { assert [Recorded(pair)][1..] == []; }
    }
  }

  /** No command of the history loses a mint. */
  predicate NothingLost(start: Stored, worlds: seq<World>) {
    worlds == []
    || (&& NothingLost(start, worlds[..|worlds| - 1])
        && var held := StoredAfter(Some(start), History(Some(start), worlds[..|worlds| - 1]));
           held.Some? && !Loses(held.value, worlds[|worlds| - 1]))
  }

  /**
   While every mint is delivered and written, the store holds the server's latest refresh
   token after every command.
   */
  lemma {:induction false} StoreHoldsTheLatest(start: Stored, worlds: seq<World>)
    requires NothingLost(start, worlds)
    ensures var log := History(Some(start), worlds);
            StoredAfter(Some(start), log) == Some(Latest(start, log))
  {
    if worlds != [] {
      hide CommandRun, Loses;
      var before, w := History(Some(start), worlds[..|worlds| - 1]), worlds[|worlds| - 1];
      StoreHoldsTheLatest(start, worlds[..|worlds| - 1]);
      var held := StoredAfter(Some(start), before).value;
      LatestIsKeptExactly(held, w);
      var events := CommandRun(Some(held), w).events;
      StoredAfterAppend(Some(start), before, events);
      LatestAppend(start, before, events);
    }
  }
}
