/**
 Cancellation of concurrent turns. A session may run several turns at once; the engine
 keeps, per session, the list of their cancellation tokens, and every access happens under
 one lock. Turns of all sessions interleave freely.

 The steps below are the critical sections. What a run of them leaves in the registry is
 described from the trace alone: which turns began, which ended, and what was cancelled
 in between.
 */
module TurnRegistry {

  /** A token stands for the identity of one cancellation object. */
  type Token = nat

  datatype Step =
    | Begin(session: string, token: Token)
    | Finish(token: Token)
    | Cancel(session: string)
    | Shutdown

  /** `lists` is the registry; `owner` and `live` record the turns it stands for. */
  datatype State =
    State(lists: map<string, seq<Token>>, owner: map<Token, string>, live: set<Token>, cancelled: set<Token>)

  function Initial(): State {
    State(map[], map[], {}, {})
  }

  /** `entry(session).or_default()` */
  function Entries(lists: map<string, seq<Token>>, session: string): seq<Token> {
    if session in lists then lists[session] else []
  }

  /** `retain(|entry| !ptr_eq(entry, token))` */
  function Without(tokens: seq<Token>, token: Token): (r: seq<Token>)
    ensures forall t :: t in r <==> t in tokens && t != token
  {
    if tokens == [] then []
    else (if tokens[0] == token then [] else [tokens[0]]) + Without(tokens[1..], token)
  }

  lemma {:induction false} WithoutKeepsDistinct(tokens: seq<Token>, token: Token)
    requires NoDuplicates(tokens)
    ensures NoDuplicates(Without(tokens, token))
  {
    if tokens != [] {
      WithoutKeepsDistinct(tokens[1..], token);
      assert tokens[0] !in tokens[1..];
    }
  }

  ghost predicate NoDuplicates(tokens: seq<Token>) {
    forall i, j :: 0 <= i < j < |tokens| ==> tokens[i] != tokens[j]
  }

  ghost function AllEntries(lists: map<string, seq<Token>>): set<Token> {
    set session, t | session in lists && t in lists[session] :: t
  }

  ghost predicate Enabled(s: State, step: Step) {
    match step
    case Begin(_, token) => token !in s.owner
    case Finish(token) => token in s.live && token in s.owner
    case _ => true
  }

  ghost function Apply(s: State, step: Step): State
    requires Enabled(s, step)
  {
    match step
    case Begin(session, token) =>
      State(s.lists[session := Entries(s.lists, session) + [token]], s.owner[token := session],
            s.live + {token}, s.cancelled)
    case Finish(token) =>
      var session := s.owner[token];
      s.(lists := s.lists[session := Without(Entries(s.lists, session), token)], live := s.live - {token})
    case Cancel(session) =>
      s.(cancelled := s.cancelled + set t | t in Entries(s.lists, session))
    case Shutdown =>
      s.(cancelled := s.cancelled + AllEntries(s.lists))
  }

  ghost predicate Allowed(steps: seq<Step>)
    decreases |steps|, 0
  {
    steps == [] ||
    var before := steps[..|steps| - 1];
    Allowed(before) && Enabled(After(before), steps[|steps| - 1])
  }

  /** The state after a run, every interleaving being some sequence of steps. */
  ghost function After(steps: seq<Step>): State
    requires Allowed(steps)
    decreases |steps|, 1
  {
    if steps == [] then Initial() else Apply(After(steps[..|steps| - 1]), steps[|steps| - 1])
  }

  // -------------------------------------------------------- what the trace alone says

  ghost predicate InFlight(steps: seq<Step>, session: string, token: Token) {
    Begin(session, token) in steps && Finish(token) !in steps
  }

  /** The i-th step asks the turn of this token to stop. */
  ghost predicate Interrupts(steps: seq<Step>, i: int, token: Token) {
    && 0 <= i < |steps|
    && exists session ::
         && (steps[i] == Cancel(session) || steps[i] == Shutdown)
         && InFlight(steps[..i], session, token)
  }

  ghost predicate RegistryExact(s: State, steps: seq<Step>) {
    && (forall session, t :: t in Entries(s.lists, session) <==> InFlight(steps, session, t))
    && (forall session :: NoDuplicates(Entries(s.lists, session)))
    && (forall t :: t in s.live <==> t in s.owner && Finish(t) !in steps)
    && (forall session, t :: Begin(session, t) in steps <==> t in s.owner && s.owner[t] == session)
    && (forall t :: Finish(t) in steps ==> t in s.owner)
  }

  ghost predicate CancelledExact(s: State, steps: seq<Step>) {
    forall t :: t in s.cancelled <==> exists i :: Interrupts(steps, i, t)
  }

  lemma InAppended<A>(xs: seq<A>, last: A)
    ensures forall x :: x in xs + [last] <==> x in xs || x == last
  {
  }

  lemma StepKeepsRegistry(s: State, steps: seq<Step>, step: Step)
    requires RegistryExact(s, steps) && Enabled(s, step)
    ensures RegistryExact(Apply(s, step), steps + [step])
  {
    InAppended(steps, step);
    var after := steps + [step];
    var s' := Apply(s, step);
    match step
    case Begin(session, token) =>
      var list := Entries(s.lists, session);
      assert token !in list by { assert !InFlight(steps, session, token); }
      forall other
        ensures NoDuplicates(Entries(s'.lists, other))
      {
        assert NoDuplicates(Entries(s.lists, other)) && NoDuplicates(list + [token]);
      }
      forall other, t
        ensures t in Entries(s'.lists, other) <==> InFlight(after, other, t)
      {
        assert t in Entries(s.lists, other) <==> InFlight(steps, other, t);
      }
    case Finish(token) =>
      forall other
        ensures NoDuplicates(Entries(s'.lists, other))
      {
        assert NoDuplicates(Entries(s.lists, other));
        assert NoDuplicates(Entries(s.lists, s.owner[token]));
        WithoutKeepsDistinct(Entries(s.lists, s.owner[token]), token);
      }
      forall other, t
        ensures t in Entries(s'.lists, other) <==> InFlight(after, other, t)
      {
        assert t in Entries(s.lists, other) <==> InFlight(steps, other, t);
      }
    case _ =>
      forall other, t
        ensures InFlight(after, other, t) <==> InFlight(steps, other, t)
      {
      }
  }

  lemma InterruptsAppended(steps: seq<Step>, step: Step, token: Token)
    ensures (exists i :: Interrupts(steps + [step], i, token)) <==>
      (exists i :: Interrupts(steps, i, token)) || Interrupts(steps + [step], |steps|, token)
  {
    var after := steps + [step];
    forall i | 0 <= i < |steps|
      ensures Interrupts(after, i, token) <==> Interrupts(steps, i, token)
    {
      assert after[..i] == steps[..i] && after[i] == steps[i];
    }
  }

  lemma StepKeepsCancelled(s: State, steps: seq<Step>, step: Step)
    requires RegistryExact(s, steps) && CancelledExact(s, steps) && Enabled(s, step)
    ensures CancelledExact(Apply(s, step), steps + [step])
  {
    var s' := Apply(s, step);
    var after := steps + [step];
    assert after[..|steps|] == steps;
    forall t
      ensures t in s'.cancelled <==> exists i :: Interrupts(after, i, t)
    {
      InterruptsAppended(steps, step, t);
      match step
      case Cancel(session) =>
        assert t in Entries(s.lists, session) <==> InFlight(steps, session, t);
      case Shutdown =>
        if t in AllEntries(s.lists) {
          var session :| session in s.lists && t in s.lists[session];
          assert t in Entries(s.lists, session) && InFlight(steps, session, t);
        }
        if session :| InFlight(steps, session, t) {
          assert t in Entries(s.lists, session);
        }
      case _ =>
    }
  }

  /**
   Main result. After every interleaving the list of a session holds exactly the tokens of
   its turns in flight, each once, and a token has been cancelled exactly when some cancel
   of its own session, or a shutdown, fell between the begin and the end of its turn.
   */
  lemma {:induction false} EveryRunExact(steps: seq<Step>)
    requires Allowed(steps)
    ensures RegistryExact(After(steps), steps)
    ensures CancelledExact(After(steps), steps)
  {
    if steps != [] {
      var before, last := steps[..|steps| - 1], steps[|steps| - 1];
      assert steps == before + [last];
      EveryRunExact(before);
      StepKeepsRegistry(After(before), before, last);
      StepKeepsCancelled(After(before), before, last);
    }
  }

  /** Ending one turn leaves the tokens of every other turn where they were. */
  lemma FinishRemovesOwnToken(steps: seq<Step>, token: Token, other: Token, session: string)
    requires Allowed(steps + [Finish(token)]) && Allowed(steps) && other != token
    ensures other in Entries(After(steps + [Finish(token)]).lists, session)
      <==> other in Entries(After(steps).lists, session)
    ensures token !in Entries(After(steps + [Finish(token)]).lists, session)
  {
    EveryRunExact(steps);
    EveryRunExact(steps + [Finish(token)]);
    InAppended(steps, Finish(token));
    assert other in Entries(After(steps).lists, session) <==> InFlight(steps, session, other);
  }

  // ------------------------------------------------------------------ the program's form

  class RuntimeCancellation {
    ghost const id: Token
    var cancelled: bool

    constructor (ghost id: Token)
      ensures this.id == id && !cancelled
    {
      this.id := id;
      cancelled := false;
    }
  }

  ghost function Ids(entries: seq<RuntimeCancellation>): (r: seq<Token>)
    ensures |r| == |entries| && forall i :: 0 <= i < |r| ==> r[i] == entries[i].id
  {
    seq(|entries|, i requires 0 <= i < |entries| => entries[i].id)
  }

  /** The engine's map of lists. Each method body runs under the mutex. */
  class Registry {
    var cancellations: map<string, seq<RuntimeCancellation>>
    ghost var tokens: seq<RuntimeCancellation>
    ghost var history: seq<Step>

    ghost predicate Shape()
      reads this
    {
      && (forall i :: 0 <= i < |tokens| ==> tokens[i].id == i)
      && Allowed(history)
      && (forall t :: t in After(history).owner ==> t < |tokens|)
      && cancellations.Keys == After(history).lists.Keys
      && (forall s :: s in cancellations ==> Ids(cancellations[s]) == After(history).lists[s])
      && (forall s, e :: s in cancellations && e in cancellations[s] ==> e in tokens)
    }

    ghost predicate Valid()
      reads this, tokens
    {
      && Shape()
      && forall i :: 0 <= i < |tokens| ==> (tokens[i].cancelled <==> i in After(history).cancelled)
    }

    constructor ()
      ensures Valid() && history == []
    {
      cancellations, tokens, history := map[], [], [];
    }

    /** A turn starts: a new token joins the list of its session. */
    method BeginTurn(session: string) returns (token: RuntimeCancellation)
      requires Valid()
      modifies this
      ensures Valid() && fresh(token)
      ensures tokens == old(tokens) + [token] && history == old(history) + [Begin(session, token.id)]
    {
      token := new RuntimeCancellation(|tokens|);
      var entries := if session in cancellations then cancellations[session] else [];
      assert Ids(entries) == Entries(After(history).lists, session);
      IdsMore(entries, token);
      BeginStep(history, session, token.id);
      cancellations := cancellations[session := entries + [token]];
      tokens := tokens + [token];
      history := history + [Begin(session, token.id)];
    }

    /** A turn ends: its own token, found by identity, leaves the list. */
    method FinishTurn(session: string, token: RuntimeCancellation)
      requires Valid() && token in tokens
      requires InFlight(history, session, token.id)
      modifies this
      ensures Valid()
      ensures tokens == old(tokens) && history == old(history) + [Finish(token.id)]
    {
      FinishStep(history, session, token.id);
      var entries := if session in cancellations then cancellations[session] else [];
      Recognised(tokens, entries, token);
      var kept := Retain(entries, token);
      cancellations := cancellations[session := kept];
      history := history + [Finish(token.id)];
    }

    /** `session/cancel`: every turn of the session is told to stop, not only the latest. */
    method CancelTurns(session: string) returns (any: bool)
      requires Valid()
      modifies this, tokens
      ensures Valid()
      ensures tokens == old(tokens) && history == old(history) + [Cancel(session)]
      ensures any <==> exists t :: InFlight(old(history), session, t)
    {
      CancelStep(history, session);
      var entries := if session in cancellations then cancellations[session] else [];
      assert Ids(entries) == Entries(After(history).lists, session);
      IdsMember(tokens, entries);
      CancelEach(entries);
      history := history + [Cancel(session)];
      any := entries != [];
    }

    /** Host shutdown: every token of every session is cancelled. */
    method ShutdownAll()
      requires Valid()
      modifies this, tokens
      ensures Valid()
      ensures tokens == old(tokens) && history == old(history) + [Shutdown]
    {
      ShutdownStep(history);
      var pending := cancellations.Keys;
      ghost var done: set<string> := {};
      while pending != {}
        invariant Shape() && unchanged(this)
        invariant done + pending == cancellations.Keys
        invariant forall e :: e in tokens ==>
          (e.cancelled <==> old(e.cancelled) || exists s :: s in done && e in cancellations[s])
        decreases |pending|
      {
        var session :| session in pending;
        CancelEach(cancellations[session]);
        pending := pending - {session};
        done := done + {session};
      }
      forall i | 0 <= i < |tokens|
        ensures i in AllEntries(After(history).lists) <==> exists s :: s in cancellations && tokens[i] in cancellations[s]
      {
        forall s | s in cancellations
          ensures tokens[i] in cancellations[s] <==> i in After(history).lists[s]
        {
          IdsMember(tokens, cancellations[s]);
        }
      }
      history := history + [Shutdown];
    }

    method CancelEach(entries: seq<RuntimeCancellation>)
      requires forall e :: e in entries ==> e in tokens
      modifies tokens
      ensures forall e :: e in tokens ==> (e.cancelled <==> old(e.cancelled) || e in entries)
    {
      for i := 0 to |entries|
        invariant forall e :: e in tokens ==> (e.cancelled <==> old(e.cancelled) || e in entries[..i])
      {
        assert entries[i] in entries;
        entries[i].cancelled := true;
        assert entries[..i + 1] == entries[..i] + [entries[i]];
      }
      assert entries[..|entries|] == entries;
    }
  }

  lemma Recognised(tokens: seq<RuntimeCancellation>, entries: seq<RuntimeCancellation>, token: RuntimeCancellation)
    requires forall i :: 0 <= i < |tokens| ==> tokens[i].id == i
    requires token in tokens && forall e :: e in entries ==> e in tokens
    ensures forall i :: 0 <= i < |entries| ==> (entries[i] == token <==> entries[i].id == token.id)
  {
    forall i | 0 <= i < |entries|
      ensures entries[i] == token <==> entries[i].id == token.id
    {
      assert entries[i] in tokens;
      assert entries[i] == tokens[entries[i].id] && token == tokens[token.id];
    }
  }

  lemma IdsMember(tokens: seq<RuntimeCancellation>, entries: seq<RuntimeCancellation>)
    requires forall i :: 0 <= i < |tokens| ==> tokens[i].id == i
    requires forall e :: e in entries ==> e in tokens
    ensures forall i :: 0 <= i < |tokens| ==> (i in Ids(entries) <==> tokens[i] in entries)
    ensures entries != [] ==> entries[0].id in Ids(entries)
  {
    if entries != [] {
      assert Ids(entries)[0] == entries[0].id;
    }
    forall i | 0 <= i < |tokens|
      ensures i in Ids(entries) <==> tokens[i] in entries
    {
      if i in Ids(entries) {
        var k :| 0 <= k < |entries| && Ids(entries)[k] == i;
        assert entries[k] in tokens;
      }
      if tokens[i] in entries {
        var k :| 0 <= k < |entries| && entries[k] == tokens[i];
        assert Ids(entries)[k] == i;
      }
    }
  }

  lemma IdsMore(entries: seq<RuntimeCancellation>, entry: RuntimeCancellation)
    ensures Ids(entries + [entry]) == Ids(entries) + [entry.id]
  {
  }

  /** `retain` with the test for identity, on entries that their ids tell apart. */
  method Retain(entries: seq<RuntimeCancellation>, token: RuntimeCancellation) returns (kept: seq<RuntimeCancellation>)
    requires forall i :: 0 <= i < |entries| ==> (entries[i] == token <==> entries[i].id == token.id)
    ensures Ids(kept) == Without(Ids(entries), token.id)
    ensures forall e :: e in kept ==> e in entries
  {
    kept := [];
    ghost var ids := Ids(entries);
    KeptNone(ids, token.id);
    for i := 0 to |entries|
      invariant Kept(ids, i, Ids(kept), token.id)
      invariant forall e :: e in kept ==> e in entries
    {
      KeptMore(ids, i, Ids(kept), token.id);
      if entries[i] != token {
        IdsMore(kept, entries[i]);
        kept := kept + [entries[i]];
      }
    }
    KeptAll(ids, Ids(kept), token.id);
  }

  ghost predicate Kept(ids: seq<Token>, i: nat, kept: seq<Token>, token: Token) {
    i <= |ids| && Without(ids, token) == kept + Without(ids[i..], token)
  }

  lemma KeptNone(ids: seq<Token>, token: Token)
    ensures Kept(ids, 0, [], token)
  {
    assert ids[0..] == ids;
  }

  lemma KeptMore(ids: seq<Token>, i: nat, kept: seq<Token>, token: Token)
    requires i < |ids| && Kept(ids, i, kept, token)
    ensures Kept(ids, i + 1, if ids[i] == token then kept else kept + [ids[i]], token)
  {
    assert ids[i..][1..] == ids[i + 1..];
  }

  lemma KeptAll(ids: seq<Token>, kept: seq<Token>, token: Token)
    requires Kept(ids, |ids|, kept, token)
    ensures kept == Without(ids, token)
  {
  }

  lemma BeginStep(steps: seq<Step>, session: string, token: Token)
    requires Allowed(steps) && token !in After(steps).owner
    ensures Allowed(steps + [Begin(session, token)])
    ensures After(steps + [Begin(session, token)]) == Apply(After(steps), Begin(session, token))
    ensures token !in After(steps).cancelled
  {
    CancelledWereOwned(steps);
    assert (steps + [Begin(session, token)])[..|steps|] == steps;
  }

  lemma FinishStep(steps: seq<Step>, session: string, token: Token)
    requires Allowed(steps) && InFlight(steps, session, token)
    ensures Enabled(After(steps), Finish(token)) && After(steps).owner[token] == session
    ensures Allowed(steps + [Finish(token)])
    ensures After(steps + [Finish(token)]) == Apply(After(steps), Finish(token))
  {
    EveryRunExact(steps);
    assert (steps + [Finish(token)])[..|steps|] == steps;
  }

  lemma ShutdownStep(steps: seq<Step>)
    requires Allowed(steps)
    ensures Allowed(steps + [Shutdown])
    ensures After(steps + [Shutdown]) == Apply(After(steps), Shutdown)
  {
    assert (steps + [Shutdown])[..|steps|] == steps;
  }

  lemma CancelStep(steps: seq<Step>, session: string)
    requires Allowed(steps)
    ensures Allowed(steps + [Cancel(session)])
    ensures var s, s' := After(steps), After(steps + [Cancel(session)]);
      && s'.lists == s.lists && s'.owner == s.owner
      && (forall t :: t in s'.cancelled <==> t in s.cancelled || t in Entries(s.lists, session))
      && (forall t :: t in Entries(s.lists, session) <==> InFlight(steps, session, t))
  {
    EveryRunExact(steps);
    assert (steps + [Cancel(session)])[..|steps|] == steps;
  }

  lemma CancelledWereOwned(steps: seq<Step>)
    requires Allowed(steps)
    ensures After(steps).cancelled <= After(steps).owner.Keys
  {
    EveryRunExact(steps);
    var s := After(steps);
    forall t | t in s.cancelled
      ensures t in s.owner
    {
      var i :| Interrupts(steps, i, t);
      var session :| InFlight(steps[..i], session, t);
      assert steps == steps[..i] + steps[i..];
    }
  }
}
