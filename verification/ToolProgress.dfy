/**
 The progress bridge of one turn. Progress events name tools but carry no call ids, so the
 bridge invents an id per start and pairs each finish with the latest start of that tool
 name that is still open. The pairing is compared with bracket matching on the event
 sequence, which knows nothing of stacks or ids.
 */
module ToolProgress {

  import opened Common

  /** `TurnStarted` stands for both events that mark a beginning; the bridge says nothing about them. */
  datatype Event = Started(name: string) | Finished(name: string) | Other | TurnStarted

  datatype Sent = SentStart(id: string, name: string) | SentFinish(id: string, name: string) | SentOther | SentNothing

  /** The counter and, per tool name, the ids of open starts, latest last. */
  datatype State = State(toolSeq: nat, outstanding: map<string, seq<string>>)

  const INITIAL := State(0, map[])
  const PREFIX := "acp-tool-"

  function Decimal(n: nat): (r: string)
    ensures r != []
  {
    (if n < 10 then [] else Decimal(n / 10)) + ['0' + (n % 10) as char]
  }

  function IdOf(n: nat): string {
    PREFIX + Decimal(n)
  }

  function OpenIds(s: State, name: string): seq<string> {
    if name in s.outstanding then s.outstanding[name] else []
  }

  /** What the bridge sends for an event. */
  function Output(s: State, e: Event): Sent {
    match e
    case Started(name) => SentStart(IdOf(s.toolSeq), name)
    case Finished(name) =>
      var ids := OpenIds(s, name);
      SentFinish(if ids == [] then PREFIX + name else ids[|ids| - 1], name)
    case Other => SentOther
    case TurnStarted => SentNothing
  }

  function Next(s: State, e: Event): State {
    match e
    case Started(name) =>
      State(s.toolSeq + 1, s.outstanding[name := OpenIds(s, name) + [IdOf(s.toolSeq)]])
    case Finished(name) =>
      var ids := OpenIds(s, name);
      if ids == [] then s else s.(outstanding := s.outstanding[name := ids[..|ids| - 1]])
    case _ => s
  }

  /** State after the first i events of a turn. */
  function StateAt(trace: seq<Event>, i: nat): State
    requires i <= |trace|
  {
    if i == 0 then INITIAL else Next(StateAt(trace, i - 1), trace[i - 1])
  }

  function SentAt(trace: seq<Event>, i: nat): Sent
    requires i < |trace|
  {
    Output(StateAt(trace, i), trace[i])
  }

  // ------------------------------------------------------------- the bracket reading

  /** Starts before the i-th event. */
  function Starts(trace: seq<Event>, i: nat): nat
    requires i <= |trace|
  {
    if i == 0 then 0 else Starts(trace, i - 1) + (if trace[i - 1].Started? then 1 else 0)
  }

  function Weight(e: Event, name: string): int {
    if e == Started(name) then 1 else if e == Finished(name) then -1 else 0
  }

  /** Starts minus finishes of one tool among the events after the j-th and before the k-th. */
  function Since(trace: seq<Event>, name: string, j: nat, k: nat): int
    requires k <= |trace|
  {
    if k <= j + 1 then 0 else Since(trace, name, j, k - 1) + Weight(trace[k - 1], name)
  }

  /** The start at j is still open before the i-th event: nothing since has closed it. */
  ghost predicate OpenAt(trace: seq<Event>, name: string, j: nat, i: nat)
    requires i <= |trace|
  {
    && j < i && trace[j] == Started(name)
    && forall k :: j < k <= i ==> Since(trace, name, j, k) >= 0
  }

  /** The finish at i closes the start at j: what lies between is balanced. */
  ghost predicate Matches(trace: seq<Event>, name: string, j: nat, i: nat)
    requires i < |trace|
  {
    && trace[i] == Finished(name)
    && OpenAt(trace, name, j, i)
    && Since(trace, name, j, i) == 0
  }

  /** Positions of the starts of one tool that are open before the i-th event. */
  function Open(trace: seq<Event>, name: string, i: nat): seq<nat>
    requires i <= |trace|
  {
    if i == 0 then [] else
    var before := Open(trace, name, i - 1);
    if trace[i - 1] == Started(name) then before + [i - 1]
    else if trace[i - 1] == Finished(name) && before != [] then before[..|before| - 1]
    else before
  }

  ghost predicate Nested(trace: seq<Event>, name: string, i: nat, stack: seq<nat>)
    requires i <= |trace|
  {
    forall p :: 0 <= p < |stack| ==>
      OpenAt(trace, name, stack[p], i) && Since(trace, name, stack[p], i) == |stack| - 1 - p
  }

  lemma {:induction false} OpenIsNested(trace: seq<Event>, name: string, i: nat)
    requires i <= |trace|
    ensures Nested(trace, name, i, Open(trace, name, i))
    ensures forall j: nat :: OpenAt(trace, name, j, i) ==> j in Open(trace, name, i)
  {
    if i > 0 {
      var before, stack := Open(trace, name, i - 1), Open(trace, name, i);
      OpenIsNested(trace, name, i - 1);
      forall p | 0 <= p < |stack|
        ensures OpenAt(trace, name, stack[p], i) && Since(trace, name, stack[p], i) == |stack| - 1 - p
      {
        if p < |before| {
          assert stack[p] == before[p];
        }
      }
      forall j: nat | OpenAt(trace, name, j, i)
        ensures j in stack
      {
        StaysOpen(trace, name, j, i);
      }
    }
  }

  lemma StaysOpen(trace: seq<Event>, name: string, j: nat, i: nat)
    requires 0 < i <= |trace| && OpenAt(trace, name, j, i)
    requires Nested(trace, name, i - 1, Open(trace, name, i - 1))
    requires OpenAt(trace, name, j, i - 1) ==> j in Open(trace, name, i - 1)
    ensures j in Open(trace, name, i)
  {
    var before, stack := Open(trace, name, i - 1), Open(trace, name, i);
    if j == i - 1 {
      assert stack[|stack| - 1] == j;
    } else {
      var p :| 0 <= p < |before| && before[p] == j;
      assert Since(trace, name, j, i) == |before| - 1 - p + Weight(trace[i - 1], name);
      assert stack[p] == j;
    }
  }

  /** The finish at i closes exactly the latest open start, if there is one. */
  lemma MatchIsTop(trace: seq<Event>, name: string, i: nat, j: nat)
    requires i < |trace| && trace[i] == Finished(name)
    ensures var stack := Open(trace, name, i);
      Matches(trace, name, j, i) <==> stack != [] && stack[|stack| - 1] == j
  {
    OpenIsNested(trace, name, i);
    var stack := Open(trace, name, i);
    if Matches(trace, name, j, i) {
      var p :| 0 <= p < |stack| && stack[p] == j;
      assert p == |stack| - 1;
    }
  }

  // ------------------------------------------------------ stacks of ids are open starts

  ghost function IdsOf(trace: seq<Event>, stack: seq<nat>): (r: seq<string>)
    requires forall p :: 0 <= p < |stack| ==> stack[p] < |trace|
    ensures |r| == |stack|
  {
    seq(|stack|, p requires 0 <= p < |stack| => IdOf(Starts(trace, stack[p])))
  }

  lemma {:induction false} OpenBound(trace: seq<Event>, name: string, i: nat)
    requires i <= |trace|
    ensures forall p :: 0 <= p < |Open(trace, name, i)| ==> Open(trace, name, i)[p] < i
  {
    if i > 0 {
      OpenBound(trace, name, i - 1);
    }
  }

  lemma {:induction false} CounterIsStarts(trace: seq<Event>, i: nat)
    requires i <= |trace|
    ensures StateAt(trace, i).toolSeq == Starts(trace, i)
  {
    if i > 0 {
      CounterIsStarts(trace, i - 1);
    }
  }

  lemma IdsPush(trace: seq<Event>, stack: seq<nat>, j: nat)
    requires (forall p :: 0 <= p < |stack| ==> stack[p] < |trace|) && j < |trace|
    ensures IdsOf(trace, stack + [j]) == IdsOf(trace, stack) + [IdOf(Starts(trace, j))]
  {
  }

  lemma {:induction false} StackIsOpen(trace: seq<Event>, name: string, i: nat)
    requires i <= |trace|
    ensures forall p :: 0 <= p < |Open(trace, name, i)| ==> Open(trace, name, i)[p] < |trace|
    ensures OpenIds(StateAt(trace, i), name) == IdsOf(trace, Open(trace, name, i))
  {
    OpenBound(trace, name, i);
    if i > 0 {
      var s, before := StateAt(trace, i - 1), Open(trace, name, i - 1);
      StackIsOpen(trace, name, i - 1);
      if trace[i - 1] == Started(name) {
        CounterIsStarts(trace, i - 1);
        IdsPush(trace, before, i - 1);
      } else if trace[i - 1] == Finished(name) && before != [] {
        IdsPop(trace, before);
      } else {
        OtherToolsUntouched(s, trace[i - 1], name);
      }
    }
  }

  lemma IdsPop(trace: seq<Event>, stack: seq<nat>)
    requires (forall p :: 0 <= p < |stack| ==> stack[p] < |trace|) && stack != []
    ensures IdsOf(trace, stack[..|stack| - 1]) == IdsOf(trace, stack)[..|stack| - 1]
  {
  }

  lemma OtherToolsUntouched(s: State, e: Event, name: string)
    requires e != Started(name) && (e == Finished(name) ==> OpenIds(s, name) == [])
    ensures OpenIds(Next(s, e), name) == OpenIds(s, name)
  {
  }

  /**
   Main result: a finish carries the id sent with the start it closes; with no such start
   it carries the id built from its own name.
   */
  lemma FinishPairsWithItsStart(trace: seq<Event>, i: nat)
    requires i < |trace| && trace[i].Finished?
    ensures var name := trace[i].name;
      && (forall j: nat :: Matches(trace, name, j, i) ==> SentAt(trace, i) == SentFinish(SentAt(trace, j).id, name))
      && ((forall j: nat :: !Matches(trace, name, j, i)) ==> SentAt(trace, i) == SentFinish("acp-tool-" + name, name))
  {
    var name := trace[i].name;
    forall j: nat | Matches(trace, name, j, i)
      ensures SentAt(trace, i) == SentFinish(SentAt(trace, j).id, name)
    {
      PairedFinish(trace, j, i);
    }
    StackIsOpen(trace, name, i);
    UnmatchedIsEmpty(trace, i);
  }

  lemma PairedFinish(trace: seq<Event>, j: nat, i: nat)
    requires i < |trace| && trace[i].Finished? && Matches(trace, trace[i].name, j, i)
    ensures SentAt(trace, i) == SentFinish(SentAt(trace, j).id, trace[i].name)
  {
    var name := trace[i].name;
    var stack := Open(trace, name, i);
    StackIsOpen(trace, name, i);
    MatchIsTop(trace, name, i, j);
    CounterIsStarts(trace, j);
    PoppedId(trace, i, IdsOf(trace, stack), IdOf(Starts(trace, j)));
  }

  lemma PoppedId(trace: seq<Event>, i: nat, ids: seq<string>, id: string)
    requires i < |trace| && trace[i].Finished? && OpenIds(StateAt(trace, i), trace[i].name) == ids
    requires ids != [] && ids[|ids| - 1] == id
    ensures SentAt(trace, i) == SentFinish(id, trace[i].name)
  {
  }

  lemma UnmatchedIsEmpty(trace: seq<Event>, i: nat)
    requires i < |trace| && trace[i].Finished?
    ensures (forall j: nat :: !Matches(trace, trace[i].name, j, i)) ==> Open(trace, trace[i].name, i) == []
  {
    var stack := Open(trace, trace[i].name, i);
    if stack != [] {
      MatchIsTop(trace, trace[i].name, i, stack[|stack| - 1]);
    }
  }

  // ------------------------------------------------------------------- the text of an id

  /** The decimal numeral of a number, without leading zeros. */
  ghost predicate NumeralOf(n: nat, s: string) {
    s != "" && AllDigits(s) && Spelled(s) == n && (|s| > 1 ==> s[0] != '0')
  }

  lemma {:induction false} DecimalSpells(n: nat)
    ensures NumeralOf(n, Decimal(n)) && (n > 0 ==> Decimal(n)[0] != '0')
  {
    var front := if n < 10 then "" else Decimal(n / 10);
    if n >= 10 {
      DecimalSpells(n / 10);
    }
    assert Decimal(n) == front + ['0' + (n % 10) as char];
    DigitAppended(front, n % 10);
  }

  lemma DigitAppended(front: string, digit: nat)
    requires AllDigits(front) && digit < 10
    ensures var s := front + ['0' + digit as char];
      AllDigits(s) && Spelled(s) == 10 * Spelled(front) + digit
  {
    var s := front + ['0' + digit as char];
    assert s[..|s| - 1] == front;
  }

  /** A start's id numbers the starts of the turn from 0. */
  lemma StartIdIs(trace: seq<Event>, i: nat)
    requires i < |trace| && trace[i].Started?
    ensures exists s :: NumeralOf(Starts(trace, i), s) && SentAt(trace, i) == SentStart("acp-tool-" + s, trace[i].name)
  {
    CounterIsStarts(trace, i);
    DecimalSpells(Starts(trace, i));
  }

  // ------------------------------------------------------------- ids over a whole turn

  lemma {:induction false} DecimalInjective(a: nat, b: nat)
    requires Decimal(a) == Decimal(b)
    ensures a == b
  {
    var x, y := Decimal(a), Decimal(b);
    assert x[|x| - 1] == '0' + (a % 10) as char && y[|y| - 1] == '0' + (b % 10) as char;
    assert a % 10 == b % 10;
    assert x[..|x| - 1] == if a < 10 then [] else Decimal(a / 10);
    assert y[..|y| - 1] == if b < 10 then [] else Decimal(b / 10);
    if a >= 10 && b >= 10 {
      DecimalInjective(a / 10, b / 10);
    }
  }

  lemma PrefixInjective(x: string, y: string)
    requires PREFIX + x == PREFIX + y
    ensures x == y
  {
    assert (PREFIX + x)[|PREFIX|..] == x && (PREFIX + y)[|PREFIX|..] == y;
  }

  lemma IdInjective(a: nat, b: nat)
    requires IdOf(a) == IdOf(b)
    ensures a == b
  {
    PrefixInjective(Decimal(a), Decimal(b));
    DecimalInjective(a, b);
  }

  lemma {:induction false} StartsAscend(trace: seq<Event>, i: nat, j: nat)
    requires i <= j <= |trace|
    ensures Starts(trace, i) <= Starts(trace, j)
    ensures i < j && trace[i].Started? ==> Starts(trace, i) < Starts(trace, j)
  {
    if i < j {
      StartsAscend(trace, i, j - 1);
    }
  }

  /** Every start of a turn gets an id of its own. */
  lemma StartedIdsDistinct(trace: seq<Event>, i: nat, j: nat)
    requires i < j < |trace| && trace[i].Started? && trace[j].Started?
    ensures SentAt(trace, i).id != SentAt(trace, j).id
  {
    CounterIsStarts(trace, i);
    CounterIsStarts(trace, j);
    StartsAscend(trace, i, j);
    if IdOf(Starts(trace, i)) == IdOf(Starts(trace, j)) {
      IdInjective(Starts(trace, i), Starts(trace, j));
    }
  }

  ghost predicate IsNumeral(name: string) {
    exists n: nat :: Decimal(n) == name
  }

  /** No id sent with a start is sent with two finishes. */
  ghost predicate FinishesOnce(trace: seq<Event>) {
    forall s: nat, i: nat, j: nat ::
      s < |trace| && i < j < |trace| && trace[s].Started? && trace[i].Finished? && trace[j].Finished? ==>
        !(SentAt(trace, i).id == SentAt(trace, s).id && SentAt(trace, j).id == SentAt(trace, s).id)
  }

  ghost predicate Named(trace: seq<Event>, names: iset<string>) {
    forall i :: 0 <= i < |trace| && (trace[i].Started? || trace[i].Finished?) ==> trace[i].name in names
  }

  /** A finish that carries a start's id closes that start, unless its own name is a numeral. */
  lemma CarriedIdMeansMatch(trace: seq<Event>, s: nat, i: nat)
    requires s < |trace| && i < |trace| && trace[s].Started? && trace[i].Finished?
    requires SentAt(trace, i).id == SentAt(trace, s).id && !IsNumeral(trace[i].name)
    ensures Matches(trace, trace[i].name, s, i)
  {
    var name := trace[i].name;
    CounterIsStarts(trace, s);
    FinishPairsWithItsStart(trace, i);
    if j: nat :| Matches(trace, name, j, i) {
      if j < s {
        StartedIdsDistinct(trace, j, s);
      } else if s < j {
        StartedIdsDistinct(trace, s, j);
      }
    } else {
      PrefixInjective(name, Decimal(Starts(trace, s)));
    }
  }

  /** A start is closed once: after its finish it is no longer open. */
  lemma MatchedOnce(trace: seq<Event>, name: string, s: nat, i: nat, j: nat)
    requires i < j < |trace| && Matches(trace, name, s, i)
    ensures !OpenAt(trace, name, s, j)
  {
    assert Since(trace, name, s, i + 1) == -1;
  }

  /** A finish of the tool called n, then n + 1 starts of it, then a finish. */
  ghost predicate Colliding(trace: seq<Event>, n: nat) {
    && |trace| == n + 3
    && trace[0] == Finished(Decimal(n)) && trace[n + 2] == Finished(Decimal(n))
    && forall k :: 1 <= k <= n + 1 ==> trace[k] == Started(Decimal(n))
  }

  lemma NumeralNameCollides(trace: seq<Event>, n: nat)
    requires Colliding(trace, n)
    ensures !FinishesOnce(trace)
  {
    var name := Decimal(n);
    var s, j := n + 1, n + 2;
    StartsOfRun(trace, name, n, s);
    CounterIsStarts(trace, s);
    assert Since(trace, name, s, j) == 0;
    PairedFinish(trace, s, j);
    assert SentAt(trace, 0) == SentFinish(PREFIX + name, name);
    assert SentAt(trace, s).id == IdOf(n) && SentAt(trace, j).id == IdOf(n);
  }

  lemma {:induction false} StartsOfRun(trace: seq<Event>, name: string, n: nat, i: nat)
    requires 1 <= i <= n + 1 < |trace| && trace[0] == Finished(name)
    requires forall k :: 1 <= k <= n + 1 ==> trace[k] == Started(name)
    ensures Starts(trace, i) == i - 1
  {
    if i > 1 {
      StartsOfRun(trace, name, n, i - 1);
    }
  }

  /**
   No started call finishes twice, over every event sequence on a set of tool names, exactly
   when none of the names is a decimal numeral, which the fallback id would make a call id.
   */
  lemma FinishesOnceIff(names: iset<string>)
    ensures (forall trace :: Named(trace, names) ==> FinishesOnce(trace)) <==>
      (forall name :: name in names ==> !IsNumeral(name))
  {
    if forall name :: name in names ==> !IsNumeral(name) {
      forall trace | Named(trace, names)
        ensures FinishesOnce(trace)
      {
        NoNumeralsFinishOnce(trace, names);
      }
    }
    if forall trace :: Named(trace, names) ==> FinishesOnce(trace) {
      forall name | name in names
        ensures !IsNumeral(name)
      {
        if n: nat :| Decimal(n) == name {
          var trace := [Finished(name)] + seq(n + 1, k => Started(name)) + [Finished(name)];
          NumeralNameCollides(trace, n);
        }
      }
    }
  }

  lemma NoNumeralsFinishOnce(trace: seq<Event>, names: iset<string>)
    requires Named(trace, names) && forall name :: name in names ==> !IsNumeral(name)
    ensures FinishesOnce(trace)
  {
    forall s: nat, i: nat, j: nat
      | s < |trace| && i < j < |trace| && trace[s].Started? && trace[i].Finished? && trace[j].Finished?
        && SentAt(trace, i).id == SentAt(trace, s).id
      ensures SentAt(trace, j).id != SentAt(trace, s).id
    {
      CarriedIdMeansMatch(trace, s, i);
      MatchedOnce(trace, trace[i].name, s, i, j);
      if SentAt(trace, j).id == SentAt(trace, s).id {
        CarriedIdMeansMatch(trace, s, j);
      }
    }
  }

  // ------------------------------------------------------------------ the program's form

  /** The messages sent for the first i events: at most one each. */
  function Messages(trace: seq<Event>, i: nat): seq<Sent>
    requires i <= |trace|
  {
    if i == 0 then [] else Messages(trace, i - 1) + Spoken(SentAt(trace, i - 1))
  }

  function Spoken(sent: Sent): seq<Sent> {
    if sent.SentNothing? then [] else [sent]
  }

  /** The message of an event comes after those of all events before it that have one. */
  lemma {:induction false} MessagesAt(trace: seq<Event>, i: nat, k: nat)
    requires k < i <= |trace| && !trace[k].TurnStarted?
    ensures |Messages(trace, k)| < |Messages(trace, i)|
    ensures Messages(trace, i)[|Messages(trace, k)|] == SentAt(trace, k)
  {
    if k < i - 1 {
      MessagesAt(trace, i - 1, k);
    }
  }

  lemma {:induction false} PrefixStable(trace: seq<Event>, e: Event, i: nat)
    requires i <= |trace|
    ensures StateAt(trace + [e], i) == StateAt(trace, i)
    ensures Messages(trace + [e], i) == Messages(trace, i)
  {
    if i > 0 {
      PrefixStable(trace, e, i - 1);
      assert (trace + [e])[i - 1] == trace[i - 1];
    }
  }

  lemma OneMore(trace: seq<Event>, e: Event)
    ensures var n, s := |trace|, StateAt(trace, |trace|);
      && StateAt(trace + [e], n + 1) == Next(s, e)
      && Messages(trace + [e], n + 1) == Messages(trace, n) + Spoken(Output(s, e))
  {
    PrefixStable(trace, e, |trace|);
    assert (trace + [e])[|trace|] == e;
  }

  /** The bridge of one turn; `sent` is what its sink has received. */
  class ProgressPort {
    const hasSink: bool
    var toolSeq: nat
    var outstanding: map<string, seq<string>>
    var sent: seq<Sent>
    ghost var trace: seq<Event>

    ghost predicate Valid()
      reads this
    {
      if hasSink then
        && StateAt(trace, |trace|) == State(toolSeq, outstanding)
        && Messages(trace, |trace|) == sent
      else sent == []
    }

    constructor (hasSink: bool)
      ensures Valid() && this.hasSink == hasSink && trace == []
    {
      this.hasSink := hasSink;
      toolSeq, outstanding, sent, trace := 0, map[], [], [];
    }

    method Emit(e: Event)
      requires Valid()
      modifies this
      ensures Valid() && trace == old(trace) + [e]
      ensures !hasSink ==> sent == []
    {
      if hasSink {
        OneMore(trace, e);
      }
      trace := trace + [e];
      if !hasSink {
        return;
      }
      match e {
        case Started(name) =>
          var id := StartTool(name);
          sent := sent + [SentStart(id, name)];
        case Finished(name) =>
          var paired := FinishTool(name);
          sent := sent + [SentFinish(paired, name)];
        case Other =>
          sent := sent + [SentOther];
        case TurnStarted =>
      }
    }

    method StartTool(name: string) returns (id: string)
      modifies this`toolSeq, this`outstanding
      ensures State(toolSeq, outstanding) == Next(old(State(toolSeq, outstanding)), Started(name))
      ensures SentStart(id, name) == Output(old(State(toolSeq, outstanding)), Started(name))
    {
      id := IdOf(toolSeq);
      toolSeq := toolSeq + 1;
      var open := if name in outstanding then outstanding[name] else [];
      outstanding := outstanding[name := open + [id]];
    }

    method FinishTool(name: string) returns (paired: string)
      modifies this`outstanding
      ensures State(toolSeq, outstanding) == Next(old(State(toolSeq, outstanding)), Finished(name))
      ensures SentFinish(paired, name) == Output(old(State(toolSeq, outstanding)), Finished(name))
    {
      paired := PREFIX + name;
      if name in outstanding && outstanding[name] != [] {
        var open := outstanding[name];
        paired := open[|open| - 1];
        outstanding := outstanding[name := open[..|open| - 1]];
      }
    }
  }
}
