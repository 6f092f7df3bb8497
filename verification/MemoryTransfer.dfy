/**
 Promoting and demoting a memory between the project store and the global store: find it,
 copy its text, verify the copy, delete the original. Any store operation can fail, with or
 without having taken effect.

 A store is the sequence of its records in the order it lists them. The transfer copies the
 text of a record, so a record is its identifier and its text.
 */
module MemoryTransfer {

  import opened Common

  datatype Record = Record(id: string, data: string)

  type Records = seq<Record>

  const LISTING_LIMIT := 10_000

  /** Identifiers are the primary key of a store. */
  ghost predicate Distinct(s: Records) {
    forall i, j :: 0 <= i < j < |s| ==> s[i].id != s[j].id
  }

  /** The outcome of one store operation: writing the history row can fail after the change. */
  datatype Fault = Works | FailsBefore | FailsAfter

  /** Everything the stores decide: failures, the new identifier, and where the copy is listed. */
  datatype Oracle = Oracle(find: bool, add: Fault, newId: string, at: nat, verify: bool, delete: Fault)

  // ------------------------------------------------------------------- the operations

  function Listing(s: Records): Records {
    if |s| <= LISTING_LIMIT then s else s[..LISTING_LIMIT]
  }

  /** The store after an insertion, and whether the operation reported success. */
  function Added(s: Records, data: string, o: Oracle): (Records, bool) {
    if o.add.FailsBefore? || (exists r | r in s :: r.id == o.newId) then (s, false)
    else
      var at := if o.at < |s| then o.at else |s|;
      (s[..at] + [Record(o.newId, data)] + s[at..], o.add.Works?)
  }

  function Without(s: Records, id: string): (r: Records)
    ensures forall x :: x in r <==> x in s && x.id != id
  {
    if s == [] then []
    else (if s[0].id == id then [] else [s[0]]) + Without(s[1..], id)
  }

  /** The store after a deletion, which is an error when nothing has that identifier. */
  function Deleted(s: Records, id: string, fault: Fault): (Records, bool) {
    if fault.FailsBefore? || (forall r | r in s :: r.id != id) then (s, false)
    else (Without(s, id), fault.Works?)
  }

  datatype Match = NoMatch | Ambiguous | Unique(record: Record)

  function WithPrefix(s: Records, prefix: string): (r: Records)
    ensures forall x :: x in r <==> x in s && StartsWith(x.id, prefix)
  {
    if s == [] then []
    else (if StartsWith(s[0].id, prefix) then [s[0]] else []) + WithPrefix(s[1..], prefix)
  }

  function FirstWithId(s: Records, id: string): (r: Option<Record>)
    ensures r.None? <==> forall x :: x in s ==> x.id != id
    ensures r.Some? ==> r.value in s && r.value.id == id
  {
    if s == [] then None else if s[0].id == id then Some(s[0]) else FirstWithId(s[1..], id)
  }

  function FirstWithData(s: Records, data: string): (r: Option<Record>)
    ensures r.None? <==> forall x :: x in s ==> x.data != data
    ensures r.Some? ==> r.value in s && r.value.data == data
  {
    if s == [] then None else if s[0].data == data then Some(s[0]) else FirstWithData(s[1..], data)
  }

  /** `find_scoped_memory`: an exact identifier first, then a prefix if only one record has it. */
  function Resolve(s: Records, id: string): Match {
    var exact, matches := FirstWithId(Listing(s), id), WithPrefix(Listing(s), id);
    if exact.Some? then Unique(exact.value)
    else if |matches| == 0 then NoMatch
    else if |matches| == 1 then Unique(matches[0])
    else Ambiguous
  }

  lemma {:induction false} DistinctPrefixes(s: Records, prefix: string)
    requires Distinct(s)
    ensures Distinct(WithPrefix(s, prefix))
  {
    if s != [] {
      DistinctPrefixes(s[1..], prefix);
    }
  }

  lemma SameIdSame(s: Records, x: Record, y: Record)
    requires Distinct(s) && x in s && y in s && x.id == y.id
    ensures x == y
  {
    var i :| 0 <= i < |s| && s[i] == x;
    var j :| 0 <= j < |s| && s[j] == y;
  }

  ghost predicate OnlyMatch(s: Records, id: string, r: Record) {
    r in s && StartsWith(r.id, id) && (r.id == id || forall x :: x in s && StartsWith(x.id, id) ==> x == r)
  }

  /** A lookup finds a record exactly when its identifier is given in full or by a prefix of its own. */
  lemma ResolvesIff(s: Records, id: string, r: Record)
    requires Distinct(s)
    ensures Resolve(s, id) == Unique(r) <==> OnlyMatch(Listing(s), id, r)
  {
    var l := Listing(s);
    DistinctPrefixes(l, id);
    var exact, matches := FirstWithId(l, id), WithPrefix(l, id);
    if exact.Some? {
      assert StartsWith(exact.value.id, id);
      if OnlyMatch(l, id, r) && r.id == id {
        SameIdSame(l, r, exact.value);
      }
    } else {
      SingleMatch(matches, r);
    }
  }

  lemma SingleMatch(matches: Records, r: Record)
    requires Distinct(matches)
    ensures |matches| == 1 && matches[0] == r <==> r in matches && forall x :: x in matches ==> x == r
  {
    if r in matches && forall x :: x in matches ==> x == r {
      if |matches| > 1 {
        assert matches[0] in matches && matches[1] in matches;
        assert matches[0].id != matches[1].id;
      }
    }
  }

  /** A record that a lookup sees: the listing shows the first 10 000 of a store. */
  ghost predicate Listed(s: Records, r: Record) {
    exists i :: 0 <= i < |s| && i < 10_000 && s[i] == r
  }

  lemma ListedIff(s: Records, r: Record)
    ensures r in Listing(s) <==> Listed(s, r)
  {
    var l := Listing(s);
    assert forall i :: 0 <= i < |l| ==> l[i] == s[i];
    if i :| 0 <= i < |s| && i < 10_000 && s[i] == r {
      assert l[i] == r;
    }
  }

  /** A lookup finds nothing exactly when no listed identifier begins as given. */
  lemma ResolvesNothingIff(s: Records, id: string)
    ensures Resolve(s, id) == NoMatch <==> forall r :: Listed(s, r) ==> !StartsWith(r.id, id)
  {
    var l := Listing(s);
    var exact, matches := FirstWithId(l, id), WithPrefix(l, id);
    if Resolve(s, id) == NoMatch {
      forall r | Listed(s, r)
        ensures !StartsWith(r.id, id)
      {
        ListedIff(s, r);
        assert r !in matches;
      }
    } else {
      var r := if exact.Some? then exact.value else matches[0];
      assert r in l && StartsWith(r.id, id);
      ListedIff(s, r);
    }
  }

  // ----------------------------------------------------------------------- the transfer

  datatype State = State(source: Records, destination: Records)

  datatype Outcome =
    | Usage
    | Unavailable
    | NotFound
    | LookupFailed
    | CopyFailed
    | VerifyFailed
    | Unverified
    | Moved(from: string, to: string)
    | NotRemoved(from: string, to: string)

  /** The outcome, and the states the two stores went through. */
  datatype Course = Course(outcome: Outcome, states: seq<State>) {
    predicate Proper() {
      states != []
    }

    function Last(): State
      requires Proper()
    {
      states[|states| - 1]
    }
  }

  function Transferred(s: Records, d: Records, id: string, o: Oracle): (c: Course)
    ensures c.Proper() && c.states[0] == State(s, d)
  {
    var start := State(s, d);
    if id == "" then Course(Usage, [start])
    else if !o.find || Resolve(s, id).Ambiguous? then Course(LookupFailed, [start])
    else if Resolve(s, id).NoMatch? then Course(NotFound, [start])
    else CopiedAndDeleted(s, d, Resolve(s, id).record, o)
  }

  function CopiedAndDeleted(s: Records, d: Records, record: Record, o: Oracle): (c: Course)
    ensures c.Proper() && c.states[0] == State(s, d)
  {
    var start := State(s, d);
    var (copied, added) := Added(d, record.data, o);
    var middle := State(s, copied);
    if !added then Course(CopyFailed, [start, middle])
    else if !o.verify then Course(VerifyFailed, [start, middle])
    else
      var copy := FirstWithData(Listing(copied), record.data);
      if copy.None? then Course(Unverified, [start, middle])
      else
        var (left, removed) := Deleted(s, record.id, o.delete);
        Course(
          if removed then Moved(record.id, copy.value.id) else NotRemoved(record.id, copy.value.id),
          [start, middle, State(left, copied)])
  }

  /** A text can be recalled from one of the stores. */
  predicate Present(state: State, text: string) {
    exists r | r in state.source + state.destination :: r.data == text
  }

  lemma AddedKeeps(d: Records, data: string, o: Oracle)
    ensures forall r :: r in d ==> r in Added(d, data, o).0
    ensures Added(d, data, o).1 ==> Record(o.newId, data) in Added(d, data, o).0
  {
    var at := if o.at < |d| then o.at else |d|;
    assert d == d[..at] + d[at..];
  }

  lemma ResolvedIsThere(s: Records, id: string)
    requires Resolve(s, id).Unique?
    ensures Resolve(s, id).record in s
  {
    var matches := WithPrefix(Listing(s), id);
    if |matches| == 1 {
      assert matches[0] in matches;
    }
  }

  /** A listed record with this text has this identifier. */
  ghost predicate ShowsText(d: Records, data: string, id: string) {
    Listed(d, Record(id, data))
  }

  lemma CopyIsListed(d: Records, data: string)
    ensures match FirstWithData(Listing(d), data)
            case Some(r) => ShowsText(d, data, r.id)
            case None => forall k :: !ShowsText(d, data, k)
  {
    match FirstWithData(Listing(d), data)
    case Some(r) =>
      ListedIff(d, r);
      assert r == Record(r.id, data);
    case None =>
      forall k
        ensures !ShowsText(d, data, k)
      {
        ListedIff(d, Record(k, data));
      }
  }

  /** What a transfer of record r reports: the first operation that failed, or the move. */
  ghost predicate Reports(d: Records, r: Record, o: Oracle, outcome: Outcome) {
    var added := o.add.Works? && forall x :: x in d ==> x.id != o.newId;
    var after := Added(d, r.data, o).0;
    && (outcome == CopyFailed <==> !added)
    && (outcome == VerifyFailed <==> added && !o.verify)
    && (outcome == Unverified <==> added && o.verify && forall k :: !ShowsText(after, r.data, k))
    && (outcome.NotRemoved? ==> outcome.from == r.id && ShowsText(after, r.data, outcome.to) && !o.delete.Works?)
    && (outcome.Moved? ==> outcome.from == r.id && ShowsText(after, r.data, outcome.to) && o.delete.Works?)
  }

  lemma RecordReports(s: Records, d: Records, r: Record, o: Oracle)
    requires r in s
    ensures Reports(d, r, o, CopiedAndDeleted(s, d, r, o).outcome)
  {
    CopyIsListed(Added(d, r.data, o).0, r.data);
    assert Added(d, r.data, o).1 <==> o.add.Works? && forall x :: x in d ==> x.id != o.newId;
    assert Deleted(s, r.id, o.delete).1 <==> o.delete.Works?;
  }

  /** For every call, which outcome is reported and why. */
  lemma OutcomeIff(s: Records, d: Records, id: string, o: Oracle)
    ensures var outcome, found := Transferred(s, d, id, o).outcome, Resolve(s, id);
      && (outcome == Usage <==> id == "")
      && (outcome == LookupFailed <==> id != "" && (!o.find || found == Ambiguous))
      && (outcome == NotFound <==> id != "" && o.find && found == NoMatch)
      && (id != "" && o.find && found.Unique? ==> Reports(d, found.record, o, outcome))
  {
    if Resolve(s, id).Unique? {
      ResolvedIsThere(s, id);
      RecordReports(s, d, Resolve(s, id).record, o);
    }
  }

  /**
   Main result: whatever fails, at every state the stores go through, every text that was in
   one of them at the start is in one of them still.
   */
  lemma NothingLost(s: Records, d: Records, id: string, o: Oracle, i: nat, text: string)
    requires Distinct(s)
    requires i < |Transferred(s, d, id, o).states| && Present(State(s, d), text)
    ensures Present(Transferred(s, d, id, o).states[i], text)
  {
    var r :| r in s + d && r.data == text;
    if i > 0 {
      ResolvedIsThere(s, id);
      AddedKeeps(d, Resolve(s, id).record.data, o);
      KeptOrCopied(s, d, Resolve(s, id).record, o, i, r);
    }
  }

  /** After any step, a record is still there, or it was the one copied and its text is. */
  lemma KeptOrCopied(s: Records, d: Records, record: Record, o: Oracle, i: nat, r: Record)
    requires Distinct(s) && record in s && r in s + d
    requires forall x :: x in d ==> x in Added(d, record.data, o).0
    requires i < |CopiedAndDeleted(s, d, record, o).states|
    ensures Present(CopiedAndDeleted(s, d, record, o).states[i], r.data)
  {
    var after := CopiedAndDeleted(s, d, record, o).states[i];
    if r !in after.source + after.destination {
      SameIdSame(s, r, record);
      var copy := FirstWithData(Listing(after.destination), record.data).value;
      assert copy in after.source + after.destination;
    }
  }

  /** Nothing else changes: at most the resolved record goes, and at most its copy comes. */
  lemma OnlyTheRecordMoves(s: Records, d: Records, id: string, o: Oracle, i: nat)
    requires i < |Transferred(s, d, id, o).states|
    ensures var state, found := Transferred(s, d, id, o).states[i], Resolve(s, id);
      && (state.source == s || (found.Unique? && state.source == Without(s, found.record.id)))
      && (state.destination == d || (found.Unique? && state.destination == Added(d, found.record.data, o).0))
  {
  }

  /** The copy can be seen in the destination's listing. */
  ghost predicate Verifiable(d: Records, data: string) {
    exists x :: x in Listing(d) && x.data == data
  }

  /**
   A transfer reports a move exactly when the record resolves, every operation works and the
   copied text is within the destination's listing. Then the source has lost exactly that
   record, and the reported copy is in the destination with its text.
   */
  lemma MovedIff(s: Records, d: Records, id: string, o: Oracle)
    ensures var c, found := Transferred(s, d, id, o), Resolve(s, id);
      && (c.outcome.Moved? <==>
            && id != "" && found.Unique?
            && o.find && o.add.Works? && o.verify && o.delete.Works?
            && (forall r :: r in d ==> r.id != o.newId)
            && Verifiable(Added(d, found.record.data, o).0, found.record.data))
      && (c.outcome.Moved? ==>
            && c.outcome.from == found.record.id
            && c.Last().source == Without(s, c.outcome.from)
            && Record(c.outcome.to, found.record.data) in c.Last().destination)
  {
    if Resolve(s, id).Unique? {
      ResolvedIsThere(s, id);
      CopiedAndDeletedIff(s, d, Resolve(s, id).record, o);
    }
  }

  lemma CopiedAndDeletedIff(s: Records, d: Records, record: Record, o: Oracle)
    requires record in s
    ensures var c := CopiedAndDeleted(s, d, record, o);
      && (c.outcome.Moved? <==>
            && o.add.Works? && o.verify && o.delete.Works?
            && (forall r :: r in d ==> r.id != o.newId)
            && Verifiable(Added(d, record.data, o).0, record.data))
      && (c.outcome.Moved? ==>
            && c.outcome.from == record.id
            && c.Last().source == Without(s, c.outcome.from)
            && Record(c.outcome.to, record.data) in c.Last().destination)
  {
    var (copied, added) := Added(d, record.data, o);
    assert added <==> o.add.Works? && forall r :: r in d ==> r.id != o.newId;
    assert Deleted(s, record.id, o.delete).1 <==> o.delete.Works?;
    var copy := FirstWithData(Listing(copied), record.data);
    if copy.Some? {
      assert copy.value == Record(copy.value.id, record.data) && copy.value in copied;
    }
  }

  /** The copy reaches the destination, whether or not this is reported. */
  ghost predicate Copies(s: Records, d: Records, id: string, o: Oracle) {
    && id != "" && o.find && Resolve(s, id).Unique?
    && !o.add.FailsBefore? && forall r :: r in d ==> r.id != o.newId
  }

  /** The copy is reported, and the listing shows its text. */
  ghost predicate Verifies(s: Records, d: Records, id: string, o: Oracle) {
    && Copies(s, d, id, o) && o.add.Works? && o.verify
    && var data := Resolve(s, id).record.data;
    Verifiable(Added(d, data, o).0, data)
  }

  lemma AddedChangesIff(d: Records, data: string, o: Oracle)
    ensures Added(d, data, o).0 != d <==> !o.add.FailsBefore? && forall r :: r in d ==> r.id != o.newId
  {
    if !o.add.FailsBefore? && forall r :: r in d ==> r.id != o.newId {
      var at := if o.at < |d| then o.at else |d|;
      assert |d[..at] + [Record(o.newId, data)] + d[at..]| == |d| + 1;
    }
  }

  lemma CourseOfRecord(s: Records, d: Records, record: Record, o: Oracle)
    requires record in s
    ensures var last := CopiedAndDeleted(s, d, record, o).Last();
      && last.destination == Added(d, record.data, o).0
      && (last.source != s <==>
            && Added(d, record.data, o).1 && o.verify
            && Verifiable(Added(d, record.data, o).0, record.data)
            && !o.delete.FailsBefore?)
      && (last.source != s ==> (CopiedAndDeleted(s, d, record, o).outcome.Moved? <==> o.delete.Works?))
  {
    assert record !in Without(s, record.id);
  }

  /**
   For every call, when the destination changes, when the source does, and when it does so
   without a move being reported: the deletion took effect and then failed.
   */
  lemma ChangesIff(s: Records, d: Records, id: string, o: Oracle)
    ensures var c := Transferred(s, d, id, o);
      && (c.Last().destination != d <==> Copies(s, d, id, o))
      && (c.Last().source != s <==> Verifies(s, d, id, o) && !o.delete.FailsBefore?)
      && (c.Last().source != s && !c.outcome.Moved? <==> Verifies(s, d, id, o) && o.delete.FailsAfter?)
  {
    if id != "" && o.find && Resolve(s, id).Unique? {
      var record := Resolve(s, id).record;
      ResolvedIsThere(s, id);
      AddedChangesIff(d, record.data, o);
      CourseOfRecord(s, d, record, o);
    }
  }

  /** For every call, when a copy stays in the destination while the source is as it was. */
  lemma CopyLeftIff(s: Records, d: Records, id: string, o: Oracle)
    ensures Transferred(s, d, id, o).Last().source == s && Transferred(s, d, id, o).Last().destination != d
            <==> Copies(s, d, id, o) && !(Verifies(s, d, id, o) && !o.delete.FailsBefore?)
  {
    ChangesIff(s, d, id, o);
  }

  // ---------------------------------------------------------------------- moving back

  function Texts(s: Records): multiset<string> {
    if s == [] then multiset{} else multiset{s[0].data} + Texts(s[1..])
  }

  lemma {:induction false} TextsAppend(a: Records, b: Records)
    ensures Texts(a + b) == Texts(a) + Texts(b)
  {
    if a == [] {
      assert a + b == b;
    } else {
      assert (a + b)[1..] == a[1..] + b;
      TextsAppend(a[1..], b);
    }
  }

  lemma TextsAdded(d: Records, data: string, o: Oracle)
    requires o.add.Works? && forall r :: r in d ==> r.id != o.newId
    ensures Texts(Added(d, data, o).0) == Texts(d) + multiset{data}
  {
    var at := if o.at < |d| then o.at else |d|;
    assert d == d[..at] + d[at..];
    TextsInserted(d[..at], d[at..], Record(o.newId, data));
  }

  lemma TextsInserted(a: Records, b: Records, r: Record)
    ensures Texts(a + [r] + b) == Texts(a + b) + multiset{r.data}
  {
    TextsAppend(a, b);
    TextsAppend(a, [r]);
    TextsAppend(a + [r], b);
    assert [r][1..] == [];
    assert Texts([r]) == multiset{r.data};
  }

  lemma {:induction false} WithoutOther(s: Records, id: string)
    requires forall x :: x in s ==> x.id != id
    ensures Without(s, id) == s
  {
    if s != [] {
      assert s == [s[0]] + s[1..];
      WithoutOther(s[1..], id);
    }
  }

  lemma {:induction false} TextsWithout(s: Records, r: Record)
    requires Distinct(s) && r in s
    ensures Texts(Without(s, r.id)) + multiset{r.data} == Texts(s)
  {
    if s[0].id == r.id {
      SameIdSame(s, s[0], r);
      forall x | x in s[1..]
        ensures x.id != r.id
      {
        var i :| 0 <= i < |s[1..]| && s[1..][i] == x;
        assert s[i + 1] == x;
      }
      WithoutOther(s[1..], r.id);
      assert [] + s[1..] == s[1..];
    } else {
      TextsWithout(s[1..], r);
      var rest := Without(s[1..], r.id);
      assert ([s[0]] + rest)[1..] == rest;
    }
  }

  lemma AddedDistinct(d: Records, data: string, o: Oracle)
    requires Distinct(d)
    ensures Distinct(Added(d, data, o).0)
  {
  }

  /** A transfer whose course is `c` and that reports a move. */
  ghost predicate Moves(s: Records, d: Records, id: string, o: Oracle, c: Course) {
    c == Transferred(s, d, id, o) && c.outcome.Moved?
  }

  ghost predicate Shifts(s: Records, d: Records, c: Course, r: Record)
    requires c.Proper() && c.outcome.Moved?
  {
    && r in s && r.id == c.outcome.from
    && Texts(c.Last().source) + multiset{r.data} == Texts(s)
    && Texts(c.Last().destination) == Texts(d) + multiset{r.data}
    && Record(c.outcome.to, r.data) in c.Last().destination
  }

  lemma MoveShiftsText(s: Records, d: Records, id: string, o: Oracle, c: Course) returns (r: Record)
    requires Distinct(s) && Moves(s, d, id, o, c)
    ensures Shifts(s, d, c, r)
  {
    r := Resolve(s, id).record;
    ResolvedIsThere(s, id);
    MovedIff(s, d, id, o);
    TextsWithout(s, r);
    TextsAdded(d, r.data, o);
  }

  lemma MoveKeepsDistinct(s: Records, d: Records, id: string, o: Oracle, c: Course)
    requires Distinct(d) && Moves(s, d, id, o, c)
    ensures Distinct(c.Last().destination)
  {
    AddedDistinct(d, Resolve(s, id).record.data, o);
  }

  /**
   Main result: a move reported as done, followed by a reported move of the copy back, leaves
   both stores with the texts they had, each as often as before.
   */
  lemma MovingBackRestores(s: Records, d: Records, id: string, o: Oracle, there: Course, back: string, p: Oracle, again: Course)
    requires Distinct(s) && Distinct(d) && Moves(s, d, id, o, there)
    requires Moves(there.Last().destination, there.Last().source, back, p, again)
    requires again.outcome.from == there.outcome.to
    ensures Texts(again.Last().destination) == Texts(s) && Texts(again.Last().source) == Texts(d)
  {
    var r := MoveShiftsText(s, d, id, o, there);
    MoveKeepsDistinct(s, d, id, o, there);
    var q := MoveShiftsText(there.Last().destination, there.Last().source, back, p, again);
    SameIdSame(there.Last().destination, q, Record(there.outcome.to, r.data));
    Cancels(Texts(again.Last().source), Texts(d), multiset{r.data});
  }

  lemma Cancels(a: multiset<string>, b: multiset<string>, c: multiset<string>)
    requires a + c == b + c
    ensures a == b
  {
    assert a == (a + c) - c == (b + c) - c == b;
  }

  // -------------------------------------------------------------------- stores in place

  class Store {
    var records: Records

    method GetAll(works: bool) returns (r: Option<Records>)
      ensures r == if works then Some(Listing(records)) else None
    {
      r := if works then Some(Listing(records)) else None;
    }

    method Add(data: string, o: Oracle) returns (ok: bool)
      modifies this
      ensures (records, ok) == Added(old(records), data, o)
    {
      if o.add.FailsBefore? || exists r | r in records :: r.id == o.newId {
        return false;
      }
      var at := if o.at < |records| then o.at else |records|;
      records := records[..at] + [Record(o.newId, data)] + records[at..];
      ok := o.add.Works?;
    }

    method Delete(id: string, fault: Fault) returns (ok: bool)
      modifies this
      ensures (records, ok) == Deleted(old(records), id, fault)
    {
      if fault.FailsBefore? || forall r | r in records :: r.id != id {
        return false;
      }
      records := Without(records, id);
      ok := fault.Works?;
    }
  }

  /** `transfer_text` over the two stores, either of which may be unavailable. */
  method Transfer(source: Store?, destination: Store?, id: string, o: Oracle) returns (outcome: Outcome, ghost states: seq<State>)
    requires source == null || source != destination
    modifies source, destination
    ensures id != "" && (source == null || destination == null) ==> outcome == Unavailable
    ensures id != "" && (source == null || destination == null) ==>
              && (source != null ==> source.records == old(source.records))
              && (destination != null ==> destination.records == old(destination.records))
    ensures id == "" ==> outcome == Usage
    ensures source != null && destination != null ==>
              && Course(outcome, states) == Transferred(old(source.records), old(destination.records), id, o)
              && State(source.records, destination.records) == Course(outcome, states).Last()
  {
    states := [];
    if id == "" {
      if source != null && destination != null {
        states := [State(source.records, destination.records)];
      }
      return Usage, states;
    }
    if source == null || destination == null {
      return Unavailable, states;
    }
    states := [State(source.records, destination.records)];
    var listed := source.GetAll(o.find);
    if listed.None? {
      return LookupFailed, states;
    }
    var found := Resolve(source.records, id);
    match found {
      case NoMatch =>
        return NotFound, states;
      case Ambiguous =>
        return LookupFailed, states;
      case Unique(record) =>
        outcome, states := CopyAndDelete(source, destination, record, o);
    }
  }

  method CopyAndDelete(source: Store, destination: Store, record: Record, o: Oracle) returns (outcome: Outcome, ghost states: seq<State>)
    requires source != destination
    modifies source, destination
    ensures Course(outcome, states) == CopiedAndDeleted(old(source.records), old(destination.records), record, o)
    ensures State(source.records, destination.records) == Course(outcome, states).Last()
  {
    states := [State(source.records, destination.records)];
    var added := destination.Add(record.data, o);
    states := states + [State(source.records, destination.records)];
    if !added {
      return CopyFailed, states;
    }
    var visible := destination.GetAll(o.verify);
    if visible.None? {
      return VerifyFailed, states;
    }
    var copy := FirstWithData(visible.value, record.data);
    if copy.None? {
      return Unverified, states;
    }
    var removed := source.Delete(record.id, o.delete);
    states := states + [State(source.records, destination.records)];
    outcome := if removed then Moved(record.id, copy.value.id) else NotRemoved(record.id, copy.value.id);
  }
}
