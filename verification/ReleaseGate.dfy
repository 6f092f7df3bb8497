/**
 The release gate: four workflows must each have a successful main-branch push run for the
 exact commit, established from paged listings of a server that may change between requests.

 Every request is made at most once in its role, so an arbitrary server, changing as it likes,
 is a function from requests to answers.
 */
module ReleaseGate {

  import opened Common

  // ------------------------------------------------------------------- paged listings

  const MAX_PAGES := 32
  const PER_PAGE := 100

  /** `Failed` covers transport errors; a part of the wrong JSON type is `None`. */
  datatype Response<+R> = Failed | Page(rows: Option<seq<R>>, total: Option<int>) {
    predicate Usable() {
      Page? && rows.Some? && total.Some? && total.value >= 0
    }
  }

  type Pager<!R> = nat -> Response<R>

  /** All rows on pages 1 to k. */
  function Collected<R>(page: Pager<R>, k: nat): seq<R> {
    if k == 0 then []
    else Collected(page, k - 1) + (if page(k).Usable() then page(k).rows.value else [])
  }

  /** Page j is fine but the listing is not complete with it. */
  ghost predicate Open<R>(page: Pager<R>, j: nat) {
    page(j).Usable() && page(j).rows.value != [] && |Collected(page, j)| < page(j).total.value
  }

  /** Page k is the first one that brings the rows up to its own total. */
  ghost predicate CompleteAt<R>(page: Pager<R>, k: nat) {
    && 1 <= k <= MAX_PAGES
    && page(k).Usable() && |Collected(page, k)| == page(k).total.value
    && forall j :: 1 <= j < k ==> Open(page, j)
  }

  ghost predicate Inventoried<R>(page: Pager<R>, rows: seq<R>) {
    exists k: nat :: CompleteAt(page, k) && rows == Collected(page, k)
  }

  method Inventory<R>(page: Pager<R>) returns (r: Option<seq<R>>)
    ensures r.Some? ==> Inventoried(page, r.value)
    ensures r.None? ==> forall rows :: !Inventoried(page, rows)
  {
    var rows: seq<R> := [];
    for k := 1 to MAX_PAGES + 1
      invariant rows == Collected(page, k - 1)
      invariant forall j :: 1 <= j < k ==> Open(page, j)
    {
      var value := page(k);
      if !value.Usable() {
        StopsAt(page, k);
        return None;
      }
      rows := rows + value.rows.value;
      if |rows| == value.total.value {
        assert CompleteAt(page, k);
        return Some(rows);
      }
      if |rows| > value.total.value || value.rows.value == [] {
        StopsAt(page, k);
        return None;
      }
    }
    NeverComplete(page);
    r := None;
  }

  lemma StopsAt<R>(page: Pager<R>, k: nat)
    requires 1 <= k && forall j :: 1 <= j < k ==> Open(page, j)
    requires !Open(page, k) && !CompleteAt(page, k)
    ensures forall rows :: !Inventoried(page, rows)
  {
    forall l: nat | 1 <= l
      ensures !CompleteAt(page, l)
    {
      assert l < k ==> Open(page, l);
    }
  }

  lemma NeverComplete<R>(page: Pager<R>)
    requires forall j :: 1 <= j <= MAX_PAGES ==> Open(page, j)
    ensures forall rows :: !Inventoried(page, rows)
  {
    forall l: nat | 1 <= l <= MAX_PAGES
      ensures !CompleteAt(page, l)
    {
      assert Open(page, l);
    }
  }

  lemma InventoriedOnce<R>(page: Pager<R>, a: seq<R>, b: seq<R>)
    requires Inventoried(page, a) && Inventoried(page, b)
    ensures a == b
  {
    var k: nat :| CompleteAt(page, k) && a == Collected(page, k);
    var l: nat :| CompleteAt(page, l) && b == Collected(page, l);
    assert k < l ==> Open(page, k);
    assert l < k ==> Open(page, l);
  }

  function Least(a: nat, b: nat): nat {
    if a < b then a else b
  }

  function PageOf<R>(all: seq<R>, k: nat): Response<R> {
    if k == 0 then Failed
    else Page(Some(all[Least((k - 1) * PER_PAGE, |all|)..Least(k * PER_PAGE, |all|)]), Some(|all|))
  }

  /** A server whose rows do not change. */
  function Stable<R>(all: seq<R>): Pager<R> {
    (k: nat) => PageOf(all, k)
  }

  /** The listing is accepted with exactly these rows, or refused because there are too many. */
  ghost predicate Lists<R(!new)>(page: Pager<R>, seen: seq<R>) {
    forall rows :: Inventoried(page, rows) <==> rows == seen && |seen| <= 3_200
  }

  /** Page k is read: page 1 always, a later one while full pages do not cover the rows. */
  predicate Reached(size: nat, k: nat) {
    k == 1 || (k > 1 && (k - 1) * PER_PAGE < size)
  }

  /** As far as pages are read they cut up `seen`, and the page that covers it gives its size as the total. */
  ghost predicate Cuts<R>(page: Pager<R>, seen: seq<R>) {
    forall k: nat :: Reached(|seen|, k) ==>
      && page(k).Usable()
      && Collected(page, k) == seen[..Least(k * PER_PAGE, |seen|)]
      && (if k * PER_PAGE < |seen| then page(k).rows.value != [] && page(k).total.value > k * PER_PAGE
          else page(k).total.value == |seen|)
  }

  lemma CutsComplete<R>(page: Pager<R>, seen: seq<R>, k: nat)
    requires Cuts(page, seen) && Reached(|seen|, k)
    ensures CompleteAt(page, k) <==> |seen| <= k * PER_PAGE && k <= MAX_PAGES
  {
    if |seen| <= k * PER_PAGE {
      forall j | 1 <= j < k
        ensures Open(page, j)
      {
        assert Reached(|seen|, j);
      }
    }
  }

  lemma CutsList<R(!new)>(page: Pager<R>, seen: seq<R>)
    requires Cuts(page, seen)
    ensures Lists(page, seen)
  {
    var last := if seen == [] then 1 else (|seen| - 1) / PER_PAGE + 1;
    assert Reached(|seen|, last) && |seen| <= last * PER_PAGE;
    CutsComplete(page, seen, last);
    assert seen[..|seen|] == seen && Collected(page, last) == seen;
    forall rows
      ensures Inventoried(page, rows) <==> rows == seen && |seen| <= 3_200
    {
      if Inventoried(page, rows) {
        var k: nat :| CompleteAt(page, k) && rows == Collected(page, k);
        CompleteIsReached(page, seen, k);
        CutsComplete(page, seen, k);
      }
      if |seen| <= 3_200 {
        assert CompleteAt(page, last);
      }
    }
  }

  lemma CompleteIsReached<R>(page: Pager<R>, seen: seq<R>, k: nat)
    requires Cuts(page, seen) && CompleteAt(page, k)
    ensures Reached(|seen|, k)
  {
    var last := if seen == [] then 1 else (|seen| - 1) / PER_PAGE + 1;
    assert Reached(|seen|, last) && |seen| <= last * PER_PAGE;
    assert last < k ==> Open(page, last);
  }

  lemma {:induction false} StableCollected<R>(all: seq<R>, k: nat)
    ensures Collected(Stable(all), k) == all[..Least(k * PER_PAGE, |all|)]
  {
    if k > 0 {
      StableCollected(all, k - 1);
      var a, b := Least((k - 1) * PER_PAGE, |all|), Least(k * PER_PAGE, |all|);
      assert all[..a] + all[a..b] == all[..b];
    }
  }

  /** Main result: a stable listing is returned whole and in order up to 3200 rows, and refused beyond. */
  lemma StableInventoryIff<R(!new)>(all: seq<R>)
    ensures Lists(Stable(all), all)
  {
    forall k: nat
      ensures Collected(Stable(all), k) == all[..Least(k * PER_PAGE, |all|)]
    {
      StableCollected(all, k);
    }
    CutsList(Stable(all), all);
  }

  /** A row is put in front of the listing after m of its pages were read. */
  function Shifting<R>(all: seq<R>, newer: R, m: nat): Pager<R> {
    (k: nat) => PageOf(if k <= m then all else [newer] + all, k)
  }

  /** What such a listing shows: the last row of page m again, and never the new row. */
  function ShownShifting<R>(all: seq<R>, newer: R, m: nat): seq<R> {
    if m == 0 then [newer] + all
    else if |all| <= m * PER_PAGE then all
    else all[..m * PER_PAGE] + all[m * PER_PAGE - 1..]
  }

  lemma {:induction false} EarlyCollected<R>(all: seq<R>, newer: R, m: nat, k: nat)
    requires k <= m
    ensures Collected(Shifting(all, newer, m), k) == all[..Least(k * PER_PAGE, |all|)]
  {
    if k > 0 {
      EarlyCollected(all, newer, m, k - 1);
      assert Shifting(all, newer, m)(k) == PageOf(all, k);
      var a, b := Least((k - 1) * PER_PAGE, |all|), Least(k * PER_PAGE, |all|);
      assert all[..a] + all[a..b] == all[..b];
    }
  }

  lemma {:induction false} LateCollected<R>(all: seq<R>, newer: R, m: nat, k: nat)
    requires m <= k && m * PER_PAGE <= |all|
    ensures var later := [newer] + all;
      Collected(Shifting(all, newer, m), k) == all[..m * PER_PAGE] + later[m * PER_PAGE..Least(k * PER_PAGE, |later|)]
  {
    var later, f := [newer] + all, m * PER_PAGE;
    if k == m {
      EarlyCollected(all, newer, m, k);
    } else {
      LateCollected(all, newer, m, k - 1);
      assert Shifting(all, newer, m)(k) == PageOf(later, k);
      var a, b := Least((k - 1) * PER_PAGE, |later|), Least(k * PER_PAGE, |later|);
      assert later[f..a] + later[a..b] == later[f..b];
      assert all[..f] + later[f..a] + later[a..b] == all[..f] + (later[f..a] + later[a..b]);
    }
  }

  lemma ShiftingPage<R>(all: seq<R>, newer: R, m: nat, k: nat)
    requires Reached(|ShownShifting(all, newer, m)|, k)
    ensures var page, seen := Shifting(all, newer, m), ShownShifting(all, newer, m);
      && page(k).Usable()
      && Collected(page, k) == seen[..Least(k * PER_PAGE, |seen|)]
      && (if k * PER_PAGE < |seen| then page(k).rows.value != [] && page(k).total.value > k * PER_PAGE
          else page(k).total.value == |seen|)
  {
    var later, seen, f := [newer] + all, ShownShifting(all, newer, m), m * PER_PAGE;
    if k <= m {
      EarlyCollected(all, newer, m, k);
      assert Shifting(all, newer, m)(k) == PageOf(all, k);
      assert seen[..Least(k * PER_PAGE, |seen|)] == all[..Least(k * PER_PAGE, |all|)];
    } else {
      assert m > 0 ==> |all| > f;
      LateCollected(all, newer, m, k);
      assert Shifting(all, newer, m)(k) == PageOf(later, k);
      if m > 0 {
        assert later[f..] == all[f - 1..];
      }
      assert seen == all[..f] + later[f..];
      var b := Least(k * PER_PAGE, |later|);
      assert seen[..b] == all[..f] + later[f..b];
    }
  }

  /**
   Main result: page counts never expose a row put in front during pagination. Whenever pages
   are left to read after it, the listing is accepted just as a stable one with one more row
   is, but shows the row at the page break twice and the new row not at all.
   */
  lemma ShiftIsAccepted<R(!new)>(all: seq<R>, newer: R, m: nat)
    ensures Lists(Shifting(all, newer, m), ShownShifting(all, newer, m))
  {
    var page, seen := Shifting(all, newer, m), ShownShifting(all, newer, m);
    forall k: nat | Reached(|seen|, k)
      ensures page(k).Usable() && Collected(page, k) == seen[..Least(k * PER_PAGE, |seen|)]
      ensures if k * PER_PAGE < |seen| then page(k).rows.value != [] && page(k).total.value > k * PER_PAGE
              else page(k).total.value == |seen|
    {
      ShiftingPage(all, newer, m, k);
    }
    CutsList(page, seen);
  }

  // ---------------------------------------------------------------- one workflow's run

  /** A JSON member. `Other` stands for any value that is neither null, an integer nor a string. */
  datatype Value = Missing | Null | Number(n: int) | Text(s: string) | Other(tag: string)

  /** `get` without a default cannot tell a missing member from null. */
  function Get(v: Value): Value {
    if v.Missing? then Null else v
  }

  datatype Run = Run(id: Value, attempt: Value, sha: Value, branch: Value, event: Value, path: Value, status: Value, conclusion: Value)

  datatype Job = Job(runId: Value, status: Value, conclusion: Value)

  /** What the server answers, request by request, while one workflow is being verified. */
  datatype Evidence = Evidence(
    runs: Pager<Run>,
    jobs: (int, int) -> Pager<Job>,
    current: int -> Option<Run>,
    newest: Pager<Run>)

  predicate Hex(c: char) {
    '0' <= c <= '9' || 'a' <= c <= 'f'
  }

  predicate ExactSha(commit: string) {
    |commit| == 40 && forall c | c in commit :: Hex(c)
  }

  predicate Matches(run: Run, workflow: string, commit: string) {
    && run.sha == Text(commit) && run.branch == Text("main") && run.event == Text("push")
    && run.path == Text(".github/workflows/" + workflow)
  }

  function Matching(runs: seq<Run>, workflow: string, commit: string): (r: seq<Run>)
    ensures forall run :: run in r <==> run in runs && Matches(run, workflow, commit)
  {
    if runs == [] then []
    else (if Matches(runs[0], workflow, commit) then [runs[0]] else []) + Matching(runs[1..], workflow, commit)
  }

  predicate Identified(run: Run) {
    run.id.Number? && run.attempt.Number? && run.id.n > 0 && run.attempt.n > 0
  }

  predicate Succeeded(status: Value, conclusion: Value) {
    status == Text("completed") && conclusion == Text("success")
  }

  /** Pairs of run number and attempt, compared as tuples. */
  predicate Later(a: Run, b: Run)
    requires Identified(a) && Identified(b)
  {
    a.id.n > b.id.n || (a.id.n == b.id.n && a.attempt.n > b.attempt.n)
  }

  /** The first of the greatest runs, which is the one `max` picks. */
  ghost predicate Greatest(runs: seq<Run>, k: nat)
    requires forall run :: run in runs ==> Identified(run)
  {
    && k < |runs|
    && (forall j :: 0 <= j < |runs| ==> !Later(runs[j], runs[k]))
    && forall j :: 0 <= j < k ==> Later(runs[k], runs[j])
  }

  /** Exactly the members that are compared again; the workflow path is not among them. */
  predicate Unchanged(a: Run, b: Run) {
    && Get(a.id) == Get(b.id) && Get(a.attempt) == Get(b.attempt)
    && Get(a.sha) == Get(b.sha) && Get(a.branch) == Get(b.branch) && Get(a.event) == Get(b.event)
    && Get(a.status) == Get(b.status) && Get(a.conclusion) == Get(b.conclusion)
  }

  predicate JobOk(job: Job, id: int) {
    job.runId == Number(id) && Succeeded(job.status, job.conclusion)
  }

  /** A member with default 0, in a comparison; `None` is the type error of ordering a non-number. */
  function Ordinal(v: Value): Option<int> {
    match v
    case Missing => Some(0)
    case Number(n) => Some(n)
    case _ => None
  }

  /** The tuple comparison row > run, which looks at attempts only when the numbers are equal. */
  function Newer(row: Run, run: Run): Option<bool>
    requires Identified(run)
  {
    match Ordinal(row.id)
    case None => None
    case Some(id) =>
      if id != run.id.n then Some(id > run.id.n) else
      match Ordinal(row.attempt)
      case None => None
      case Some(attempt) => Some(attempt > run.attempt.n)
  }

  predicate Overtaken(newest: seq<Run>, workflow: string, commit: string, run: Run)
    requires Identified(run)
  {
    exists row :: row in newest && Matches(row, workflow, commit) && Newer(row, run) != Some(false)
  }

  ghost predicate Latest(runs: seq<Run>, workflow: string, commit: string, run: Run) {
    var matching := Matching(runs, workflow, commit);
    && Identified(run)
    && (forall r :: r in matching ==> Identified(r))
    && exists k: nat :: Greatest(matching, k) && matching[k] == run
  }

  ghost predicate ListsLatest(page: Pager<Run>, workflow: string, commit: string, run: Run) {
    exists runs :: Inventoried(page, runs) && Latest(runs, workflow, commit, run)
  }

  /** Reference: what must hold of the answers for a run to be admitted. */
  ghost predicate Admissible(ev: Evidence, workflow: string, commit: string, run: Run) {
    && ListsLatest(ev.runs, workflow, commit, run)
    && Identified(run)
    && Succeeded(run.status, run.conclusion)
    && AllJobsSucceeded(ev.jobs(run.id.n, run.attempt.n), run.id.n)
    && ev.current(run.id.n).Some? && Unchanged(ev.current(run.id.n).value, run)
    && NotOvertaken(ev.newest, workflow, commit, run)
  }

  ghost predicate AllJobsSucceeded(page: Pager<Job>, id: int) {
    exists jobs :: Inventoried(page, jobs) && jobs != [] && forall job :: job in jobs ==> JobOk(job, id)
  }

  lemma GreatestOnce(runs: seq<Run>, k: nat, l: nat)
    requires forall run :: run in runs ==> Identified(run)
    requires Greatest(runs, k) && Greatest(runs, l)
    ensures k == l
  {
    assert !Later(runs[k], runs[l]) && !Later(runs[l], runs[k]);
  }

  lemma LatestOnce(page: Pager<Run>, workflow: string, commit: string, runs: seq<Run>, a: Run, b: Run)
    requires Inventoried(page, runs) && Latest(runs, workflow, commit, a)
    requires exists others :: Inventoried(page, others) && Latest(others, workflow, commit, b)
    ensures a == b
  {
    var others :| Inventoried(page, others) && Latest(others, workflow, commit, b);
    InventoriedOnce(page, runs, others);
    var matching := Matching(runs, workflow, commit);
    var k: nat :| Greatest(matching, k) && matching[k] == a;
    var l: nat :| Greatest(matching, l) && matching[l] == b;
    GreatestOnce(matching, k, l);
  }

  /** At most one run is admissible. */
  lemma AdmissibleOnce(ev: Evidence, workflow: string, commit: string, a: Run, b: Run)
    requires Admissible(ev, workflow, commit, a) && Admissible(ev, workflow, commit, b)
    ensures a == b
  {
    var runs :| Inventoried(ev.runs, runs) && Latest(runs, workflow, commit, a);
    LatestOnce(ev.runs, workflow, commit, runs, a, b);
  }

  /** `max` over the matching runs. */
  method PickGreatest(runs: seq<Run>) returns (k: nat)
    requires runs != [] && forall run :: run in runs ==> Identified(run)
    ensures Greatest(runs, k)
  {
    k := 0;
    for i := 1 to |runs|
      invariant k < i && Greatest(runs[..i], k)
    {
      assert runs[..i + 1][..i] == runs[..i];
      assert runs[i] in runs;
      if Later(runs[i], runs[k]) {
        k := i;
      }
    }
    assert runs[..|runs|] == runs;
  }

  method VerifyWorkflow(ev: Evidence, workflow: string, commit: string) returns (r: Option<Run>)
    ensures r.Some? ==> Admissible(ev, workflow, commit, r.value)
    ensures r.None? ==> forall run :: !Admissible(ev, workflow, commit, run)
  {
    var runs := Inventory(ev.runs);
    if runs.None? {
      return None;
    }
    var latest := PickLatest(runs.value, workflow, commit);
    if latest.None? {
      NoLatest(ev, workflow, commit, runs.value);
      return None;
    }
    var run := latest.value;
    OnlyLatest(ev, workflow, commit, runs.value, run);
    if !Succeeded(run.status, run.conclusion) {
      return None;
    }
    var jobs := JobsSucceeded(ev.jobs(run.id.n, run.attempt.n), run.id.n);
    if !jobs {
      return None;
    }
    var current := ev.current(run.id.n);
    if current.None? || !Unchanged(current.value, run) {
      return None;
    }
    var kept := StillNewest(ev.newest, workflow, commit, run);
    r := if kept then Some(run) else None;
  }

  method PickLatest(runs: seq<Run>, workflow: string, commit: string) returns (r: Option<Run>)
    ensures r.Some? ==> Latest(runs, workflow, commit, r.value) && Identified(r.value)
    ensures r.None? ==> forall run :: !Latest(runs, workflow, commit, run)
  {
    var matching := Matching(runs, workflow, commit);
    if matching == [] || exists run | run in matching :: !Identified(run) {
      return None;
    }
    var k := PickGreatest(matching);
    r := Some(matching[k]);
  }

  method JobsSucceeded(page: Pager<Job>, id: int) returns (ok: bool)
    ensures ok <==> AllJobsSucceeded(page, id)
  {
    var jobs := Inventory(page);
    if jobs.None? {
      return false;
    }
    forall others | Inventoried(page, others)
      ensures others == jobs.value
    {
      InventoriedOnce(page, others, jobs.value);
    }
    ok := jobs.value != [] && forall job | job in jobs.value :: JobOk(job, id);
  }

  ghost predicate NotOvertaken(page: Pager<Run>, workflow: string, commit: string, run: Run)
    requires Identified(run)
  {
    exists newest :: Inventoried(page, newest) && !Overtaken(newest, workflow, commit, run)
  }

  method StillNewest(page: Pager<Run>, workflow: string, commit: string, run: Run) returns (ok: bool)
    requires Identified(run)
    ensures ok <==> NotOvertaken(page, workflow, commit, run)
  {
    var newest := Inventory(page);
    if newest.None? {
      return false;
    }
    forall others | Inventoried(page, others)
      ensures others == newest.value
    {
      InventoriedOnce(page, others, newest.value);
    }
    ok := !Overtaken(newest.value, workflow, commit, run);
  }

  lemma NoLatest(ev: Evidence, workflow: string, commit: string, runs: seq<Run>)
    requires Inventoried(ev.runs, runs) && forall run :: !Latest(runs, workflow, commit, run)
    ensures forall run :: !Admissible(ev, workflow, commit, run)
  {
    forall run
      ensures !Admissible(ev, workflow, commit, run)
    {
      if Admissible(ev, workflow, commit, run) {
        var others :| Inventoried(ev.runs, others) && Latest(others, workflow, commit, run);
        InventoriedOnce(ev.runs, runs, others);
      }
    }
  }

  lemma OnlyLatest(ev: Evidence, workflow: string, commit: string, runs: seq<Run>, run: Run)
    requires Inventoried(ev.runs, runs) && Latest(runs, workflow, commit, run)
    ensures forall other :: Admissible(ev, workflow, commit, other) ==> other == run
  {
    forall other | Admissible(ev, workflow, commit, other)
      ensures other == run
    {
      LatestOnce(ev.runs, workflow, commit, runs, run, other);
    }
  }

  // -------------------------------------------------------------------------- the gate

  const WORKFLOWS := ["ci.yml", "msrv.yml", "platform-foundation.yml", "web-driver.yml"]

  ghost predicate Admits(server: string -> Evidence, commit: string, w: string, id: int) {
    exists run :: Admissible(server(w), w, commit, run) && run.id == Number(id)
  }

  ghost predicate Refuses(server: string -> Evidence, commit: string, w: string) {
    forall run :: !Admissible(server(w), w, commit, run)
  }

  /** A full lower-case SHA-1. */
  predicate FullSha(commit: string) {
    |commit| == 40 && forall i :: 0 <= i < 40 ==> '0' <= commit[i] <= '9' || 'a' <= commit[i] <= 'f'
  }

  ghost predicate ReleasedAs(server: string -> Evidence, commit: string, w: string, id: int) {
    exists run :: Released(server(w), w, commit, run) && run.id == Number(id)
  }

  ghost predicate NeverReleased(server: string -> Evidence, commit: string, w: string) {
    forall run :: !Released(server(w), w, commit, run)
  }

  /**
   The gate opens exactly for a full SHA whose four workflows each have a released run, and
   names those runs.
   */
  method Verify(server: string -> Evidence, commit: string) returns (r: Option<map<string, int>>)
    ensures r.Some? ==>
              && FullSha(commit)
              && r.value.Keys == {"ci.yml", "msrv.yml", "platform-foundation.yml", "web-driver.yml"}
              && forall w :: w in r.value ==> ReleasedAs(server, commit, w, r.value[w])
    ensures r.None? ==>
              || !FullSha(commit)
              || exists w :: w in {"ci.yml", "msrv.yml", "platform-foundation.yml", "web-driver.yml"}
                             && NeverReleased(server, commit, w)
  {
    FullShaIff(commit);
    if !ExactSha(commit) {
      return None;
    }
    WorkflowSet();
    r := AdmitAll(server, commit, WORKFLOWS);
    if r.Some? {
      forall w | w in r.value
        ensures ReleasedAs(server, commit, w, r.value[w])
      {
        AdmitsReleased(server, commit, w, r.value[w]);
      }
    } else {
      ghost var w :| w in WORKFLOWS && Refuses(server, commit, w);
      RefusesReleased(server, commit, w);
      assert w in Elements(WORKFLOWS);
    }
  }

  lemma FullShaIff(commit: string)
    ensures FullSha(commit) <==> ExactSha(commit)
  {
    if ExactSha(commit) {
      forall i | 0 <= i < 40
        ensures '0' <= commit[i] <= '9' || 'a' <= commit[i] <= 'f'
      {
        assert commit[i] in commit;
      }
    }
  }

  lemma WorkflowSet()
    ensures Elements(WORKFLOWS) == {"ci.yml", "msrv.yml", "platform-foundation.yml", "web-driver.yml"}
  {
  }

  lemma AdmitsReleased(server: string -> Evidence, commit: string, w: string, id: int)
    requires Admits(server, commit, w, id)
    ensures ReleasedAs(server, commit, w, id)
  {
    var run :| Admissible(server(w), w, commit, run) && run.id == Number(id);
    ReleasedIff(server(w), w, commit, run);
  }

  lemma RefusesReleased(server: string -> Evidence, commit: string, w: string)
    requires Refuses(server, commit, w)
    ensures NeverReleased(server, commit, w)
  {
    forall run
      ensures !Released(server(w), w, commit, run)
    {
      ReleasedIff(server(w), w, commit, run);
    }
  }

  method AdmitAll(server: string -> Evidence, commit: string, workflows: seq<string>) returns (r: Option<map<string, int>>)
    ensures r.Some? ==> r.value.Keys == Elements(workflows)
    ensures r.Some? ==> forall w :: w in workflows ==> Admits(server, commit, w, r.value[w])
    ensures r.None? ==> exists w :: w in workflows && Refuses(server, commit, w)
  {
    var admitted: map<string, int> := map[];
    for i := 0 to |workflows|
      invariant admitted.Keys == Elements(workflows[..i])
      invariant forall w :: w in admitted ==> Admits(server, commit, w, admitted[w])
    {
      var w := workflows[i];
      var run := VerifyWorkflow(server(w), w, commit);
      if run.None? {
        assert w in workflows && Refuses(server, commit, w);
        return None;
      }
      assert Admits(server, commit, w, run.value.id.n);
      SetMore(workflows, i);
      admitted := admitted[w := run.value.id.n];
    }
    assert workflows[..|workflows|] == workflows;
    r := Some(admitted);
  }

  lemma SetMore(names: seq<string>, i: nat)
    requires i < |names|
    ensures Elements(names[..i + 1]) == Elements(names[..i]) + {names[i]}
  {
    assert names[..i + 1] == names[..i] + [names[i]];
  }

  ghost predicate Green(runs: seq<Run>, jobs: (int, int) -> seq<Job>, workflow: string, commit: string, run: Run) {
    && Latest(runs, workflow, commit, run) && Succeeded(run.status, run.conclusion)
    && var all := jobs(run.id.n, run.attempt.n);
    0 < |all| <= 3_200 && forall job :: job in all ==> JobOk(job, run.id.n)
  }

  lemma LatestNotOvertaken(runs: seq<Run>, workflow: string, commit: string, run: Run)
    requires Latest(runs, workflow, commit, run)
    ensures Identified(run) && !Overtaken(runs, workflow, commit, run)
  {
    var matching := Matching(runs, workflow, commit);
    var k: nat :| Greatest(matching, k) && matching[k] == run;
    forall row | row in runs && Matches(row, workflow, commit)
      ensures Newer(row, run) == Some(false)
    {
      var j :| 0 <= j < |matching| && matching[j] == row;
      assert !Later(matching[j], matching[k]);
    }
  }

  /**
   Answers of a server that lists `runs` first and `newest` in the end, and on which nothing
   else changes during the verification.
   */
  ghost predicate Answers(ev: Evidence, workflow: string, commit: string, runs: seq<Run>, newest: seq<Run>, jobs: (int, int) -> seq<Job>) {
    && Lists(ev.runs, runs) && Lists(ev.newest, newest)
    && (forall id, attempt :: ev.jobs(id, attempt) == Stable(jobs(id, attempt)))
    && forall run :: Latest(runs, workflow, commit, run) ==> ev.current(run.id.n) == Some(run)
  }

  /** Main result: what decides on such a server, whatever its two listings show. */
  lemma AdmissibleIff(ev: Evidence, workflow: string, commit: string, runs: seq<Run>, newest: seq<Run>, jobs: (int, int) -> seq<Job>, run: Run)
    requires Answers(ev, workflow, commit, runs, newest, jobs)
    ensures Admissible(ev, workflow, commit, run) <==>
              && |runs| <= 3_200 && |newest| <= 3_200
              && Green(runs, jobs, workflow, commit, run)
              && !Overtaken(newest, workflow, commit, run)
  {
    if Admissible(ev, workflow, commit, run) {
      var listed :| Inventoried(ev.runs, listed) && Latest(listed, workflow, commit, run);
      var again :| Inventoried(ev.newest, again) && !Overtaken(again, workflow, commit, run);
      StableJobs(jobs(run.id.n, run.attempt.n), run.id.n);
    }
    if Green(runs, jobs, workflow, commit, run) && |runs| <= 3_200 && |newest| <= 3_200 {
      StableJobs(jobs(run.id.n, run.attempt.n), run.id.n);
      assert Inventoried(ev.runs, runs) && Inventoried(ev.newest, newest);
    }
  }

  /**
   Main result: on a server where nothing changes, the re-reads never refuse. A run is
   admissible exactly when it is the latest of at most 3200 listed runs, succeeded, and has
   between 1 and 3200 jobs that all succeeded.
   */
  lemma QuietAdmissibleIff(ev: Evidence, workflow: string, commit: string, runs: seq<Run>, jobs: (int, int) -> seq<Job>, run: Run)
    requires ev.runs == Stable(runs) && ev.newest == Stable(runs) && Answers(ev, workflow, commit, runs, runs, jobs)
    ensures Admissible(ev, workflow, commit, run) <==> |runs| <= 3_200 && Green(runs, jobs, workflow, commit, run)
  {
    AdmissibleIff(ev, workflow, commit, runs, runs, jobs, run);
    if Green(runs, jobs, workflow, commit, run) {
      LatestNotOvertaken(runs, workflow, commit, run);
    }
  }

  lemma OvertakenRows(a: seq<Run>, b: seq<Run>, workflow: string, commit: string, run: Run)
    requires Identified(run) && forall row :: row in a <==> row in b
    ensures Overtaken(a, workflow, commit, run) <==> Overtaken(b, workflow, commit, run)
  {
  }

  /** All rows are still shown, the new one only if it was there before page 1. */
  lemma ShownShiftingRows<R>(all: seq<R>, newer: R, m: nat, row: R)
    ensures row in ShownShifting(all, newer, m) <==> row in all || (m == 0 && row == newer)
  {
    var f := m * PER_PAGE;
    if m > 0 && |all| > f {
      assert all == all[..f] + all[f..];
      assert all[f - 1..] == [all[f - 1]] + all[f..];
    }
  }

  /**
   Main result: a newer matching run makes the gate refuse exactly when it was in front before
   the second listing was begun. Put in front between two of its pages, it goes unnoticed.
   */
  lemma NewerRunRefusesIff(ev: Evidence, workflow: string, commit: string, runs: seq<Run>, newer: Run, m: nat, jobs: (int, int) -> seq<Job>, run: Run)
    requires |runs| < 3_200 && Green(runs, jobs, workflow, commit, run)
    requires Matches(newer, workflow, commit) && Identified(newer) && Later(newer, run)
    requires ev.newest == Shifting(runs, newer, m)
    requires Answers(ev, workflow, commit, runs, ShownShifting(runs, newer, m), jobs)
    ensures !Admissible(ev, workflow, commit, run) <==> m == 0
  {
    var newest := ShownShifting(runs, newer, m);
    AdmissibleIff(ev, workflow, commit, runs, newest, jobs, run);
    forall row
      ensures row in newest <==> row in runs || (m == 0 && row == newer)
    {
      ShownShiftingRows(runs, newer, m, row);
    }
    if m == 0 {
      assert newer in newest && Newer(newer, run) == Some(true);
    } else {
      OvertakenRows(newest, runs, workflow, commit, run);
      LatestNotOvertaken(runs, workflow, commit, run);
    }
  }

  lemma StableJobs(all: seq<Job>, id: int)
    ensures AllJobsSucceeded(Stable(all), id)
            <==> 0 < |all| <= 3_200 && forall job :: job in all ==> JobOk(job, id)
  {
    StableInventoryIff(all);
    if |all| <= 3_200 {
      assert Inventoried(Stable(all), all);
    }
  }

  // -------------------------------------------------------- what the answers must contain

  /** A main-branch push run of a workflow for the commit. */
  predicate IsRunOf(run: Run, workflow: string, commit: string) {
    && run.sha == Text(commit) && run.branch == Text("main") && run.event == Text("push")
    && run.path == Text(".github/workflows/" + workflow)
  }

  /** The pair of run number and attempt of the first does not exceed that of the second. */
  predicate NotAbove(a: Run, b: Run) {
    && a.id.Number? && a.attempt.Number? && b.id.Number? && b.attempt.Number?
    && (a.id.n < b.id.n || (a.id.n == b.id.n && a.attempt.n <= b.attempt.n))
  }

  /** Row k is the first of the greatest runs listed, and every run listed has a proper identity. */
  ghost predicate LatestAt(runs: seq<Run>, k: nat, workflow: string, commit: string) {
    && k < |runs| && IsRunOf(runs[k], workflow, commit)
    && (forall j :: 0 <= j < |runs| && IsRunOf(runs[j], workflow, commit) ==>
          && runs[j].id.Number? && runs[j].attempt.Number? && runs[j].id.n > 0 && runs[j].attempt.n > 0
          && NotAbove(runs[j], runs[k]))
    && (forall j :: 0 <= j < k && IsRunOf(runs[j], workflow, commit) ==> !NotAbove(runs[k], runs[j]))
  }

  /** A later row is no obstacle if its number, or else its attempt, is not above; missing counts as 0. */
  predicate NoObstacle(row: Run, run: Run) {
    && run.id.Number? && run.attempt.Number?
    && var id := if row.id.Missing? then Number(0) else row.id;
    var attempt := if row.attempt.Missing? then Number(0) else row.attempt;
    && id.Number?
    && (id.n < run.id.n || (id.n == run.id.n && attempt.Number? && attempt.n <= run.attempt.n))
  }

  /** The members of a run that are read again agree; a missing one agrees with null. */
  predicate SameMember(a: Value, b: Value) {
    a == b || ((a.Missing? || a.Null?) && (b.Missing? || b.Null?))
  }

  ghost predicate GreenJobs(page: Pager<Job>, id: int) {
    exists jobs: seq<Job> :: Inventoried(page, jobs) && jobs != []
      && forall i :: 0 <= i < |jobs| ==>
           jobs[i].runId == Number(id) && jobs[i].status == Text("completed") && jobs[i].conclusion == Text("success")
  }

  ghost predicate ListsAsLatest(page: Pager<Run>, workflow: string, commit: string, run: Run) {
    exists runs: seq<Run>, k: nat :: Inventoried(page, runs) && LatestAt(runs, k, workflow, commit) && runs[k] == run
  }

  ghost predicate ListsNoneNewer(page: Pager<Run>, workflow: string, commit: string, run: Run) {
    exists newest: seq<Run> :: Inventoried(page, newest)
      && forall i :: 0 <= i < |newest| && IsRunOf(newest[i], workflow, commit) ==> NoObstacle(newest[i], run)
  }

  predicate SameMembers(a: Run, b: Run) {
    && SameMember(a.id, b.id) && SameMember(a.attempt, b.attempt) && SameMember(a.sha, b.sha)
    && SameMember(a.branch, b.branch) && SameMember(a.event, b.event)
    && SameMember(a.status, b.status) && SameMember(a.conclusion, b.conclusion)
  }

  /** What the answers for a workflow must contain for its run `run` to be released. */
  ghost predicate Released(ev: Evidence, workflow: string, commit: string, run: Run) {
    && ListsAsLatest(ev.runs, workflow, commit, run)
    && run.id.Number? && run.attempt.Number?
    && run.status == Text("completed") && run.conclusion == Text("success")
    && GreenJobs(ev.jobs(run.id.n, run.attempt.n), run.id.n)
    && ev.current(run.id.n).Some? && SameMembers(ev.current(run.id.n).value, run)
    && ListsNoneNewer(ev.newest, workflow, commit, run)
  }

  lemma {:induction false} MatchingPosition(runs: seq<Run>, workflow: string, commit: string, k: nat) returns (i: nat)
    requires k < |Matching(runs, workflow, commit)|
    ensures i < |runs| && Matches(runs[i], workflow, commit) && runs[i] == Matching(runs, workflow, commit)[k]
    ensures Matching(runs[..i], workflow, commit) == Matching(runs, workflow, commit)[..k]
  {
    var first := if Matches(runs[0], workflow, commit) then [runs[0]] else [];
    if k < |first| {
      i := 0;
    } else {
      var j := MatchingPosition(runs[1..], workflow, commit, k - |first|);
      i := j + 1;
      assert runs[..i][1..] == runs[1..][..j];
    }
  }

  lemma {:induction false} PositionMatching(runs: seq<Run>, workflow: string, commit: string, i: nat) returns (k: nat)
    requires i < |runs| && Matches(runs[i], workflow, commit)
    ensures k < |Matching(runs, workflow, commit)| && runs[i] == Matching(runs, workflow, commit)[k]
    ensures Matching(runs[..i], workflow, commit) == Matching(runs, workflow, commit)[..k]
  {
    var first := if Matches(runs[0], workflow, commit) then [runs[0]] else [];
    if i == 0 {
      k := 0;
    } else {
      var j := PositionMatching(runs[1..], workflow, commit, i - 1);
      k := j + |first|;
      assert runs[..i][1..] == runs[1..][..i - 1];
    }
  }

  lemma LatestAtIsLatest(runs: seq<Run>, k: nat, workflow: string, commit: string)
    requires LatestAt(runs, k, workflow, commit)
    ensures Latest(runs, workflow, commit, runs[k])
  {
    var matching := Matching(runs, workflow, commit);
    var p := PositionMatching(runs, workflow, commit, k);
    forall r | r in matching
      ensures Identified(r) && !Later(r, runs[k])
    {
      var j :| 0 <= j < |runs| && runs[j] == r;
    }
    forall q | 0 <= q < p
      ensures Later(matching[p], matching[q])
    {
      assert matching[q] in matching[..p];
      var j :| 0 <= j < |runs[..k]| && runs[..k][j] == matching[q];
      assert runs[j] == matching[q];
    }
    assert Greatest(matching, p);
  }

  lemma LatestIsAt(runs: seq<Run>, workflow: string, commit: string, run: Run) returns (k: nat)
    requires Latest(runs, workflow, commit, run)
    ensures LatestAt(runs, k, workflow, commit) && runs[k] == run
  {
    var matching := Matching(runs, workflow, commit);
    var p: nat :| Greatest(matching, p) && matching[p] == run;
    k := MatchingPosition(runs, workflow, commit, p);
    forall j | 0 <= j < |runs| && IsRunOf(runs[j], workflow, commit)
      ensures runs[j].id.Number? && runs[j].attempt.Number? && runs[j].id.n > 0 && runs[j].attempt.n > 0
      ensures NotAbove(runs[j], runs[k])
    {
      assert runs[j] in matching;
      var q :| 0 <= q < |matching| && matching[q] == runs[j];
      assert !Later(matching[q], matching[p]);
    }
    forall j | 0 <= j < k && IsRunOf(runs[j], workflow, commit)
      ensures !NotAbove(runs[k], runs[j])
    {
      assert runs[..k][j] == runs[j] && runs[j] in Matching(runs[..k], workflow, commit);
      var q :| 0 <= q < p && matching[q] == runs[j];
    }
  }

  lemma OvertakenIff(newest: seq<Run>, workflow: string, commit: string, run: Run)
    requires Identified(run)
    ensures !Overtaken(newest, workflow, commit, run) <==>
              forall i :: 0 <= i < |newest| && IsRunOf(newest[i], workflow, commit) ==> NoObstacle(newest[i], run)
  {
    forall row
      ensures NoObstacle(row, run) <==> Newer(row, run) == Some(false)
    {
    }
    if !Overtaken(newest, workflow, commit, run) {
      forall i | 0 <= i < |newest| && IsRunOf(newest[i], workflow, commit)
        ensures NoObstacle(newest[i], run)
      {
        assert newest[i] in newest && Matches(newest[i], workflow, commit);
      }
    }
  }

  lemma GreenJobsIff(page: Pager<Job>, id: int)
    ensures AllJobsSucceeded(page, id) <==> GreenJobs(page, id)
  {
    if AllJobsSucceeded(page, id) {
      var jobs :| Inventoried(page, jobs) && jobs != [] && forall job :: job in jobs ==> JobOk(job, id);
      assert forall i :: 0 <= i < |jobs| ==> JobOk(jobs[i], id);
    }
  }

  lemma ListsLatestIff(page: Pager<Run>, workflow: string, commit: string, run: Run)
    ensures ListsLatest(page, workflow, commit, run) <==> ListsAsLatest(page, workflow, commit, run)
    ensures ListsLatest(page, workflow, commit, run) ==> Identified(run)
  {
    if ListsLatest(page, workflow, commit, run) {
      var runs :| Inventoried(page, runs) && Latest(runs, workflow, commit, run);
      var k := LatestIsAt(runs, workflow, commit, run);
    }
    if ListsAsLatest(page, workflow, commit, run) {
      var runs: seq<Run>, k: nat :| Inventoried(page, runs) && LatestAt(runs, k, workflow, commit) && runs[k] == run;
      LatestAtIsLatest(runs, k, workflow, commit);
    }
  }

  lemma NoneNewerIff(page: Pager<Run>, workflow: string, commit: string, run: Run)
    requires Identified(run)
    ensures NotOvertaken(page, workflow, commit, run) <==> ListsNoneNewer(page, workflow, commit, run)
  {
    if NotOvertaken(page, workflow, commit, run) {
      var newest :| Inventoried(page, newest) && !Overtaken(newest, workflow, commit, run);
      OvertakenIff(newest, workflow, commit, run);
    }
    if ListsNoneNewer(page, workflow, commit, run) {
      var newest: seq<Run> :| Inventoried(page, newest)
        && forall i :: 0 <= i < |newest| && IsRunOf(newest[i], workflow, commit) ==> NoObstacle(newest[i], run);
      OvertakenIff(newest, workflow, commit, run);
    }
  }

  lemma MembersIff(now: Option<Run>, run: Run)
    ensures now.Some? && Unchanged(now.value, run) <==> now.Some? && SameMembers(now.value, run)
  {
  }

  /** Main result: a run is admissible exactly when the answers say so, in their own members. */
  lemma ReleasedIff(ev: Evidence, workflow: string, commit: string, run: Run)
    ensures Admissible(ev, workflow, commit, run) <==> Released(ev, workflow, commit, run)
  {
    ListsLatestIff(ev.runs, workflow, commit, run);
    if ListsLatest(ev.runs, workflow, commit, run) {
      GreenJobsIff(ev.jobs(run.id.n, run.attempt.n), run.id.n);
      NoneNewerIff(ev.newest, workflow, commit, run);
      MembersIff(ev.current(run.id.n), run);
    }
  }

  /**
   Main result, on a server where nothing changes: a workflow has an admissible run exactly
   when it lists at most 3200 runs, the latest of them is completed with success, and so are
   all of its jobs, of which there are 1 to 3200.
   */
  lemma QuietReleasedIff(ev: Evidence, workflow: string, commit: string, runs: seq<Run>, jobs: (int, int) -> seq<Job>)
    requires ev.runs == Stable(runs) && ev.newest == Stable(runs) && Answers(ev, workflow, commit, runs, runs, jobs)
    ensures (exists run :: Admissible(ev, workflow, commit, run)) <==>
              && |runs| <= 3_200
              && exists k: nat :: LatestAt(runs, k, workflow, commit) && CompletedWithSuccess(runs[k], jobs)
  {
    if run :| Admissible(ev, workflow, commit, run) {
      QuietAdmissibleIff(ev, workflow, commit, runs, jobs, run);
      var k := LatestIsAt(runs, workflow, commit, run);
    }
    if k: nat :| LatestAt(runs, k, workflow, commit) && CompletedWithSuccess(runs[k], jobs) {
      LatestAtIsLatest(runs, k, workflow, commit);
      QuietAdmissibleIff(ev, workflow, commit, runs, jobs, runs[k]);
    }
  }

  ghost predicate CompletedWithSuccess(run: Run, jobs: (int, int) -> seq<Job>) {
    && run.status == Text("completed") && run.conclusion == Text("success") && run.id.Number? && run.attempt.Number?
    && var all := jobs(run.id.n, run.attempt.n);
    && 0 < |all| <= 3_200
    && forall job :: job in all ==>
         job.runId == run.id && job.status == Text("completed") && job.conclusion == Text("success")
  }
}
