/**
 Recall over two memory stores: each store answers a search with its own best hits, the
 answers are put one after the other, sorted by descending score and cut to `k`.

 The ranking inside a store is not part of this model; that a store returns its best `k` hits
 is the assumption of the main result. Scores are exact numbers.
 */
module Recall {

  datatype Label = Project | Global

  datatype Hit = Hit(store: Label, id: string, memory: string, score: real)

  /** What asking a store yields: there may be no store, or the search may fail. */
  datatype Answer = Absent | Failed | Found(hits: seq<Hit>) {
    function Hits(): seq<Hit> {
      if Found? then hits else []
    }
  }

  datatype Scope = Smart | OnlyGlobal | OnlyProject

  // ------------------------------------------------------------------- stable sorting

  ghost predicate Descending(s: seq<Hit>) {
    forall i, j :: 0 <= i < j < |s| ==> s[i].score >= s[j].score
  }

  /** The hits of one score, in order. */
  function Tied(s: seq<Hit>, score: real): seq<Hit> {
    if s == [] then []
    else Tied(s[..|s| - 1], score) + (if s[|s| - 1].score == score then [s[|s| - 1]] else [])
  }

  /** The one order a stable descending sort can produce. */
  ghost predicate StablySorted(input: seq<Hit>, s: seq<Hit>) {
    Descending(s) && multiset(s) == multiset(input) && forall score :: Tied(s, score) == Tied(input, score)
  }

  lemma {:induction false} TiedAppend(a: seq<Hit>, b: seq<Hit>, score: real)
    ensures Tied(a + b, score) == Tied(a, score) + Tied(b, score)
  {
    if b == [] {
      assert a + b == a;
    } else {
      var front := b[..|b| - 1];
      TiedAppend(a, front, score);
      assert (a + b)[..|a + b| - 1] == a + front;
    }
  }

  lemma {:induction false} TiedNone(s: seq<Hit>, score: real)
    requires forall i :: 0 <= i < |s| ==> s[i].score != score
    ensures Tied(s, score) == []
  {
    if s != [] {
      TiedNone(s[..|s| - 1], score);
    }
  }

  lemma TiedOne(h: Hit, score: real)
    ensures Tied([h], score) == if h.score == score then [h] else []
  {
    assert [h][..0] == [];
  }

  /** Moving a hit in front of hits of lower score changes no tie. */
  lemma MoveKeepsTies(a: seq<Hit>, low: seq<Hit>, h: Hit, score: real)
    requires forall i :: 0 <= i < |low| ==> low[i].score < h.score
    ensures Tied(a + [h] + low, score) == Tied(a + low, score) + Tied([h], score)
  {
    TiedAppend(a + [h], low, score);
    TiedAppend(a, [h], score);
    TiedAppend(a, low, score);
    TiedOne(h, score);
    if score == h.score {
      TiedNone(low, score);
    }
    EmptyMoves(Tied(a, score), Tied([h], score), Tied(low, score));
  }

  lemma EmptyMoves(a: seq<Hit>, b: seq<Hit>, c: seq<Hit>)
    requires b == [] || c == []
    ensures a + b + c == a + c + b
  {
  }

  /** `sort_by` with descending scores, by insertion from the left. */
  method SortDescending(input: seq<Hit>) returns (s: seq<Hit>)
    ensures StablySorted(input, s)
  {
    s := [];
    for n := 0 to |input|
      invariant StablySorted(input[..n], s)
    {
      var h := input[n];
      var p := PlaceFor(s, h);
      InsertKeeps(input[..n], s, h, p);
      assert input[..n + 1] == input[..n] + [h];
      s := s[..p] + [h] + s[p..];
    }
    assert input[..|input|] == input;
  }

  method PlaceFor(s: seq<Hit>, h: Hit) returns (p: nat)
    ensures p <= |s| && (p > 0 ==> s[p - 1].score >= h.score)
    ensures forall i :: p <= i < |s| ==> s[i].score < h.score
  {
    p := |s|;
    while p > 0 && s[p - 1].score < h.score
      invariant p <= |s|
      invariant forall i :: p <= i < |s| ==> s[i].score < h.score
    {
      p := p - 1;
    }
  }

  lemma InsertKeeps(input: seq<Hit>, s: seq<Hit>, h: Hit, p: nat)
    requires StablySorted(input, s) && p <= |s|
    requires forall i :: p <= i < |s| ==> s[i].score < h.score
    requires p > 0 ==> s[p - 1].score >= h.score
    ensures StablySorted(input + [h], s[..p] + [h] + s[p..])
  {
    var t := s[..p] + [h] + s[p..];
    assert s[..p] + s[p..] == s;
    InsertDescends(s, h, p);
    assert multiset(t) == multiset(s) + multiset{h};
    forall score
      ensures Tied(t, score) == Tied(input + [h], score)
    {
      MoveKeepsTies(s[..p], s[p..], h, score);
      TiedAppend(input, [h], score);
    }
  }

  lemma InsertDescends(s: seq<Hit>, h: Hit, p: nat)
    requires Descending(s) && p <= |s|
    requires forall i :: p <= i < |s| ==> s[i].score < h.score
    requires p > 0 ==> s[p - 1].score >= h.score
    ensures Descending(s[..p] + [h] + s[p..])
  {
  }

  // ------------------------------------------------------------------------ best hits

  /** Reference: `r` is some k best of a pool, or all of a smaller pool. */
  ghost predicate Best(r: seq<Hit>, pool: multiset<Hit>, k: nat) {
    && multiset(r) <= pool
    && |r| == (if |pool| < k then |pool| else k)
    && forall x, y :: x in multiset(r) && y in pool - multiset(r) ==> x.score >= y.score
  }

  lemma SubsetSize(a: multiset<Hit>, b: multiset<Hit>)
    requires a <= b
    ensures |a| <= |b| && (|a| == |b| ==> a == b)
  {
    assert b == a + (b - a);
  }

  /** What outscores everything from position n on must fit into the first n positions. */
  lemma OutscoringFits(few: multiset<Hit>, s: seq<Hit>, n: nat, v: real)
    requires n <= |s| && few <= multiset(s)
    requires forall x :: x in few ==> x.score >= v
    requires forall i :: n <= i < |s| ==> s[i].score < v
    ensures |few| <= n
  {
    var front, back := s[..n], s[n..];
    CutSplits(s, n);
    forall y: Hit | y in multiset(back)
      ensures y.score < v
    {
      var i :| 0 <= i < |back| && back[i] == y;
      assert s[n + i] == y;
    }
    SubsetSize(few, multiset(front));
  }

  lemma UnchosenBelow(r: seq<Hit>, pool: multiset<Hit>, k: nat, s: seq<Hit>, y: Hit, i: nat)
    requires Best(r, pool, k) && y in pool - multiset(r)
    requires Descending(s) && multiset(r) <= multiset(s) && i < k && i < |s|
    ensures s[i].score >= y.score
  {
    SubsetSize(multiset(r), pool);
    if s[i].score < y.score {
      OutscoringFits(multiset(r), s, i, y.score);
    }
  }

  lemma CutSplits(s: seq<Hit>, k: nat)
    requires k <= |s|
    ensures multiset(s) == multiset(s[..k]) + multiset(s[k..])
  {
    assert s == s[..k] + s[k..];
  }

  function Cut(s: seq<Hit>, k: nat): seq<Hit> {
    if |s| < k then s else s[..k]
  }

  lemma CutOutscores(s: seq<Hit>, k: nat, i: nat, y: Hit)
    requires Descending(s) && i < |Cut(s, k)| && y in multiset(s) - multiset(Cut(s, k))
    ensures s[i].score >= y.score
  {
    CutSplits(s, |Cut(s, k)|);
    var j :| 0 <= j < |s[k..]| && s[k..][j] == y;
    assert s[k + j] == y;
  }

  /**
   Main result: cutting the sorted concatenation of the best k of each pool gives a best k of
   both pools together, in descending order.
   */
  lemma MergedIsBest(a: seq<Hit>, b: seq<Hit>, s: seq<Hit>, p: multiset<Hit>, q: multiset<Hit>, k: nat)
    requires Best(a, p, k) && Best(b, q, k) && StablySorted(a + b, s)
    ensures Best(Cut(s, k), p + q, k) && Descending(Cut(s, k))
  {
    var m := Cut(s, k);
    assert multiset(s) == multiset(a) + multiset(b);
    SameSize(s, a + b);
    CutFacts(s, k);
    forall x: Hit, y: Hit | x in multiset(m) && y in p + q - multiset(m)
      ensures x.score >= y.score
    {
      MergedOrder(a, b, s, p, q, k, x, y);
    }
  }

  lemma MergedOrder(a: seq<Hit>, b: seq<Hit>, s: seq<Hit>, p: multiset<Hit>, q: multiset<Hit>, k: nat, x: Hit, y: Hit)
    requires Best(a, p, k) && Best(b, q, k)
    requires Descending(s) && multiset(s) == multiset(a) + multiset(b)
    requires x in multiset(Cut(s, k)) && y in p + q - multiset(Cut(s, k))
    ensures x.score >= y.score
  {
    var i :| 0 <= i < |Cut(s, k)| && Cut(s, k)[i] == x;
    RestBelow(a, b, s, p, q, k, i, y);
  }

  lemma CutFacts(s: seq<Hit>, k: nat)
    requires Descending(s)
    ensures Descending(Cut(s, k)) && multiset(Cut(s, k)) <= multiset(s)
  {
    CutSplits(s, |Cut(s, k)|);
  }

  lemma RestBelow(a: seq<Hit>, b: seq<Hit>, s: seq<Hit>, p: multiset<Hit>, q: multiset<Hit>, k: nat, i: nat, y: Hit)
    requires Best(a, p, k) && Best(b, q, k)
    requires Descending(s) && multiset(s) == multiset(a) + multiset(b)
    requires i < |Cut(s, k)| && y in p + q - multiset(Cut(s, k))
    ensures s[i].score >= y.score
  {
    if y in p - multiset(a) {
      UnchosenBelow(a, p, k, s, y, i);
    } else if y in q - multiset(b) {
      UnchosenBelow(b, q, k, s, y, i);
    } else {
      CutOutscores(s, k, i, y);
    }
  }

  lemma SameSize(s: seq<Hit>, t: seq<Hit>)
    requires multiset(s) == multiset(t)
    ensures |s| == |t|
  {
    assert |multiset(s)| == |s| && |multiset(t)| == |t|;
  }

  /** Two best answers in descending order show the same scores, place by place. */
  lemma BestScoresAgree(r: seq<Hit>, t: seq<Hit>, pool: multiset<Hit>, k: nat)
    requires Best(r, pool, k) && Descending(r)
    requires Best(t, pool, k) && Descending(t)
    ensures |r| == |t| && forall i :: 0 <= i < |r| ==> r[i].score == t[i].score
  {
    forall i | 0 <= i < |r|
      ensures r[i].score == t[i].score
    {
      BestScoreAbove(r, t, pool, k, i);
      BestScoreAbove(t, r, pool, k, i);
    }
  }

  lemma BestScoreAbove(r: seq<Hit>, t: seq<Hit>, pool: multiset<Hit>, k: nat, i: nat)
    requires Best(r, pool, k) && Descending(r)
    requires Best(t, pool, k) && Descending(t)
    requires i < |r|
    ensures t[i].score >= r[i].score
  {
    if t[i].score < r[i].score {
      var front := r[..i + 1];
      CutSplits(r, i + 1);
      FrontAtLeast(r, i);
      ChosenWhole(multiset(front), t, pool, k, i, r[i].score);
      TailBelow(t, i, r[i].score);
      OutscoringFits(multiset(front), t, i, r[i].score);
    }
  }

  lemma TailBelow(t: seq<Hit>, i: nat, v: real)
    requires Descending(t) && i < |t| && t[i].score < v
    ensures forall j :: i <= j < |t| ==> t[j].score < v
  {
  }

  lemma FrontAtLeast(r: seq<Hit>, i: nat)
    requires Descending(r) && i < |r|
    ensures forall x :: x in multiset(r[..i + 1]) ==> x.score >= r[i].score
  {
    forall x: Hit | x in multiset(r[..i + 1])
      ensures x.score >= r[i].score
    {
      var j :| 0 <= j < |r[..i + 1]| && r[..i + 1][j] == x;
      assert r[j] == x;
    }
  }

  lemma ChosenWhole(few: multiset<Hit>, t: seq<Hit>, pool: multiset<Hit>, k: nat, i: nat, v: real)
    requires few <= pool && Best(t, pool, k) && i < |t| && t[i].score < v
    requires forall x :: x in few ==> x.score >= v
    ensures few <= multiset(t)
  {
    var worst := t[i];
    assert worst in multiset(t);
    forall x | x in few
      ensures few[x] <= multiset(t)[x]
    {
      assert x !in pool - multiset(t);
    }
  }

  // ------------------------------------------------------------------------ the recall

  /** Both `recall_text` (k = 10, any scope) and the automatic context (k = 5, both stores). */
  method RecallHits(project: Answer, global: Answer, scope: Scope, k: nat) returns (hits: seq<Hit>)
    ensures exists s :: StablySorted(Collected(project, global, scope), s) && hits == Cut(s, k)
  {
    hits := [];
    if scope != OnlyGlobal && project.Found? {
      hits := hits + project.hits;
    }
    if scope != OnlyProject && global.Found? {
      hits := hits + global.hits;
    }
    assert hits == Collected(project, global, scope);
    var s := SortDescending(hits);
    hits := Cut(s, k);
  }

  function Collected(project: Answer, global: Answer, scope: Scope): seq<Hit> {
    (if scope == OnlyGlobal then [] else project.Hits()) + (if scope == OnlyProject then [] else global.Hits())
  }

  /** What a store holds, as far as a recall can see it. */
  ghost function Visible(answer: Answer, pool: multiset<Hit>, asked: bool): multiset<Hit> {
    if asked && answer.Found? then pool else multiset{}
  }

  /** A store that is absent, failing or out of scope contributes nothing; the rest is still best. */
  lemma RecallIsBest(project: Answer, global: Answer, scope: Scope, k: nat, s: seq<Hit>, p: multiset<Hit>, q: multiset<Hit>)
    requires project.Found? ==> Best(project.hits, p, k)
    requires global.Found? ==> Best(global.hits, q, k)
    requires StablySorted(Collected(project, global, scope), s)
    ensures Descending(Cut(s, k))
    ensures Best(Cut(s, k), Visible(project, p, scope != OnlyGlobal) + Visible(global, q, scope != OnlyProject), k)
  {
    var a := if scope == OnlyGlobal then [] else project.Hits();
    var b := if scope == OnlyProject then [] else global.Hits();
    MergedIsBest(a, b, s, Visible(project, p, scope != OnlyGlobal), Visible(global, q, scope != OnlyProject), k);
  }

  /** Of equally good hits, those of the project store come first. */
  lemma TiesFavourProject(project: Answer, global: Answer, s: seq<Hit>, score: real)
    requires StablySorted(Collected(project, global, Smart), s)
    ensures Tied(s, score) == Tied(project.Hits(), score) + Tied(global.Hits(), score)
  {
    TiedAppend(project.Hits(), global.Hits(), score);
  }
}
