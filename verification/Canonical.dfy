/**
 The oracle's `normalize`: UUIDs and process ids in a JSON tree are replaced by numbers in
 the order in which a traversal first meets them.

 Strings are sequences of tokens, so that finding identifiers in text is left to the
 regular expressions; what is proved is that the numbering is a canonical form.
 */
module Canonical {

  datatype Token =
    | Literal(text: string)
    | Uuid(id: string)
    | Pid(id: string)
    | UuidName(n: nat)
    | PidName(n: nat)

  datatype Kind = ListOf | DictOf(keys: seq<string>)

  /** A JSON value. Dictionary entries are visited in insertion order; keys are kept. */
  datatype Tree =
    | Text(tokens: seq<Token>)
    | Branch(kind: Kind, children: seq<Tree>)
    | Scalar(value: string)

  /** Identifiers met so far, in order of first encounter. */
  datatype Env = Env(uuids: seq<string>, pids: seq<string>)

  datatype Out<T> = Out(value: T, env: Env)

  const EMPTY := Env([], [])

  // ---------------------------------------------------------------------- numbering

  predicate Distinct(e: seq<string>) {
    forall i, j :: 0 <= i < j < |e| ==> e[i] != e[j]
  }

  /** Number of an identifier: its place among the ones met, or the next free place. */
  function NumberOf(e: seq<string>, id: string): (n: nat)
    ensures 1 <= n <= |e| + 1
    ensures n <= |e| ==> e[n - 1] == id
    ensures n == |e| + 1 <==> id !in e
  {
    if e == [] || e[0] == id then 1 else 1 + NumberOf(e[1..], id)
  }

  function Met(e: seq<string>, id: string): (e': seq<string>)
    ensures e <= e' && id in e'
    ensures e'[NumberOf(e, id) - 1] == id
    ensures |e'| == if NumberOf(e, id) > |e| then NumberOf(e, id) else |e|
    ensures Distinct(e) ==> Distinct(e')
  {
    if id in e then e else e + [id]
  }

  function WalkToken(t: Token, env: Env): Out<Token> {
    match t
    case Uuid(id) => Out(UuidName(NumberOf(env.uuids, id)), env.(uuids := Met(env.uuids, id)))
    case Pid(id) => Out(PidName(NumberOf(env.pids, id)), env.(pids := Met(env.pids, id)))
    case _ => Out(t, env)
  }

  function WalkText(tokens: seq<Token>, env: Env): (r: Out<seq<Token>>)
    ensures |r.value| == |tokens|
  {
    if tokens == [] then Out([], env) else
    var first := WalkToken(tokens[0], env);
    var rest := WalkText(tokens[1..], first.env);
    Out([first.value] + rest.value, rest.env)
  }

  function Walk(t: Tree, env: Env): Out<Tree>
    decreases t, 0
  {
    match t
    case Text(tokens) => var r := WalkText(tokens, env); Out(Text(r.value), r.env)
    case Branch(kind, children) => var r := WalkAll(children, env); Out(Branch(kind, r.value), r.env)
    case Scalar(_) => Out(t, env)
  }

  function WalkAll(ts: seq<Tree>, env: Env): (r: Out<seq<Tree>>)
    ensures |r.value| == |ts|
    decreases ts, 1
  {
    if ts == [] then Out([], env) else
    var first := Walk(ts[0], env);
    var rest := WalkAll(ts[1..], first.env);
    Out([first.value] + rest.value, rest.env)
  }

  function Normalize(t: Tree): Tree {
    Walk(t, EMPTY).value
  }

  ghost predicate ValidEnv(env: Env) {
    Distinct(env.uuids) && Distinct(env.pids)
  }

  ghost predicate Extends(env: Env, later: Env) {
    env.uuids <= later.uuids && env.pids <= later.pids
  }

  lemma {:induction false} WalkTextExtends(tokens: seq<Token>, env: Env)
    ensures Extends(env, WalkText(tokens, env).env)
    ensures ValidEnv(env) ==> ValidEnv(WalkText(tokens, env).env)
  {
    if tokens != [] {
      WalkTextExtends(tokens[1..], WalkToken(tokens[0], env).env);
    }
  }

  lemma {:induction false} WalkExtends(t: Tree, env: Env)
    ensures Extends(env, Walk(t, env).env)
    ensures ValidEnv(env) ==> ValidEnv(Walk(t, env).env)
    decreases t, 0
  {
    match t
    case Text(tokens) => WalkTextExtends(tokens, env);
    case Branch(_, children) => WalkAllExtends(children, env);
    case Scalar(_) =>
  }

  lemma {:induction false} WalkAllExtends(ts: seq<Tree>, env: Env)
    ensures Extends(env, WalkAll(ts, env).env)
    ensures ValidEnv(env) ==> ValidEnv(WalkAll(ts, env).env)
    decreases ts, 1
  {
    if ts != [] {
      WalkExtends(ts[0], env);
      WalkAllExtends(ts[1..], Walk(ts[0], env).env);
    }
  }

  // ------------------------------------------------------------------------ renaming

  type Renaming = map<string, string>

  ghost predicate Injective(m: Renaming) {
    forall a, b :: a in m && b in m && m[a] == m[b] ==> a == b
  }

  function Renamed(m: Renaming, id: string): string {
    if id in m then m[id] else id
  }

  function RenameToken(t: Token, u: Renaming, p: Renaming): Token {
    match t
    case Uuid(id) => Uuid(Renamed(u, id))
    case Pid(id) => Pid(Renamed(p, id))
    case _ => t
  }

  function RenameText(tokens: seq<Token>, u: Renaming, p: Renaming): (r: seq<Token>)
    ensures |r| == |tokens|
    ensures forall i :: 0 <= i < |tokens| ==> r[i] == RenameToken(tokens[i], u, p)
  {
    seq(|tokens|, i requires 0 <= i < |tokens| => RenameToken(tokens[i], u, p))
  }

  function Rename(t: Tree, u: Renaming, p: Renaming): Tree
    decreases t, 0
  {
    match t
    case Text(tokens) => Text(RenameText(tokens, u, p))
    case Branch(kind, children) => Branch(kind, RenameAll(children, u, p))
    case Scalar(_) => t
  }

  function RenameAll(ts: seq<Tree>, u: Renaming, p: Renaming): (r: seq<Tree>)
    ensures |r| == |ts|
    ensures forall i :: 0 <= i < |ts| ==> r[i] == Rename(ts[i], u, p)
    decreases ts, 1
  {
    seq(|ts|, i requires 0 <= i < |ts| => Rename(ts[i], u, p))
  }

  ghost predicate TokenCovered(t: Token, u: set<string>, p: set<string>) {
    (t.Uuid? ==> t.id in u) && (t.Pid? ==> t.id in p)
  }

  /** Every identifier of the tree is in the given sets. */
  ghost predicate Covered(t: Tree, u: set<string>, p: set<string>) {
    match t
    case Text(tokens) => forall i :: 0 <= i < |tokens| ==> TokenCovered(tokens[i], u, p)
    case Branch(_, children) => forall i :: 0 <= i < |children| ==> Covered(children[i], u, p)
    case Scalar(_) => true
  }

  ghost predicate RawToken(t: Token) {
    !t.UuidName? && !t.PidName?
  }

  ghost predicate SameTextPlaces(s: seq<Token>, t: seq<Token>) {
    |s| == |t| && forall i :: 0 <= i < |s| ==> (RawToken(s[i]) <==> RawToken(t[i]))
  }

  /** Names the program could have invented stand at the same token places of both trees. */
  ghost predicate SamePlaces(s: Tree, t: Tree) {
    match s
    case Text(tokens) => t.Text? && SameTextPlaces(tokens, t.tokens)
    case Branch(_, children) =>
      t.Branch? && |children| == |t.children|
      && forall i :: 0 <= i < |children| ==> SamePlaces(children[i], t.children[i])
    case Scalar(_) => t.Scalar?
  }

  /** The trees differ by one bijection of UUIDs and one of process ids, and by nothing else. */
  ghost predicate RenamesTo(s: Tree, t: Tree, u: Renaming, p: Renaming) {
    && Injective(u) && Injective(p)
    && Covered(s, u.Keys, p.Keys)
    && t == Rename(s, u, p)
  }

  ghost predicate AlphaEquivalent(s: Tree, t: Tree) {
    exists u, p :: RenamesTo(s, t, u, p)
  }

  // -------------------------------------------------- equivalent trees normalise alike

  ghost function RenamedAll(e: seq<string>, m: Renaming): (r: seq<string>)
    ensures |r| == |e|
  {
    seq(|e|, i requires 0 <= i < |e| => Renamed(m, e[i]))
  }

  ghost function RenamedEnv(env: Env, u: Renaming, p: Renaming): Env {
    Env(RenamedAll(env.uuids, u), RenamedAll(env.pids, p))
  }

  ghost predicate EnvCovered(env: Env, u: Renaming, p: Renaming) {
    (forall x :: x in env.uuids ==> x in u) && (forall x :: x in env.pids ==> x in p)
  }

  lemma {:induction false} NumberRenamed(e: seq<string>, m: Renaming, id: string)
    requires Injective(m) && id in m && forall x :: x in e ==> x in m
    ensures NumberOf(RenamedAll(e, m), m[id]) == NumberOf(e, id)
  {
    if e != [] {
      assert RenamedAll(e, m)[1..] == RenamedAll(e[1..], m);
      if e[0] != id {
        NumberRenamed(e[1..], m, id);
      }
    }
  }

  lemma MetRenamed(e: seq<string>, m: Renaming, id: string)
    requires Injective(m) && id in m && forall x :: x in e ==> x in m
    ensures Met(RenamedAll(e, m), m[id]) == RenamedAll(Met(e, id), m)
  {
    NumberRenamed(e, m, id);
  }

  lemma TokenRenamed(t: Token, env: Env, u: Renaming, p: Renaming)
    requires Injective(u) && Injective(p) && EnvCovered(env, u, p) && TokenCovered(t, u.Keys, p.Keys)
    ensures var r := WalkToken(t, env);
      && WalkToken(RenameToken(t, u, p), RenamedEnv(env, u, p)) == Out(r.value, RenamedEnv(r.env, u, p))
      && EnvCovered(r.env, u, p)
  {
    if t.Uuid? {
      NumberRenamed(env.uuids, u, t.id);
      MetRenamed(env.uuids, u, t.id);
    }
    if t.Pid? {
      NumberRenamed(env.pids, p, t.id);
      MetRenamed(env.pids, p, t.id);
    }
  }

  lemma {:induction false} TextRenamed(tokens: seq<Token>, env: Env, u: Renaming, p: Renaming)
    requires Injective(u) && Injective(p) && EnvCovered(env, u, p)
    requires forall i :: 0 <= i < |tokens| ==> TokenCovered(tokens[i], u.Keys, p.Keys)
    ensures var r := WalkText(tokens, env);
      && WalkText(RenameText(tokens, u, p), RenamedEnv(env, u, p)) == Out(r.value, RenamedEnv(r.env, u, p))
      && EnvCovered(r.env, u, p)
  {
    if tokens != [] {
      TokenRenamed(tokens[0], env, u, p);
      TextRenamed(tokens[1..], WalkToken(tokens[0], env).env, u, p);
      assert RenameText(tokens, u, p)[1..] == RenameText(tokens[1..], u, p);
    }
  }

  lemma {:induction false} TreeRenamed(t: Tree, env: Env, u: Renaming, p: Renaming)
    requires Injective(u) && Injective(p) && EnvCovered(env, u, p) && Covered(t, u.Keys, p.Keys)
    ensures var r := Walk(t, env);
      && Walk(Rename(t, u, p), RenamedEnv(env, u, p)) == Out(r.value, RenamedEnv(r.env, u, p))
      && EnvCovered(r.env, u, p)
    decreases t, 0
  {
    match t
    case Text(tokens) => TextRenamed(tokens, env, u, p);
    case Branch(_, children) => AllRenamed(children, env, u, p);
    case Scalar(_) =>
  }

  lemma {:induction false} AllRenamed(ts: seq<Tree>, env: Env, u: Renaming, p: Renaming)
    requires Injective(u) && Injective(p) && EnvCovered(env, u, p)
    requires forall i :: 0 <= i < |ts| ==> Covered(ts[i], u.Keys, p.Keys)
    ensures var r := WalkAll(ts, env);
      && WalkAll(RenameAll(ts, u, p), RenamedEnv(env, u, p)) == Out(r.value, RenamedEnv(r.env, u, p))
      && EnvCovered(r.env, u, p)
    decreases ts, 1
  {
    if ts != [] {
      TreeRenamed(ts[0], env, u, p);
      AllRenamed(ts[1..], Walk(ts[0], env).env, u, p);
      assert RenameAll(ts, u, p)[1..] == RenameAll(ts[1..], u, p);
    }
  }

  // ------------------------------------------ trees that normalise alike are equivalent

  /** Sends the i-th identifier of one list to the i-th of another. */
  ghost function Zip(from: seq<string>, to: seq<string>): (m: Renaming)
    requires |from| == |to|
    ensures m.Keys == set x | x in from
    ensures Distinct(from) ==> forall i :: 0 <= i < |from| ==> m[from[i]] == to[i]
  {
    map x | x in from :: to[NumberOf(from, x) - 1]
  }

  lemma ZipInjective(from: seq<string>, to: seq<string>)
    requires |from| == |to| && Distinct(from) && Distinct(to)
    ensures Injective(Zip(from, to))
  {
  }

  /** Two final environments of the same size, and the renaming they induce. */
  ghost predicate Aligned(e: Env, f: Env) {
    && ValidEnv(e) && ValidEnv(f)
    && |e.uuids| == |f.uuids| && |e.pids| == |f.pids|
  }

  ghost predicate SameSize(e: Env, f: Env) {
    |e.uuids| == |f.uuids| && |e.pids| == |f.pids|
  }

  /** What equal output says about two inputs, given the environments in which both walks end. */
  ghost predicate Explained(s: Tree, t: Tree, e: Env, f: Env)
    requires Aligned(e, f)
  {
    var u, p := Zip(e.uuids, f.uuids), Zip(e.pids, f.pids);
    Covered(s, u.Keys, p.Keys) && t == Rename(s, u, p)
  }

  lemma {:induction false} TextSameSize(s: seq<Token>, t: seq<Token>, e: Env, f: Env, out: seq<Token>, es: Env, fs: Env)
    requires SameSize(e, f) && SameTextPlaces(s, t)
    requires WalkText(s, e) == Out(out, es) && WalkText(t, f) == Out(out, fs)
    ensures SameSize(es, fs)
  {
    if s != [] {
      FirstToken(s, e, out, es, es);
      FirstToken(t, f, out, fs, fs);
      RestPlaces(s, t);
      TextSameSize(s[1..], t[1..], WalkToken(s[0], e).env, WalkToken(t[0], f).env, out[1..], es, fs);
    }
  }

  lemma {:induction false} TreeSameSize(s: Tree, t: Tree, e: Env, f: Env)
    requires SameSize(e, f) && Walk(s, e).value == Walk(t, f).value && SamePlaces(s, t)
    ensures SameSize(Walk(s, e).env, Walk(t, f).env)
    decreases s, 0
  {
    match s
    case Text(tokens) => TextSameSize(tokens, t.tokens, e, f, WalkText(tokens, e).value, WalkText(tokens, e).env, WalkText(t.tokens, f).env);
    case Branch(_, children) => AllSameSize(children, t.children, e, f);
    case Scalar(_) =>
  }

  lemma {:induction false} AllSameSize(s: seq<Tree>, t: seq<Tree>, e: Env, f: Env)
    requires SameSize(e, f) && WalkAll(s, e).value == WalkAll(t, f).value
    requires |s| == |t| && forall i :: 0 <= i < |s| ==> SamePlaces(s[i], t[i])
    ensures SameSize(WalkAll(s, e).env, WalkAll(t, f).env)
    decreases s, 1
  {
    if s != [] {
      var a, b := Walk(s[0], e), Walk(t[0], f);
      assert a.value == WalkAll(s, e).value[0] && b.value == WalkAll(t, f).value[0];
      assert WalkAll(s[1..], a.env).value == WalkAll(s, e).value[1..];
      assert WalkAll(t[1..], b.env).value == WalkAll(t, f).value[1..];
      TreeSameSize(s[0], t[0], e, f);
      AllSameSize(s[1..], t[1..], a.env, b.env);
    }
  }

  lemma TokenExplained(s: Token, t: Token, e: Env, f: Env, le: Env, lf: Env)
    requires SameSize(e, f) && Aligned(le, lf)
    requires Extends(WalkToken(s, e).env, le) && Extends(WalkToken(t, f).env, lf)
    requires WalkToken(s, e).value == WalkToken(t, f).value && (RawToken(s) <==> RawToken(t))
    ensures var u, p := Zip(le.uuids, lf.uuids), Zip(le.pids, lf.pids);
      TokenCovered(s, u.Keys, p.Keys) && t == RenameToken(s, u, p)
  {
    match s
    case Uuid(id) =>
      var n := NumberOf(e.uuids, id);
      assert le.uuids[n - 1] == id && lf.uuids[n - 1] == t.id;
    case Pid(id) =>
      var n := NumberOf(e.pids, id);
      assert le.pids[n - 1] == id && lf.pids[n - 1] == t.id;
    case _ =>
  }

  ghost predicate Tokenwise(s: seq<Token>, t: seq<Token>, u: Renaming, p: Renaming) {
    if s == [] then t == []
    else
      && t != [] && TokenCovered(s[0], u.Keys, p.Keys) && t[0] == RenameToken(s[0], u, p)
      && Tokenwise(s[1..], t[1..], u, p)
  }

  lemma {:induction false} TokenwiseAll(s: seq<Token>, t: seq<Token>, u: Renaming, p: Renaming)
    requires Tokenwise(s, t, u, p)
    ensures t == RenameText(s, u, p) && forall i :: 0 <= i < |s| ==> TokenCovered(s[i], u.Keys, p.Keys)
  {
    if s != [] {
      TokenwiseAll(s[1..], t[1..], u, p);
      assert s == [s[0]] + s[1..] && t == [t[0]] + t[1..];
    }
  }

  lemma TokenSameSize(s: Token, t: Token, e: Env, f: Env)
    requires SameSize(e, f)
    requires WalkToken(s, e).value == WalkToken(t, f).value && (RawToken(s) <==> RawToken(t))
    ensures SameSize(WalkToken(s, e).env, WalkToken(t, f).env)
  {
  }

  lemma TokenwiseStep(s: seq<Token>, t: seq<Token>, u: Renaming, p: Renaming)
    requires s != [] && t != [] && TokenCovered(s[0], u.Keys, p.Keys) && t[0] == RenameToken(s[0], u, p)
    requires Tokenwise(s[1..], t[1..], u, p)
    ensures Tokenwise(s, t, u, p)
  {
  }

  lemma {:induction false} TextExplained(s: seq<Token>, t: seq<Token>, e: Env, f: Env, out: seq<Token>, es: Env, fs: Env, le: Env, lf: Env)
    requires SameSize(e, f) && Aligned(le, lf) && SameTextPlaces(s, t)
    requires WalkText(s, e) == Out(out, es) && WalkText(t, f) == Out(out, fs)
    requires Extends(es, le) && Extends(fs, lf)
    ensures Tokenwise(s, t, Zip(le.uuids, lf.uuids), Zip(le.pids, lf.pids))
  {
    if s != [] {
      var a, b := WalkToken(s[0], e), WalkToken(t[0], f);
      FirstToken(s, e, out, es, le);
      FirstToken(t, f, out, fs, lf);
      RestPlaces(s, t);
      TokenSameSize(s[0], t[0], e, f);
      TokenExplained(s[0], t[0], e, f, le, lf);
      TextExplained(s[1..], t[1..], a.env, b.env, out[1..], es, fs, le, lf);
      TokenwiseStep(s, t, Zip(le.uuids, lf.uuids), Zip(le.pids, lf.pids));
    }
  }

  lemma FirstToken(s: seq<Token>, e: Env, out: seq<Token>, es: Env, le: Env)
    requires s != [] && WalkText(s, e) == Out(out, es) && Extends(es, le)
    ensures var a := WalkToken(s[0], e);
      && out != [] && out[0] == a.value
      && WalkText(s[1..], a.env) == Out(out[1..], es)
      && Extends(a.env, le)
  {
    WalkTextExtends(s[1..], WalkToken(s[0], e).env);
  }

  lemma RestPlaces(s: seq<Token>, t: seq<Token>)
    requires s != [] && SameTextPlaces(s, t)
    ensures RawToken(s[0]) <==> RawToken(t[0])
    ensures SameTextPlaces(s[1..], t[1..])
  {
  }

  lemma {:induction false} TreeExplained(s: Tree, t: Tree, e: Env, f: Env, le: Env, lf: Env)
    requires SameSize(e, f) && Aligned(le, lf)
    requires Extends(Walk(s, e).env, le) && Extends(Walk(t, f).env, lf)
    requires Walk(s, e).value == Walk(t, f).value && SamePlaces(s, t)
    ensures Explained(s, t, le, lf)
    decreases s, 0
  {
    match s
    case Text(tokens) =>
      TextExplained(tokens, t.tokens, e, f, WalkText(tokens, e).value, WalkText(tokens, e).env, WalkText(t.tokens, f).env, le, lf);
      TokenwiseAll(tokens, t.tokens, Zip(le.uuids, lf.uuids), Zip(le.pids, lf.pids));
    case Branch(_, children) => AllExplained(children, t.children, e, f, le, lf);
    case Scalar(_) =>
  }

  lemma {:induction false} AllExplained(s: seq<Tree>, t: seq<Tree>, e: Env, f: Env, le: Env, lf: Env)
    requires SameSize(e, f) && Aligned(le, lf)
    requires Extends(WalkAll(s, e).env, le) && Extends(WalkAll(t, f).env, lf)
    requires WalkAll(s, e).value == WalkAll(t, f).value
    requires |s| == |t| && forall i :: 0 <= i < |s| ==> SamePlaces(s[i], t[i])
    ensures |s| == |t| && forall i :: 0 <= i < |s| ==> Explained(s[i], t[i], le, lf)
    decreases s, 1
  {
    if s != [] {
      var a, b := Walk(s[0], e), Walk(t[0], f);
      assert a.value == WalkAll(s, e).value[0] && b.value == WalkAll(t, f).value[0];
      assert WalkAll(s[1..], a.env).value == WalkAll(s, e).value[1..];
      assert WalkAll(t[1..], b.env).value == WalkAll(t, f).value[1..];
      WalkAllExtends(s[1..], a.env);
      WalkAllExtends(t[1..], b.env);
      TreeSameSize(s[0], t[0], e, f);
      TreeExplained(s[0], t[0], e, f, le, lf);
      AllExplained(s[1..], t[1..], a.env, b.env, le, lf);
    }
  }

  lemma {:induction false} RenamePlaces(t: Tree, u: Renaming, p: Renaming)
    ensures SamePlaces(t, Rename(t, u, p))
  {
    if t.Branch? {
      forall i | 0 <= i < |t.children|
        ensures SamePlaces(t.children[i], Rename(t, u, p).children[i])
      {
        RenamePlaces(t.children[i], u, p);
      }
    }
  }

  /**
   Main result: two trees differ by a bijective renaming exactly when they normalise alike and
   hold invented names at the same places. So normalisation is a canonical form on every set
   of trees that agree on where such names are, as all do that hold none.
   */
  lemma NormalizeIsCanonical(s: Tree, t: Tree)
    ensures AlphaEquivalent(s, t) <==> Normalize(s) == Normalize(t) && SamePlaces(s, t)
  {
    if Normalize(s) == Normalize(t) && SamePlaces(s, t) {
      var e, f := Walk(s, EMPTY).env, Walk(t, EMPTY).env;
      WalkExtends(s, EMPTY);
      WalkExtends(t, EMPTY);
      TreeSameSize(s, t, EMPTY, EMPTY);
      TreeExplained(s, t, EMPTY, EMPTY, e, f);
      ZipInjective(e.uuids, f.uuids);
      ZipInjective(e.pids, f.pids);
      assert RenamesTo(s, t, Zip(e.uuids, f.uuids), Zip(e.pids, f.pids));
    }
    if AlphaEquivalent(s, t) {
      var u, p :| RenamesTo(s, t, u, p);
      TreeRenamed(s, EMPTY, u, p);
      assert RenamedEnv(EMPTY, u, p) == EMPTY;
      RenamePlaces(s, u, p);
    }
  }

  // -------------------------------------------------------- shape of a normalised tree

  datatype Sort = OfUuid | OfPid

  /** The numbers that stand in an output where the input has an identifier. */
  function NumbersInText(tokens: seq<Token>, out: seq<Token>, k: Sort): seq<nat> {
    if tokens == [] || out == [] then [] else
    var rest := NumbersInText(tokens[1..], out[1..], k);
    match out[0]
    case UuidName(n) => if k.OfUuid? && tokens[0].Uuid? then [n] + rest else rest
    case PidName(n) => if k.OfPid? && tokens[0].Pid? then [n] + rest else rest
    case _ => rest
  }

  /** The numbers given to the identifiers of a tree, in traversal order. */
  function Numbers(t: Tree, out: Tree, k: Sort): seq<nat>
    decreases t, 0
  {
    match t
    case Text(tokens) => if out.Text? then NumbersInText(tokens, out.tokens, k) else []
    case Branch(_, children) => if out.Branch? then NumbersInAll(children, out.children, k) else []
    case Scalar(_) => []
  }

  function NumbersInAll(ts: seq<Tree>, out: seq<Tree>, k: Sort): seq<nat>
    decreases ts, 1
  {
    if ts == [] || out == [] then [] else Numbers(ts[0], out[0], k) + NumbersInAll(ts[1..], out[1..], k)
  }

  /** Each number is one seen before or the next one: from k numbers seen to m. */
  ghost predicate Growth(ns: seq<nat>, k: nat, m: nat) {
    if ns == [] then k == m
    else 1 <= ns[0] <= k + 1 && Growth(ns[1..], if ns[0] > k then ns[0] else k, m)
  }

  lemma {:induction false} GrowthAppend(a: seq<nat>, b: seq<nat>, k: nat, m: nat, l: nat)
    requires Growth(a, k, m) && Growth(b, m, l)
    ensures Growth(a + b, k, l)
  {
    if a == [] {
      assert a + b == b;
    } else {
      assert (a + b)[1..] == a[1..] + b;
      GrowthAppend(a[1..], b, if a[0] > k then a[0] else k, m, l);
    }
  }

  /** A growth from nothing uses exactly the numbers 1 to m. */
  lemma {:induction false} GrowthIsDense(ns: seq<nat>, k: nat, m: nat)
    requires Growth(ns, k, m)
    ensures k <= m
    ensures forall n: nat :: n in ns ==> 1 <= n <= m
    ensures forall n: nat :: k < n <= m ==> n in ns
  {
    if ns != [] {
      var k' := if ns[0] > k then ns[0] else k;
      GrowthIsDense(ns[1..], k', m);
      assert forall n: nat :: n in ns <==> n == ns[0] || n in ns[1..];
    }
  }

  function Count(env: Env, k: Sort): nat {
    if k.OfUuid? then |env.uuids| else |env.pids|
  }

  lemma {:induction false} TextNumbers(tokens: seq<Token>, env: Env, k: Sort)
    ensures Growth(NumbersInText(tokens, WalkText(tokens, env).value, k), Count(env, k), Count(WalkText(tokens, env).env, k))
  {
    if tokens != [] {
      var first := WalkToken(tokens[0], env);
      var rest := WalkText(tokens[1..], first.env);
      assert WalkText(tokens, env).value[1..] == rest.value;
      TextNumbers(tokens[1..], first.env, k);
      var ns := NumbersInText(tokens, WalkText(tokens, env).value, k);
      assert ns == NumbersInText(tokens[1..], rest.value, k) || ns[1..] == NumbersInText(tokens[1..], rest.value, k);
    }
  }

  lemma {:induction false} TreeNumbers(t: Tree, env: Env, k: Sort)
    ensures Growth(Numbers(t, Walk(t, env).value, k), Count(env, k), Count(Walk(t, env).env, k))
    decreases t, 0
  {
    match t
    case Text(tokens) => TextNumbers(tokens, env, k);
    case Branch(_, children) => AllNumbers(children, env, k);
    case Scalar(_) =>
  }

  lemma {:induction false} AllNumbers(ts: seq<Tree>, env: Env, k: Sort)
    ensures Growth(NumbersInAll(ts, WalkAll(ts, env).value, k), Count(env, k), Count(WalkAll(ts, env).env, k))
    decreases ts, 1
  {
    if ts != [] {
      var first := Walk(ts[0], env);
      var rest := WalkAll(ts[1..], first.env);
      assert WalkAll(ts, env).value[1..] == rest.value;
      TreeNumbers(ts[0], env, k);
      AllNumbers(ts[1..], first.env, k);
      GrowthAppend(Numbers(ts[0], first.value, k), NumbersInAll(ts[1..], rest.value, k),
        Count(env, k), Count(first.env, k), Count(rest.env, k));
    }
  }

  /**
   In every tree, the numbers given to identifiers appear in traversal order, without gaps, up
   to the number of identifiers met.
   */
  lemma NumbersGrow(t: Tree, k: Sort)
    ensures var m := Count(Walk(t, EMPTY).env, k);
      && Growth(Numbers(t, Normalize(t), k), 0, m)
      && forall n: nat :: n in Numbers(t, Normalize(t), k) <==> 1 <= n <= m
  {
    TreeNumbers(t, EMPTY, k);
    GrowthIsDense(Numbers(t, Normalize(t), k), 0, Count(Walk(t, EMPTY).env, k));
  }

  ghost predicate NamedToken(t: Token, out: Token) {
    match t
    case Uuid(_) => out.UuidName?
    case Pid(_) => out.PidName?
    case _ => out == t
  }

  /** A tree with invented names of the right sort for its identifiers, and everything else kept. */
  ghost predicate Named(t: Tree, out: Tree) {
    match t
    case Text(tokens) =>
      out.Text? && |out.tokens| == |tokens| && forall i :: 0 <= i < |tokens| ==> NamedToken(tokens[i], out.tokens[i])
    case Branch(kind, children) =>
      && out.Branch? && out.kind == kind && |out.children| == |children|
      && forall i :: 0 <= i < |children| ==> Named(children[i], out.children[i])
    case Scalar(_) => out == t
  }

  lemma {:induction false} WalkTextNames(tokens: seq<Token>, env: Env)
    ensures forall i :: 0 <= i < |tokens| ==> NamedToken(tokens[i], WalkText(tokens, env).value[i])
  {
    if tokens != [] {
      WalkTextNames(tokens[1..], WalkToken(tokens[0], env).env);
    }
  }

  lemma {:induction false} WalkNames(t: Tree, env: Env)
    ensures Named(t, Walk(t, env).value)
    decreases t, 0
  {
    match t
    case Text(tokens) => WalkTextNames(tokens, env);
    case Branch(_, children) => WalkAllNames(children, env);
    case Scalar(_) =>
  }

  lemma {:induction false} WalkAllNames(ts: seq<Tree>, env: Env)
    ensures forall i :: 0 <= i < |ts| ==> Named(ts[i], WalkAll(ts, env).value[i])
    decreases ts, 1
  {
    if ts != [] {
      WalkNames(ts[0], env);
      WalkAllNames(ts[1..], Walk(ts[0], env).env);
    }
  }

  /** Normalising replaces identifiers by names of their own sort and changes nothing else. */
  lemma OnlyIdentifiersChange(t: Tree)
    ensures Named(t, Normalize(t))
  {
    WalkNames(t, EMPTY);
  }

  /** No identifier is left in the tree. */
  ghost predicate Settled(t: Tree) {
    match t
    case Text(tokens) => forall i :: 0 <= i < |tokens| ==> !tokens[i].Uuid? && !tokens[i].Pid?
    case Branch(_, children) => forall i :: 0 <= i < |children| ==> Settled(children[i])
    case Scalar(_) => true
  }

  lemma {:induction false} WalkTextSettles(tokens: seq<Token>, env: Env)
    ensures Settled(Text(WalkText(tokens, env).value))
  {
    if tokens != [] {
      WalkTextSettles(tokens[1..], WalkToken(tokens[0], env).env);
    }
  }

  lemma {:induction false} WalkSettles(t: Tree, env: Env)
    ensures Settled(Walk(t, env).value)
    decreases t, 0
  {
    match t
    case Text(tokens) => WalkTextSettles(tokens, env);
    case Branch(_, children) => WalkAllSettles(children, env);
    case Scalar(_) =>
  }

  lemma {:induction false} WalkAllSettles(ts: seq<Tree>, env: Env)
    ensures forall i :: 0 <= i < |ts| ==> Settled(WalkAll(ts, env).value[i])
    decreases ts, 1
  {
    if ts != [] {
      WalkSettles(ts[0], env);
      WalkAllSettles(ts[1..], Walk(ts[0], env).env);
    }
  }

  lemma {:induction false} SettledTextFixed(tokens: seq<Token>, env: Env)
    requires Settled(Text(tokens))
    ensures WalkText(tokens, env) == Out(tokens, env)
  {
    if tokens != [] {
      SettledTextFixed(tokens[1..], env);
      assert [tokens[0]] + tokens[1..] == tokens;
    }
  }

  lemma {:induction false} SettledFixed(t: Tree, env: Env)
    requires Settled(t)
    ensures Walk(t, env) == Out(t, env)
    decreases t, 0
  {
    match t
    case Text(tokens) => SettledTextFixed(tokens, env);
    case Branch(_, children) => SettledAllFixed(children, env);
    case Scalar(_) =>
  }

  lemma {:induction false} SettledAllFixed(ts: seq<Tree>, env: Env)
    requires forall i :: 0 <= i < |ts| ==> Settled(ts[i])
    ensures WalkAll(ts, env) == Out(ts, env)
    decreases ts, 1
  {
    if ts != [] {
      SettledFixed(ts[0], env);
      SettledAllFixed(ts[1..], env);
      assert [ts[0]] + ts[1..] == ts;
    }
  }

  /** Normalising twice changes nothing, for every tree. */
  lemma NormalizeIdempotent(t: Tree)
    ensures Normalize(Normalize(t)) == Normalize(t)
  {
    WalkSettles(t, EMPTY);
    SettledFixed(Normalize(t), EMPTY);
  }

  /**
   Every tree normalises like its own normal form, and is a renaming of it exactly when it
   holds no identifier. So every tree that does collides with one it is no renaming of.
   */
  lemma NormalFormCollidesIff(t: Tree)
    ensures Normalize(Normalize(t)) == Normalize(t)
    ensures AlphaEquivalent(t, Normalize(t)) <==> Settled(t)
  {
    NormalizeIdempotent(t);
    NormalizeIsCanonical(t, Normalize(t));
    WalkPlacesIff(t, EMPTY);
  }

  lemma {:induction false} WalkPlacesIff(t: Tree, env: Env)
    ensures SamePlaces(t, Walk(t, env).value) <==> Settled(t)
    decreases t, 0
  {
    match t
    case Text(tokens) => WalkTextPlaces(tokens, env);
    case Branch(_, children) => WalkAllPlaces(children, env);
    case Scalar(_) =>
  }

  lemma {:induction false} WalkTextPlaces(tokens: seq<Token>, env: Env)
    ensures forall i :: 0 <= i < |tokens| ==>
              (RawToken(WalkText(tokens, env).value[i]) <==> RawToken(tokens[i]) && !tokens[i].Uuid? && !tokens[i].Pid?)
  {
    if tokens != [] {
      WalkTextPlaces(tokens[1..], WalkToken(tokens[0], env).env);
    }
  }

  lemma {:induction false} WalkAllPlaces(ts: seq<Tree>, env: Env)
    ensures forall i :: 0 <= i < |ts| ==> (SamePlaces(ts[i], WalkAll(ts, env).value[i]) <==> Settled(ts[i]))
    decreases ts, 1
  {
    if ts != [] {
      WalkPlacesIff(ts[0], env);
      WalkAllPlaces(ts[1..], Walk(ts[0], env).env);
    }
  }

  // ------------------------------------------------------------------ the program's form

  /** `re.sub` with the pattern of one sort, over one string. */
  function Substituted(tokens: seq<Token>, e: seq<string>, k: Sort): (r: Out<seq<Token>>)
    ensures |r.value| == |tokens|
  {
    if tokens == [] then Out([], ListOnly(e, k)) else
    var t := tokens[0];
    if IsOfSort(t, k) then
      Cons(NameFor(NumberOf(e, t.id), k), Substituted(tokens[1..], Met(e, t.id), k))
    else
      Cons(t, Substituted(tokens[1..], e, k))
  }

  predicate IsOfSort(t: Token, k: Sort) {
    if k.OfUuid? then t.Uuid? else t.Pid?
  }

  function NameFor(n: nat, k: Sort): Token {
    if k.OfUuid? then UuidName(n) else PidName(n)
  }

  function ListOnly(e: seq<string>, k: Sort): Env {
    if k.OfUuid? then Env(e, []) else Env([], e)
  }

  function Cons(t: Token, r: Out<seq<Token>>): Out<seq<Token>> {
    Out([t] + r.value, r.env)
  }

  function After(done: seq<Token>, r: Out<seq<Token>>): Out<seq<Token>> {
    Out(done + r.value, r.env)
  }

  lemma AfterCons(done: seq<Token>, t: Token, r: Out<seq<Token>>)
    ensures After(done, Cons(t, r)) == After(done + [t], r)
  {
    assert done + ([t] + r.value) == done + [t] + r.value;
  }

  /** Two passes over a string, one per sort, number it as the single walk does. */
  lemma {:induction false} PassesFuse(tokens: seq<Token>, env: Env)
    ensures var first := Substituted(tokens, env.uuids, OfUuid);
      var second := Substituted(first.value, env.pids, OfPid);
      WalkText(tokens, env) == Out(second.value, Env(first.env.uuids, second.env.pids))
  {
    if tokens != [] {
      var step := WalkToken(tokens[0], env);
      PassesFuse(tokens[1..], step.env);
      assert Substituted(tokens, env.uuids, OfUuid).value[1..] == Substituted(tokens[1..], step.env.uuids, OfUuid).value;
    }
  }

  /** The dictionary of one sort of identifier: numbers in the order of `met`. */
  class NameTable {
    var numbers: map<string, nat>
    ghost var met: seq<string>

    ghost predicate Valid()
      reads this
    {
      && |numbers| == |met|
      && Distinct(met)
      && (forall x :: x in numbers ==> x in met)
      && forall i :: 0 <= i < |met| ==> met[i] in numbers && numbers[met[i]] == i + 1
    }

    constructor ()
      ensures Valid() && met == []
    {
      numbers, met := map[], [];
    }

    /** `setdefault(id, len + 1)` */
    method SetDefault(id: string) returns (n: nat)
      requires Valid()
      modifies this
      ensures Valid()
      ensures n == NumberOf(old(met), id) && met == Met(old(met), id)
    {
      if id !in numbers {
        numbers := numbers[id := |numbers| + 1];
        met := met + [id];
      }
      n := numbers[id];
    }

    /** One substitution pass: each match is replaced through the dictionary. */
    method Substitute(tokens: seq<Token>, k: Sort) returns (r: seq<Token>)
      requires Valid()
      modifies this
      ensures Valid()
      ensures Out(r, ListOnly(met, k)) == Substituted(tokens, old(met), k)
    {
      r := [];
      assert tokens[0..] == tokens;
      assert [] + Substituted(tokens, met, k).value == Substituted(tokens, met, k).value;
      for i := 0 to |tokens|
        invariant Valid()
        invariant Substituted(tokens, old(met), k) == After(r, Substituted(tokens[i..], met, k))
      {
        ghost var rest := tokens[i..];
        assert rest[0] == tokens[i] && rest[1..] == tokens[i + 1..];
        var t := tokens[i];
        ghost var before := met;
        if IsOfSort(t, k) {
          var n := SetDefault(t.id);
          t := NameFor(n, k);
        }
        AfterCons(r, t, Substituted(tokens[i + 1..], met, k));
        assert Substituted(rest, before, k) == Cons(t, Substituted(rest[1..], met, k));
        r := r + [t];
      }
      assert r + [] == r;
    }
  }

  /** One call of `normalize`: the two dictionaries live as long as the call. */
  class Normalizer {
    const uuidMap: NameTable
    const pidMap: NameTable

    ghost predicate Valid()
      reads this, uuidMap, pidMap
    {
      uuidMap != pidMap && uuidMap.Valid() && pidMap.Valid()
    }

    ghost function Met(): Env
      reads uuidMap, pidMap
    {
      Env(uuidMap.met, pidMap.met)
    }

    constructor ()
      ensures Valid() && fresh(uuidMap) && fresh(pidMap) && Met() == EMPTY
    {
      uuidMap := new NameTable();
      pidMap := new NameTable();
    }

    method NormalizeText(tokens: seq<Token>) returns (r: seq<Token>)
      requires Valid()
      modifies uuidMap, pidMap
      ensures Valid() && Out(r, Met()) == WalkText(tokens, old(Met()))
    {
      PassesFuse(tokens, Met());
      r := uuidMap.Substitute(tokens, OfUuid);
      r := pidMap.Substitute(r, OfPid);
    }

    method NormalizeTree(t: Tree) returns (r: Tree)
      requires Valid()
      modifies uuidMap, pidMap
      ensures Valid() && Out(r, Met()) == Walk(t, old(Met()))
      decreases t
    {
      match t {
        case Text(tokens) =>
          var text := NormalizeText(tokens);
          r := Text(text);
        case Branch(kind, children) =>
          var out := NormalizeAll(children);
          r := Branch(kind, out);
        case Scalar(_) =>
          r := t;
      }
    }

    method NormalizeAll(ts: seq<Tree>) returns (r: seq<Tree>)
      requires Valid()
      modifies uuidMap, pidMap
      ensures Valid() && Out(r, Met()) == WalkAll(ts, old(Met()))
      decreases ts
    {
      if ts == [] {
        return [];
      }
      var first := NormalizeTree(ts[0]);
      var rest := NormalizeAll(ts[1..]);
      r := [first] + rest;
    }
  }

  method NormalizeValue(t: Tree) returns (r: Tree)
    ensures r == Normalize(t)
  {
    var n := new Normalizer();
    r := n.NormalizeTree(t);
  }
}
