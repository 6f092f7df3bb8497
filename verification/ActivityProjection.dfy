/**
 The activity view: a chronological log of tool start and result entries, projected into one
 block per tool call. A start marker opens a block, except a bare one that repeats the tool
 name of the detailed marker just before it.

 The view is a sequence of typed items here; how they are written into lines is left out.
 */
module ActivityProjection {

  import opened Common

  // ------------------------------------------------------------------ text helpers

  const START := '\U{23FA}'
  const RESULT := '\U{23BF}'
  const CROSS := '\U{2717}'
  const TICK := '\U{2713}'
  const DOT := '\U{B7}'

  predicate Contains(s: string, part: string) {
    exists i | 0 <= i <= |s| :: StartsWith(s[i..], part)
  }

  /** Leading characters of a set removed, one by one. */
  function TrimMarks(s: string, marks: string): string {
    if s != "" && s[0] in marks then TrimMarks(s[1..], marks) else s
  }

  // ------------------------------------------------------------------ single entries

  /** Everything before the first space or middle dot. */
  function Name(action: string): (r: string)
    ensures |r| <= |action| && r == action[..|r|]
    ensures ' ' !in r && DOT !in r
  {
    if action == "" || action[0] == ' ' || action[0] == DOT then "" else [action[0]] + Name(action[1..])
  }

  function TitleOf(name: string): (string, string) {
    if Contains(name, "command") || Contains(name, "shell") then ("Ran", "sh")
    else if Contains(name, "read") then ("Read", "")
    else if Contains(name, "search") || Contains(name, "grep") then ("Search", "")
    else if Contains(name, "list") then ("Explored", "")
    else if Contains(name, "write") || Contains(name, "edit") || Contains(name, "patch") then ("Edited", "")
    else (name, "")
  }

  predicate IsLink(text: string) {
    StartsWith(text, "http") || Contains(text, "VesperLens")
  }

  /**
   What the projection reads off one log entry. `link` judges the entry as it is, `looseLink`
   without surrounding white space; inside a block the first counts, outside the second.
   */
  datatype Entry = Entry(
    raw: string,
    trimmed: string,
    start: bool,
    name: string,
    title: string,
    lang: string,
    detail: string,
    result: Option<string>,
    link: bool,
    looseLink: bool)

  function Marked(trimmed: string, mark: char): Option<string> {
    if trimmed != "" && trimmed[0] == mark then Some(Trim(trimmed[1..])) else None
  }

  function DetailOf(action: string): string {
    Trim(TrimMarks(Trim(action[|Name(action)|..]), [DOT]))
  }

  function Read(raw: string): Entry {
    var trimmed := Trim(raw);
    var action := Marked(trimmed, START);
    var name := if action.Some? then Name(action.value) else "";
    var detail := if action.Some? then DetailOf(action.value) else "";
    var (title, lang) := TitleOf(name);
    Entry(raw, trimmed, action.Some?, name, title, lang, detail, Marked(trimmed, RESULT), IsLink(raw), IsLink(trimmed))
  }

  function ReadAll(raw: seq<string>): (r: seq<Entry>)
    ensures |r| == |raw| && forall i :: 0 <= i < |r| ==> r[i] == Read(raw[i])
  {
    seq(|raw|, i requires 0 <= i < |raw| => Read(raw[i]))
  }

  /** The bare executing marker that may follow a detailed one of the same call. */
  predicate Repeats(entry: Entry, next: Entry) {
    entry.start && entry.detail != "" && next.trimmed == [START, ' '] + entry.name
  }

  // --------------------------------------------------------------- the reference view

  datatype CallState = Failed | Succeeded | Running | Interrupted

  datatype Item =
    | Header(state: CallState, title: string, lang: string, detail: string)
    | Output(line: string)
    | NoOutput
    | Hidden(count: nat)
    | InterruptedNote
    | Link(text: string)

  type Log = seq<Entry>

  predicate Folded(log: Log, i: nat)
    requires i < |log|
  {
    i > 0 && Repeats(log[i - 1], log[i])
  }

  predicate Head(log: Log, i: nat)
    requires i < |log|
  {
    log[i].start && !Folded(log, i)
  }

  /** The first block head at or after position i, or the end of the log. */
  function NextHead(log: Log, i: nat): (r: nat)
    requires i <= |log|
    ensures i <= r <= |log| && (r < |log| ==> Head(log, r))
    ensures forall j :: i <= j < r ==> !Head(log, j)
    decreases |log| - i
  {
    if i == |log| || Head(log, i) then i else NextHead(log, i + 1)
  }

  /** The text of the first result entry of a block. */
  function FirstResult(block: Log): Option<string> {
    if block == [] then None
    else if block[0].result.Some? then block[0].result
    else FirstResult(block[1..])
  }

  function StateOf(result: Option<string>, running: bool, last: bool): CallState {
    match result
    case Some(s) => if s != "" && s[0] == CROSS then Failed else Succeeded
    case None => if running && last then Running else Interrupted
  }

  function ResultText(result: string, name: string): string {
    var text := Trim(TrimMarks(result, [TICK, CROSS]));
    var rest := if StartsWith(text, name) then text[|name|..] else text;
    Trim(TrimMarks(Trim(rest), [DOT]))
  }

  function LimitOf(expanded: bool): nat {
    if expanded then 80 else 2
  }

  function OutputItems(text: string, expanded: bool): seq<Item> {
    var lines, limit := Lines(text), LimitOf(expanded);
    var shown := if |lines| < limit then |lines| else limit;
    seq(shown, i requires 0 <= i < shown => Output(lines[i]))
    + (if text == "" then [NoOutput] else [])
    + (if |lines| > limit then [Hidden(|lines| - limit)] else [])
  }

  function Links(block: Log): seq<Item> {
    if block == [] then []
    else (if block[0].link then [Link(block[0].raw)] else []) + Links(block[1..])
  }

  function HeaderItem(entry: Entry, result: Option<string>, running: bool, last: bool): Item {
    Header(StateOf(result, running, last), entry.title, entry.lang, entry.detail)
  }

  function BodyItems(entry: Entry, result: Option<string>, running: bool, last: bool, expanded: bool): seq<Item> {
    if result.Some? then OutputItems(ResultText(result.value, entry.name), expanded)
    else if StateOf(result, running, last).Interrupted? then [InterruptedNote]
    else []
  }

  /** One call: its header, its output or a note that there is none, and the links in it. */
  function Block(entry: Entry, block: Log, running: bool, last: bool, expanded: bool): seq<Item> {
    var result := FirstResult(block);
    [HeaderItem(entry, result, running, last)] + BodyItems(entry, result, running, last, expanded) + Links(block)
  }

  function BlockAt(log: Log, i: nat, running: bool, expanded: bool): seq<Item>
    requires i < |log| && Head(log, i)
  {
    var end := NextHead(log, i + 1);
    Block(log[i], log[i + 1..end], running, end == |log|, expanded)
  }

  predicate Headless(log: Log, n: nat)
    requires n <= |log|
  {
    forall j | 0 <= j < n :: !Head(log, j)
  }

  /** What position i adds: a whole block at a head, a link before the first head, else nothing. */
  function Contribution(log: Log, i: nat, running: bool, expanded: bool): seq<Item>
    requires i < |log|
  {
    if Head(log, i) then BlockAt(log, i, running, expanded)
    else if Headless(log, i) && log[i].looseLink then [Link(log[i].raw)]
    else []
  }

  function Parts(log: Log, running: bool, expanded: bool): (r: seq<seq<Item>>)
    ensures |r| == |log|
  {
    seq(|log|, i requires 0 <= i < |log| => Contribution(log, i, running, expanded))
  }

  /** The first n parts, one after the other. */
  function Flatten(parts: seq<seq<Item>>, n: nat): seq<Item>
    requires n <= |parts|
  {
    if n == 0 then [] else Flatten(parts, n - 1) + parts[n - 1]
  }

  function View(log: Log, running: bool, expanded: bool): seq<Item> {
    Flatten(Parts(log, running, expanded), |log|)
  }

  // ------------------------------------------------------------------------- folding

  lemma {:induction false} NameOfName(name: string)
    requires ' ' !in name && DOT !in name
    ensures Name(name) == name
  {
    if name != "" {
      assert name == [name[0]] + name[1..];
      NameOfName(name[1..]);
    }
  }

  /** The marker that repeats a name reads back as that name. */
  lemma RepeatedAction(name: string, trimmed: string, raw: string)
    requires trimmed == Trim(raw) == [START, ' '] + name
    requires name == "" || !White(name[0])
    ensures Marked(trimmed, START) == Some(name)
  {
    assert trimmed[|trimmed| - 1] == if name == "" then ' ' else name[|name| - 1];
    assert name != "";
    assert trimmed[1..] == [' '] + name;
    assert ([' '] + name)[1..] == name;
    assert TrimStart([' '] + name) == TrimStart(name) == name;
  }

  ghost predicate ReadsMarker(entry: Entry, raw: string) {
    var action := Marked(Trim(raw), START);
    && entry.trimmed == Trim(raw)
    && (entry.start <==> action.Some?)
    && (entry.start ==> entry.name == Name(action.value) && entry.detail == DetailOf(action.value))
  }

  /** A repeated marker has no detail, so nothing can repeat it in turn. */
  lemma RepeatedHasNoDetail(entry: Entry, next: Entry, raw: string, rawNext: string)
    requires ReadsMarker(entry, raw) && ReadsMarker(next, rawNext)
    requires Repeats(entry, next)
    ensures next.start && next.detail == ""
  {
    RepeatedAction(entry.name, next.trimmed, rawNext);
    BareHasNoDetail(entry.name);
  }

  lemma BareHasNoDetail(name: string)
    requires ' ' !in name && DOT !in name
    ensures DetailOf(name) == ""
  {
    NameOfName(name);
    assert name[|name|..] == "";
  }

  /** Folding pairs up: the entry before a folded one is a head. */
  ghost predicate FoldsPair(log: Log) {
    forall i: nat :: i < |log| && Folded(log, i) ==> Head(log, i - 1)
  }

  lemma ReadFoldsPair(raw: seq<string>)
    ensures FoldsPair(ReadAll(raw))
  {
    var log := ReadAll(raw);
    forall i: nat | i < |log| && Folded(log, i)
      ensures Head(log, i - 1)
    {
      if Folded(log, i - 1) {
        RepeatedHasNoDetail(log[i - 2], log[i - 1], raw[i - 2], raw[i - 1]);
      }
    }
  }

  // -------------------------------------------------------------- the program's form

  lemma {:induction false} NextHeadIs(log: Log, i: nat, end: nat)
    requires i <= end <= |log| && (end < |log| ==> Head(log, end))
    requires forall j :: i <= j < end ==> !Head(log, j)
    ensures NextHead(log, i) == end
    decreases end - i
  {
    if i < end {
      NextHeadIs(log, i + 1, end);
    }
  }

  lemma {:induction false} FlattenSkips(parts: seq<seq<Item>>, i: nat, end: nat)
    requires i < end <= |parts| && forall j :: i < j < end ==> parts[j] == []
    ensures Flatten(parts, end) == Flatten(parts, i) + parts[i]
  {
    if i + 1 < end {
      FlattenSkips(parts, i, end - 1);
    }
  }

  lemma PartOfHead(log: Log, i: nat, end: nat, running: bool, expanded: bool)
    requires i < end <= |log| && Head(log, i) && (end < |log| ==> Head(log, end))
    requires forall j :: i < j < end ==> !Head(log, j)
    ensures var parts := Parts(log, running, expanded);
      && parts[i] == Block(log[i], log[i + 1..end], running, end == |log|, expanded)
      && forall j :: i < j < end ==> parts[j] == []
  {
    NextHeadIs(log, i + 1, end);
    forall j | i < j < end
      ensures Contribution(log, j, running, expanded) == []
    {
      assert !Headless(log, j);
    }
  }

  /** The output of one call, pushed line by line. */
  method PushOutput(before: seq<Item>, text: string, expanded: bool) returns (out: seq<Item>)
    ensures out == before + OutputItems(text, expanded)
  {
    out := before;
    var lines, limit := Lines(text), LimitOf(expanded);
    var shown := if |lines| < limit then |lines| else limit;
    for i := 0 to shown
      invariant out == before + seq(i, k requires 0 <= k < i => Output(lines[k]))
    {
      out := out + [Output(lines[i])];
    }
    if text == "" {
      out := out + [NoOutput];
    }
    if |lines| > limit {
      out := out + [Hidden(|lines| - limit)];
    }
  }

  method PushBlock(before: seq<Item>, entry: Entry, block: Log, running: bool, last: bool, expanded: bool)
    returns (out: seq<Item>)
    ensures out == before + Block(entry, block, running, last, expanded)
  {
    var result := FirstResult(block);
    var header := HeaderItem(entry, result, running, last);
    out := before + [header];
    if result.Some? {
      out := PushOutput(out, ResultText(result.value, entry.name), expanded);
    } else if header.state.Interrupted? {
      out := out + [InterruptedNote];
    }
    BlockOnto(before, [header], BodyItems(entry, result, running, last, expanded), Links(block));
    out := out + Links(block);
  }

  lemma BlockOnto(before: seq<Item>, header: seq<Item>, body: seq<Item>, links: seq<Item>)
    ensures before + header + body + links == before + (header + body + links)
    ensures body == [] ==> before + header + body == before + header
  {
  }

  /** `project`: the loop that moves from block to block computes the reference view. */
  method Project(raw: seq<string>, running: bool, expanded: bool) returns (out: seq<Item>)
    ensures out == View(ReadAll(raw), running, expanded)
  {
    ReadFoldsPair(raw);
    out := ProjectLog(ReadAll(raw), running, expanded);
  }

  method ProjectLog(log: Log, running: bool, expanded: bool) returns (out: seq<Item>)
    requires FoldsPair(log)
    ensures out == View(log, running, expanded)
  {
    ghost var parts := Parts(log, running, expanded);
    out := [];
    var index := 0;
    while index < |log|
      invariant index <= |log|
      invariant Headless(log, index) || index == |log| || Head(log, index)
      invariant out == Flatten(parts, index)
    {
      if !log[index].start {
        if log[index].looseLink {
          out := out + [Link(log[index].raw)];
        }
        index := index + 1;
      } else {
        var end := BlockEnd(log, index);
        PartOfHead(log, index, end, running, expanded);
        FlattenSkips(parts, index, end);
        out := PushBlock(out, log[index], log[index + 1..end], running, end == |log|, expanded);
        index := end;
      }
    }
  }

  lemma NextStartOpensBlock(log: Log, index: nat, end: nat)
    requires FoldsPair(log) && index < end < |log| && log[end].start
    requires forall j :: index < j < end ==> !Head(log, j)
    requires end == index + 1 ==> !Repeats(log[index], log[end])
    ensures Head(log, end)
  {
  }

  method BlockEnd(log: Log, index: nat) returns (end: nat)
    requires FoldsPair(log) && index < |log| && Head(log, index)
    ensures index < end <= |log| && (end < |log| ==> Head(log, end))
    ensures forall j :: index < j < end ==> !Head(log, j)
  {
    end := index + 1;
    if end < |log| && Repeats(log[index], log[end]) {
      end := end + 1;
    }
    while end < |log| && !log[end].start
      invariant index < end <= |log|
      invariant forall j :: index < j < end ==> !Head(log, j)
      invariant end == index + 1 ==> end == |log| || !Repeats(log[index], log[end])
    {
      end := end + 1;
    }
    if end < |log| {
      NextStartOpensBlock(log, index, end);
    }
  }

  // ------------------------------------------------------------------------- headers

  function Headers(items: seq<Item>): seq<Item> {
    if items == [] then []
    else Headers(items[..|items| - 1]) + (if items[|items| - 1].Header? then [items[|items| - 1]] else [])
  }

  lemma {:induction false} HeadersAppend(a: seq<Item>, b: seq<Item>)
    ensures Headers(a + b) == Headers(a) + Headers(b)
  {
    if b == [] {
      assert a + b == a;
    } else {
      assert (a + b)[..|a + b| - 1] == a + b[..|b| - 1];
      HeadersAppend(a, b[..|b| - 1]);
    }
  }

  lemma {:induction false} NoHeaders(items: seq<Item>)
    requires forall i :: 0 <= i < |items| ==> !items[i].Header?
    ensures Headers(items) == []
  {
    if items != [] {
      NoHeaders(items[..|items| - 1]);
    }
  }

  function HeaderAt(log: Log, i: nat, running: bool): (r: Item)
    requires i < |log| && Head(log, i)
    ensures r.Header?
  {
    var end := NextHead(log, i + 1);
    HeaderItem(log[i], FirstResult(log[i + 1..end]), running, end == |log|)
  }

  function HeaderParts(log: Log, running: bool): (r: seq<seq<Item>>)
    ensures |r| == |log|
    ensures forall i :: 0 <= i < |r| ==> r[i] == if Head(log, i) then [HeaderAt(log, i, running)] else []
  {
    seq(|log|, i requires 0 <= i < |log| => if Head(log, i) then [HeaderAt(log, i, running)] else [])
  }

  /** Reference: one header per start marker that is not folded. */
  function CallHeaders(log: Log, running: bool): seq<Item> {
    Flatten(HeaderParts(log, running), |log|)
  }

  lemma {:induction false} LinksAreLinks(block: Log)
    ensures forall i :: 0 <= i < |Links(block)| ==> Links(block)[i].Link?
  {
    if block != [] {
      LinksAreLinks(block[1..]);
    }
  }

  lemma PartHeaders(log: Log, i: nat, running: bool, expanded: bool)
    requires i < |log|
    ensures Headers(Parts(log, running, expanded)[i]) == HeaderParts(log, running)[i]
  {
    if Head(log, i) {
      var end := NextHead(log, i + 1);
      BlockHeaders(log[i], log[i + 1..end], running, end == |log|, expanded);
    } else {
      NoHeaders(Contribution(log, i, running, expanded));
    }
  }

  lemma BlockHeaders(entry: Entry, block: Log, running: bool, last: bool, expanded: bool)
    ensures Headers(Block(entry, block, running, last, expanded)) == [HeaderItem(entry, FirstResult(block), running, last)]
  {
    var result := FirstResult(block);
    var header, body := HeaderItem(entry, result, running, last), BodyItems(entry, result, running, last, expanded);
    BodyIsNoHeader(entry, result, running, last, expanded);
    LinksAreLinks(block);
    HeaderFirst(header, body, Links(block));
  }

  lemma BodyIsNoHeader(entry: Entry, result: Option<string>, running: bool, last: bool, expanded: bool)
    ensures var body := BodyItems(entry, result, running, last, expanded);
      forall i :: 0 <= i < |body| ==> !body[i].Header?
  {
    if result.Some? {
      OutputIsNoHeader(ResultText(result.value, entry.name), expanded);
    }
  }

  lemma OutputIsNoHeader(text: string, expanded: bool)
    ensures forall i :: 0 <= i < |OutputItems(text, expanded)| ==> !OutputItems(text, expanded)[i].Header?
  {
  }

  lemma HeaderFirst(header: Item, body: seq<Item>, links: seq<Item>)
    requires header.Header?
    requires forall i :: 0 <= i < |body| ==> !body[i].Header?
    requires forall i :: 0 <= i < |links| ==> !links[i].Header?
    ensures Headers([header] + body + links) == [header]
  {
    NoHeaders(body);
    NoHeaders(links);
    HeadersAppend([header], body);
    HeadersAppend([header] + body, links);
    assert [header][..0] == [];
  }

  lemma {:induction false} HeadersFlatten(parts: seq<seq<Item>>, headers: seq<seq<Item>>, n: nat)
    requires |parts| == |headers| && forall i :: 0 <= i < |parts| ==> Headers(parts[i]) == headers[i]
    requires n <= |parts|
    ensures Headers(Flatten(parts, n)) == Flatten(headers, n)
  {
    if n > 0 {
      HeadersFlatten(parts, headers, n - 1);
      HeadersStep(Flatten(parts, n - 1), parts[n - 1], Flatten(headers, n - 1), headers[n - 1]);
    }
  }

  lemma HeadersStep(a: seq<Item>, b: seq<Item>, headersA: seq<Item>, headersB: seq<Item>)
    requires Headers(a) == headersA && Headers(b) == headersB
    ensures Headers(a + b) == headersA + headersB
  {
    HeadersAppend(a, b);
  }

  /** Main result: folded or expanded, the view has one header per unfolded start marker, in order. */
  lemma HeadersExact(log: Log, running: bool, expanded: bool)
    ensures Headers(View(log, running, expanded)) == CallHeaders(log, running)
  {
    var parts, headers := Parts(log, running, expanded), HeaderParts(log, running);
    forall i | 0 <= i < |log|
      ensures Headers(parts[i]) == headers[i]
    {
      PartHeaders(log, i, running, expanded);
    }
    HeadersFlatten(parts, headers, |log|);
  }

  ghost predicate Quiet(headers: seq<Item>) {
    forall k :: 0 <= k < |headers| ==> headers[k].Header? && !headers[k].state.Running?
  }

  lemma {:induction false} QuietFlatten(parts: seq<seq<Item>>, n: nat)
    requires n <= |parts| && forall i :: 0 <= i < n ==> Quiet(parts[i])
    ensures Quiet(Flatten(parts, n))
  {
    if n > 0 {
      QuietFlatten(parts, n - 1);
      assert Quiet(parts[n - 1]);
    }
  }

  lemma {:induction false} EmptyTail(parts: seq<seq<Item>>, n: nat)
    requires n <= |parts| && forall i :: n <= i < |parts| ==> parts[i] == []
    ensures Flatten(parts, |parts|) == Flatten(parts, n)
    decreases |parts|
  {
    if n < |parts| {
      var front := parts[..|parts| - 1];
      FlattenPrefix(parts, front, |front|);
      FlattenPrefix(parts, front, n);
      EmptyTail(front, n);
    }
  }

  lemma {:induction false} FlattenPrefix(a: seq<seq<Item>>, b: seq<seq<Item>>, n: nat)
    requires n <= |a| && n <= |b| && forall i :: 0 <= i < n ==> a[i] == b[i]
    ensures Flatten(a, n) == Flatten(b, n)
  {
    if n > 0 {
      FlattenPrefix(a, b, n - 1);
    }
  }

  lemma HeaderIsQuiet(log: Log, i: nat, running: bool, later: nat)
    requires i < later < |log| && Head(log, i) && Head(log, later)
    ensures Quiet([HeaderAt(log, i, running)])
  {
    assert !(i + 1 <= later < NextHead(log, i + 1));
  }

  /** The last head of a log that has one. */
  lemma LastHead(log: Log) returns (i: nat)
    requires !Headless(log, |log|)
    ensures i < |log| && Head(log, i) && forall j :: i < j < |log| ==> !Head(log, j)
  {
    i := |log| - 1;
    while !Head(log, i)
      invariant i < |log| && !Headless(log, i + 1)
      invariant forall j :: i < j < |log| ==> !Head(log, j)
      decreases i
    {
      i := i - 1;
    }
  }

  ghost predicate RunsLastOnly(headers: seq<Item>, running: bool) {
    forall k :: 0 <= k < |headers| ==> headers[k].Header? && (headers[k].state.Running? ==> running && k == |headers| - 1)
  }

  /** Main result: at most one call is shown as running, only the last one, and only during a turn. */
  lemma RunningIsLast(log: Log, running: bool, expanded: bool)
    ensures RunsLastOnly(Headers(View(log, running, expanded)), running)
  {
    HeadersExact(log, running, expanded);
    if Headless(log, |log|) {
      NoCalls(log, running);
    } else {
      var last := LastHead(log);
      CallsBefore(log, last, running);
      LastPartMayRun(HeaderParts(log, running), last, HeaderAt(log, last, running), running);
    }
  }

  lemma NoCalls(log: Log, running: bool)
    requires Headless(log, |log|)
    ensures CallHeaders(log, running) == []
  {
    var parts := HeaderParts(log, running);
    forall i | 0 <= i < |parts|
      ensures parts[i] == []
    {
      assert !Head(log, i);
    }
    EmptyTail(parts, 0);
  }

  lemma CallsBefore(log: Log, last: nat, running: bool)
    requires last < |log| && Head(log, last)
    ensures forall i :: 0 <= i < last ==> Quiet(HeaderParts(log, running)[i])
  {
    forall i | 0 <= i < last
      ensures Quiet(HeaderParts(log, running)[i])
    {
      if Head(log, i) {
        HeaderIsQuiet(log, i, running, last);
      }
    }
  }

  lemma LastPartMayRun(parts: seq<seq<Item>>, last: nat, header: Item, running: bool)
    requires last < |parts| && forall i :: 0 <= i < last ==> Quiet(parts[i])
    requires parts[last] == [header] && header.Header? && (header.state.Running? ==> running)
    requires forall i :: last < i < |parts| ==> parts[i] == []
    ensures RunsLastOnly(Flatten(parts, |parts|), running)
  {
    QuietFlatten(parts, last);
    EmptyTail(parts, last + 1);
    assert Flatten(parts, |parts|) == Flatten(parts, last) + [header];
    LastMayRun(Flatten(parts, last), header, running);
  }

  lemma LastMayRun(before: seq<Item>, header: Item, running: bool)
    requires Quiet(before) && header.Header? && (header.state.Running? ==> running)
    ensures RunsLastOnly(before + [header], running)
  {
  }

  // ---------------------------------------------------------------------- output lines

  function Shown(items: seq<Item>): nat {
    if items == [] then 0
    else Shown(items[..|items| - 1]) + (if items[|items| - 1].Output? then 1 else 0)
  }

  function HiddenLines(items: seq<Item>): nat {
    if items == [] then 0
    else HiddenLines(items[..|items| - 1]) + (if items[|items| - 1].Hidden? then items[|items| - 1].count else 0)
  }

  lemma {:induction false} CountsAppend(a: seq<Item>, b: seq<Item>)
    ensures Shown(a + b) == Shown(a) + Shown(b)
    ensures HiddenLines(a + b) == HiddenLines(a) + HiddenLines(b)
  {
    if b == [] {
      assert a + b == a;
    } else {
      assert (a + b)[..|a + b| - 1] == a + b[..|b| - 1];
      CountsAppend(a, b[..|b| - 1]);
    }
  }

  lemma {:induction false} AllShown(items: seq<Item>)
    requires forall i :: 0 <= i < |items| ==> items[i].Output?
    ensures Shown(items) == |items| && HiddenLines(items) == 0
  {
    if items != [] {
      AllShown(items[..|items| - 1]);
    }
  }

  lemma {:induction false} NoneShown(items: seq<Item>)
    requires forall i :: 0 <= i < |items| ==> !items[i].Output? && !items[i].Hidden?
    ensures Shown(items) == 0 && HiddenLines(items) == 0
  {
    if items != [] {
      NoneShown(items[..|items| - 1]);
    }
  }

  lemma CountsOne(item: Item)
    ensures Shown([item]) == if item.Output? then 1 else 0
    ensures HiddenLines([item]) == if item.Hidden? then item.count else 0
  {
    assert [item][..0] == [];
  }

  lemma OutputCounts(text: string, expanded: bool)
    ensures Shown(OutputItems(text, expanded)) + HiddenLines(OutputItems(text, expanded)) == |Lines(text)|
    ensures Shown(OutputItems(text, expanded)) <= LimitOf(expanded)
  {
    var lines, limit := Lines(text), LimitOf(expanded);
    var shown := if |lines| < limit then |lines| else limit;
    var a := seq(shown, i requires 0 <= i < shown => Output(lines[i]));
    var b: seq<Item> := if text == "" then [NoOutput] else [];
    var c: seq<Item> := if |lines| > limit then [Hidden(|lines| - limit)] else [];
    AllShown(a);
    NoneShown(b);
    CountsOne(Hidden(|lines| - shown));
    OutputParts(a, b, c);
  }

  lemma OutputParts(a: seq<Item>, b: seq<Item>, c: seq<Item>)
    requires Shown(b) == HiddenLines(b) == HiddenLines(a) == Shown(c) == 0
    ensures Shown(a + b + c) == Shown(a) && HiddenLines(a + b + c) == HiddenLines(c)
  {
    CountsAppend(a, b);
    CountsAppend(a + b, c);
  }

  /** How many output lines a call has. */
  function LinesOf(entry: Entry, block: Log): nat {
    var result := FirstResult(block);
    if result.Some? then |Lines(ResultText(result.value, entry.name))| else 0
  }

  function LinesAt(log: Log, i: nat): nat
    requires i < |log| && Head(log, i)
  {
    LinesOf(log[i], log[i + 1..NextHead(log, i + 1)])
  }

  function LineCounts(log: Log): (r: seq<nat>)
    ensures |r| == |log|
    ensures forall i :: 0 <= i < |r| ==> r[i] == if Head(log, i) then LinesAt(log, i) else 0
  {
    seq(|log|, i requires 0 <= i < |log| => if Head(log, i) then LinesAt(log, i) else 0)
  }

  function Sum(counts: seq<nat>, n: nat): nat
    requires n <= |counts|
  {
    if n == 0 then 0 else Sum(counts, n - 1) + counts[n - 1]
  }

  lemma PartCounts(log: Log, i: nat, running: bool, expanded: bool)
    requires i < |log|
    ensures var items := Parts(log, running, expanded)[i];
      Shown(items) + HiddenLines(items) == LineCounts(log)[i]
  {
    var items := Contribution(log, i, running, expanded);
    if Head(log, i) {
      var end := NextHead(log, i + 1);
      BlockCounts(log[i], log[i + 1..end], running, end == |log|, expanded);
    } else {
      NoneShown(items);
    }
  }

  lemma BlockCounts(entry: Entry, block: Log, running: bool, last: bool, expanded: bool)
    ensures var items := Block(entry, block, running, last, expanded);
      Shown(items) + HiddenLines(items) == LinesOf(entry, block)
  {
    var result := FirstResult(block);
    var header, body := HeaderItem(entry, result, running, last), BodyItems(entry, result, running, last, expanded);
    if result.Some? {
      OutputCounts(ResultText(result.value, entry.name), expanded);
    } else {
      NoneShown(body);
    }
    LinksAreLinks(block);
    NoneShown(Links(block));
    CountsOne(header);
    CountsAppend([header], body);
    CountsAppend([header] + body, Links(block));
  }

  lemma {:induction false} CountsFlatten(parts: seq<seq<Item>>, counts: seq<nat>, n: nat)
    requires |parts| == |counts|
    requires forall i :: 0 <= i < |parts| ==> Shown(parts[i]) + HiddenLines(parts[i]) == counts[i]
    requires n <= |parts|
    ensures Shown(Flatten(parts, n)) + HiddenLines(Flatten(parts, n)) == Sum(counts, n)
  {
    if n > 0 {
      CountsFlatten(parts, counts, n - 1);
      CountsAppend(Flatten(parts, n - 1), parts[n - 1]);
    }
  }

  /** Main result: shown and hidden output lines add up to all output lines, folded or expanded. */
  lemma LinesConserved(log: Log, running: bool, expanded: bool)
    ensures Shown(View(log, running, expanded)) + HiddenLines(View(log, running, expanded)) == Sum(LineCounts(log), |log|)
  {
    var parts, counts := Parts(log, running, expanded), LineCounts(log);
    forall i | 0 <= i < |log|
      ensures Shown(parts[i]) + HiddenLines(parts[i]) == counts[i]
    {
      PartCounts(log, i, running, expanded);
    }
    CountsFlatten(parts, counts, |log|);
  }

  // ------------------------------------------------------------------------- appending

  /** A header once a later call has started. */
  function Settled(header: Item): Item {
    if header.Header? && header.state.Running? then header.(state := Interrupted) else header
  }

  function SettledAll(headers: seq<Item>): (r: seq<Item>)
    ensures |r| == |headers| && forall i :: 0 <= i < |r| ==> r[i] == Settled(headers[i])
  {
    seq(|headers|, i requires 0 <= i < |headers| => Settled(headers[i]))
  }

  lemma {:induction false} NextHeadAppend(log: Log, entry: Entry, i: nat)
    requires i <= |log| && Head(log + [entry], |log|)
    ensures NextHead(log + [entry], i) == NextHead(log, i)
    decreases |log| - i
  {
    var more := log + [entry];
    if i < |log| {
      NextHeadAppend(log, entry, i + 1);
      HeadAppend(log, entry, i);
    }
  }

  lemma HeadAppend(log: Log, entry: Entry, i: nat)
    requires i < |log|
    ensures Head(log + [entry], i) == Head(log, i)
  {
    assert (log + [entry])[i] == log[i];
    assert i > 0 ==> (log + [entry])[i - 1] == log[i - 1];
  }

  lemma HeaderAppend(log: Log, entry: Entry, i: nat, running: bool)
    requires i < |log| && Head(log, i) && Head(log + [entry], |log|) && Head(log + [entry], i)
    ensures HeaderAt(log + [entry], i, running) == Settled(HeaderAt(log, i, running))
  {
    var more, end := log + [entry], NextHead(log, i + 1);
    NextHeadAppend(log, entry, i + 1);
    assert more[i + 1..end] == log[i + 1..end];
  }

  lemma {:induction false} SettledFlatten(parts: seq<seq<Item>>, settled: seq<seq<Item>>, n: nat)
    requires n <= |parts| && n <= |settled|
    requires forall i :: 0 <= i < n ==> settled[i] == SettledAll(parts[i])
    ensures Flatten(settled, n) == SettledAll(Flatten(parts, n))
  {
    if n > 0 {
      SettledFlatten(parts, settled, n - 1);
      var a, b := Flatten(parts, n - 1), parts[n - 1];
      assert SettledAll(a + b) == SettledAll(a) + SettledAll(b);
    }
  }

  lemma HeaderPartAppend(log: Log, entry: Entry, i: nat, running: bool)
    requires i < |log| && Head(log + [entry], |log|)
    ensures HeaderParts(log + [entry], running)[i] == SettledAll(HeaderParts(log, running)[i])
  {
    HeadAppend(log, entry, i);
    if Head(log, i) {
      HeaderAppend(log, entry, i, running);
    }
  }

  lemma NewHeader(log: Log, entry: Entry, running: bool)
    requires Head(log + [entry], |log|)
    ensures HeaderParts(log + [entry], running)[|log|] == [HeaderItem(entry, None, running, true)]
  {
    var more := log + [entry];
    assert more[|more|..|more|] == [];
  }

  /**
   Main result: a later start that is not a repeat leaves every header as it was, except that a
   running one becomes interrupted, and adds one header of its own.
   */
  lemma LaterStartSettles(log: Log, entry: Entry, running: bool, expanded: bool)
    requires Head(log + [entry], |log|)
    ensures Headers(View(log + [entry], running, expanded))
      == SettledAll(Headers(View(log, running, expanded))) + [HeaderItem(entry, None, running, true)]
  {
    var more := log + [entry];
    HeadersExact(log, running, expanded);
    HeadersExact(more, running, expanded);
    var parts, settled := HeaderParts(log, running), HeaderParts(more, running);
    forall i | 0 <= i < |log|
      ensures settled[i] == SettledAll(parts[i])
    {
      HeaderPartAppend(log, entry, i, running);
    }
    SettledFlatten(parts, settled, |log|);
    NewHeader(log, entry, running);
  }

  // ------------------------------------------------------------ what the texts show

  lemma {:induction false} StartsWithIff(s: string, prefix: string)
    ensures StartsWith(s, prefix) <==> exists rest: string :: s == prefix + rest
  {
    if StartsWith(s, prefix) {
      assert s == prefix + s[|prefix|..];
    }
  }

  ghost predicate Occurs(s: string, part: string) {
    exists before: string, after: string :: s == before + part + after
  }

  lemma ContainsIff(s: string, part: string)
    ensures Contains(s, part) <==> Occurs(s, part)
  {
    if Contains(s, part) {
      var i :| 0 <= i <= |s| && StartsWith(s[i..], part);
      assert s == s[..i] + part + s[i + |part|..];
    }
    if Occurs(s, part) {
      var before: string, after: string :| s == before + part + after;
      assert s[|before|..] == part + after;
    }
  }

  /** What is left after the leading characters that are among the marks. */
  ghost predicate Unmarks(s: string, marks: string, r: string) {
    && (exists a: string :: s == a + r && forall c | c in a :: c in marks)
    && (r == "" || r[0] !in marks)
  }

  lemma {:induction false} TrimMarksUnmarks(s: string, marks: string)
    ensures Unmarks(s, marks, TrimMarks(s, marks))
  {
    if s != "" && s[0] in marks {
      TrimMarksUnmarks(s[1..], marks);
      var r := TrimMarks(s, marks);
      var a: string :| s[1..] == a + r && forall c | c in a :: c in marks;
      assert s == ([s[0]] + a) + r;
    } else {
      assert s == "" + s;
    }
  }

  lemma {:induction false} TrimMarksOf(a: string, marks: string, r: string)
    requires forall c | c in a :: c in marks
    requires r == "" || r[0] !in marks
    ensures TrimMarks(a + r, marks) == r
  {
    if a == "" {
      assert a + r == r;
    } else {
      assert (a + r)[1..] == a[1..] + r;
      TrimMarksOf(a[1..], marks, r);
    }
  }

  lemma TrimMarksIff(s: string, marks: string, r: string)
    ensures r == TrimMarks(s, marks) <==> Unmarks(s, marks, r)
  {
    if Unmarks(s, marks, r) {
      var a: string :| s == a + r && forall c | c in a :: c in marks;
      TrimMarksOf(a, marks, r);
    } else {
      TrimMarksUnmarks(s, marks);
    }
  }

  /** An entry that begins with a mark, and the trimmed text behind it. */
  ghost predicate MarkedAs(raw: string, mark: char, text: string) {
    exists t: string :: Trims(raw, [mark] + t) && Trims(t, text)
  }

  lemma MarkedRead(raw: string, mark: char)
    requires Marked(Trim(raw), mark).Some?
    ensures MarkedAs(raw, mark, Marked(Trim(raw), mark).value)
  {
    var t := Trim(raw)[1..];
    assert Trim(raw) == [mark] + t;
    TrimIff(raw, [mark] + t);
    TrimIff(t, Trim(t));
  }

  lemma MarkedOnly(raw: string, mark: char, text: string)
    requires MarkedAs(raw, mark, text)
    ensures Marked(Trim(raw), mark) == Some(text)
  {
    var t: string :| Trims(raw, [mark] + t) && Trims(t, text);
    TrimIff(raw, [mark] + t);
    TrimIff(t, text);
    assert ([mark] + t)[1..] == t;
  }

  lemma MarkedIff(raw: string, mark: char, text: string)
    ensures Marked(Trim(raw), mark) == Some(text) <==> MarkedAs(raw, mark, text)
  {
    if Marked(Trim(raw), mark).Some? {
      MarkedRead(raw, mark);
    }
    if MarkedAs(raw, mark, text) {
      MarkedOnly(raw, mark, text);
    }
  }

  /** The start marker of a call of tool n with detail d. */
  ghost predicate Calls(raw: string, n: string, d: string) {
    exists rest: string :: MarkedAs(raw, '\U{23FA}', n + rest) && Behind(n, rest, d)
  }

  /** A text without the white space and dots in front of it. */
  ghost predicate Undots(rest: string, text: string) {
    exists m: string, u: string :: Trims(rest, m) && Unmarks(m, ['\U{B7}'], u) && Trims(u, text)
  }

  lemma UndotsIff(rest: string, text: string)
    ensures text == Trim(TrimMarks(Trim(rest), [DOT])) <==> Undots(rest, text)
  {
    var m := Trim(rest);
    TrimIff(rest, m);
    TrimMarksIff(m, [DOT], TrimMarks(m, [DOT]));
    TrimIff(TrimMarks(m, [DOT]), text);
    if Undots(rest, text) {
      var m': string, u: string :| Trims(rest, m') && Unmarks(m', [DOT], u) && Trims(u, text);
      TrimIff(rest, m');
      TrimMarksIff(m', [DOT], u);
    }
  }

  /** A name ends at the first space or middle dot; the detail comes after white space and dots. */
  ghost predicate Behind(n: string, rest: string, d: string) {
    && ' ' !in n && '\U{B7}' !in n && (rest == "" || rest[0] == ' ' || rest[0] == '\U{B7}')
    && Undots(rest, d)
  }

  lemma {:induction false} NameEnds(n: string, rest: string)
    requires ' ' !in n && DOT !in n && (rest == "" || rest[0] == ' ' || rest[0] == DOT)
    ensures Name(n + rest) == n
  {
    if n == "" {
      assert n + rest == rest;
    } else {
      assert (n + rest)[1..] == n[1..] + rest;
      NameEnds(n[1..], rest);
    }
  }

  lemma {:induction false} NameStops(action: string)
    ensures var n := Name(action); |n| == |action| || action[|n|] == ' ' || action[|n|] == DOT
  {
    if action != "" && action[0] != ' ' && action[0] != DOT {
      NameStops(action[1..]);
    }
  }

  lemma NameAndDetailIff(action: string, n: string, d: string)
    ensures Name(action) == n && DetailOf(action) == d <==> exists rest: string :: action == n + rest && Behind(n, rest, d)
  {
    if Name(action) == n && DetailOf(action) == d {
      var rest := action[|n|..];
      NameStops(action);
      assert action == n + rest;
      UndotsIff(rest, d);
    }
    if rest: string :| action == n + rest && Behind(n, rest, d) {
      NameEnds(n, rest);
      assert (n + rest)[|n|..] == rest;
      UndotsIff(rest, d);
    }
  }

  lemma CallsRead(raw: string, action: string)
    requires Marked(Trim(raw), START) == Some(action)
    ensures Calls(raw, Name(action), DetailOf(action))
  {
    var n, d := Name(action), DetailOf(action);
    NameAndDetailIff(action, n, d);
    var rest: string :| action == n + rest && Behind(n, rest, d);
    MarkedIff(raw, START, n + rest);
  }

  lemma CallsOnly(raw: string, n: string, d: string)
    requires Calls(raw, n, d)
    ensures Marked(Trim(raw), START).Some?
    ensures Name(Marked(Trim(raw), START).value) == n && DetailOf(Marked(Trim(raw), START).value) == d
  {
    var rest: string :| MarkedAs(raw, '\U{23FA}', n + rest) && Behind(n, rest, d);
    MarkedIff(raw, START, n + rest);
    NameAndDetailIff(n + rest, n, d);
  }

  lemma CallsIff(raw: string, n: string, d: string)
    ensures Read(raw).start && Read(raw).name == n && Read(raw).detail == d <==> Calls(raw, n, d)
  {
    var action := Marked(Trim(raw), START);
    if action.Some? {
      CallsRead(raw, action.value);
    }
    if Calls(raw, n, d) {
      CallsOnly(raw, n, d);
    }
  }

  ghost predicate Answers(raw: string, answer: string) {
    MarkedAs(raw, '\U{23BF}', answer)
  }

  ghost predicate Clickable(text: string) {
    (exists rest: string :: text == "http" + rest) || Occurs(text, "VesperLens")
  }

  lemma LinkIff(text: string)
    ensures IsLink(text) <==> Clickable(text)
  {
    StartsWithIff(text, "http");
    ContainsIff(text, "VesperLens");
  }

  /** Without its white space. */
  ghost predicate ClickableInside(raw: string) {
    exists t: string :: Trims(raw, t) && Clickable(t)
  }

  lemma LinkInsideIff(raw: string)
    ensures IsLink(Trim(raw)) <==> ClickableInside(raw)
  {
    TrimIff(raw, Trim(raw));
    LinkIff(Trim(raw));
    if ClickableInside(raw) {
      var t: string :| Trims(raw, t) && Clickable(t);
      TrimIff(raw, t);
    }
  }

  ghost predicate Has(name: string, words: seq<string>) {
    exists k :: 0 <= k < |words| && Occurs(name, words[k])
  }

  /** The title by the words in a name, and the language its detail is written in. */
  ghost predicate Entitles(name: string, title: string, lang: string) {
    if Has(name, ["command", "shell"]) then title == "Ran" && lang == "sh"
    else
      && lang == ""
      && if Has(name, ["read"]) then title == "Read"
         else if Has(name, ["search", "grep"]) then title == "Search"
         else if Has(name, ["list"]) then title == "Explored"
         else if Has(name, ["write", "edit", "patch"]) then title == "Edited"
         else title == name
  }

  lemma HasOne(name: string, words: seq<string>)
    requires |words| == 1
    ensures Has(name, words) <==> Contains(name, words[0])
  {
    ContainsIff(name, words[0]);
  }

  lemma HasTwo(name: string, words: seq<string>)
    requires |words| == 2
    ensures Has(name, words) <==> Contains(name, words[0]) || Contains(name, words[1])
  {
    ContainsIff(name, words[0]);
    ContainsIff(name, words[1]);
  }

  lemma HasThree(name: string, words: seq<string>)
    requires |words| == 3
    ensures Has(name, words) <==> Contains(name, words[0]) || Contains(name, words[1]) || Contains(name, words[2])
  {
    ContainsIff(name, words[0]);
    ContainsIff(name, words[1]);
    ContainsIff(name, words[2]);
  }

  lemma EntitlesTitle(name: string)
    ensures Entitles(name, TitleOf(name).0, TitleOf(name).1)
  {
    HasTwo(name, ["command", "shell"]);
    HasOne(name, ["read"]);
    HasTwo(name, ["search", "grep"]);
    HasOne(name, ["list"]);
    HasThree(name, ["write", "edit", "patch"]);
  }

  /** A text that is only the start marker and the name of the detailed marker before it. */
  ghost predicate RepeatsName(before: string, next: string) {
    exists n: string, d: string :: Calls(before, n, d) && d != "" && Trims(next, ['\U{23FA}', ' '] + n)
  }

  lemma RepeatsIff(before: string, next: string)
    ensures Repeats(Read(before), Read(next)) <==> RepeatsName(before, next)
  {
    var entry := Read(before);
    CallsIff(before, entry.name, entry.detail);
    TrimIff(next, [START, ' '] + entry.name);
    if RepeatsName(before, next) {
      var n: string, d: string :| Calls(before, n, d) && d != "" && Trims(next, ['\U{23FA}', ' '] + n);
      CallsIff(before, n, d);
    }
  }

  /** A block opens at a start marker, unless that repeats the name of the detailed one before it. */
  ghost predicate Opens(raw: seq<string>, i: nat)
    requires i < |raw|
  {
    && (exists text: string :: MarkedAs(raw[i], '\U{23FA}', text))
    && (i == 0 || !RepeatsName(raw[i - 1], raw[i]))
  }

  lemma OpensIff(raw: seq<string>, i: nat)
    requires i < |raw|
    ensures Head(ReadAll(raw), i) <==> Opens(raw, i)
  {
    var action := Marked(Trim(raw[i]), START);
    if action.Some? {
      MarkedIff(raw[i], START, action.value);
    }
    if text: string :| MarkedAs(raw[i], '\U{23FA}', text) {
      MarkedIff(raw[i], START, text);
    }
    if i > 0 {
      RepeatsIff(raw[i - 1], raw[i]);
    }
  }

  ghost predicate Silent(text: string) {
    forall s: string :: !Answers(text, s)
  }

  ghost predicate FirstAnswer(texts: seq<string>, s: string) {
    texts != [] && (Answers(texts[0], s) || (Silent(texts[0]) && FirstAnswer(texts[1..], s)))
  }

  ghost predicate Unanswered(texts: seq<string>) {
    forall k :: 0 <= k < |texts| ==> Silent(texts[k])
  }

  lemma AnswersRead(text: string)
    ensures match Read(text).result case Some(s) => Answers(text, s) case None => Silent(text)
  {
    match Marked(Trim(text), RESULT)
    case Some(s) => MarkedIff(text, RESULT, s);
    case None =>
      forall s: string ensures !Answers(text, s) {
        MarkedIff(text, RESULT, s);
      }
  }

  lemma {:induction false} FirstResultAnswers(texts: seq<string>)
    ensures match FirstResult(ReadAll(texts)) case Some(s) => FirstAnswer(texts, s) case None => Unanswered(texts)
  {
    if texts != [] {
      AnswersRead(texts[0]);
      FirstResultAnswers(texts[1..]);
      assert ReadAll(texts)[1..] == ReadAll(texts[1..]);
      assert forall k :: 1 <= k < |texts| ==> texts[k] == texts[1..][k - 1];
    }
  }

  /** The text behind the tool's name, if it is there, without the white space and dots in front. */
  ghost predicate Cuts(t: string, n: string, text: string) {
    (exists rest: string :: t == n + rest && Undots(rest, text)) || (!StartsWith(t, n) && Undots(t, text))
  }

  /** An answer without its verdict and the tool's name. */
  ghost predicate Cleans(answer: string, n: string, text: string) {
    exists u: string, t: string :: Unmarks(answer, ['\U{2713}', '\U{2717}'], u) && Trims(u, t) && Cuts(t, n, text)
  }

  lemma ResultCleans(answer: string, n: string)
    ensures Cleans(answer, n, ResultText(answer, n))
  {
    var u := TrimMarks(answer, [TICK, CROSS]);
    var t := Trim(u);
    TrimMarksIff(answer, [TICK, CROSS], u);
    TrimIff(u, t);
    ResultCuts(t, n, ResultText(answer, n));
  }

  lemma ResultCuts(t: string, n: string, text: string)
    requires text == Trim(TrimMarks(Trim(if StartsWith(t, n) then t[|n|..] else t), [DOT]))
    ensures Cuts(t, n, text)
  {
    UndotsIff(if StartsWith(t, n) then t[|n|..] else t, text);
    if StartsWith(t, n) {
      assert t == n + t[|n|..];
    }
  }

  /** At most `limit` lines of a text, and how many are not shown. */
  ghost predicate Writes(text: string, limit: nat, items: seq<Item>) {
    var lines := Lines(text);
    var shown := if |lines| <= limit then |lines| else limit;
    && (text == "" ==> items == [NoOutput])
    && (text != "" ==>
          && |items| == shown + (if |lines| > limit then 1 else 0)
          && (forall k :: 0 <= k < shown ==> items[k] == Output(lines[k]))
          && (|lines| > limit ==> items[limit] == Hidden(|lines| - limit)))
  }

  lemma OutputWrites(text: string, expanded: bool)
    ensures Writes(text, if expanded then 80 else 2, OutputItems(text, expanded))
  {
  }

  ghost function ClickableOf(texts: seq<string>): seq<Item> {
    if texts == [] then []
    else (if Clickable(texts[0]) then [Link(texts[0])] else []) + ClickableOf(texts[1..])
  }

  lemma {:induction false} LinksClickable(texts: seq<string>)
    ensures Links(ReadAll(texts)) == ClickableOf(texts)
  {
    if texts != [] {
      LinkIff(texts[0]);
      LinksClickable(texts[1..]);
      assert ReadAll(texts)[1..] == ReadAll(texts[1..]);
    }
  }

  ghost predicate Crossed(s: string) {
    exists r: string :: s == ['\U{2717}'] + r
  }

  /** How a call of tool n ended, going by the texts of its block. */
  ghost predicate Ends(texts: seq<string>, n: string, current: bool, limit: nat, state: CallState, body: seq<Item>) {
    || (exists s: string, text: string :: FirstAnswer(texts, s) && Cleans(s, n, text) && Writes(text, limit, body)
          && state == (if Crossed(s) then Failed else Succeeded))
    || (Unanswered(texts) && current && state == Running && body == [])
    || (Unanswered(texts) && !current && state == Interrupted && body == [InterruptedNote])
  }

  lemma CrossedIff(s: string)
    ensures s != "" && s[0] == CROSS <==> Crossed(s)
  {
    if s != "" && s[0] == CROSS {
      assert s == [CROSS] + s[1..];
    }
  }

  lemma BlockEnds(texts: seq<string>, entry: Entry, running: bool, last: bool, expanded: bool)
    ensures var result := FirstResult(ReadAll(texts));
      Ends(texts, entry.name, running && last, if expanded then 80 else 2,
           StateOf(result, running, last), BodyItems(entry, result, running, last, expanded))
  {
    FirstResultAnswers(texts);
    match FirstResult(ReadAll(texts))
    case Some(s) =>
      CrossedIff(s);
      ResultCleans(s, entry.name);
      OutputWrites(ResultText(s, entry.name), expanded);
    case None =>
  }

  /** The block of a call: its header, how it ended, and the links in it. */
  ghost predicate Says(opening: string, texts: seq<string>, current: bool, limit: nat, items: seq<Item>) {
    exists n: string, d: string, title: string, lang: string, state: CallState, body: seq<Item> ::
      && Calls(opening, n, d) && Entitles(n, title, lang) && Ends(texts, n, current, limit, state, body)
      && items == [Header(state, title, lang, d)] + body + ClickableOf(texts)
  }

  lemma BlockSays(opening: string, texts: seq<string>, running: bool, last: bool, expanded: bool)
    requires Read(opening).start
    ensures Says(opening, texts, running && last, if expanded then 80 else 2,
                 Block(Read(opening), ReadAll(texts), running, last, expanded))
  {
    var entry := Read(opening);
    CallsIff(opening, entry.name, entry.detail);
    EntitlesTitle(entry.name);
    BlockEnds(texts, entry, running, last, expanded);
    LinksClickable(texts);
  }

  /** The blocks of a log end where the next one opens. */
  ghost predicate Closes(raw: seq<string>, i: nat, end: nat)
    requires i < |raw|
  {
    i < end <= |raw| && (end < |raw| ==> Opens(raw, end)) && forall j :: i < j < end ==> !Opens(raw, j)
  }

  /** What position i of the log adds: a block, a link in front of all blocks, or nothing. */
  ghost predicate Adds(raw: seq<string>, i: nat, running: bool, limit: nat, items: seq<Item>)
    requires i < |raw|
  {
    if Opens(raw, i) then
      exists end: nat :: Closes(raw, i, end) && Says(raw[i], raw[i + 1..end], running && end == |raw|, limit, items)
    else if ClickableInside(raw[i]) && forall j :: 0 <= j < i ==> !Opens(raw, j) then items == [Link(raw[i])]
    else items == []
  }

  lemma HeadsOpen(raw: seq<string>)
    ensures forall j: nat :: j < |raw| ==> (Head(ReadAll(raw), j) <==> Opens(raw, j))
  {
    forall j: nat | j < |raw|
      ensures Head(ReadAll(raw), j) <==> Opens(raw, j)
    {
      OpensIff(raw, j);
    }
  }

  lemma ReadSlice(raw: seq<string>, i: nat, end: nat)
    requires i <= end <= |raw|
    ensures ReadAll(raw)[i..end] == ReadAll(raw[i..end])
  {
  }

  lemma BlockAdds(raw: seq<string>, i: nat, end: nat, running: bool, expanded: bool)
    requires i < end <= |raw| && Opens(raw, i) && Closes(raw, i, end) && Read(raw[i]).start
    ensures Adds(raw, i, running, if expanded then 80 else 2,
                 Block(Read(raw[i]), ReadAll(raw[i + 1..end]), running, end == |raw|, expanded))
  {
    BlockSays(raw[i], raw[i + 1..end], running, end == |raw|, expanded);
  }

  lemma HeadCloses(raw: seq<string>, i: nat, end: nat)
    requires i < |raw| && Head(ReadAll(raw), i) && end == NextHead(ReadAll(raw), i + 1)
    ensures Opens(raw, i) && Closes(raw, i, end) && Read(raw[i]).start
  {
    HeadsOpen(raw);
  }

  lemma BlockOfTexts(raw: seq<string>, i: nat, end: nat, running: bool, expanded: bool)
    requires i < |raw| && Head(ReadAll(raw), i) && end == NextHead(ReadAll(raw), i + 1)
    ensures BlockAt(ReadAll(raw), i, running, expanded)
      == Block(Read(raw[i]), ReadAll(raw[i + 1..end]), running, end == |raw|, expanded)
  {
    ReadSlice(raw, i + 1, end);
  }

  lemma HeadAdds(raw: seq<string>, i: nat, running: bool, expanded: bool)
    requires i < |raw| && Head(ReadAll(raw), i)
    ensures Adds(raw, i, running, if expanded then 80 else 2, BlockAt(ReadAll(raw), i, running, expanded))
  {
    var end := NextHead(ReadAll(raw), i + 1);
    HeadCloses(raw, i, end);
    BlockOfTexts(raw, i, end, running, expanded);
    BlockAdds(raw, i, end, running, expanded);
  }

  lemma OtherAdds(raw: seq<string>, i: nat, running: bool, expanded: bool)
    requires i < |raw| && !Head(ReadAll(raw), i)
    ensures Adds(raw, i, running, if expanded then 80 else 2, Contribution(ReadAll(raw), i, running, expanded))
  {
    HeadsOpen(raw);
    LinkInsideIff(raw[i]);
  }

  ghost predicate AllAdd(raw: seq<string>, running: bool, limit: nat, parts: seq<seq<Item>>) {
    |parts| == |raw| && forall i :: 0 <= i < |raw| ==> Adds(raw, i, running, limit, parts[i])
  }

  lemma PartsAdd(raw: seq<string>, running: bool, expanded: bool)
    ensures AllAdd(raw, running, if expanded then 80 else 2, Parts(ReadAll(raw), running, expanded))
  {
    forall i | 0 <= i < |raw|
      ensures Adds(raw, i, running, if expanded then 80 else 2, Contribution(ReadAll(raw), i, running, expanded))
    {
      if Head(ReadAll(raw), i) {
        HeadAdds(raw, i, running, expanded);
      } else {
        OtherAdds(raw, i, running, expanded);
      }
    }
  }

  /** What the view shows, read off the texts of the log: the parts of its positions in order. */
  ghost predicate Shows(raw: seq<string>, running: bool, limit: nat, items: seq<Item>) {
    exists parts :: AllAdd(raw, running, limit, parts) && items == Flatten(parts, |raw|)
  }

  /**
   Main result: the view shows markers, names, details and answers by their characters, titles by
   the words in a name, and states by the answers, with two lines of an answer or with 80.
   */
  lemma ViewShows(raw: seq<string>, running: bool, expanded: bool)
    ensures Shows(raw, running, if expanded then 80 else 2, View(ReadAll(raw), running, expanded))
  {
    var parts := Parts(ReadAll(raw), running, expanded);
    PartsAdd(raw, running, expanded);
    assert View(ReadAll(raw), running, expanded) == Flatten(parts, |raw|);
  }
}
