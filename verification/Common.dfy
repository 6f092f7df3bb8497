/** What several components share: optional values, the order of strings, and text helpers. */
module Common {

  datatype Option<+T> = None | Some(value: T)

  /** Code points compared left to right, which is also the order of UTF-8 encodings. */
  predicate LexLess(a: string, b: string) {
    b != [] && (a == [] || a[0] < b[0] || (a[0] == b[0] && LexLess(a[1..], b[1..])))
  }

  lemma {:induction false} LexOrder(a: string, b: string, c: string)
    ensures !LexLess(a, a)
    ensures a == b || LexLess(a, b) || LexLess(b, a)
    ensures LexLess(a, b) && LexLess(b, c) ==> LexLess(a, c)
    decreases |a|
  {
    if a != "" {
      LexOrder(a[1..], if b == "" then "" else b[1..], if c == "" then "" else c[1..]);
      if b != "" && a[0] == b[0] && a[1..] == b[1..] {
        assert a == [a[0]] + a[1..] && b == [b[0]] + b[1..];
      }
    }
  }

  /** Up to some place the strings agree, and there the first ends or has the smaller character. */
  ghost predicate Precedes(a: string, b: string) {
    exists i :: 0 <= i <= |a| && i < |b| && a[..i] == b[..i] && (i == |a| || a[i] < b[i])
  }

  lemma {:induction false} LexIff(a: string, b: string)
    ensures LexLess(a, b) <==> Precedes(a, b)
  {
    if a != "" && b != "" {
      LexIff(a[1..], b[1..]);
      if LexLess(a, b) && !(a[0] < b[0]) {
        PrecedesBehind(a, b);
      }
      if i :| 0 < i <= |a| && i < |b| && a[..i] == b[..i] && (i == |a| || a[i] < b[i]) {
        assert a[0] == a[..i][0] == b[..i][0] == b[0];
        assert a[1..][..i - 1] == a[..i][1..] == b[..i][1..] == b[1..][..i - 1];
      }
    } else if b != "" {
      assert a[..0] == b[..0];
    }
  }

  lemma PrecedesBehind(a: string, b: string)
    requires a != "" && b != "" && a[0] == b[0] && Precedes(a[1..], b[1..])
    ensures Precedes(a, b)
  {
    var s, t := a[1..], b[1..];
    var i :| 0 <= i <= |s| && i < |t| && s[..i] == t[..i] && (i == |s| || s[i] < t[i]);
    assert a == [a[0]] + s && b == [b[0]] + t;
    assert a[..i + 1] == [a[0]] + s[..i] == b[..i + 1];
  }

  function Elements(names: seq<string>): (r: set<string>)
    ensures forall n :: n in r <==> n in names
  {
    set n | n in names
  }

  /** The Unicode White_Space property. */
  predicate White(c: char) {
    var n := c as int;
    || 9 <= n <= 13 || n == 0x20 || n == 0x85 || n == 0xA0 || n == 0x1680 || 0x2000 <= n <= 0x200A
    || n == 0x2028 || n == 0x2029 || n == 0x202F || n == 0x205F || n == 0x3000
  }

  function TrimStart(s: string): (r: string)
    ensures r == "" || !White(r[0])
  {
    if s != "" && White(s[0]) then TrimStart(s[1..]) else s
  }

  function TrimEnd(s: string): (r: string)
    ensures |r| <= |s| && r == s[..|r|]
    ensures r == "" || !White(r[|r| - 1])
  {
    if s != "" && White(s[|s| - 1]) then TrimEnd(s[..|s| - 1]) else s
  }

  function Trim(s: string): (r: string)
    ensures r == "" || (!White(r[0]) && !White(r[|r| - 1]))
  {
    TrimEnd(TrimStart(s))
  }

  predicate StartsWith(s: string, prefix: string) {
    |prefix| <= |s| && s[..|prefix|] == prefix
  }

  function DropCarriageReturn(line: string): string {
    if line != "" && line[|line| - 1] == '\r' then line[..|line| - 1] else line
  }

  /** Lines without their terminators; text after the last terminator is a line if not empty. */
  function Lines(s: string): seq<string> {
    if s == "" then []
    else
      var n := LineLength(s);
      if n == |s| then [s] else [DropCarriageReturn(s[..n])] + Lines(s[n + 1..])
  }

  function LineLength(s: string): (n: nat)
    ensures n <= |s|
    ensures n < |s| ==> s[n] == '\n'
    ensures forall i :: 0 <= i < n ==> s[i] != '\n'
  {
    if s == "" || s[0] == '\n' then 0 else 1 + LineLength(s[1..])
  }

  predicate AllDigits(s: string) {
    forall i :: 0 <= i < |s| ==> '0' <= s[i] <= '9'
  }

  /** The decimal number that a text of digits spells. */
  function Spelled(s: string): nat
    requires AllDigits(s)
  {
    if s == "" then 0 else 10 * Spelled(s[..|s| - 1]) + (s[|s| - 1] - '0') as nat
  }

  // ------------------------------------------------------------ what the helpers return

  predicate AllWhite(s: string) {
    forall c | c in s :: White(c)
  }

  /** What is left of a text between white space at both ends. */
  ghost predicate Trims(s: string, r: string) {
    && (exists a, b :: s == a + r + b && AllWhite(a) && AllWhite(b))
    && (r == "" || (!White(r[0]) && !White(r[|r| - 1])))
  }

  lemma {:induction false} TrimStartCuts(s: string) returns (a: string)
    ensures s == a + TrimStart(s) && AllWhite(a)
  {
    a := "";
    if s != "" && White(s[0]) {
      var rest := TrimStartCuts(s[1..]);
      a := [s[0]] + rest;
      assert s == [s[0]] + s[1..];
    }
  }

  lemma {:induction false} TrimEndCuts(s: string) returns (b: string)
    ensures s == TrimEnd(s) + b && AllWhite(b)
  {
    b := "";
    if s != "" && White(s[|s| - 1]) {
      var rest := TrimEndCuts(s[..|s| - 1]);
      b := rest + [s[|s| - 1]];
      assert s == s[..|s| - 1] + [s[|s| - 1]];
    }
  }

  lemma {:induction false} TrimStartOf(a: string, r: string)
    requires AllWhite(a)
    ensures TrimStart(a + r) == TrimStart(r)
  {
    if a == "" {
      assert a + r == r;
    } else {
      assert (a + r)[1..] == a[1..] + r;
      TrimStartOf(a[1..], r);
    }
  }

  lemma {:induction false} TrimEndOf(r: string, b: string)
    requires AllWhite(b)
    ensures TrimEnd(r + b) == TrimEnd(r)
  {
    if b == "" {
      assert r + b == r;
    } else {
      assert (r + b)[..|r + b| - 1] == r + b[..|b| - 1];
      TrimEndOf(r, b[..|b| - 1]);
    }
  }

  lemma TrimTrims(s: string)
    ensures Trims(s, Trim(s))
  {
    var a := TrimStartCuts(s);
    var b := TrimEndCuts(TrimStart(s));
    assert s == a + Trim(s) + b;
  }

  lemma TrimOf(a: string, r: string, b: string)
    requires AllWhite(a) && AllWhite(b) && (r == "" || (!White(r[0]) && !White(r[|r| - 1])))
    ensures Trim(a + (r + b)) == r
  {
    TrimStartOf(a, r + b);
    if r == "" {
      assert r + b == b && b + "" == b;
      TrimStartOf(b, "");
    } else {
      assert (r + b)[0] == r[0];
      TrimEndOf(r, b);
    }
  }

  lemma TrimsOnce(s: string, r: string)
    requires Trims(s, r)
    ensures r == Trim(s)
  {
    var a, b :| s == a + r + b && AllWhite(a) && AllWhite(b);
    assert s == a + (r + b);
    TrimOf(a, r, b);
  }

  lemma TrimIff(s: string, r: string)
    ensures r == Trim(s) <==> Trims(s, r)
  {
    if Trims(s, r) {
      TrimsOnce(s, r);
    } else {
      TrimTrims(s);
    }
  }

  /** Lines written one after the other, each with its terminator. */
  function Terminated(lines: seq<string>): string {
    if lines == [] then "" else lines[0] + ("\n" + Terminated(lines[1..]))
  }

  function Stripped(lines: seq<string>): seq<string> {
    if lines == [] then [] else [DropCarriageReturn(lines[0])] + Stripped(lines[1..])
  }

  lemma StripIff(line: string, r: string)
    ensures r == DropCarriageReturn(line) <==>
              line == r + "\r" || (line == r && (line == "" || line[|line| - 1] != '\r'))
  {
    if line != "" {
      assert line == line[..|line| - 1] + [line[|line| - 1]];
    }
    if line == r + "\r" {
      assert line[..|line| - 1] == r;
    }
  }

  /** The lines of a text are those it was written from, each without one carriage return at its end. */
  lemma {:induction false} LinesRead(lines: seq<string>, last: string)
    requires (forall line | line in lines :: '\n' !in line) && '\n' !in last
    ensures Lines(Terminated(lines) + last) == Stripped(lines) + (if last == "" then [] else [last])
  {
    var s := Terminated(lines) + last;
    if lines == [] {
      assert s == last;
      assert LineLength(last) == |last|;
    } else {
      var rest := Terminated(lines[1..]) + last;
      LinesRead(lines[1..], last);
      assert s == lines[0] + ("\n" + rest);
      FirstLine(lines[0], rest);
    }
  }

  lemma FirstLineLength(line: string, rest: string)
    requires '\n' !in line
    ensures LineLength(line + ("\n" + rest)) == |line|
  {
    var s := line + ("\n" + rest);
    assert s[|line|] == '\n';
    assert forall i :: 0 <= i < |line| ==> s[i] == line[i] != '\n';
  }

  lemma FirstLine(line: string, rest: string)
    requires '\n' !in line
    ensures Lines(line + ("\n" + rest)) == [DropCarriageReturn(line)] + Lines(rest)
  {
    var s := line + ("\n" + rest);
    FirstLineLength(line, rest);
    assert s[..|line|] == line && s[|line| + 1..] == rest;
  }
}
