/**
 `contains_word_bounded`: does a needle occur in a line as a word of its own? The scan
 jumps past each rejected occurrence as a whole, so it never looks at an occurrence that
 overlaps one. When that loses nothing is settled exactly.
 */
module WordBoundary {

  predicate AsciiAlphanumeric(c: char) {
    'a' <= c <= 'z' || 'A' <= c <= 'Z' || '0' <= c <= '9'
  }

  predicate OccursAt(h: string, n: string, i: int) {
    0 <= i <= |h| - |n| && h[i..i + |n|] == n
  }

  /** The characters next to positions i and j of the line, where they exist. */
  predicate BeforeOk(h: string, i: int) {
    0 < i <= |h| ==> !AsciiAlphanumeric(h[i - 1])
  }

  predicate AfterOk(h: string, j: int) {
    0 <= j < |h| ==> !AsciiAlphanumeric(h[j])
  }

  predicate WordAt(h: string, n: string, i: int) {
    OccursAt(h, n, i) && BeforeOk(h, i) && AfterOk(h, i + |n|)
  }

  /** Reference definition: some occurrence stands alone. */
  ghost predicate OccursAsWord(h: string, n: string) {
    exists i :: WordAt(h, n, i)
  }

  /** `haystack[offset..].find(needle)`, as a position in the haystack, or -1. */
  function Find(h: string, n: string, offset: nat): (p: int)
    ensures p == -1 || (offset <= p && OccursAt(h, n, p))
    ensures forall i :: offset <= i && OccursAt(h, n, i) ==> 0 <= p <= i
    decreases |h| - offset
  {
    if offset + |n| > |h| then -1
    else if OccursAt(h, n, offset) then offset
    else Find(h, n, offset + 1)
  }

  /** What the scan finds from an offset on. */
  predicate Scan(h: string, n: string, offset: nat)
    requires n != ""
    decreases |h| - offset
  {
    var start := Find(h, n, offset);
    start >= 0 && (WordAt(h, n, start) || Scan(h, n, start + |n|))
  }

  method ContainsWordBounded(haystack: string, needle: string) returns (found: bool)
    requires needle != ""
    ensures found == Scan(haystack, needle, 0)
  {
    var offset := 0;
    var start := Find(haystack, needle, offset);
    while start >= 0
      invariant offset <= |haystack|
      invariant start == Find(haystack, needle, offset)
      invariant Scan(haystack, needle, 0) == Scan(haystack, needle, offset)
      decreases |haystack| - offset
    {
      ScanStep(haystack, needle, offset);
      var end := start + |needle|;
      if BeforeOk(haystack, start) && AfterOk(haystack, end) {
        return true;
      }
      offset := end;
      start := Find(haystack, needle, offset);
    }
    found := false;
  }

  lemma ScanStep(h: string, n: string, offset: nat)
    requires n != "" && Find(h, n, offset) >= 0
    ensures var start := Find(h, n, offset);
      && offset < start + |n| <= |h|
      && (Scan(h, n, offset) <==>
            (BeforeOk(h, start) && AfterOk(h, start + |n|)) || Scan(h, n, start + |n|))
  {
  }

  // ---------------------------------------------------------- scan against reference

  /** Whatever the needle, the scan only reports words that are there. */
  lemma {:induction false} ScanIsSound(h: string, n: string, offset: nat)
    requires n != "" && Scan(h, n, offset)
    ensures OccursAsWord(h, n)
    decreases |h| - offset
  {
    var start := Find(h, n, offset);
    if !WordAt(h, n, start) {
      ScanIsSound(h, n, start + |n|);
    }
  }

  /** Shifted by d the needle overlaps itself, and a word could begin there. */
  predicate SplitsAt(n: string, d: int) {
    0 < d < |n| && n[d..] == n[..|n| - d] && !AsciiAlphanumeric(n[d - 1])
  }

  predicate Unsplittable(n: string) {
    forall d | 0 < d < |n| :: !SplitsAt(n, d)
  }

  lemma OverlapSplits(h: string, n: string, i: int, j: int)
    requires OccursAt(h, n, i) && WordAt(h, n, j) && i < j < i + |n|
    ensures SplitsAt(n, j - i)
  {
    var d := j - i;
    var u, v := h[i..i + |n|], h[j..j + |n|];
    assert u[d - 1] == h[j - 1];
    assert n[d..] == n[..|n| - d] by {
      assert forall k :: 0 <= k < |n| - d ==> u[d + k] == h[j + k] == v[k];
    }
  }

  lemma {:induction false} ScanIsComplete(h: string, n: string, offset: nat, j: int)
    requires n != "" && Unsplittable(n)
    requires offset <= j && WordAt(h, n, j)
    ensures Scan(h, n, offset)
    decreases |h| - offset
  {
    var start := Find(h, n, offset);
    if !WordAt(h, n, start) {
      if j < start + |n| {
        OverlapSplits(h, n, start, j);
      } else {
        ScanIsComplete(h, n, start + |n|, j);
      }
    }
  }

  /** A line in which the only word lies under an occurrence the scan rejects. */
  function HiddenWord(n: string, d: int): (h: string)
    requires SplitsAt(n, d)
    ensures |h| == 1 + d + |n|
  {
    [if n[0] == 'x' then 'y' else 'x'] + n[..d] + n
  }

  lemma HiddenWordMissed(n: string, d: int)
    requires SplitsAt(n, d)
    ensures var h := HiddenWord(n, d);
      !Scan(h, n, 0) && OccursAsWord(h, n)
  {
    var h := HiddenWord(n, d);
    assert h[1..1 + |n|] == n by {
      assert n == n[..d] + n[d..] && n[d..] == n[..|n| - d];
      assert h[1..1 + d] == n[..d] && h[1 + d..1 + |n|] == n[..|n| - d];
    }
    assert h[1 + d..1 + d + |n|] == n && h[d] == n[d - 1];
    assert WordAt(h, n, 1 + d);
    assert !OccursAt(h, n, 0) by { assert h[0] != n[0]; }
    assert Find(h, n, 0) == 1;
    assert !WordAt(h, n, 1);
    assert Find(h, n, 1 + |n|) == -1;
  }

  /**
   Main result: the scan decides the reference definition on every line exactly when the
   needle has no self-overlap at which a word could begin.
   */
  lemma ScanExactIff(n: string)
    requires n != ""
    ensures (forall h :: Scan(h, n, 0) <==> OccursAsWord(h, n)) <==> Unsplittable(n)
  {
    if Unsplittable(n) {
      forall h
        ensures Scan(h, n, 0) <==> OccursAsWord(h, n)
      {
        if Scan(h, n, 0) {
          ScanIsSound(h, n, 0);
        }
        if j :| WordAt(h, n, j) {
          ScanIsComplete(h, n, 0, j);
        }
      }
    } else {
      var d :| 0 < d < |n| && SplitsAt(n, d);
      HiddenWordMissed(n, d);
    }
  }

  /** The guard's needles are all letters and digits, for which the scan is exact. */
  lemma WordNeedleExact(h: string, n: string)
    requires n != "" && forall i :: 0 <= i < |n| ==> AsciiAlphanumeric(n[i])
    ensures Scan(h, n, 0) <==> OccursAsWord(h, n)
  {
    ScanExactIff(n);
  }

  /** A text that has no letter or digit at the end that touches the word. */
  predicate Apart(edge: string) {
    edge == "" || !('a' <= edge[0] <= 'z' || 'A' <= edge[0] <= 'Z' || '0' <= edge[0] <= '9')
  }

  /** The line is the needle between two texts that leave it apart. */
  ghost predicate StandsAlone(h: string, n: string) {
    exists a, b :: h == a + n + b && Apart(b) && (a == "" || Apart([a[|a| - 1]]))
  }

  lemma WordStands(h: string, n: string, i: int)
    requires WordAt(h, n, i)
    ensures StandsAlone(h, n)
  {
    var a, b := h[..i], h[i + |n|..];
    assert h == a + n + b;
    assert a != "" ==> a[|a| - 1] == h[i - 1];
    assert Apart(b) && (a == "" || Apart([a[|a| - 1]]));
  }

  lemma StandingWord(a: string, n: string, b: string)
    requires Apart(b) && (a == "" || Apart([a[|a| - 1]]))
    ensures WordAt(a + n + b, n, |a|)
  {
    var h := a + n + b;
    assert h[|a|..|a| + |n|] == n;
  }

  lemma WordIff(h: string, n: string)
    ensures OccursAsWord(h, n) <==> StandsAlone(h, n)
  {
    if i :| WordAt(h, n, i) {
      WordStands(h, n, i);
    }
    if a, b :| h == a + n + b && Apart(b) && (a == "" || Apart([a[|a| - 1]])) {
      StandingWord(a, n, b);
    }
  }

  /** Main result: for a needle of letters and digits the loop finds it exactly where it stands alone. */
  lemma FoundIffAlone(h: string, n: string)
    requires n != "" && forall i :: 0 <= i < |n| ==> 'a' <= n[i] <= 'z' || 'A' <= n[i] <= 'Z' || '0' <= n[i] <= '9'
    ensures Scan(h, n, 0) <==> StandsAlone(h, n)
  {
    WordNeedleExact(h, n);
    WordIff(h, n);
  }
}
