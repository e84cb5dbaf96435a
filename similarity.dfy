/**
  The similarity score the term store ranks keys by: the Ratcliff/Obershelp
  ratio that Python's `difflib.SequenceMatcher(None, a, b).ratio()` computes.
  The matched length M is found by taking the longest common block of the two
  strings (the earliest one in `a`, then in `b`, when several are longest) and
  recursing on the fragments to its left and to its right; the ratio is
  2·M / (|a| + |b|), and 1.0 when both strings are empty. No character is
  treated as junk (difflib's "autojunk" rule only applies once `b` has 200
  characters or more).
 */
module Similarity {

  /** A matching block: `a[i..i + size] == b[j..j + size]`. */
  datatype Block = Block(i: nat, j: nat, size: nat)

  /** Length of the longest common prefix of `a[i..]` and `b[j..]`: the
      longest block that starts at `(i, j)`. */
  function Run(a: string, b: string, i: nat, j: nat): (k: nat)
    requires i <= |a| && j <= |b|
    ensures i + k <= |a| && j + k <= |b|
    decreases |a| - i
  {
    if i < |a| && j < |b| && a[i] == b[j] then 1 + Run(a, b, i + 1, j + 1) else 0
  }

  /** The run at `(i, j)` is a common block, and it cannot be extended: the
      characters right after it differ, or one string ends there. */
  lemma {:induction false} RunFacts(a: string, b: string, i: nat, j: nat)
    requires i <= |a| && j <= |b|
    ensures var k := Run(a, b, i, j);
            && a[i..i + k] == b[j..j + k]
            && (i + k < |a| && j + k < |b| ==> a[i + k] != b[j + k])
    decreases |a| - i
  {
    if i < |a| && j < |b| && a[i] == b[j] {
      RunFacts(a, b, i + 1, j + 1);
      var k := Run(a, b, i, j);
      assert a[i..i + k] == [a[i]] + a[i + 1..i + k];
      assert b[j..j + k] == [b[j]] + b[j + 1..j + k];
    }
  }

  /** `(i', j')` comes before `(i, j)` in the order difflib scans positions. */
  predicate Before(i': nat, j': nat, i: nat, j: nat) {
    i' < i || (i' == i && j' < j)
  }

  /** `m` is the block difflib's `find_longest_match` returns on the whole of
      `a` and `b`: no block anywhere is longer, every block of that length
      starts later, and with no common character at all it is `(0, 0, 0)`. */
  ghost predicate IsLongest(a: string, b: string, m: Block) {
    && m.i + m.size <= |a| && m.j + m.size <= |b|
    && a[m.i..m.i + m.size] == b[m.j..m.j + m.size]
    && (forall i: nat, j: nat :: i <= |a| && j <= |b| ==> Run(a, b, i, j) <= m.size)
    && (forall i: nat, j: nat :: i <= |a| && j <= |b| && Before(i, j, m.i, m.j) ==> Run(a, b, i, j) < m.size)
    && (m.size == 0 ==> m.i == 0 && m.j == 0)
  }

  /** What the scan knows about `best` once every start position before
      `(i, j)` has been tried. */
  ghost predicate ScannedUpTo(a: string, b: string, i: nat, j: nat, best: Block) {
    && best.i + best.size <= |a| && best.j + best.size <= |b|
    && a[best.i..best.i + best.size] == b[best.j..best.j + best.size]
    && (forall i': nat, j': nat :: i' <= |a| && j' <= |b| && Before(i', j', i, j) ==> Run(a, b, i', j') <= best.size)
    && (forall i': nat, j': nat :: i' <= |a| && j' <= |b| && Before(i', j', best.i, best.j) ==> Run(a, b, i', j') < best.size)
    && (best.size == 0 ==> best.i == 0 && best.j == 0)
    && (best.size > 0 ==> Before(best.i, best.j, i, j))
  }

  /** Once the scan has passed the last row, the best block is the longest. */
  lemma ScanDone(a: string, b: string, j: nat, best: Block)
    requires j <= |b|
    requires ScannedUpTo(a, b, |a|, j, best)
    ensures IsLongest(a, b, best)
  {
    forall i': nat, j': nat | i' <= |a| && j' <= |b|
      ensures Run(a, b, i', j') <= best.size
    {
      if !Before(i', j', |a|, j) {
        assert i' == |a|;
      }
    }
  }

  /** Finishing a row: the position past the end of `b` holds no block. */
  lemma RowDone(a: string, b: string, i: nat, best: Block)
    requires i < |a|
    requires ScannedUpTo(a, b, i, |b|, best)
    ensures ScannedUpTo(a, b, i + 1, 0, best)
  {
    forall i': nat, j': nat | i' <= |a| && j' <= |b| && Before(i', j', i + 1, 0)
      ensures Run(a, b, i', j') <= best.size
    {
      if !Before(i', j', i, |b|) {
        assert j' == |b|;
      }
    }
  }

  /** Every position up to and including `(i, j)` has a run no longer than
      `size`. */
  lemma ScanCovers(a: string, b: string, i: nat, j: nat, best: Block, size: nat)
    requires i < |a| && j < |b|
    requires ScannedUpTo(a, b, i, j, best)
    requires best.size <= size && Run(a, b, i, j) <= size
    ensures forall i': nat, j': nat :: i' <= |a| && j' <= |b| && Before(i', j', i, j + 1) ==> Run(a, b, i', j') <= size
  {
    forall i': nat, j': nat | i' <= |a| && j' <= |b| && Before(i', j', i, j + 1)
      ensures Run(a, b, i', j') <= size
    {
      if !Before(i', j', i, j) {
        assert i' == i && j' == j;
      }
    }
  }

  /** A block at `(i, j)` no longer than the best so far is passed over. */
  lemma ScanKeep(a: string, b: string, i: nat, j: nat, best: Block)
    requires i < |a| && j < |b|
    requires ScannedUpTo(a, b, i, j, best)
    requires Run(a, b, i, j) <= best.size
    ensures ScannedUpTo(a, b, i, j + 1, best)
  {
    ScanCovers(a, b, i, j, best, best.size);
  }

  /** A block at `(i, j)` longer than the best so far becomes the best. */
  lemma ScanTake(a: string, b: string, i: nat, j: nat, best: Block)
    requires i < |a| && j < |b|
    requires ScannedUpTo(a, b, i, j, best)
    requires Run(a, b, i, j) > best.size
    ensures ScannedUpTo(a, b, i, j + 1, Block(i, j, Run(a, b, i, j)))
  {
    var k := Run(a, b, i, j);
    var m := Block(i, j, k);
    RunFacts(a, b, i, j);
    ScanCovers(a, b, i, j, best, k);
    assert a[m.i..m.i + m.size] == b[m.j..m.j + m.size];
    assert forall i': nat, j': nat :: i' <= |a| && j' <= |b| && Before(i', j', m.i, m.j) ==> Run(a, b, i', j') < m.size;
    assert Before(m.i, m.j, i, j + 1);
  }

  /** Trying the block at `(i, j)`, kept only when strictly longer. */
  lemma ScanStep(a: string, b: string, i: nat, j: nat, best: Block)
    requires i < |a| && j < |b|
    requires ScannedUpTo(a, b, i, j, best)
    ensures var k := Run(a, b, i, j);
            ScannedUpTo(a, b, i, j + 1, if k > best.size then Block(i, j, k) else best)
  {
    if Run(a, b, i, j) > best.size {
      ScanTake(a, b, i, j, best);
    } else {
      ScanKeep(a, b, i, j, best);
    }
  }

  /** `m` lies inside both strings. */
  predicate Fits(a: string, b: string, m: Block) {
    m.i + m.size <= |a| && m.j + m.size <= |b|
  }

  /** Tries every start position from `(i, j)` on, in row-major order, and
      keeps a block only when it is strictly longer than the best so far. */
  function Scan(a: string, b: string, i: nat, j: nat, best: Block): (m: Block)
    requires i <= |a| && j <= |b|
    requires Fits(a, b, best)
    ensures Fits(a, b, m)
    decreases |a| - i, |b| - j
  {
    if i == |a| then best
    else if j == |b| then Scan(a, b, i + 1, 0, best)
    else
      var k := Run(a, b, i, j);
      Scan(a, b, i, j + 1, if k > best.size then Block(i, j, k) else best)
  }

  /** Once every position before `(i, j)` has been tried, finishing the scan
      yields the longest block, the earliest one among equally long blocks. */
  lemma {:induction false} ScanIsLongest(a: string, b: string, i: nat, j: nat, best: Block)
    requires i <= |a| && j <= |b|
    requires ScannedUpTo(a, b, i, j, best)
    ensures IsLongest(a, b, Scan(a, b, i, j, best))
    decreases |a| - i, |b| - j
  {
    if i == |a| {
      ScanDone(a, b, j, best);
    } else if j == |b| {
      RowDone(a, b, i, best);
      ScanIsLongest(a, b, i + 1, 0, best);
    } else {
      var k := Run(a, b, i, j);
      ScanStep(a, b, i, j, best);
      ScanIsLongest(a, b, i, j + 1, if k > best.size then Block(i, j, k) else best);
    }
  }

  /** difflib's `find_longest_match(0, len(a), 0, len(b))`, without junk. */
  function Longest(a: string, b: string): (m: Block)
    ensures Fits(a, b, m)
  {
    Scan(a, b, 0, 0, Block(0, 0, 0))
  }

  /** The block `Longest` returns is the one `find_longest_match` documents:
      no common block is longer, every equally long one starts later, and it
      is `(0, 0, 0)` when the strings have no character in common. */
  lemma LongestIsLongest(a: string, b: string)
    ensures IsLongest(a, b, Longest(a, b))
  {
    ScanIsLongest(a, b, 0, 0, Block(0, 0, 0));
  }

  /** The longest block is a common block. */
  lemma LongestIsBlock(a: string, b: string)
    ensures var m := Longest(a, b); a[m.i..m.i + m.size] == b[m.j..m.j + m.size]
  {
    LongestIsLongest(a, b);
  }

  /** The total size of the matching blocks difflib's `get_matching_blocks`
      finds: the longest block, then the same search on what lies to its
      left and to its right. */
  function MatchCount(a: string, b: string): (n: nat)
    ensures n <= |a| && n <= |b|
    decreases |a| + |b|, 1
  {
    MatchAround(a, b, Longest(a, b))
  }

  /** The matched length once `m` is the longest block: nothing when it is
      empty, otherwise its size plus the matches to its left and right. */
  function MatchAround(a: string, b: string, m: Block): (n: nat)
    requires Fits(a, b, m)
    ensures n <= |a| && n <= |b|
    decreases |a| + |b|, 0
  {
    if m.size == 0 then 0
    else m.size + MatchCount(a[..m.i], b[..m.j]) + MatchCount(a[m.i + m.size..], b[m.j + m.size..])
  }

  /** `SequenceMatcher(None, a, b).ratio()`, computed exactly. */
  function Ratio(a: string, b: string): (r: real)
    ensures 0.0 <= r <= 1.0
  {
    var t := |a| + |b|;
    if t == 0 then 1.0
    else
      var m := MatchCount(a, b);
      assert 2 * m <= t;
      FractionAtMostOne((2 * m) as real, t as real);
      2.0 * (m as real) / (t as real)
  }

  /** A fraction whose numerator does not exceed its positive denominator is
      at most one. */
  lemma FractionAtMostOne(x: real, y: real)
    requires 0.0 <= x <= y && y > 0.0
    ensures 0.0 <= x / y <= 1.0
  {
  }

  /** A string compared with itself is one block from end to end. */
  lemma {:induction false} RunSelf(s: string, i: nat)
    requires i <= |s|
    ensures Run(s, s, i, i) == |s| - i
    decreases |s| - i
  {
    if i < |s| {
      RunSelf(s, i + 1);
    }
  }

  /** A string compared with itself scores exactly 1.0, so an exact key is
      always above the ranking threshold. */
  lemma RatioSelf(s: string)
    ensures Ratio(s, s) == 1.0
  {
    if s != [] {
      RunSelf(s, 0);
      LongestIsLongest(s, s);
      var m := Longest(s, s);
      assert m.size == |s| && m.i == 0 && m.j == 0;
      assert s[..0] == [] && s[|s|..] == [];
      assert MatchCount([], []) == 0;
      assert MatchCount(s, s) == |s|;
      var y := (|s| + |s|) as real;
      assert 2.0 * (|s| as real) == y;
      assert Ratio(s, s) == y / y;
      SelfFraction(y);
    }
  }

  /** When the matched length is the whole of both strings, they are the
      same string: the longest block and the matches on either side of it
      must then cover both strings end to end, at the same offsets. */
  lemma {:induction false} MatchCountFull(a: string, b: string)
    requires MatchCount(a, b) == |a| == |b|
    ensures a == b
    decreases |a| + |b|
  {
    var m := Longest(a, b);
    if m.size > 0 {
      var x, y := MatchCount(a[..m.i], b[..m.j]), MatchCount(a[m.i + m.size..], b[m.j + m.size..]);
      MatchCountSplit(a, b);
      var la, lb, ra, rb := MatchCountStep(a, b, x, y);
      MatchCountFull(la, lb);
      MatchCountFull(ra, rb);
    } else {
      MatchCountEmpty(a, b);
    }
  }

  /** With no common character, nothing matches. */
  lemma MatchCountEmpty(a: string, b: string)
    requires Longest(a, b).size == 0
    ensures MatchCount(a, b) == 0
  {
  }

  /** One step of `MatchCountFull`: a full match on `a` and `b` hands down
      full matches on the shorter strings to the left and to the right of
      the longest block, and the two sides agreeing makes `a` and `b` equal. */
  lemma MatchCountStep(a: string, b: string, x: nat, y: nat) returns (la: string, lb: string, ra: string, rb: string)
    requires Longest(a, b).size > 0
    requires x == MatchCount(a[..Longest(a, b).i], b[..Longest(a, b).j])
    requires y == MatchCount(a[Longest(a, b).i + Longest(a, b).size..], b[Longest(a, b).j + Longest(a, b).size..])
    requires Longest(a, b).size + x + y == |a| == |b|
    ensures |la| + |lb| < |a| + |b| && |ra| + |rb| < |a| + |b|
    ensures MatchCount(la, lb) == |la| == |lb| && MatchCount(ra, rb) == |ra| == |rb|
    ensures la == lb && ra == rb ==> a == b
  {
    var m := Longest(a, b);
    la, lb, ra, rb := a[..m.i], b[..m.j], a[m.i + m.size..], b[m.j + m.size..];
    MatchCountParts(a, b, x, y);
    LongestIsBlock(a, b);
    if la == lb && ra == rb {
      JoinEqual(a, b, m.i, m.j, m.size);
    }
  }

  /** A full match splits into full matches on both sides of the longest
      block, which sits at the same offset in both strings. */
  lemma MatchCountParts(a: string, b: string, x: nat, y: nat)
    requires Longest(a, b).size > 0
    requires x == MatchCount(a[..Longest(a, b).i], b[..Longest(a, b).j])
    requires y == MatchCount(a[Longest(a, b).i + Longest(a, b).size..], b[Longest(a, b).j + Longest(a, b).size..])
    requires Longest(a, b).size + x + y == |a| == |b|
    ensures var m := Longest(a, b);
            && m.i == m.j && m.i + m.size <= |a|
            && x == m.i && y == |a| - m.i - m.size == |b| - m.j - m.size
  {
    var m := Longest(a, b);
    MatchCountSides(a, b);
    FillBoth(|a|, |b|, m.i, m.j, m.size, x, y);
  }

  /** The matches on either side of the longest block fit their sides. */
  lemma MatchCountSides(a: string, b: string)
    ensures var m := Longest(a, b);
            && MatchCount(a[..m.i], b[..m.j]) <= m.i
            && MatchCount(a[..m.i], b[..m.j]) <= m.j
            && MatchCount(a[m.i + m.size..], b[m.j + m.size..]) <= |a| - m.i - m.size
            && MatchCount(a[m.i + m.size..], b[m.j + m.size..]) <= |b| - m.j - m.size
  {
    var m := Longest(a, b);
    var la, lb := a[..m.i], b[..m.j];
    var ra, rb := a[m.i + m.size..], b[m.j + m.size..];
    assert |la| == m.i && |lb| == m.j;
    assert |ra| == |a| - m.i - m.size && |rb| == |b| - m.j - m.size;
  }

  /** One step of the block search: the longest block, then its two sides. */
  lemma MatchCountSplit(a: string, b: string)
    requires Longest(a, b).size > 0
    ensures var m := Longest(a, b);
            MatchCount(a, b) == m.size + MatchCount(a[..m.i], b[..m.j]) + MatchCount(a[m.i + m.size..], b[m.j + m.size..])
  {
  }

  /** Side counts bounded by their sides' lengths that add up to the whole
      fill both sides, and the sides coincide. */
  lemma FillBoth(la: nat, lb: nat, i: nat, j: nat, k: nat, x: nat, y: nat)
    requires i + k <= la && j + k <= lb
    requires x <= i && x <= j && y <= la - i - k && y <= lb - j - k
    requires k + x + y == la == lb
    ensures i == j && x == i && y == la - i - k == lb - j - k
  {
  }

  /** Strings that agree before, on and after a block are equal. */
  lemma JoinEqual(a: string, b: string, i: nat, j: nat, k: nat)
    requires i == j && i + k <= |a| && j + k <= |b|
    requires a[..i] == b[..j] && a[i..i + k] == b[j..j + k] && a[i + k..] == b[j + k..]
    ensures a == b
  {
    assert a == a[..i] + a[i..i + k] + a[i + k..];
    assert b == b[..j] + b[j..j + k] + b[j + k..];
  }

  /** Only identical strings score exactly 1.0. */
  lemma RatioOne(a: string, b: string)
    requires Ratio(a, b) == 1.0
    ensures a == b
  {
    var t := |a| + |b|;
    if t > 0 {
      var m := MatchCount(a, b);
      assert Ratio(a, b) == 2.0 * (m as real) / (t as real);
      FractionOne(2.0 * (m as real), t as real);
      assert 2 * m == t;
      MatchCountFull(a, b);
    }
  }

  /** A fraction equal to one has its numerator equal to its denominator. */
  lemma FractionOne(x: real, y: real)
    requires y > 0.0 && x / y == 1.0
    ensures x == y
  {
    assert x == (x / y) * y;
  }

  /** A positive number divided by itself is one. */
  lemma SelfFraction(y: real)
    requires y > 0.0
    ensures y / y == 1.0
  {
  }
}
