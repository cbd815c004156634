/**
 * The segmentation engine of zhseg: the dictionary loader, the punctuation
 * classifier and the dynamic-programming segmenter with its backtracking.
 */
module ZhSeg {
  import opened Utf8

  /** Longest dictionary word the scorer tries, in characters (MAX_WORD_SIZE). */
  const MaxWordSize: nat := 6
  /** Longest candidate in bytes: MAX_WORD_SIZE * 3. */
  const MaxWordBytes: nat := MaxWordSize * 3
  /** Score of a table cell that no candidate has reached yet. */
  const Sentinel: real := -1999999.0
  /** Score of a candidate that is not in the dictionary. */
  const UnknownScore: real := 0.3
  const Space: Byte := 32
  const CommentMark: Byte := 35

  type Word = seq<Byte>
  type Dict = map<Word, real>

  datatype Option<T> = None | Some(value: T)

  // ---------------------------------------------------------------------------
  // Punctuation classifier

  /** The code points that are always a token of their own. */
  predicate IsPunctuation(cp: nat) {
    (cp > 0x3000 && cp <= 0x3020) ||
    (cp >= 0xFF1A && cp <= 0xFF1B) ||
    (cp >= 0xFF0C && cp <= 0xFF0E) || cp == 32
  }

  /**
   * Apart from the ASCII space, every punctuation code point is a three-byte
   * character; the ideographic space U+3000 is not punctuation.
   */
  lemma PunctuationWidth(cp: nat)
    requires IsPunctuation(cp)
    ensures cp == 32 || |Encode(cp)| == 3
    ensures cp != 0x3000
  {
    if cp != 32 {
      assert IsScalar(cp);
    }
  }

  // ---------------------------------------------------------------------------
  // Per-offset flags: is_ok and is_punc

  /** A character that is punctuation starts at p of us. */
  predicate PuncAt(us: seq<Byte>, p: nat) {
    IsStart(us, p) && CharAt(us, p) && IsPunctuation(DecodeAt(us, p))
  }

  /**
   * Decodes the line character by character and marks, per byte offset,
   * whether a character starts there (the end offset counts as one) and
   * whether that character is punctuation.
   */
  method ComputeFlags(us: seq<Byte>) returns (isOk: seq<bool>, isPunc: seq<bool>)
    requires WellFormed(us)
    ensures |isOk| == |us| + 1 && |isPunc| == |us| + 1
    ensures forall p :: 0 <= p <= |us| ==> isOk[p] == IsBoundary(us, p)
    ensures forall p :: 0 <= p <= |us| ==> isPunc[p] == PuncAt(us, p)
  {
    WellFormedChars(us);
    var n := |us|;
    var ok := new bool[n + 1](_ => false);
    var punc := new bool[n + 1](_ => false);
    ok[n] := true;
    var pos := 0;
    while pos < n
      invariant pos <= n && IsBoundary(us, pos)
      invariant ok[n] && !punc[n]
      invariant forall q :: 0 <= q < pos ==> ok[q] == IsStart(us, q) && punc[q] == PuncAt(us, q)
      invariant forall q :: pos <= q < n ==> !ok[q] && !punc[q]
    {
      assert CharAt(us, pos) && NextIsBoundary(us, pos);
      var cp := DecodeAt(us, pos);
      var len := SequenceLength(us[pos]);
      punc[pos] := IsPunctuation(cp);
      ok[pos] := true;
      forall q | pos < q < pos + len ensures !IsStart(us, q) {
        InsideChar(us, pos, q);
      }
      pos := pos + len;
    }
    isOk, isPunc := ok[..], punc[..];
  }

  // ---------------------------------------------------------------------------
  // The cost/backtracking table m

  /** A table cell: the byte length of the last token and the score of the prefix. */
  datatype Cell = Cell(first: int, second: real)

  const Unreached: Cell := Cell(0, Sentinel)

  /** The score the source gives the candidate `cand` after a prefix scoring `base`. */
  function CandidateScore(dict: Dict, total: real, cand: Word, base: real): real {
    if cand in dict then dict[cand] + base + ((|cand| / 3 - 1) as real) * (total * 2.0)
    else UnknownScore + base
  }

  /** The score of candidate us[x..k] over table s. */
  function Score(dict: Dict, total: real, us: seq<Byte>, s: seq<Cell>, x: nat, k: nat): real
    requires x < k <= |us| && x < |s|
  {
    CandidateScore(dict, total, us[x..k], s[x].second)
  }

  /**
   * us[i..k] is a candidate that the inner loop scores against the dictionary:
   * it starts at a character that is neither a space nor punctuation, ends at
   * a boundary within MaxWordBytes, holds no space and starts no punctuation
   * after its first character.
   */
  ghost predicate Scorable(us: seq<Byte>, i: nat, k: nat) {
    IsStart(us, i) && us[i] != Space && !PuncAt(us, i) &&
    i < k <= |us| && k - i <= MaxWordBytes && IsBoundary(us, k) &&
    (forall q: nat :: i < q < k ==> !PuncAt(us, q)) &&
    (forall q :: i <= q < k ==> us[q] != Space)
  }

  /** Cell k follows a space byte. */
  predicate SpaceCell(us: seq<Byte>, k: nat) {
    0 < k <= |us| && us[k - 1] == Space
  }

  /** Cell k ends a punctuation character other than the space. */
  predicate PunctCell(us: seq<Byte>, k: nat) {
    0 < k <= |us| && !SpaceCell(us, k) && PuncAt(us, LastStart(us, k))
  }

  /** Candidate start x for target k has been visited once the loops stand at (i, j). */
  predicate Seen(x: nat, k: nat, i: nat, j: nat) {
    x < i || (x == i && k <= j)
  }

  /**
   * Cell k holds the best score among the seen scorable candidates ending at
   * k, and its back length points at the earliest start reaching that score;
   * with no seen candidate above the sentinel it is still unreached.
   */
  ghost predicate BestSoFar(us: seq<Byte>, dict: Dict, total: real, s: seq<Cell>, k: nat, i: nat, j: nat)
    requires 0 < k < |s| && |s| == |us| + 1
  {
    var best := s[k].second;
    (forall x: nat :: x < k && Scorable(us, x, k) && Seen(x, k, i, j) ==> Score(dict, total, us, s, x, k) <= best) &&
    (s[k].first == 0 ==> best == Sentinel) &&
    (s[k].first != 0 ==>
      0 < s[k].first <= k &&
      var b := k - s[k].first;
      Scorable(us, b, k) && Seen(b, k, i, j) && Score(dict, total, us, s, b, k) == best && Sentinel < best &&
      forall x: nat :: x < b && Scorable(us, x, k) && Seen(x, k, i, j) ==> Score(dict, total, us, s, x, k) < best)
  }

  /** What cell k holds once the loops stand at (i, j). */
  ghost predicate CellInv(us: seq<Byte>, dict: Dict, total: real, s: seq<Cell>, k: nat, i: nat, j: nat)
    requires 0 < k < |s| && |s| == |us| + 1
  {
    if !IsBoundary(us, k) then s[k] == Unreached
    else if SpaceCell(us, k) then
      s[k] == (if Seen(k - 1, k, i, j) then Cell(1, s[k - 1].second) else Unreached)
    else if PunctCell(us, k) then
      var p := LastStart(us, k);
      s[k] == (if Seen(p, k, i, j) then Cell(k - p, s[p].second) else Unreached)
    else BestSoFar(us, dict, total, s, k, i, j)
  }

  ghost predicate Inv(us: seq<Byte>, dict: Dict, total: real, s: seq<Cell>, i: nat, j: nat) {
    |s| == |us| + 1 && s[0] == Cell(0, 0.0) &&
    forall k :: 0 < k <= |us| ==> CellInv(us, dict, total, s, k, i, j)
  }

  /**
   * The table after the fill: cell 0 is (0, 0.0); every cell off a character
   * boundary is untouched; a cell after a space is (1, score before the space);
   * a cell after a punctuation character is (its length, score before it);
   * every other boundary cell holds the best scorable candidate ending there,
   * the earliest start winning ties, or stays unreached.
   */
  ghost predicate TableSpec(us: seq<Byte>, dict: Dict, total: real, s: seq<Cell>) {
    Inv(us, dict, total, s, |us|, |us|)
  }

  lemma InitialInv(us: seq<Byte>, dict: Dict, total: real, s: seq<Cell>)
    requires |s| == |us| + 1 && s[0] == Cell(0, 0.0)
    requires forall k :: 0 < k <= |us| ==> s[k] == Unreached
    ensures Inv(us, dict, total, s, 0, 0)
  {
  }

  /** Cell k keeps its invariant when nothing it depends on changes. */
  lemma CellFrame(us: seq<Byte>, dict: Dict, total: real, s: seq<Cell>, s': seq<Cell>, k: nat, i: nat, j: nat, j': nat)
    requires 0 < k < |s| && |s| == |us| + 1 && |s'| == |s|
    requires CellInv(us, dict, total, s, k, i, j)
    requires s'[k] == s[k]
    requires forall x :: 0 <= x <= i && x < |s| ==> s'[x] == s[x]
    requires k <= j <==> k <= j'
    ensures CellInv(us, dict, total, s', k, i, j')
  {
    if IsBoundary(us, k) && !SpaceCell(us, k) && !PunctCell(us, k) {
      forall x: nat | x < k && x <= i
        ensures Score(dict, total, us, s', x, k) == Score(dict, total, us, s, x, k)
      {
      }
    }
  }

  /** The first candidate from a start is its whole first character. */
  lemma FirstCandidateIsWholeCodePoint(us: seq<Byte>, i: nat)
    requires Chars(us) && IsStart(us, i)
    ensures var len := SequenceLength(us[i]);
      1 <= len <= 4 && i + len <= |us| && IsBoundary(us, i + len) &&
      LastStart(us, i + len) == i &&
      (forall q :: i < q < i + len ==> !IsBoundary(us, q) && !PuncAt(us, q) && us[q] != Space) &&
      CharAt(us[i..i + len], 0) && DecodeAt(us[i..i + len], 0) == DecodeAt(us, i)
  {
    var len := SequenceLength(us[i]);
    assert CharAt(us, i) && NextIsBoundary(us, i);
    LastStartOfChar(us, i);
    forall q | i < q < i + len ensures !IsBoundary(us, q) && !PuncAt(us, q) && us[q] != Space {
      InsideChar(us, i, q);
    }
    DecodeSlice(us, i);
  }

  /** Line 110: a target that is not a boundary is passed over. */
  lemma SkipStep(us: seq<Byte>, dict: Dict, total: real, s: seq<Cell>, i: nat, j: nat)
    requires Inv(us, dict, total, s, i, j) && j < |us| && !IsBoundary(us, j + 1)
    ensures Inv(us, dict, total, s, i, j + 1)
  {
    var j' := j + 1;
    forall k | 0 < k <= |us| ensures CellInv(us, dict, total, s, k, i, j') {
      assert CellInv(us, dict, total, s, k, i, j);
      if k != j' {
        CellFrame(us, dict, total, s, s, k, i, j, j');
      }
    }
  }

  /** A scorable candidate is never a space cell nor a punctuation cell. */
  lemma ScorableCell(us: seq<Byte>, i: nat, k: nat)
    requires Chars(us) && Scorable(us, i, k)
    ensures IsBoundary(us, k) && !SpaceCell(us, k) && !PunctCell(us, k)
  {
    LastStartAtLeast(us, i, k);
  }

  /** Lines 127-141: a scorable candidate replaces its target on strict improvement only. */
  lemma ScoreStep(us: seq<Byte>, dict: Dict, total: real, s: seq<Cell>, i: nat, j: nat)
    requires Chars(us) && Inv(us, dict, total, s, i, j) && i <= j < |us| && Scorable(us, i, j + 1)
    ensures var score := Score(dict, total, us, s, i, j + 1);
      Inv(us, dict, total, if score > s[j + 1].second then s[j + 1 := Cell(j + 1 - i, score)] else s, i, j + 1)
  {
    var k := j + 1;
    var score := Score(dict, total, us, s, i, k);
    var s' := if score > s[k].second then s[k := Cell(k - i, score)] else s;
    ScorableCell(us, i, k);
    forall k' | 0 < k' <= |us| ensures CellInv(us, dict, total, s', k', i, k) {
      if k' != k {
        CellFrame(us, dict, total, s, s', k', i, j, k);
      } else {
        assert CellInv(us, dict, total, s, k, i, j);
        ScoreTarget(us, dict, total, s, i, k);
      }
    }
  }

  /** The target cell of a scored candidate holds the best of the candidates seen so far. */
  lemma ScoreTarget(us: seq<Byte>, dict: Dict, total: real, s: seq<Cell>, i: nat, k: nat)
    requires |s| == |us| + 1 && 0 < k <= |us| && Scorable(us, i, k)
    requires BestSoFar(us, dict, total, s, k, i, k - 1)
    ensures var score := Score(dict, total, us, s, i, k);
      BestSoFar(us, dict, total, if score > s[k].second then s[k := Cell(k - i, score)] else s, k, i, k)
  {
    var score := Score(dict, total, us, s, i, k);
    var s' := if score > s[k].second then s[k := Cell(k - i, score)] else s;
    forall x: nat | x < k && x <= i
      ensures Score(dict, total, us, s', x, k) == Score(dict, total, us, s, x, k)
    {
    }
  }

  /** Lines 115-125: the first character, when punctuation, is forced into its own cell. */
  lemma PunctStep(us: seq<Byte>, dict: Dict, total: real, s: seq<Cell>, i: nat)
    requires Chars(us) && IsStart(us, i) && us[i] != Space && PuncAt(us, i)
    requires Inv(us, dict, total, s, i, i + SequenceLength(us[i]) - 1)
    ensures var k := i + SequenceLength(us[i]);
      k <= |us| && Inv(us, dict, total, s[k := Cell(k - i, s[i].second)], i, k)
  {
    var len := SequenceLength(us[i]);
    var k := i + len;
    FirstCandidateIsWholeCodePoint(us, i);
    assert PunctCell(us, k);
    var s' := s[k := Cell(k - i, s[i].second)];
    forall k' | 0 < k' <= |us| ensures CellInv(us, dict, total, s', k', i, k) {
      if k' != k {
        CellFrame(us, dict, total, s, s', k', i, k - 1, k);
      }
    }
  }

  /** Lines 99-103: a space is forced into a one-byte token at its own score. */
  lemma SpaceStep(us: seq<Byte>, dict: Dict, total: real, s: seq<Cell>, i: nat)
    requires Chars(us) && Inv(us, dict, total, s, i, i) && i < |us| && us[i] == Space
    ensures Inv(us, dict, total, s[i + 1 := Cell(1, s[i].second)], i + 1, i + 1)
  {
    var s' := s[i + 1 := Cell(1, s[i].second)];
    var i' := i + 1;
    assert IsStart(us, i) && CharAt(us, i) && NextIsBoundary(us, i);
    forall k | 0 < k <= |us| ensures CellInv(us, dict, total, s', k, i', i') {
      if k != i' {
        assert CellInv(us, dict, total, s, k, i, i);
        CellFrame(us, dict, total, s, s', k, i, i, i);
        LastStartScan(us, k);
        AdvanceCell(us, dict, total, s', k, i, i);
      }
    }
  }

  /** Cell k is unaffected by moving past start i when start i has nothing for k. */
  lemma AdvanceCell(us: seq<Byte>, dict: Dict, total: real, s: seq<Cell>, k: nat, i: nat, j: nat)
    requires Chars(us) && 0 < k <= |us| && |s| == |us| + 1 && i <= j
    requires CellInv(us, dict, total, s, k, i, j)
    requires j < k ==> !Scorable(us, i, k) && !(SpaceCell(us, k) && k - 1 == i)
    requires j < k && PunctCell(us, k) ==> LastStart(us, k) != i
    ensures CellInv(us, dict, total, s, k, i + 1, i + 1)
  {
  }

  /** Outer loop step: every candidate of start i beyond j is excluded. */
  lemma Advance(us: seq<Byte>, dict: Dict, total: real, s: seq<Cell>, i: nat, j: nat)
    requires Chars(us) && Inv(us, dict, total, s, i, j) && i <= j
    requires forall k :: j < k <= |us| ==> !Scorable(us, i, k) && !(SpaceCell(us, k) && k - 1 == i)
    requires forall k :: j < k <= |us| && PunctCell(us, k) ==> LastStart(us, k) != i
    ensures Inv(us, dict, total, s, i + 1, i + 1)
  {
    var i' := i + 1;
    forall k | 0 < k <= |us| ensures CellInv(us, dict, total, s, k, i', i') {
      AdvanceCell(us, dict, total, s, k, i, j);
    }
  }

  /** After a punctuation start i, no later punctuation cell ends a character starting at i. */
  lemma PunctEndsStart(us: seq<Byte>, i: nat)
    requires Chars(us) && IsStart(us, i)
    ensures forall k :: i + SequenceLength(us[i]) < k <= |us| && PunctCell(us, k) ==> LastStart(us, k) != i
  {
    var e := i + SequenceLength(us[i]);
    FirstCandidateIsWholeCodePoint(us, i);
    forall k | e < k <= |us| && PunctCell(us, k) ensures LastStart(us, k) != i {
      LastStartAtLeast(us, e, k);
    }
  }

  /**
   * Lines 127-136: a dictionary hit scores its frequency plus the length bonus
   * (len / 3 - 1) * (2 * total), with integer division; a miss scores 0.3;
   * both on top of the score of the prefix.
   */
  method LookUp(dict: Dict, total: real, cand: Word, base: real) returns (score: real)
    ensures cand in dict ==> score == dict[cand] + base + ((|cand| / 3 - 1) as real) * (total * 2.0)
    ensures cand !in dict ==> score == UnknownScore + base
  {
    var freq := UnknownScore;
    var bonus := 0.0;
    if cand in dict {
      freq := dict[cand];
      bonus := (|cand| / 3 - 1) as real;
      bonus := bonus * (total * 2.0);
    }
    score := freq + base + bonus;
  }

  /**
   * Lines 126-141: the candidate us[i..j + 1] is looked up in the dictionary
   * and replaces the target cell when it scores strictly higher.
   */
  method ScoreCandidate(us: seq<Byte>, dict: Dict, total: real, m: array<Cell>, i: nat, j: nat)
    requires Chars(us) && i <= j < |us| && Scorable(us, i, j + 1)
    requires m.Length == |us| + 1 && Inv(us, dict, total, m[..], i, j)
    modifies m
    ensures Inv(us, dict, total, m[..], i, j + 1)
    ensures var score := Score(dict, total, us, old(m[..]), i, j + 1);
      m[..] == if score > old(m[j + 1].second) then old(m[..])[j + 1 := Cell(j + 1 - i, score)] else old(m[..])
  {
    ghost var s := m[..];
    var candScore := LookUp(dict, total, us[i..j + 1], m[i].second);
    assert candScore == Score(dict, total, us, s, i, j + 1);
    ScoreStep(us, dict, total, s, i, j);
    if candScore > m[j + 1].second {
      m[j + 1] := Cell(j - i + 1, candScore);
      assert m[..] == s[j + 1 := Cell(j + 1 - i, candScore)];
    }
  }

  /**
   * The bytes us[i..j] that the inner loop has passed: no punctuation starts
   * after i and none is a space.
   */
  ghost predicate Scanning(us: seq<Byte>, i: nat, j: nat) {
    (forall q: nat :: i < q < j ==> !PuncAt(us, q)) &&
    (forall q :: i <= q < j && q < |us| ==> us[q] != Space)
  }

  /**
   * A byte the inner loop passes without stopping neither starts punctuation
   * after the first character nor is a space: a space is punctuation itself.
   */
  lemma ScanningStep(us: seq<Byte>, i: nat, j: nat)
    requires Chars(us) && IsStart(us, i) && us[i] != Space && i <= j < |us|
    requires Scanning(us, i, j) && (j >= i + SequenceLength(us[i]) ==> !PuncAt(us, j))
    ensures Scanning(us, i, j + 1) && us[j] != Space
  {
    if j >= i + SequenceLength(us[i]) {
      if us[j] == Space {
        assert CharAt(us, j) && IsPunctuation(DecodeAt(us, j));
      }
    } else if i < j {
      FirstCandidateIsWholeCodePoint(us, i);
    }
  }

  /**
   * Lines 105-111: the inner loop stops past the first character of start i at
   * the end of the line, at the candidate length limit, at a space or at
   * punctuation; no longer candidate from i is scorable.
   */
  lemma StopStart(us: seq<Byte>, dict: Dict, total: real, s: seq<Cell>, i: nat, j: nat)
    requires Chars(us) && IsStart(us, i) && i + SequenceLength(us[i]) <= j <= |us|
    requires j == |us| || j - i >= MaxWordBytes || us[j] == Space || PuncAt(us, j)
    requires Inv(us, dict, total, s, i, j)
    ensures Inv(us, dict, total, s, i + 1, i + 1)
  {
    FirstCandidateIsWholeCodePoint(us, i);
    PunctEndsStart(us, i);
    Advance(us, dict, total, s, i, j);
  }

  /**
   * Lines 115-125: the first character from i is punctuation, so it becomes
   * its own token at the score of the prefix and no longer candidate from i
   * is tried.
   */
  method ForcePunctuation(us: seq<Byte>, dict: Dict, total: real, m: array<Cell>, i: nat)
    requires Chars(us) && IsStart(us, i) && us[i] != Space && PuncAt(us, i)
    requires m.Length == |us| + 1 && Inv(us, dict, total, m[..], i, i + SequenceLength(us[i]) - 1)
    modifies m
    ensures var k := i + SequenceLength(us[i]);
      k <= |us| && m[..] == old(m[..])[k := Cell(k - i, old(m[i].second))]
    ensures Inv(us, dict, total, m[..], i + 1, i + 1)
  {
    var k := i + SequenceLength(us[i]);
    PunctStep(us, dict, total, m[..], i);
    m[k] := Cell(k - i, m[i].second);
    PunctEndsStart(us, i);
    Advance(us, dict, total, m[..], i, k);
  }

  /**
   * Lines 112-141 for a candidate us[i..j + 1] that ends at a boundary and
   * does not end in a space: the first one, when it is punctuation, is forced
   * into its own token and ends the scan of start i (stop); any other is
   * scored.
   */
  method TryCandidate(us: seq<Byte>, dict: Dict, total: real, m: array<Cell>, i: nat, j: nat, isFirst: bool)
    returns (stop: bool)
    requires Chars(us) && IsStart(us, i) && us[i] != Space
    requires i <= j < |us| && j + 1 - i <= MaxWordBytes && IsBoundary(us, j + 1) && us[j] != Space
    requires isFirst == (j < i + SequenceLength(us[i]))
    requires !isFirst ==> !PuncAt(us, i)
    requires Scanning(us, i, j + 1)
    requires m.Length == |us| + 1 && Inv(us, dict, total, m[..], i, j)
    modifies m
    ensures stop ==> isFirst && Inv(us, dict, total, m[..], i + 1, i + 1)
    ensures !stop ==> !PuncAt(us, i) && Inv(us, dict, total, m[..], i, j + 1)
  {
    FirstCandidateIsWholeCodePoint(us, i);
    var cand := us[i..j + 1];
    if isFirst {
      assert j + 1 == i + SequenceLength(us[i]);
      var cp := DecodeAt(cand, 0);
      if IsPunctuation(cp) {
        ForcePunctuation(us, dict, total, m, i);
        return true;
      }
    }
    ScoreCandidate(us, dict, total, m, i, j);
    return false;
  }

  /**
   * Lines 104-142: the inner loop over the candidates us[i..j + 1] that start
   * at the character boundary i, which is not a space.
   */
  method ScanStart(us: seq<Byte>, isOk: seq<bool>, isPunc: seq<bool>, dict: Dict, total: real, m: array<Cell>, i: nat)
    requires Chars(us)
    requires |isOk| == |us| + 1 && |isPunc| == |us| + 1
    requires forall p :: 0 <= p <= |us| ==> isOk[p] == IsBoundary(us, p)
    requires forall p :: 0 <= p <= |us| ==> isPunc[p] == PuncAt(us, p)
    requires IsStart(us, i) && us[i] != Space
    requires m.Length == |us| + 1 && Inv(us, dict, total, m[..], i, i)
    modifies m
    ensures Inv(us, dict, total, m[..], i + 1, i + 1)
  {
    var n := |us|;
    var end := i + MaxWordSize * 3;
    if end >= n {
      end := n;
    }
    ghost var len := SequenceLength(us[i]);
    assert CharAt(us, i);
    var isFirst := true;
    var j := i;
    while j < end
      invariant i <= j <= end && i + len <= end
      invariant isFirst == (j < i + len)
      invariant !isFirst ==> !PuncAt(us, i)
      invariant Scanning(us, i, j)
      invariant Inv(us, dict, total, m[..], i, j)
    {
      if !isFirst && isPunc[j] {
        StopStart(us, dict, total, m[..], i, j);
        return;
      }
      ScanningStep(us, i, j);
      if !isOk[j + 1] {
        SkipStep(us, dict, total, m[..], i, j);
        j := j + 1;
      } else if us[j] == Space {
        // A space is punctuation (line 79), so the test above has already stopped the scan.
        assert false;
      } else {
        var stop := TryCandidate(us, dict, total, m, i, j, isFirst);
        if stop {
          return;
        }
        isFirst := false;
        j := j + 1;
      }
    }
    StopStart(us, dict, total, m[..], i, j);
  }

  /**
   * Lines 93-143: fills the cost/backtracking table left to right over byte
   * offsets: spaces and punctuation are forced breaks, every other candidate
   * of up to MaxWordBytes bytes is scored against the dictionary.
   */
  method FillTable(us: seq<Byte>, isOk: seq<bool>, isPunc: seq<bool>, dict: Dict, total: real)
    returns (table: seq<Cell>)
    requires WellFormed(us)
    requires |isOk| == |us| + 1 && |isPunc| == |us| + 1
    requires forall p :: 0 <= p <= |us| ==> isOk[p] == IsBoundary(us, p)
    requires forall p :: 0 <= p <= |us| ==> isPunc[p] == PuncAt(us, p)
    ensures TableSpec(us, dict, total, table)
  {
    WellFormedChars(us);
    var n := |us|;
    var m := new Cell[n + 1](_ => Unreached);
    m[0] := Cell(0, 0.0);
    InitialInv(us, dict, total, m[..]);
    var i := 0;
    while i < n
      invariant 0 <= i <= n && m.Length == n + 1
      invariant Inv(us, dict, total, m[..], i, i)
    {
      if !isOk[i] {
        Advance(us, dict, total, m[..], i, i);
      } else if us[i] == Space {
        SpaceStep(us, dict, total, m[..], i);
        m[i + 1] := Cell(1, m[i].second);
      } else {
        ScanStart(us, isOk, isPunc, dict, total, m, i);
      }
      i := i + 1;
    }
    table := m[..];
  }

  // ---------------------------------------------------------------------------
  // Shape of the filled table

  /** Every back length stays inside the table: 0 <= s[k].first <= k. */
  predicate ValidFirsts(s: seq<Cell>) {
    forall k :: 0 <= k < |s| ==> 0 <= s[k].first <= k
  }

  /**
   * A reached cell points back over one token: at most MaxWordBytes bytes,
   * from a character boundary, and either the single byte of a space or a
   * token that holds no space at all.
   */
  ghost predicate Step(us: seq<Byte>, s: seq<Cell>, k: nat)
    requires |s| == |us| + 1 && 0 < k <= |us| && 0 < s[k].first <= k
  {
    var b := k - s[k].first;
    IsBoundary(us, k) && IsStart(us, b) && s[k].first <= MaxWordBytes &&
    (us[b..k] == [Space] || forall q :: b <= q < k ==> us[q] != Space)
  }

  /**
   * Every write sets first to j - i + 1 for a start i, so a reached cell links
   * back to a boundary over a token of at most MaxWordBytes bytes.
   */
  lemma TableLinked(us: seq<Byte>, dict: Dict, total: real, s: seq<Cell>)
    requires Chars(us) && TableSpec(us, dict, total, s)
    ensures ValidFirsts(s)
    ensures forall k :: 0 < k <= |us| && s[k].first != 0 ==> Step(us, s, k)
  {
    forall k | 0 < k <= |us| && s[k].first != 0 ensures 0 < s[k].first <= k && Step(us, s, k) {
      assert CellInv(us, dict, total, s, k, |us|, |us|);
      if SpaceCell(us, k) {
        assert us[k - 1..k] == [us[k - 1]];
      } else if PunctCell(us, k) {
        var p := LastStart(us, k);
        LastStartEndsAt(us, k);
        LastStartScan(us, k);
        assert CharAt(us, p) && NextIsBoundary(us, p);
        forall q | p <= q < k ensures us[q] != Space {
          if q > p {
            InsideChar(us, p, q);
          }
        }
      }
    }
  }

  /** Line 133: with a non-negative total the length bonus never shrinks as the candidate grows. */
  lemma BonusMonotone(a: nat, b: nat, total: real)
    requires a <= b && total >= 0.0
    ensures ((a / 3 - 1) as real) * (total * 2.0) <= ((b / 3 - 1) as real) * (total * 2.0)
  {
    assert a / 3 <= b / 3;
  }

  /**
   * Lines 127-134: a longer dictionary word scores at least as high as a shorter
   * one when its entry and the score of the prefix before it are at least theirs.
   */
  lemma LongerScoresHigher(dict: Dict, total: real, long: Word, short: Word, base: real, base': real)
    requires total >= 0.0 && |short| <= |long|
    requires long in dict && short in dict && dict[long] >= dict[short] && base >= base'
    ensures CandidateScore(dict, total, long, base) >= CandidateScore(dict, total, short, base')
  {
    var bl, bs := ((|long| / 3 - 1) as real) * (total * 2.0), ((|short| / 3 - 1) as real) * (total * 2.0);
    BonusMonotone(|short|, |long|, total);
    assert CandidateScore(dict, total, long, base) == dict[long] + base + bl;
    assert CandidateScore(dict, total, short, base') == dict[short] + base' + bs;
  }

  /**
   * Lines 127-141 favour longer matches: with a non-negative total, a longer
   * dictionary candidate whose entry and prefix score are at least those of a
   * shorter one ending at the same cell never loses that cell to it. For byte
   * lengths with the same bonus (3, 4 and 5, say) the earlier start wins the tie.
   */
  lemma LongerNotLost(us: seq<Byte>, dict: Dict, total: real, s: seq<Cell>, x: nat, x': nat, k: nat)
    requires Chars(us) && TableSpec(us, dict, total, s) && total >= 0.0
    requires x < x' < k && Scorable(us, x, k) && Scorable(us, x', k)
    requires us[x..k] in dict && us[x'..k] in dict && dict[us[x..k]] >= dict[us[x'..k]]
    requires s[x].second >= s[x'].second
    ensures s[k].first != k - x'
  {
    ScorableCell(us, x', k);
    assert CellInv(us, dict, total, s, k, |us|, |us|);
    assert BestSoFar(us, dict, total, s, k, |us|, |us|);
    LongerScoresHigher(dict, total, us[x..k], us[x'..k], s[x].second, s[x'].second);
  }

  /** Lines 99-103: a space at a start i forces m[i + 1] = (1, m[i].second). */
  lemma SpaceForcesBreak(us: seq<Byte>, dict: Dict, total: real, s: seq<Cell>, i: nat)
    requires Chars(us) && TableSpec(us, dict, total, s) && IsStart(us, i) && us[i] == Space
    ensures s[i + 1] == Cell(1, s[i].second)
  {
    assert CharAt(us, i) && NextIsBoundary(us, i);
    assert CellInv(us, dict, total, s, i + 1, |us|, |us|);
  }

  /**
   * On a line of spaces only every cell is a forced space cell, so the
   * backtracking from any offset k reaches 0 whatever the scores.
   */
  lemma {:induction false} SpacesReachEveryOffset(us: seq<Byte>, dict: Dict, total: real, s: seq<Cell>, k: nat)
    requires Chars(us) && TableSpec(us, dict, total, s) && ValidFirsts(s)
    requires AllSpaces(us) && k <= |us|
    ensures Cuts(s, k).Some?
    decreases k
  {
    if k > 0 {
      assert us[k - 1] == Space && IsStart(us, k - 1);
      SpaceForcesBreak(us, dict, total, s, k - 1);
      SpacesReachEveryOffset(us, dict, total, s, k - 1);
    }
  }

  /**
   * Lines 115-125: a punctuation character other than the space, of len
   * bytes at i, forces m[i + len] = (len, m[i].second).
   */
  lemma PunctuationForcesBreak(us: seq<Byte>, dict: Dict, total: real, s: seq<Cell>, i: nat)
    requires Chars(us) && TableSpec(us, dict, total, s) && PuncAt(us, i) && us[i] != Space
    ensures var len := SequenceLength(us[i]);
      i + len <= |us| && s[i + len] == Cell(len, s[i].second)
  {
    var len := SequenceLength(us[i]);
    FirstCandidateIsWholeCodePoint(us, i);
    assert CellInv(us, dict, total, s, i + len, |us|, |us|);
  }

  /** A cell that no forced break owns is determined by the cells before it. */
  lemma BestUnique(us: seq<Byte>, dict: Dict, total: real, s: seq<Cell>, s': seq<Cell>, k: nat)
    requires 0 < k < |s| && |s| == |us| + 1 && |s'| == |s|
    requires BestSoFar(us, dict, total, s, k, |us|, |us|) && BestSoFar(us, dict, total, s', k, |us|, |us|)
    requires forall x :: 0 <= x < k ==> s[x] == s'[x]
    ensures s[k] == s'[k]
  {
    forall x: nat | x < k ensures Score(dict, total, us, s, x, k) == Score(dict, total, us, s', x, k) {
    }
    if s[k].first != 0 {
      var b := k - s[k].first;
      assert Score(dict, total, us, s', b, k) <= s'[k].second;
    }
    if s'[k].first != 0 {
      var b' := k - s'[k].first;
      assert Score(dict, total, us, s, b', k) <= s[k].second;
    }
  }

  lemma {:induction false} PrefixUnique(us: seq<Byte>, dict: Dict, total: real, s: seq<Cell>, s': seq<Cell>, k: nat)
    requires TableSpec(us, dict, total, s) && TableSpec(us, dict, total, s') && k <= |us|
    ensures forall x :: 0 <= x <= k ==> s[x] == s'[x]
    decreases k
  {
    if k > 0 {
      PrefixUnique(us, dict, total, s, s', k - 1);
      assert CellInv(us, dict, total, s, k, |us|, |us|) && CellInv(us, dict, total, s', k, |us|, |us|);
      if IsBoundary(us, k) && !SpaceCell(us, k) && !PunctCell(us, k) {
        BestUnique(us, dict, total, s, s', k);
      }
    }
  }

  /** The table specification determines the table: the fill is deterministic. */
  lemma TableSpecUnique(us: seq<Byte>, dict: Dict, total: real, s: seq<Cell>, s': seq<Cell>)
    requires TableSpec(us, dict, total, s) && TableSpec(us, dict, total, s')
    ensures s == s'
  {
    PrefixUnique(us, dict, total, s, s', |us|);
  }

  // ---------------------------------------------------------------------------
  // Backtracking: the chain of cut positions and its tokens

  /** A strictly increasing sequence of offsets. */
  predicate Increasing(c: seq<nat>) {
    forall a, b :: 0 <= a < b < |c| ==> c[a] < c[b]
  }

  /**
   * The cut positions that the backtracking loop visits from offset k down to
   * 0, in left-to-right order; None when it reaches a cell with first == 0,
   * where the loop of lines 147-156 would never leave that cell.
   */
  function Cuts(s: seq<Cell>, k: nat): (r: Option<seq<nat>>)
    requires k < |s| && ValidFirsts(s)
    ensures r.Some? ==> |r.value| >= 1 && r.value[0] == 0 && r.value[|r.value| - 1] == k
    ensures r.Some? ==> Increasing(r.value) && forall t :: 0 <= t < |r.value| ==> r.value[t] <= k
    ensures r.Some? ==> forall t :: 0 <= t < |r.value| - 1 ==>
      s[r.value[t + 1]].first == r.value[t + 1] - r.value[t]
    decreases k
  {
    if k == 0 then Some([0])
    else if s[k].first == 0 then None
    else match Cuts(s, k - s[k].first)
      case None => None
      case Some(c) => Some(c + [k])
  }

  /** The tokens between consecutive cuts. */
  function Tokens(us: seq<Byte>, c: seq<nat>): (ts: seq<Word>)
    requires Increasing(c) && forall t :: 0 <= t < |c| ==> c[t] <= |us|
    ensures |ts| == if |c| == 0 then 0 else |c| - 1
    ensures forall t :: 0 <= t < |ts| ==> |ts[t]| > 0
  {
    seq(if |c| == 0 then 0 else |c| - 1, t requires 0 <= t < |c| - 1 => us[c[t]..c[t + 1]])
  }

  function Concat(ts: seq<Word>): seq<Byte> {
    if |ts| == 0 then [] else ts[0] + Concat(ts[1..])
  }

  /** Dropping the first cut drops the first token. */
  lemma TokensTail(us: seq<Byte>, c: seq<nat>)
    requires |c| >= 2 && Increasing(c) && forall t :: 0 <= t < |c| ==> c[t] <= |us|
    ensures Tokens(us, c) == [us[c[0]..c[1]]] + Tokens(us, c[1..])
  {
    assert Tokens(us, c)[1..] == Tokens(us, c[1..]);
  }

  /** Reading the tokens back to back gives the input between the first and the last cut. */
  lemma {:induction false} ConcatTokens(us: seq<Byte>, c: seq<nat>)
    requires |c| >= 1 && Increasing(c) && forall t :: 0 <= t < |c| ==> c[t] <= |us|
    ensures Concat(Tokens(us, c)) == us[c[0]..c[|c| - 1]]
  {
    if |c| > 1 {
      TokensTail(us, c);
      ConcatTokens(us, c[1..]);
      assert us[c[0]..c[|c| - 1]] == us[c[0]..c[1]] + us[c[1]..c[|c| - 1]];
    }
  }

  /** Every step of a complete chain is a table step: a token of one of the allowed shapes. */
  lemma ChainSteps(us: seq<Byte>, dict: Dict, total: real, s: seq<Cell>, c: seq<nat>)
    requires Chars(us) && TableSpec(us, dict, total, s) && ValidFirsts(s)
    requires Cuts(s, |us|) == Some(c)
    ensures forall t :: 0 < t < |c| ==> 0 < c[t] <= |us| && 0 < s[c[t]].first <= c[t] && Step(us, s, c[t])
  {
    TableLinked(us, dict, total, s);
    forall t | 0 < t < |c| ensures 0 < c[t] <= |us| && 0 < s[c[t]].first <= c[t] && Step(us, s, c[t]) {
      assert c[0] < c[t];
      assert s[c[t - 1 + 1]].first == c[t - 1 + 1] - c[t - 1];
    }
  }

  /** The step of an increasing sequence of cuts that covers offset p. */
  function Locate(c: seq<nat>, p: nat): (t: nat)
    requires |c| >= 1 && Increasing(c) && c[0] <= p < c[|c| - 1]
    ensures t < |c| - 1 && c[t] <= p < c[t + 1]
    decreases |c|
  {
    if p < c[|c| - 2] then Locate(c[..|c| - 1], p) else |c| - 2
  }

  /** A table step that covers a punctuation character starts at it and ends right after it. */
  lemma PunctStepExact(us: seq<Byte>, dict: Dict, total: real, s: seq<Cell>, k: nat, p: nat)
    requires Chars(us) && TableSpec(us, dict, total, s)
    requires 0 < k <= |us| && 0 < s[k].first <= k && k - s[k].first <= p < k && PuncAt(us, p)
    ensures k - s[k].first == p && k == p + SequenceLength(us[p])
  {
    var b := k - s[k].first;
    assert CellInv(us, dict, total, s, k, |us|, |us|);
    if b < p {
      if PunctCell(us, k) {
        LastStartScan(us, k);
      }
    } else if SpaceCell(us, k) {
      assert IsStart(us, p) && CharAt(us, p);
    } else {
      LastStartEndsAt(us, k);
    }
  }

  /**
   * A punctuation character, the space included, is a token of its own: its
   * start and its end are consecutive cuts of the backtracked chain.
   */
  lemma PunctuationIsOwnToken(us: seq<Byte>, dict: Dict, total: real, s: seq<Cell>, c: seq<nat>, p: nat)
    requires Chars(us) && TableSpec(us, dict, total, s) && ValidFirsts(s)
    requires Cuts(s, |us|) == Some(c) && PuncAt(us, p)
    ensures exists t :: 0 <= t < |c| - 1 && c[t] == p && c[t + 1] == p + SequenceLength(us[p])
  {
    var t := Locate(c, p);
    var k := c[t + 1];
    assert s[k].first == k - c[t] && 0 < k <= |us|;
    PunctStepExact(us, dict, total, s, k, p);
  }

  // ---------------------------------------------------------------------------
  // Reachability: with scores above the sentinel the chain reaches offset 0

  function Abs(x: real): real {
    if x < 0.0 then -x else x
  }

  /** Every dictionary score is non-negative. */
  predicate NonNegativeScores(dict: Dict) {
    forall w :: w in dict ==> dict[w] >= 0.0
  }

  /**
   * A sufficient condition under which no candidate score falls to the
   * sentinel on a line of n bytes: each character lowers the best prefix
   * score by at most 2 * |total|, so 2 * |total| * n must stay above it
   * (Penalty is that product, see PenaltyIsProduct).
   */
  predicate ScoresAboveSentinel(dict: Dict, total: real, n: nat) {
    NonNegativeScores(dict) && Penalty(2.0 * Abs(total), n) < 1999999.0
  }

  /** A single character lowers the score by at most 2 * |total|. */
  lemma CharScoreBound(dict: Dict, total: real, cand: Word, base: real)
    requires NonNegativeScores(dict) && 1 <= |cand| <= 4
    ensures CandidateScore(dict, total, cand, base) >= base - 2.0 * Abs(total)
  {
    if cand in dict {
      assert (|cand| / 3 - 1) as real == -1.0 || (|cand| / 3 - 1) as real == 0.0;
    }
  }

  /** a * k, written as k additions of a. */
  function Penalty(a: real, k: nat): (p: real)
    requires a >= 0.0
    ensures p >= 0.0
  {
    if k == 0 then 0.0 else Penalty(a, k - 1) + a
  }

  lemma {:induction false} PenaltyIsProduct(a: real, k: nat)
    requires a >= 0.0
    ensures Penalty(a, k) == a * (k as real)
  {
    if k > 0 {
      PenaltyIsProduct(a, k - 1);
      assert (k - 1) as real == k as real - 1.0;
    }
  }

  /** The penalty grows by at least a from one offset to a later one. */
  lemma {:induction false} PenaltyStep(a: real, x: nat, k: nat)
    requires a >= 0.0 && x < k
    ensures Penalty(a, x) + a <= Penalty(a, k)
  {
    if x + 1 < k {
      PenaltyStep(a, x, k - 1);
    }
  }

  /** Across the last character before a boundary k the score drops by at most 2 * |total|. */
  lemma CellStepBound(us: seq<Byte>, dict: Dict, total: real, s: seq<Cell>, k: nat)
    requires Chars(us) && TableSpec(us, dict, total, s) && NonNegativeScores(dict)
    requires 0 < k <= |us| && IsBoundary(us, k)
    ensures s[k].second >= s[LastStart(us, k)].second - 2.0 * Abs(total)
  {
    var x := LastStart(us, k);
    LastStartEndsAt(us, k);
    assert CellInv(us, dict, total, s, k, |us|, |us|);
    if !SpaceCell(us, k) && !PunctCell(us, k) {
      ScoredCellBound(us, dict, total, s, x, k);
    }
  }

  /** A scored cell is at least as good as its first character on its own. */
  lemma ScoredCellBound(us: seq<Byte>, dict: Dict, total: real, s: seq<Cell>, x: nat, k: nat)
    requires Chars(us) && |s| == |us| + 1 && NonNegativeScores(dict)
    requires 0 < k <= |us| && IsStart(us, x) && x + SequenceLength(us[x]) == k
    requires !SpaceCell(us, k) && !PunctCell(us, k) && x == LastStart(us, k)
    requires BestSoFar(us, dict, total, s, k, |us|, |us|)
    ensures s[k].second >= s[x].second - 2.0 * Abs(total)
  {
    FirstCandidateIsWholeCodePoint(us, x);
    assert Scorable(us, x, k);
    CharScoreBound(dict, total, us[x..k], s[x].second);
  }

  /** The best prefix score at a boundary k is at least -2 * |total| * k. */
  lemma {:induction false} CellLowerBound(us: seq<Byte>, dict: Dict, total: real, s: seq<Cell>, k: nat)
    requires Chars(us) && TableSpec(us, dict, total, s) && NonNegativeScores(dict)
    requires k <= |us| && IsBoundary(us, k)
    ensures s[k].second >= -Penalty(2.0 * Abs(total), k)
    decreases k
  {
    if k > 0 {
      var a := 2.0 * Abs(total);
      var x := LastStart(us, k);
      LastStartEndsAt(us, k);
      CellLowerBound(us, dict, total, s, x);
      PenaltyStep(a, x, k);
      CellStepBound(us, dict, total, s, k);
    }
  }

  /**
   * With scores above the sentinel every character boundary k > 0 is reached:
   * the first character of each start is always tried, so m[k].first >= 1.
   */
  lemma TableReachesEveryBoundary(us: seq<Byte>, dict: Dict, total: real, s: seq<Cell>, k: nat)
    requires Chars(us) && TableSpec(us, dict, total, s) && ScoresAboveSentinel(dict, total, |us|)
    requires 0 < k <= |us| && IsBoundary(us, k)
    ensures s[k].first >= 1
  {
    var a := 2.0 * Abs(total);
    var x := LastStart(us, k);
    LastStartEndsAt(us, k);
    CellLowerBound(us, dict, total, s, x);
    PenaltyStep(a, x, k);
    if k < |us| {
      PenaltyStep(a, k, |us|);
    }
    assert s[x].second - a > Sentinel;
    assert CellInv(us, dict, total, s, k, |us|, |us|);
    if !SpaceCell(us, k) && !PunctCell(us, k) {
      FirstCandidateIsWholeCodePoint(us, x);
      assert Scorable(us, x, k);
      CharScoreBound(dict, total, us[x..k], s[x].second);
    }
  }

  /** With scores above the sentinel the backtracking from any boundary reaches offset 0. */
  lemma {:induction false} ChainComplete(us: seq<Byte>, dict: Dict, total: real, s: seq<Cell>, k: nat)
    requires Chars(us) && TableSpec(us, dict, total, s) && ScoresAboveSentinel(dict, total, |us|)
    requires ValidFirsts(s) && k <= |us| && IsBoundary(us, k)
    ensures Cuts(s, k).Some?
    decreases k
  {
    if k > 0 {
      TableReachesEveryBoundary(us, dict, total, s, k);
      TableLinked(us, dict, total, s);
      assert Step(us, s, k);
      ChainComplete(us, dict, total, s, k - s[k].first);
    }
  }

  // ---------------------------------------------------------------------------
  // Output assembly

  function Reverse(s: seq<Byte>): (r: seq<Byte>)
    ensures |r| == |s| && forall x :: 0 <= x < |s| ==> r[x] == s[|s| - 1 - x]
  {
    seq(|s|, x requires 0 <= x < |s| => s[|s| - 1 - x])
  }

  /**
   * What line 154 leaves in the buffer for a token: its bytes backwards and
   * one separator, or, when its first byte is a space, the backwards bytes
   * without that space (the cursor steps back over it).
   */
  function Piece(t: Word): seq<Byte>
    requires |t| > 0
  {
    if t[0] != Space then Reverse(t) + [Space] else Reverse(t)[..|t| - 1]
  }

  /** The buffer contents after backtracking over ts, last token first. */
  function RevPieces(ts: seq<Word>): seq<Byte>
    requires forall t :: 0 <= t < |ts| ==> |ts[t]| > 0
  {
    if |ts| == 0 then [] else RevPieces(ts[1..]) + Piece(ts[0])
  }

  /** How a call of process ends. */
  datatype Outcome =
    | Output(text: seq<Byte>)
    /** assert(c > 0) fails: no token left anything in the buffer. */
    | Aborted
    /** The backtracking reaches a cell with first == 0 and never leaves it. */
    | Stuck

  /** Lines 157-159: trim the last slot and reverse, unless the buffer is empty. */
  function Assemble(ts: seq<Word>): Outcome
    requires forall t :: 0 <= t < |ts| ==> |ts[t]| > 0
  {
    var p := RevPieces(ts);
    if |p| == 0 then Aborted else Output(Reverse(p[..|p| - 1]))
  }

  /** The outcome of backtracking along a chain of cuts, or Stuck when there is none. */
  function Render(us: seq<Byte>, cuts: Option<seq<nat>>): Outcome
    requires cuts.Some? ==> Increasing(cuts.value) && forall t :: 0 <= t < |cuts.value| ==> cuts.value[t] <= |us|
  {
    match cuts
    case None => Stuck
    case Some(c) => Assemble(Tokens(us, c))
  }

  function Extend(o: Option<seq<nat>>, suffix: seq<nat>): Option<seq<nat>> {
    match o
    case None => None
    case Some(c) => Some(c + suffix)
  }

  /** Lines 157-159, std::reverse: reverses a[..len] in place. */
  method ReversePrefix(a: array<Byte>, len: nat)
    requires len <= a.Length
    modifies a
    ensures a[..len] == Reverse(old(a[..len]))
    ensures a[len..] == old(a[len..])
  {
    var lo, hi := 0, len;
    while lo + 1 < hi
      invariant 0 <= lo && lo + hi == len && (lo <= hi || lo == hi + 1)
      invariant forall x :: 0 <= x < lo ==> a[x] == old(a[len - 1 - x]) && a[len - 1 - x] == old(a[x])
      invariant forall x :: lo <= x < hi ==> a[x] == old(a[x])
      invariant forall x :: len <= x < a.Length ==> a[x] == old(a[x])
    {
      a[lo], a[hi - 1] := a[hi - 1], a[lo];
      lo, hi := lo + 1, hi - 1;
    }
  }

  /** Line 153: copies the bytes of us[i..j] backwards to the cursor. */
  method CopyBackwards(us: seq<Byte>, res: array<Byte>, c: nat, i: nat, j: nat) returns (c': nat)
    requires i < j <= |us| && c + (j - i) < res.Length
    requires forall x :: c <= x < res.Length ==> res[x] == Space
    modifies res
    ensures c' == c + (j - i)
    ensures res[..c'] == old(res[..c]) + Reverse(us[i..j])
    ensures forall x :: c' <= x < res.Length ==> res[x] == Space
  {
    c' := c;
    var k := j - 1;
    while k >= i
      invariant i - 1 <= k <= j - 1 && c' == c + (j - 1 - k)
      invariant res[..c'] == old(res[..c]) + Reverse(us[k + 1..j])
      invariant forall x :: c' <= x < res.Length ==> res[x] == Space
    {
      res[c'] := us[k];
      assert Reverse(us[k..j]) == Reverse(us[k + 1..j]) + [us[k]];
      c' := c' + 1;
      k := k - 1;
    }
  }

  /**
   * Lines 151-154: copies the token us[i..j] backwards to the cursor, then
   * moves the cursor one past a separator, or back over a leading space.
   */
  method CopyToken(us: seq<Byte>, res: array<Byte>, c: nat, i: nat, j: nat) returns (c': nat)
    requires i < j <= |us| && c + (j - i) < res.Length
    requires forall x :: c <= x < res.Length ==> res[x] == Space
    modifies res
    ensures c' <= c + (j - i) + 1
    ensures res[..c'] == old(res[..c]) + Piece(us[i..j])
    ensures forall x :: c' <= x < res.Length ==> res[x] == Space
  {
    ghost var before := res[..c];
    ghost var t := us[i..j];
    c' := CopyBackwards(us, res, c, i, j);
    ghost var copied := res[..c'];
    assert copied == before + Reverse(t);
    assert res[c' - 1] == copied[c' - 1] == t[0];
    if res[c' - 1] != Space {
      assert res[..c' + 1] == copied + [Space];
      c' := c' + 1;
    } else {
      assert res[..c' - 1] == copied[..c' - 1] == before + Reverse(t)[..|t| - 1];
      c' := c' - 1;
    }
  }

  /** The piece of a token goes behind the pieces of the tokens after it. */
  lemma RevPiecesCons(t: Word, tail: seq<Word>)
    requires |t| > 0 && forall x :: 0 <= x < |tail| ==> |tail[x]| > 0
    ensures RevPieces([t] + tail) == RevPieces(tail) + Piece(t)
  {
    assert ([t] + tail)[1..] == tail;
  }

  /** Putting a smaller offset in front keeps a sequence of cuts increasing. */
  lemma IncreasingCons(i: nat, c: seq<nat>)
    requires Increasing(c) && |c| > 0 && i < c[0]
    ensures Increasing([i] + c)
  {
    var c' := [i] + c;
    forall a, b | 0 <= a < b < |c'| ensures c'[a] < c'[b] {
      if a == 0 {
        assert c'[b] == c[b - 1];
      } else {
        assert c'[a] == c[a - 1] && c'[b] == c[b - 1];
      }
    }
  }

  /** One backtracking step extends the suffix of cuts and tokens by the token us[i..j]. */
  lemma BacktrackStep(us: seq<Byte>, m: seq<Cell>, i: nat, j: nat, cuts: seq<nat>)
    requires |m| == |us| + 1 && ValidFirsts(m) && 0 < j <= |us| && i == j - m[j].first < j
    requires Increasing([j] + cuts) && forall t :: 0 <= t < |cuts| ==> cuts[t] <= |us|
    ensures Increasing([i] + ([j] + cuts))
    ensures Extend(Cuts(m, i), [j] + cuts) == Extend(Cuts(m, j), cuts)
    ensures Tokens(us, [i] + ([j] + cuts)) == [us[i..j]] + Tokens(us, [j] + cuts)
  {
    var c := [i] + ([j] + cuts);
    IncreasingCons(i, [j] + cuts);
    assert forall t :: 0 <= t < |c| ==> c[t] <= |us|;
    TokensTail(us, c);
    assert c[1..] == [j] + cuts;
    ExtendStep(m, i, j, cuts);
  }

  lemma ExtendStep(m: seq<Cell>, i: nat, j: nat, cuts: seq<nat>)
    requires ValidFirsts(m) && 0 < j < |m| && i == j - m[j].first < j
    ensures Extend(Cuts(m, i), [j] + cuts) == Extend(Cuts(m, j), cuts)
  {
    assert m[j].first != 0 && j - m[j].first == i;
    match Cuts(m, i)
    case None =>
      assert Cuts(m, j) == None;
    case Some(c) =>
      assert Cuts(m, j) == Some(c + [j]);
      assert c + ([j] + cuts) == (c + [j]) + cuts;
  }

  /**
   * The backtracking loop stands at offset j having visited the cuts after
   * it: completing the chain down from j gives the whole chain from the end.
   */
  ghost predicate Walked(us: seq<Byte>, m: seq<Cell>, j: nat, cuts: seq<nat>)
    requires |m| == |us| + 1 && ValidFirsts(m) && j <= |us|
  {
    Increasing([j] + cuts) && (forall t :: 0 <= t < |cuts| ==> cuts[t] <= |us|) &&
    Extend(Cuts(m, j), cuts) == Cuts(m, |us|)
  }

  /** One step of the loop of lines 147-156 keeps Walked and adds the piece of the token us[i..j]. */
  lemma WalkStep(us: seq<Byte>, m: seq<Cell>, i: nat, j: nat, cuts: seq<nat>)
    requires |m| == |us| + 1 && ValidFirsts(m) && 0 < j <= |us| && i == j - m[j].first < j
    requires Walked(us, m, j, cuts)
    ensures Walked(us, m, i, [j] + cuts)
    ensures RevPieces(Tokens(us, [i] + ([j] + cuts))) == RevPieces(Tokens(us, [j] + cuts)) + Piece(us[i..j])
  {
    BacktrackStep(us, m, i, j, cuts);
    RevPiecesCons(us[i..j], Tokens(us, [j] + cuts));
  }

  /**
   * Lines 146-156: walks the back lengths from the end of the line, copying
   * each token backwards into the space-filled buffer through the cursor c.
   * It fails (reached == false) when it meets a cell with first == 0.
   */
  method FillBuffer(us: seq<Byte>, m: seq<Cell>, res: array<Byte>) returns (c: nat, reached: bool)
    requires |m| == |us| + 1 && ValidFirsts(m)
    requires res.Length == 2 * |us| && forall x :: 0 <= x < res.Length ==> res[x] == Space
    modifies res
    ensures reached <==> Cuts(m, |us|).Some?
    ensures reached ==> c <= res.Length && res[..c] == RevPieces(Tokens(us, Cuts(m, |us|).value))
  {
    var n := |us|;
    c := 0;
    var j := n;
    ghost var cuts: seq<nat> := [];
    if Cuts(m, n).Some? {
      assert Cuts(m, n).value + [] == Cuts(m, n).value;
    }
    while j > 0
      invariant 0 <= j <= n && c <= 2 * (n - j)
      invariant Walked(us, m, j, cuts)
      invariant res[..c] == RevPieces(Tokens(us, [j] + cuts))
      invariant forall x :: c <= x < 2 * n ==> res[x] == Space
    {
      var i := j - m[j].first;
      if i == j {
        return c, false;
      }
      WalkStep(us, m, i, j, cuts);
      c := CopyToken(us, res, c, i, j);
      cuts := [j] + cuts;
      j := i;
    }
    assert Cuts(m, 0) == Some([0]);
    assert Cuts(m, n).value == [0] + cuts;
    reached := true;
  }

  /**
   * Lines 144-159: backtracks into a buffer of 2n spaces, then trims the last
   * slot and reverses it; assert(c > 0) fails when the buffer stays empty.
   */
  method Backtrack(us: seq<Byte>, m: seq<Cell>) returns (r: Outcome)
    requires |m| == |us| + 1 && ValidFirsts(m)
    ensures r == Render(us, Cuts(m, |us|))
  {
    ghost var chain := Cuts(m, |us|);
    var res := new Byte[2 * |us|](_ => Space);
    var c, reached := FillBuffer(us, m, res);
    if !reached {
      return Stuck;
    }
    ghost var ts := Tokens(us, chain.value);
    ghost var p := RevPieces(ts);
    assert Render(us, chain) == Assemble(ts);
    if c == 0 {
      return Aborted;
    }
    ghost var trimmed := res[..c - 1];
    assert trimmed == p[..|p| - 1];
    ReversePrefix(res, c - 1);
    assert res[..c - 1] == Reverse(trimmed);
    r := Output(res[..c - 1]);
  }

  // ---------------------------------------------------------------------------
  // What the assembled output means

  /** Each token is a single space byte, or a non-empty run of bytes without a space. */
  predicate TokenShape(ts: seq<Word>) {
    forall t :: 0 <= t < |ts| ==> ts[t] == [Space] || (|ts[t]| > 0 && forall q :: 0 <= q < |ts[t]| ==> ts[t][q] != Space)
  }

  /** The tokens that are not a space, in order. */
  function Words(ts: seq<Word>): seq<Word> {
    if |ts| == 0 then [] else (if ts[0] == [Space] then [] else [ts[0]]) + Words(ts[1..])
  }

  /** The words separated by single spaces. */
  function Join(ws: seq<Word>): seq<Byte> {
    if |ws| == 0 then [] else if |ws| == 1 then ws[0] else ws[0] + [Space] + Join(ws[1..])
  }

  /** Each word preceded by one space. */
  function Lead(ws: seq<Word>): seq<Byte> {
    if |ws| == 0 then [] else [Space] + ws[0] + Lead(ws[1..])
  }

  function RemoveSpaces(s: seq<Byte>): seq<Byte> {
    if |s| == 0 then [] else (if s[0] == Space then [] else [s[0]]) + RemoveSpaces(s[1..])
  }

  predicate AllSpaces(s: seq<Byte>) {
    forall q :: 0 <= q < |s| ==> s[q] == Space
  }

  /** No leading or trailing space and no two adjacent spaces. */
  predicate Separated(x: seq<Byte>) {
    forall p :: 0 <= p < |x| && x[p] == Space ==> 0 < p < |x| - 1 && x[p - 1] != Space && x[p + 1] != Space
  }

  lemma ReverseAppend(a: seq<Byte>, b: seq<Byte>)
    ensures Reverse(a + b) == Reverse(b) + Reverse(a)
  {
  }

  lemma {:induction false} RemoveSpacesAppend(a: seq<Byte>, b: seq<Byte>)
    ensures RemoveSpaces(a + b) == RemoveSpaces(a) + RemoveSpaces(b)
    decreases |a|
  {
    if |a| > 0 {
      var h := if a[0] == Space then [] else [a[0]];
      assert (a + b)[0] == a[0];
      assert (a + b)[1..] == a[1..] + b;
      RemoveSpacesAppend(a[1..], b);
      assert RemoveSpaces(a + b) == h + (RemoveSpaces(a[1..]) + RemoveSpaces(b));
    } else {
      assert a + b == b;
    }
  }

  lemma {:induction false} LeadJoin(ws: seq<Word>)
    requires |ws| > 0
    ensures Lead(ws) == [Space] + Join(ws)
  {
    if |ws| > 1 {
      LeadJoin(ws[1..]);
    }
  }

  /** Read forwards, the piece of a token is the token after one separator, or nothing for a space. */
  lemma PieceForwards(t: Word)
    requires t == [Space] || (|t| > 0 && t[0] != Space)
    ensures Reverse(Piece(t)) == if t == [Space] then [] else [Space] + t
  {
    if t != [Space] {
      ReverseAppend(Reverse(t), [Space]);
      assert Reverse(Reverse(t)) == t;
    }
  }

  /** Reading the buffer forwards gives every word preceded by one separator. */
  lemma {:induction false} RevPiecesLead(ts: seq<Word>)
    requires TokenShape(ts)
    ensures Reverse(RevPieces(ts)) == Lead(Words(ts))
  {
    if |ts| > 0 {
      var t := ts[0];
      assert TokenShape(ts[1..]);
      RevPiecesLead(ts[1..]);
      ReverseAppend(RevPieces(ts[1..]), Piece(t));
      assert t == [Space] || (|t| > 0 && t[0] != Space);
      PieceForwards(t);
      if t == [Space] {
        assert Words(ts) == Words(ts[1..]);
      } else {
        assert Words(ts) == [t] + Words(ts[1..]);
      }
    }
  }

  /**
   * On well-shaped tokens the assembled output is the words joined by single
   * spaces, and the assertion fails exactly when there is no word.
   */
  lemma AssembleJoins(ts: seq<Word>)
    requires TokenShape(ts)
    ensures Assemble(ts) == if Words(ts) == [] then Aborted else Output(Join(Words(ts)))
  {
    var p := RevPieces(ts);
    var ws := Words(ts);
    RevPiecesLead(ts);
    if ws != [] {
      LeadJoin(ws);
      TrimSeparator(p, Join(ws));
    } else {
      assert |p| == |Lead(ws)| == 0;
    }
  }

  /** Dropping the last slot of the buffer drops the separator in front of the text. */
  lemma TrimSeparator(p: seq<Byte>, x: seq<Byte>)
    requires Reverse(p) == [Space] + x
    ensures |p| > 0 && Reverse(p[..|p| - 1]) == x
  {
    assert |p| == |x| + 1;
    assert forall q :: 0 <= q < |x| ==> x[q] == Reverse(p)[q + 1];
  }

  /** A separator in front of a word and the words after it adds no byte other than a space. */
  lemma RemoveSpacesLead(t: seq<Byte>, lead: seq<Byte>)
    ensures RemoveSpaces([Space] + (t + lead)) == RemoveSpaces(t) + RemoveSpaces(lead)
  {
    RemoveSpacesAppend([Space], t + lead);
    RemoveSpacesAppend(t, lead);
    assert RemoveSpaces([Space]) == [];
  }

  /** No byte other than a space is dropped, duplicated or reordered. */
  lemma {:induction false} WordsCover(ts: seq<Word>)
    ensures RemoveSpaces(Lead(Words(ts))) == RemoveSpaces(Concat(ts))
  {
    if |ts| > 0 {
      var t, rest := ts[0], ts[1..];
      var lead := Lead(Words(rest));
      WordsCover(rest);
      assert Concat(ts) == t + Concat(rest);
      RemoveSpacesAppend(t, Concat(rest));
      if t == [Space] {
        assert RemoveSpaces(t) == [];
        assert Words(ts) == Words(rest);
      } else {
        assert Words(ts) == [t] + Words(rest);
        calc {
          RemoveSpaces(Lead(Words(ts)));
          { assert Lead(Words(ts)) == [Space] + (t + lead); }
          RemoveSpaces([Space] + (t + lead));
          { RemoveSpacesLead(t, lead); }
          RemoveSpaces(t) + RemoveSpaces(lead);
          RemoveSpaces(t) + RemoveSpaces(Concat(rest));
        }
      }
    }
  }

  lemma JoinCovers(ts: seq<Word>)
    ensures RemoveSpaces(Join(Words(ts))) == RemoveSpaces(Concat(ts))
  {
    WordsCover(ts);
    if Words(ts) != [] {
      LeadJoin(Words(ts));
      RemoveSpacesAppend([Space], Join(Words(ts)));
    }
  }

  /** The words of well-shaped tokens are non-empty and hold no space. */
  lemma {:induction false} WordsShape(ts: seq<Word>)
    requires TokenShape(ts)
    ensures forall w :: 0 <= w < |Words(ts)| ==> |Words(ts)[w]| > 0 && forall q :: 0 <= q < |Words(ts)[w]| ==> Words(ts)[w][q] != Space
  {
    if |ts| > 0 {
      assert TokenShape(ts[1..]);
      WordsShape(ts[1..]);
    }
  }

  /** Non-empty words without spaces, joined by single spaces, leave no double, leading or trailing space. */
  lemma {:induction false} JoinSeparated(ws: seq<Word>)
    requires forall w :: 0 <= w < |ws| ==> |ws[w]| > 0 && forall q :: 0 <= q < |ws[w]| ==> ws[w][q] != Space
    ensures Separated(Join(ws))
    ensures |ws| > 0 ==> |Join(ws)| > 0 && Join(ws)[0] != Space && Join(ws)[|Join(ws)| - 1] != Space
  {
    if |ws| > 1 {
      var w := ws[0];
      var y := Join(ws[1..]);
      JoinSeparated(ws[1..]);
      var x := w + [Space] + y;
      assert Join(ws) == x;
      forall p | 0 <= p < |x| && x[p] == Space
        ensures 0 < p < |x| - 1 && x[p - 1] != Space && x[p + 1] != Space
      {
        if p > |w| {
          assert x[p] == y[p - |w| - 1];
          assert x[p - 1] == (if p - 1 == |w| then Space else y[p - |w| - 2]);
        }
      }
    }
  }

  /** On well-shaped tokens there is no word exactly when the tokens hold only spaces. */
  lemma {:induction false} NoWordsIffAllSpaces(ts: seq<Word>)
    requires TokenShape(ts)
    ensures Words(ts) == [] <==> AllSpaces(Concat(ts))
  {
    if |ts| > 0 {
      assert TokenShape(ts[1..]);
      NoWordsIffAllSpaces(ts[1..]);
      var x := Concat(ts);
      assert x == ts[0] + Concat(ts[1..]);
      if ts[0] != [Space] {
        assert x[0] == ts[0][0];
      } else {
        assert AllSpaces(x) <==> AllSpaces(Concat(ts[1..])) by {
          assert forall q :: 0 < q < |x| ==> x[q] == Concat(ts[1..])[q - 1];
          if AllSpaces(Concat(ts[1..])) {
            assert forall q :: 0 <= q < |x| ==> x[q] == Space by {
              forall q | 0 <= q < |x| ensures x[q] == Space {
                if q > 0 {
                  assert x[q] == Concat(ts[1..])[q - 1];
                }
              }
            }
          }
          if AllSpaces(x) {
            forall q | 0 <= q < |Concat(ts[1..])| ensures Concat(ts[1..])[q] == Space {
              assert x[q + 1] == Concat(ts[1..])[q];
            }
          }
        }
      }
    }
  }

  // ---------------------------------------------------------------------------
  // process

  /** The tokens of a complete chain are well shaped and read back to the whole line. */
  lemma ChainTokens(us: seq<Byte>, dict: Dict, total: real, s: seq<Cell>, c: seq<nat>)
    requires Chars(us) && TableSpec(us, dict, total, s) && ValidFirsts(s)
    requires Cuts(s, |us|) == Some(c)
    ensures TokenShape(Tokens(us, c)) && Concat(Tokens(us, c)) == us
  {
    ChainSteps(us, dict, total, s, c);
    var ts := Tokens(us, c);
    forall t | 0 <= t < |ts|
      ensures ts[t] == [Space] || (|ts[t]| > 0 && forall q :: 0 <= q < |ts[t]| ==> ts[t][q] != Space)
    {
      var k := c[t + 1];
      assert 0 < k <= |us| && 0 < s[k].first <= k && Step(us, s, k);
      assert k - s[k].first == c[t];
      StepShape(us, s, k);
      assert ts[t] == us[c[t]..k];
    }
    ConcatTokens(us, c);
  }

  /** The token a table step points back over is one space or a run of bytes without one. */
  lemma StepShape(us: seq<Byte>, s: seq<Cell>, k: nat)
    requires |s| == |us| + 1 && 0 < k <= |us| && 0 < s[k].first <= k && Step(us, s, k)
    ensures var w := us[k - s[k].first..k];
      w == [Space] || (|w| > 0 && forall q :: 0 <= q < |w| ==> w[q] != Space)
  {
    var b := k - s[k].first;
    assert forall q :: 0 <= q < k - b ==> us[b..k][q] == us[b + q];
  }

  /**
   * What the output of well-shaped tokens of a line means: the words joined by
   * single spaces, holding every non-space byte of the line in order, with no
   * leading, trailing or doubled space; the assertion fails exactly on a line
   * of spaces only.
   */
  lemma AssembleMeaning(us: seq<Byte>, ts: seq<Word>)
    requires TokenShape(ts) && Concat(ts) == us
    ensures Assemble(ts) == if Words(ts) == [] then Aborted else Output(Join(Words(ts)))
    ensures Assemble(ts) == Aborted <==> AllSpaces(us)
    ensures Assemble(ts).Output? ==>
      RemoveSpaces(Assemble(ts).text) == RemoveSpaces(us) && Separated(Assemble(ts).text) && |Assemble(ts).text| > 0
  {
    AssembleJoins(ts);
    NoWordsIffAllSpaces(ts);
    JoinCovers(ts);
    WordsShape(ts);
    JoinSeparated(Words(ts));
  }

  /**
   * Lines 82-162: flags, table and backtracking. The table is the one the
   * table specification describes; the result is the words of its chain
   * joined by single spaces, or the failed assert(c > 0) on a line of
   * spaces, or the endless backtracking loop at an unreached cell, which
   * cannot happen while the scores stay above the sentinel.
   */
  method Process(us: seq<Byte>, dict: Dict, total: real) returns (r: Outcome, ghost table: seq<Cell>)
    requires WellFormed(us)
    ensures TableSpec(us, dict, total, table) && ValidFirsts(table)
    ensures r == Render(us, Cuts(table, |us|))
    ensures r.Output? ==> r.text == Join(Words(Tokens(us, Cuts(table, |us|).value)))
    ensures ScoresAboveSentinel(dict, total, |us|) ==> r != Stuck
    ensures r != Stuck ==> (r == Aborted <==> AllSpaces(us))
    ensures AllSpaces(us) ==> r == Aborted
    ensures r.Output? ==> RemoveSpaces(r.text) == RemoveSpaces(us) && Separated(r.text) && |r.text| > 0
  {
    WellFormedChars(us);
    var isOk, isPunc := ComputeFlags(us);
    var m := FillTable(us, isOk, isPunc, dict, total);
    TableLinked(us, dict, total, m);
    table := m;
    r := Backtrack(us, m);
    ghost var chain := Cuts(m, |us|);
    if ScoresAboveSentinel(dict, total, |us|) {
      ChainComplete(us, dict, total, m, |us|);
    }
    if AllSpaces(us) {
      SpacesReachEveryOffset(us, dict, total, m, |us|);
    }
    if chain.Some? {
      ghost var c := chain.value;
      ChainTokens(us, dict, total, m, c);
      AssembleMeaning(us, Tokens(us, c));
    }
  }

  // ---------------------------------------------------------------------------
  // load_dict: one dictionary line at a time

  /** The first offset at or after `from` that holds byte b, as std::string::find does. */
  function Find(s: seq<Byte>, b: Byte, from: nat): (r: Option<nat>)
    ensures r.Some? ==> from <= r.value < |s| && s[r.value] == b && forall q :: from <= q < r.value ==> s[q] != b
    ensures r.None? ==> forall q :: from <= q < |s| ==> s[q] != b
    decreases |s| - from
  {
    if from >= |s| then None
    else if s[from] == b then Some(from)
    else Find(s, b, from + 1)
  }

  /** A dictionary line split into the count text before the first space and the word after it. */
  datatype Entry = Entry(countText: seq<Byte>, word: Word)

  /** Empty lines and lines whose first byte is '#' are skipped. */
  predicate IsSkipped(line: seq<Byte>) {
    |line| == 0 || line[0] == CommentMark
  }

  /** Lines 54-62: None when the line has no space (the assertion of line 55 fails). */
  function ParseEntry(line: seq<Byte>): Option<Entry> {
    match Find(line, Space, 0)
    case None => None
    case Some(s1) =>
      match Find(line, Space, s1 + 1)
      case None => Some(Entry(line[..s1], line[s1 + 1..]))
      case Some(s2) => Some(Entry(line[..s1], line[s1 + 1..s2]))
  }

  predicate NoSpace(s: seq<Byte>) {
    forall q :: 0 <= q < |s| ==> s[q] != Space
  }

  /**
   * The count text is everything before the first space, the word is what
   * lies between the first and the second space or runs to the end of the
   * line; the rest of the line is ignored.
   */
  lemma ParseEntryFields(line: seq<Byte>)
    ensures ParseEntry(line).None? <==> NoSpace(line)
    ensures ParseEntry(line).Some? ==> var e := ParseEntry(line).value;
      NoSpace(e.countText) && NoSpace(e.word) &&
      exists rest :: line == e.countText + [Space] + e.word + rest && (rest == [] || rest[0] == Space)
  {
    var f1 := Find(line, Space, 0);
    if f1.Some? {
      var s1 := f1.value;
      var f2 := Find(line, Space, s1 + 1);
      var end := if f2.None? then |line| else f2.value;
      var rest := line[end..];
      SplitAt(line, s1, end);
      assert line[s1 + 1..] == line[s1 + 1..|line|];
      assert ParseEntry(line) == Some(Entry(line[..s1], line[s1 + 1..end]));
      assert rest == [] || rest[0] == Space;
    }
  }

  lemma SplitAt(line: seq<Byte>, s1: nat, end: nat)
    requires s1 < end <= |line| && line[s1] == Space
    ensures line == line[..s1] + [Space] + line[s1 + 1..end] + line[end..]
  {
  }

  /** Conversely, a line built from a count text, a space, a word and an ignored rest parses back. */
  lemma ParseEntryRoundTrip(countText: seq<Byte>, word: Word, rest: seq<Byte>)
    requires NoSpace(countText) && NoSpace(word) && (rest == [] || rest[0] == Space)
    ensures ParseEntry(countText + [Space] + word + rest) == Some(Entry(countText, word))
  {
    var line := countText + [Space] + word + rest;
    var s1 := |countText|;
    assert Find(line, Space, 0) == Some(s1) by {
      FindIs(line, Space, 0, s1);
    }
    assert line[..s1] == countText;
    if rest == [] {
      FindNone(line, Space, s1 + 1);
      assert line[s1 + 1..] == word;
    } else {
      FindIs(line, Space, s1 + 1, s1 + 1 + |word|);
      assert line[s1 + 1..s1 + 1 + |word|] == word;
    }
  }

  lemma FindIs(s: seq<Byte>, b: Byte, from: nat, p: nat)
    requires from <= p < |s| && s[p] == b && forall q :: from <= q < p ==> s[q] != b
    ensures Find(s, b, from) == Some(p)
  {
  }

  lemma FindNone(s: seq<Byte>, b: Byte, from: nat)
    requires forall q :: from <= q < |s| ==> s[q] != b
    ensures Find(s, b, from) == None
  {
  }

  /** The dictionary, the running total and the words warned about so far. */
  datatype LoadState = LoadState(dict: Dict, total: real, warnings: seq<Word>)

  /** The score stored for w; operator[] reads an absent word as 0. */
  function Stored(d: Dict, w: Word): real {
    if w in d then d[w] else 0.0
  }

  /**
   * Lines 65-71: the score is stored and added to the total only while the
   * stored score is zero; otherwise nothing changes except a warning when
   * the new score differs.
   */
  function Apply(st: LoadState, word: Word, count: real): (r: LoadState)
    ensures word in r.dict
    ensures forall w :: w != word ==> (w in r.dict <==> w in st.dict) && Stored(r.dict, w) == Stored(st.dict, w)
    ensures Stored(st.dict, word) == 0.0 ==>
      r.dict[word] == count && r.total == st.total + count && r.warnings == st.warnings
    ensures Stored(st.dict, word) != 0.0 ==>
      r.dict == st.dict && r.total == st.total &&
      r.warnings == st.warnings + (if Stored(st.dict, word) != count then [word] else [])
  {
    var val := Stored(st.dict, word);
    if val == 0.0 then LoadState(st.dict[word := count], st.total + count, st.warnings)
    else LoadState(st.dict, st.total, if val != count then st.warnings + [word] else st.warnings)
  }

  datatype LineResult = Next(st: LoadState) | MissingSeparator

  /** Lines 53-71 for one line; score stands for log(atof(count) + 1). */
  function LoadLine(st: LoadState, line: seq<Byte>, score: seq<Byte> -> real): (r: LineResult)
    ensures IsSkipped(line) ==> r == Next(st)
    ensures r == MissingSeparator <==> !IsSkipped(line) && NoSpace(line)
  {
    ParseEntryFields(line);
    if IsSkipped(line) then Next(st)
    else match ParseEntry(line)
      case None => MissingSeparator
      case Some(e) => Next(Apply(st, e.word, score(e.countText)))
  }

  /** The outcome of the line loop: the final state, or the index of the line without a space. */
  datatype LinesResult = Done(st: LoadState) | FailedAt(index: nat)

  function LoadLines(st: LoadState, lines: seq<seq<Byte>>, score: seq<Byte> -> real): LinesResult
    decreases |lines|
  {
    if |lines| == 0 then Done(st)
    else match LoadLines(st, lines[..|lines| - 1], score)
      case FailedAt(k) => FailedAt(k)
      case Done(st') =>
        match LoadLine(st', lines[|lines| - 1], score)
        case MissingSeparator => FailedAt(|lines| - 1)
        case Next(st'') => Done(st'')
  }

  /** A non-comment, non-empty line without a space. */
  predicate Malformed(line: seq<Byte>) {
    !IsSkipped(line) && NoSpace(line)
  }

  /** The loop stops exactly at the first malformed line, and succeeds exactly when there is none. */
  lemma {:induction false} FailsAtFirstMalformed(st: LoadState, lines: seq<seq<Byte>>, score: seq<Byte> -> real)
    ensures LoadLines(st, lines, score).FailedAt? ==>
      var k := LoadLines(st, lines, score).index;
      k < |lines| && Malformed(lines[k]) && forall q :: 0 <= q < k ==> !Malformed(lines[q])
    ensures LoadLines(st, lines, score).Done? <==> forall q :: 0 <= q < |lines| ==> !Malformed(lines[q])
    decreases |lines|
  {
    if |lines| > 0 {
      var init := lines[..|lines| - 1];
      FailsAtFirstMalformed(st, init, score);
      assert forall q :: 0 <= q < |init| ==> init[q] == lines[q];
    }
  }

  /** Once a prefix of the lines fails, the whole file fails at the same line. */
  lemma {:induction false} FailedPrefix(st: LoadState, lines: seq<seq<Byte>>, score: seq<Byte> -> real, n: nat)
    requires n <= |lines| && LoadLines(st, lines[..n], score).FailedAt?
    ensures LoadLines(st, lines, score) == LoadLines(st, lines[..n], score)
    decreases |lines| - n
  {
    if n < |lines| {
      assert lines[..n + 1][..n] == lines[..n];
      FailedPrefix(st, lines, score, n + 1);
    } else {
      assert lines[..n] == lines;
    }
  }

  /** The result of load_dict: the filled dictionary and log(total), or the failed assertion. */
  datatype LoadResult = Loaded(dict: Dict, logTotal: real, warnings: seq<Word>) | Failed(index: nat)

  /**
   * Lines 53-71 for one line: returns the dictionary as operator[], which
   * inserts 0 for an absent word, and the stores leave it; ok is false when the line
   * fails the assertion of line 55.
   */
  method LoadOne(d: Dict, total: real, warnings: seq<Word>, line: seq<Byte>, score: seq<Byte> -> real)
    returns (d': Dict, total': real, warnings': seq<Word>, ok: bool)
    ensures ok <==> !Malformed(line)
    ensures LoadLine(LoadState(d, total, warnings), line, score) ==
      if ok then Next(LoadState(d', total', warnings')) else MissingSeparator
  {
    d', total', warnings', ok := d, total, warnings, true;
    if IsSkipped(line) {
      return;
    }
    var s1 := Find(line, Space, 0);
    if s1.None? {
      ParseEntryFields(line);
      return d, total, warnings, false;
    }
    var s2 := Find(line, Space, s1.value + 1);
    var word := if s2.None? then line[s1.value + 1..] else line[s1.value + 1..s2.value];
    var count := score(line[..s1.value]);
    var val := if word in d' then d'[word] else 0.0;
    d' := d'[word := val];
    if val == 0.0 {
      d' := d'[word := count];
      total' := total' + count;
    } else if val != count {
      warnings' := warnings' + [word];
    }
    assert ParseEntry(line) == Some(Entry(line[..s1.value], word));
    ParseEntryFields(line);
  }

  /** One more line extends the line loop by one step. */
  lemma LoadLinesSnoc(st: LoadState, lines: seq<seq<Byte>>, score: seq<Byte> -> real, idx: nat)
    requires idx < |lines| && LoadLines(st, lines[..idx], score).Done?
    ensures LoadLines(st, lines[..idx + 1], score) ==
      match LoadLine(LoadLines(st, lines[..idx], score).st, lines[idx], score)
      case MissingSeparator => FailedAt(idx)
      case Next(st') => Done(st')
  {
    assert lines[..idx + 1][..idx] == lines[..idx];
  }

  /**
   * Lines 45-73 over the lines of the file: returns the dictionary as the
   * stores of the loop leave it and the total of the stored scores; score stands for
   * log(atof(count) + 1) and log for the final logarithm.
   */
  method LoadDict(init: Dict, lines: seq<seq<Byte>>, score: seq<Byte> -> real, log: real -> real)
    returns (r: LoadResult)
    ensures r == match LoadLines(LoadState(init, 0.0, []), lines, score)
      case Done(st) => Loaded(st.dict, log(st.total), st.warnings)
      case FailedAt(k) => Failed(k)
  {
    ghost var st0 := LoadState(init, 0.0, []);
    var d := init;
    var total := 0.0;
    var warnings: seq<Word> := [];
    var idx := 0;
    while idx < |lines|
      invariant idx <= |lines|
      invariant LoadLines(st0, lines[..idx], score) == Done(LoadState(d, total, warnings))
    {
      var ok;
      LoadLinesSnoc(st0, lines, score, idx);
      d, total, warnings, ok := LoadOne(d, total, warnings, lines[idx], score);
      if !ok {
        FailedPrefix(st0, lines, score, idx + 1);
        return Failed(idx);
      }
      idx := idx + 1;
    }
    assert lines[..idx] == lines;
    r := Loaded(d, log(total), warnings);
  }

  // ---------------------------------------------------------------------------
  // What the loader accumulates

  ghost function Pick(d: Dict): Word
    requires d != map[]
  {
    var w :| w in d; w
  }

  /** The sum of all scores stored in d. */
  ghost function Mass(d: Dict): real
    decreases |d|
  {
    if d == map[] then 0.0
    else
      var w := Pick(d);
      assert (d - {w}).Keys == d.Keys - {w};
      d[w] + Mass(d - {w})
  }

  lemma {:induction false} MassRemove(d: Dict, w: Word)
    requires w in d
    ensures Mass(d) == d[w] + Mass(d - {w})
    decreases |d|
  {
    var x := Pick(d);
    if x != w {
      assert (d - {x}).Keys == d.Keys - {x};
      assert (d - {w}).Keys == d.Keys - {w};
      MassRemove(d - {x}, w);
      MassRemove(d - {w}, x);
      assert d - {x} - {w} == d - {w} - {x};
    }
  }

  /** Storing v for w changes the mass by v minus what w held. */
  lemma MassUpdate(d: Dict, w: Word, v: real)
    ensures Mass(d[w := v]) == Mass(d) - Stored(d, w) + v
  {
    MassRemove(d[w := v], w);
    assert d[w := v] - {w} == d - {w};
    if w in d {
      MassRemove(d, w);
    } else {
      assert d - {w} == d;
    }
  }

  /** What one accepted line adds to the total is what it adds to the stored scores. */
  lemma ApplyMass(st: LoadState, word: Word, count: real)
    ensures Apply(st, word, count).total - st.total == Mass(Apply(st, word, count).dict) - Mass(st.dict)
  {
    if Stored(st.dict, word) == 0.0 {
      MassUpdate(st.dict, word, count);
    }
  }

  /** The total is the sum of the scores the lines stored: line 68 adds exactly what line 67 stores. */
  lemma {:induction false} TotalIsStoredMass(st: LoadState, lines: seq<seq<Byte>>, score: seq<Byte> -> real)
    requires LoadLines(st, lines, score).Done?
    ensures var st' := LoadLines(st, lines, score).st;
      st'.total - st.total == Mass(st'.dict) - Mass(st.dict)
    decreases |lines|
  {
    if |lines| > 0 {
      var init := lines[..|lines| - 1];
      TotalIsStoredMass(st, init, score);
      var mid := LoadLines(st, init, score).st;
      var line := lines[|lines| - 1];
      if !IsSkipped(line) {
        var e := ParseEntry(line).value;
        ApplyMass(mid, e.word, score(e.countText));
      }
    }
  }

  /** The scores that the accepted lines of the file give for word w, in order. */
  function EntryScores(lines: seq<seq<Byte>>, score: seq<Byte> -> real, w: Word): seq<real>
    decreases |lines|
  {
    if |lines| == 0 then []
    else
      var line := lines[|lines| - 1];
      EntryScores(lines[..|lines| - 1], score, w) +
      (if !IsSkipped(line) && ParseEntry(line).Some? && ParseEntry(line).value.word == w
       then [score(ParseEntry(line).value.countText)] else [])
  }

  /** The first non-zero value, or 0 when there is none. */
  function FirstNonZero(xs: seq<real>): real {
    if |xs| == 0 then 0.0 else if xs[0] != 0.0 then xs[0] else FirstNonZero(xs[1..])
  }

  lemma {:induction false} FirstNonZeroSnoc(xs: seq<real>, x: real)
    ensures FirstNonZero(xs + [x]) == if FirstNonZero(xs) != 0.0 then FirstNonZero(xs) else x
  {
    if |xs| > 0 {
      assert (xs + [x])[1..] == xs[1..] + [x];
      FirstNonZeroSnoc(xs[1..], x);
    } else {
      assert xs + [x] == [x];
    }
  }

  /**
   * "First non-zero wins": after the loop every word holds the first non-zero
   * score among what it held before and what its lines gave, and it is a key
   * exactly when it was one before or some line named it.
   */
  lemma {:induction false} StoredIsFirstNonZero(st: LoadState, lines: seq<seq<Byte>>, score: seq<Byte> -> real, w: Word)
    requires LoadLines(st, lines, score).Done?
    ensures var d := LoadLines(st, lines, score).st.dict;
      Stored(d, w) == FirstNonZero([Stored(st.dict, w)] + EntryScores(lines, score, w)) &&
      (w in d <==> w in st.dict || |EntryScores(lines, score, w)| > 0)
    decreases |lines|
  {
    if |lines| > 0 {
      var init := lines[..|lines| - 1];
      StoredIsFirstNonZero(st, init, score, w);
      var mid := LoadLines(st, init, score).st;
      var line := lines[|lines| - 1];
      var xs := [Stored(st.dict, w)] + EntryScores(init, score, w);
      if !IsSkipped(line) && ParseEntry(line).value.word == w {
        var count := score(ParseEntry(line).value.countText);
        assert [Stored(st.dict, w)] + EntryScores(lines, score, w) == xs + [count];
        FirstNonZeroSnoc(xs, count);
      } else {
        assert [Stored(st.dict, w)] + EntryScores(lines, score, w) == xs;
      }
    }
  }
}
