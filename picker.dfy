/**
 * The anti-repeat word picker of the game server (pickWordIndex).
 *
 * Each room keeps, per category, a history of recently chosen word indices.
 * A pick chooses uniformly among the indices that are not in the history; when
 * the history rules out every index, it is first cut down to its last
 * minHistory = min(100, floor(L / 2)) entries. The chosen index is appended and
 * the history is capped at max(minHistory, 200) entries, oldest dropped first.
 */
module Picker {

  import opened Options

  /** The word bank: category name to its ordered list of words. */
  type WordBank = map<string, seq<string>>

  /** A room's histories of chosen word indices, one per category. */
  type UsedWords = map<string, seq<int>>

  datatype PickResult = PickResult(index: int, usedWords: UsedWords)

  /** min(100, floor(len / 2)): how many recent picks survive a history reset. */
  function MinHistory(len: nat): (k: nat)
    ensures k <= 100 && 2 * k <= len
    ensures 2 <= len ==> 1 <= k
  {
    if 100 < len / 2 then 100 else len / 2
  }

  /** max(minHistory, 200): the bound on a history's length, which is always 200. */
  function HistoryCap(len: nat): (cap: nat)
    ensures cap == 200
  {
    var m := MinHistory(len);
    if m > 200 then m else 200
  }

  /** floor(rand * n): the position that a uniform draw rand in [0, 1) selects among n items. */
  function RandIndex(rand: real, n: nat): (k: nat)
    requires 0.0 <= rand < 1.0 && 0 < n
    ensures k < n
  {
    var x := rand * (n as real);
    assert 0.0 <= x < n as real by {
      assert rand * (n as real) < 1.0 * (n as real);
    }
    x.Floor
  }

  /** Every index 0 .. len - 1 occurs in the history. */
  predicate Covers(used: seq<int>, len: nat) {
    forall i :: 0 <= i < len ==> i in used
  }

  /** No element occurs twice. */
  predicate Distinct<T(==)>(s: seq<T>) {
    forall j, k :: 0 <= j < k < |s| ==> s[j] != s[k]
  }

  predicate InRange(h: seq<int>, len: nat) {
    forall k :: 0 <= k < |h| ==> 0 <= h[k] < len
  }

  /** What every stored history satisfies: bounded, in range, no index twice. */
  predicate HistoryValid(h: seq<int>, len: nat) {
    |h| <= 200 && InRange(h, len) && Distinct(h)
  }

  /** The stored history of a category; a missing one starts empty. */
  function HistoryOf(usedWords: UsedWords, category: string): (h: seq<int>) {
    if category in usedWords then usedWords[category] else []
  }

  /** The indices 0 .. len - 1 absent from the history, in increasing order. */
  function Candidates(used: seq<int>, len: nat): (c: seq<int>)
    ensures forall k :: 0 <= k < |c| ==> 0 <= c[k] < len && c[k] !in used
  {
    if len == 0 then []
    else Candidates(used, len - 1) + (if len - 1 in used then [] else [len - 1])
  }

  /** Every index absent from the history is a candidate, and they come in increasing order. */
  lemma {:induction false} CandidatesComplete(used: seq<int>, len: nat)
    ensures forall i :: 0 <= i < len && i !in used ==> i in Candidates(used, len)
    ensures forall j, k :: 0 <= j < k < |Candidates(used, len)| ==> Candidates(used, len)[j] < Candidates(used, len)[k]
  {
    if len > 0 {
      CandidatesComplete(used, len - 1);
    }
  }

  lemma CandidatesEmptyIffCovers(used: seq<int>, len: nat)
    ensures |Candidates(used, len)| == 0 <==> Covers(used, len)
  {
    if !Covers(used, len) {
      var i :| 0 <= i < len && i !in used;
      CandidatesComplete(used, len);
      assert i in Candidates(used, len);
    }
  }

  /** The sequence without its first occurrence of x. */
  ghost function RemoveFirst(s: seq<int>, x: int): (r: seq<int>)
    requires x in s
    ensures |r| == |s| - 1
    ensures forall y :: y in s && y != x ==> y in r
  {
    if s[0] == x then s[1..] else [s[0]] + RemoveFirst(s[1..], x)
  }

  /** A history that rules out all len indices holds at least len entries. */
  lemma {:induction false} CoverNeedsLength(used: seq<int>, len: nat)
    requires Covers(used, len)
    ensures len <= |used|
    decreases len
  {
    if len > 0 {
      var rest := RemoveFirst(used, len - 1);
      assert Covers(rest, len - 1);
      CoverNeedsLength(rest, len - 1);
    }
  }

  /** A history shorter than the word list always leaves a candidate. */
  lemma ShortHistoryLeavesCandidate(used: seq<int>, len: nat)
    requires |used| < len
    ensures |Candidates(used, len)| > 0
  {
    CandidatesEmptyIffCovers(used, len);
    if Covers(used, len) {
      CoverNeedsLength(used, len);
    }
  }

  /** JavaScript's s.slice(-k) for k >= 0; as -0 is 0, k == 0 keeps the whole array. */
  function SliceFromEnd(s: seq<int>, k: nat): (r: seq<int>)
    ensures |r| == if k == 0 || |s| <= k then |s| else k
    ensures IsSuffix(r, s)
  {
    if k == 0 || |s| <= k then s else s[|s| - k..]
  }

  /** The newest n entries of s: all of s when it is no longer than n. */
  function Newest(s: seq<int>, n: nat): (r: seq<int>)
    ensures |r| == if |s| <= n then |s| else n
  {
    if |s| <= n then s else s[|s| - n..]
  }

  /** a is what remains of b after dropping some of its oldest entries. */
  predicate IsSuffix(a: seq<int>, b: seq<int>) {
    |a| <= |b| && forall k :: 0 <= k < |a| ==> a[k] == b[|b| - |a| + k]
  }

  lemma NewestIsSuffix(s: seq<int>, n: nat)
    ensures IsSuffix(Newest(s, n), s)
  {
  }

  /**
   * The history after a reset: its last minHistory entries, and none at all
   * when minHistory is 0 (a one-word category). It always leaves a candidate.
   */
  function RetainedHistory(used: seq<int>, len: nat): (r: seq<int>)
    ensures |r| <= MinHistory(len)
    ensures 0 < len ==> |Candidates(r, len)| > 0
  {
    var r := Newest(used, MinHistory(len));
    if 0 < len then ShortHistoryLeavesCandidate(r, len); r else r
  }

  /** For two words or more, the reset is exactly used.slice(-minHistory). */
  lemma RetainedHistoryIsSlice(used: seq<int>, len: nat)
    requires 2 <= len
    ensures RetainedHistory(used, len) == SliceFromEnd(used, MinHistory(len))
  {
  }

  /**
   * The history a pick finally chooses against: the stored one, or its
   * retained tail when the stored one rules out every index.
   */
  function ChoiceHistory(used: seq<int>, len: nat): (r: seq<int>)
    ensures 0 < len ==> |Candidates(r, len)| > 0
  {
    if |Candidates(used, len)| == 0 then RetainedHistory(used, len) else used
  }

  /**
   * The history chosen against is the stored one when that leaves a candidate;
   * otherwise it is the stored one's newest minHistory entries.
   */
  lemma ChoiceHistoryIsSuffix(used: seq<int>, len: nat)
    requires 0 < len
    ensures IsSuffix(ChoiceHistory(used, len), used)
    ensures |Candidates(used, len)| > 0 ==> ChoiceHistory(used, len) == used
    ensures |Candidates(used, len)| == 0 ==> |ChoiceHistory(used, len)| == MinHistory(len)
  {
    NewestIsSuffix(used, MinHistory(len));
    if |Candidates(used, len)| == 0 {
      CandidatesEmptyIffCovers(used, len);
      CoverNeedsLength(used, len);
    }
  }

  datatype Drawn = Drawn(index: int, history: seq<int>)

  /**
   * One draw from a category of len words given its stored history: the
   * candidate the random draw selects, and the new history, which is the
   * history chosen against plus the drawn index, trimmed to its bound.
   */
  function DrawIndex(used: seq<int>, len: nat, rand: real): (d: Drawn)
    requires 0 < len && 0.0 <= rand < 1.0
    ensures 0 <= d.index < len
  {
    var against := ChoiceHistory(used, len);
    var candidates := Candidates(against, len);
    var index := candidates[RandIndex(rand, |candidates|)];
    Drawn(index, Newest(against + [index], HistoryCap(len)))
  }

  /**
   * A draw returns an index absent from the history it chose against; the new
   * history ends with that index, holds at most 200 entries, and is that
   * history plus the index with only the oldest entries dropped.
   */
  lemma DrawIsFresh(used: seq<int>, len: nat, rand: real)
    requires 0 < len && 0.0 <= rand < 1.0
    ensures var d := DrawIndex(used, len, rand);
      var against := ChoiceHistory(used, len);
      && d.index !in against
      && |d.history| == (if |against| < 200 then |against| + 1 else 200)
      && d.history[|d.history| - 1] == d.index
      && IsSuffix(d.history, against + [d.index])
  {
    var d := DrawIndex(used, len, rand);
    var against := ChoiceHistory(used, len);
    NewestIsSuffix(against + [d.index], HistoryCap(len));
  }

  /**
   * pickWordIndex applied to a room's histories: -1 and no change for a
   * category that is missing or has no words; otherwise a draw whose new
   * history replaces the category's, creating it if it was missing.
   */
  function Pick(words: WordBank, category: string, usedWords: UsedWords, rand: real): (p: PickResult)
    requires 0.0 <= rand < 1.0
    ensures p.index == -1 <==> category !in words || |words[category]| == 0
    ensures p.index != -1 ==> 0 <= p.index < |words[category]|
  {
    if category !in words || |words[category]| == 0 then PickResult(-1, usedWords)
    else
      var d := DrawIndex(HistoryOf(usedWords, category), |words[category]|, rand);
      PickResult(d.index, usedWords[category := d.history])
  }

  /**
   * pickWordIndex: collects the candidates with a loop; when there are none,
   * stores the retained history and tries again (at most once, as the
   * retained history always leaves a candidate); otherwise draws one, appends
   * it and trims the history to its bound.
   */
  method PickWordIndex(words: WordBank, category: string, usedWords: UsedWords, rand: real)
    returns (index: int, usedWords': UsedWords)
    requires 0.0 <= rand < 1.0
    ensures PickResult(index, usedWords') == Pick(words, category, usedWords, rand)
    decreases if category in words && |Candidates(HistoryOf(usedWords, category), |words[category]|)| == 0 then 1 else 0
  {
    if category !in words || |words[category]| == 0 {
      return -1, usedWords;
    }
    var len := |words[category]|;
    usedWords' := if category in usedWords then usedWords else usedWords[category := []];
    var used := usedWords'[category];
    var candidates: seq<int> := [];
    for i := 0 to len
      invariant candidates == Candidates(used, i)
    {
      if i !in used {
        candidates := candidates + [i];
      }
    }
    assert used == HistoryOf(usedWords, category);
    if |candidates| == 0 {
      var reset := RetainedHistory(used, len);
      PickAfterReset(words, category, usedWords, rand);
      usedWords' := usedWords'[category := reset];
      index, usedWords' := PickWordIndex(words, category, usedWords', rand);
      return;
    }
    PickFromCandidates(words, category, usedWords, rand);
    index := candidates[RandIndex(rand, |candidates|)];
    used := used + [index];
    if |used| > HistoryCap(len) {
      used := used[|used| - HistoryCap(len)..];
    }
    usedWords' := usedWords'[category := used];
  }

  /** With no candidate left, a pick is the pick from the retained history. */
  lemma PickAfterReset(words: WordBank, category: string, usedWords: UsedWords, rand: real)
    requires 0.0 <= rand < 1.0 && category in words && 0 < |words[category]|
    requires |Candidates(HistoryOf(usedWords, category), |words[category]|)| == 0
    ensures var reset := RetainedHistory(HistoryOf(usedWords, category), |words[category]|);
      && |Candidates(reset, |words[category]|)| > 0
      && Pick(words, category, usedWords, rand) == Pick(words, category, usedWords[category := reset], rand)
  {
    var len := |words[category]|;
    var reset := RetainedHistory(HistoryOf(usedWords, category), len);
    assert HistoryOf(usedWords[category := reset], category) == reset;
    assert ChoiceHistory(reset, len) == reset;
  }

  /** With a candidate left, a pick draws among the candidates and appends the draw. */
  lemma PickFromCandidates(words: WordBank, category: string, usedWords: UsedWords, rand: real)
    requires 0.0 <= rand < 1.0 && category in words && 0 < |words[category]|
    requires |Candidates(HistoryOf(usedWords, category), |words[category]|)| > 0
    ensures var used := HistoryOf(usedWords, category);
      var c := Candidates(used, |words[category]|);
      var index := c[RandIndex(rand, |c|)];
      Pick(words, category, usedWords, rand)
        == PickResult(index, usedWords[category := Newest(used + [index], HistoryCap(|words[category]|))])
  {
  }

  lemma SuffixKeepsHistoryShape(a: seq<int>, b: seq<int>, len: nat)
    requires IsSuffix(a, b)
    ensures Distinct(b) ==> Distinct(a)
    ensures InRange(b, len) ==> InRange(a, len)
  {
    var off := |b| - |a|;
    if Distinct(b) {
      forall j, k | 0 <= j < k < |a| ensures a[j] != a[k] {
        assert a[j] == b[off + j] && a[k] == b[off + k];
      }
    }
    if InRange(b, len) {
      forall k | 0 <= k < |a| ensures 0 <= a[k] < len {
        assert a[k] == b[off + k];
      }
    }
  }

  /** A draw keeps a history bounded, in range and free of repeats. */
  lemma DrawKeepsHistoryValid(used: seq<int>, len: nat, rand: real)
    requires 0 < len && 0.0 <= rand < 1.0
    requires HistoryValid(used, len)
    ensures HistoryValid(DrawIndex(used, len, rand).history, len)
  {
    var d := DrawIndex(used, len, rand);
    var against := ChoiceHistory(used, len);
    ChoiceHistoryIsSuffix(used, len);
    DrawIsFresh(used, len, rand);
    SuffixKeepsHistoryShape(against, used, len);
    var s := against + [d.index];
    assert Distinct(s) by {
      forall j, k | 0 <= j < k < |s| ensures s[j] != s[k] {
        if k == |s| - 1 {
          assert s[j] == against[j];
        }
      }
    }
    assert InRange(s, len);
    SuffixKeepsHistoryShape(d.history, s, len);
  }

  /** Every stored history belongs to a category of the bank and is valid for it. */
  predicate HistoriesValid(words: WordBank, usedWords: UsedWords) {
    forall c :: c in usedWords ==> c in words && HistoryValid(usedWords[c], |words[c]|)
  }

  /**
   * What a pick promises: -1 with nothing changed exactly when the category is
   * missing or has no words; otherwise an index in range that the history it
   * chose against does not hold, now the newest entry of the category's
   * history, with every other category's history unchanged.
   */
  lemma PickOutcome(words: WordBank, category: string, usedWords: UsedWords, rand: real)
    requires 0.0 <= rand < 1.0
    ensures var p := Pick(words, category, usedWords, rand);
      && (p.index == -1 <==> category !in words || |words[category]| == 0)
      && (p.index == -1 ==> p.usedWords == usedWords)
      && (p.index != -1 ==>
            && 0 <= p.index < |words[category]|
            && p.index !in ChoiceHistory(HistoryOf(usedWords, category), |words[category]|)
            && p.usedWords.Keys == usedWords.Keys + {category}
            && |p.usedWords[category]| > 0
            && p.usedWords[category][|p.usedWords[category]| - 1] == p.index
            && forall c :: c in usedWords && c != category ==> p.usedWords[c] == usedWords[c])
  {
    if category in words && |words[category]| > 0 {
      DrawIsFresh(HistoryOf(usedWords, category), |words[category]|, rand);
    }
  }

  /** A pick keeps every stored history valid. */
  lemma PickKeepsHistoriesValid(words: WordBank, category: string, usedWords: UsedWords, rand: real)
    requires 0.0 <= rand < 1.0
    requires HistoriesValid(words, usedWords)
    ensures HistoriesValid(words, Pick(words, category, usedWords, rand).usedWords)
  {
    if category in words && |words[category]| > 0 {
      DrawKeepsHistoryValid(HistoryOf(usedWords, category), |words[category]|, rand);
    }
  }

  /** The indices drawn by consecutive picks from one category of len words. */
  function DrawRun(used: seq<int>, len: nat, rands: seq<real>): (run: seq<int>)
    requires 0 < len
    requires forall k :: 0 <= k < |rands| ==> 0.0 <= rands[k] < 1.0
    ensures |run| == |rands|
    decreases |rands|
  {
    if rands == [] then []
    else
      var d := DrawIndex(used, len, rands[0]);
      [d.index] + DrawRun(d.history, len, rands[1..])
  }

  /**
   * One draw does not return an entry that is among the newest minHistory of
   * the history, and that entry moves one step older in the new history.
   */
  lemma DrawAgesEntry(used: seq<int>, len: nat, rand: real, pos: nat) returns (pos': nat)
    requires 0 < len && 0.0 <= rand < 1.0
    requires pos < |used| && |used| - pos <= MinHistory(len)
    ensures var d := DrawIndex(used, len, rand);
      && d.index != used[pos]
      && pos' < |d.history| && d.history[pos'] == used[pos]
      && |d.history| - pos' == |used| - pos + 1
  {
    var d := DrawIndex(used, len, rand);
    ChoiceHistoryIsSuffix(used, len);
    DrawIsFresh(used, len, rand);
    pos' := AgesEntry(used, ChoiceHistory(used, len), d.index, d.history, MinHistory(len), pos);
  }

  /** The step of DrawAgesEntry on plain sequences: suffix, append, suffix. */
  lemma AgesEntry(used: seq<int>, against: seq<int>, index: int, history: seq<int>, keep: nat, pos: nat)
    returns (pos': nat)
    requires pos < |used| && |used| - pos <= keep
    requires IsSuffix(against, used) && (against == used || |against| == keep)
    requires index !in against
    requires IsSuffix(history, against + [index])
    requires |history| == (if |against| < 200 then |against| + 1 else 200) && keep < 200
    ensures index != used[pos]
    ensures pos' < |history| && history[pos'] == used[pos]
    ensures |history| - pos' == |used| - pos + 1
  {
    var age := |used| - pos;
    var p1 := |against| - age;
    assert against[p1] == used[|used| - |against| + p1];
    var s := against + [index];
    pos' := p1 - (|s| - |history|);
    assert history[pos'] == s[p1];
  }

  lemma DrawRunStep(used: seq<int>, len: nat, rands: seq<real>)
    requires 0 < len && rands != []
    requires forall k :: 0 <= k < |rands| ==> 0.0 <= rands[k] < 1.0
    ensures var d := DrawIndex(used, len, rands[0]);
      DrawRun(used, len, rands) == [d.index] + DrawRun(d.history, len, rands[1..])
  {
  }

  /** The draws after the first are the run from the history the first leaves. */
  lemma DrawRunShift(used: seq<int>, len: nat, rands: seq<real>, k: nat)
    requires 0 < len && 0 < k < |rands|
    requires forall k :: 0 <= k < |rands| ==> 0.0 <= rands[k] < 1.0
    ensures DrawRun(used, len, rands)[k] == DrawRun(DrawIndex(used, len, rands[0]).history, len, rands[1..])[k - 1]
  {
    DrawRunStep(used, len, rands);
  }

  /**
   * The entry at position pos of the history, age entries from its end (1 for
   * the newest), is not drawn again by the following draws for as long as it
   * stays within the newest minHistory entries.
   */
  lemma {:induction false} RecentNotRepeated(used: seq<int>, len: nat, rands: seq<real>, pos: nat)
    requires 0 < len
    requires forall k :: 0 <= k < |rands| ==> 0.0 <= rands[k] < 1.0
    requires pos < |used|
    ensures forall j :: 0 <= j < |rands| && |used| - pos + j <= MinHistory(len) ==>
      DrawRun(used, len, rands)[j] != used[pos]
    decreases |rands|
  {
    if rands != [] && |used| - pos <= MinHistory(len) {
      var d := DrawIndex(used, len, rands[0]);
      var pos' := DrawAgesEntry(used, len, rands[0], pos);
      RecentNotRepeated(d.history, len, rands[1..], pos');
      DrawRunStep(used, len, rands);
    }
  }

  /** The first draw of a run is not repeated by the next minHistory draws. */
  lemma FirstNotRepeated(used: seq<int>, len: nat, rands: seq<real>, j: nat)
    requires 0 < len
    requires forall k :: 0 <= k < |rands| ==> 0.0 <= rands[k] < 1.0
    requires 0 < j < |rands| && j <= MinHistory(len)
    ensures DrawRun(used, len, rands)[0] != DrawRun(used, len, rands)[j]
  {
    var d := DrawIndex(used, len, rands[0]);
    DrawIsFresh(used, len, rands[0]);
    RecentNotRepeated(d.history, len, rands[1..], |d.history| - 1);
    DrawRunStep(used, len, rands);
  }

  /**
   * Anti-repetition: among any minHistory + 1 consecutive draws from one
   * category, no index is drawn twice.
   */
  lemma {:induction false} NoRepeatWithinMinHistory(used: seq<int>, len: nat, rands: seq<real>, i: nat, j: nat)
    requires 0 < len
    requires forall k :: 0 <= k < |rands| ==> 0.0 <= rands[k] < 1.0
    requires i < j < |rands| && j - i <= MinHistory(len)
    ensures DrawRun(used, len, rands)[i] != DrawRun(used, len, rands)[j]
    decreases i
  {
    if i == 0 {
      FirstNotRepeated(used, len, rands, j);
    } else {
      NoRepeatWithinMinHistory(DrawIndex(used, len, rands[0]).history, len, rands[1..], i - 1, j - 1);
      DrawRunShift(used, len, rands, i);
      DrawRunShift(used, len, rands, j);
    }
  }

  /**
   * The indices returned by consecutive picks from one category, each pick
   * working on the histories the previous one left.
   */
  function PickRun(words: WordBank, category: string, usedWords: UsedWords, rands: seq<real>): (run: seq<int>)
    requires forall k :: 0 <= k < |rands| ==> 0.0 <= rands[k] < 1.0
    ensures |run| == |rands|
    decreases |rands|
  {
    if |rands| == 0 then []
    else
      var p := Pick(words, category, usedWords, rands[0]);
      [p.index] + PickRun(words, category, p.usedWords, rands[1..])
  }

  /** Consecutive picks from a category with words are the draws of DrawRun from its stored history. */
  lemma {:induction false} PickRunIsDrawRun(words: WordBank, category: string, usedWords: UsedWords, rands: seq<real>)
    requires forall k :: 0 <= k < |rands| ==> 0.0 <= rands[k] < 1.0
    requires category in words && 0 < |words[category]|
    ensures PickRun(words, category, usedWords, rands)
      == DrawRun(HistoryOf(usedWords, category), |words[category]|, rands)
    decreases |rands|
  {
    if |rands| > 0 {
      var len := |words[category]|;
      var d := DrawIndex(HistoryOf(usedWords, category), len, rands[0]);
      var p := Pick(words, category, usedWords, rands[0]);
      assert p == PickResult(d.index, usedWords[category := d.history]);
      assert HistoryOf(p.usedWords, category) == d.history;
      PickRunIsDrawRun(words, category, p.usedWords, rands[1..]);
      DrawRunStep(HistoryOf(usedWords, category), len, rands);
    }
  }

  /**
   * Anti-repetition for the picker itself: among any minHistory + 1
   * consecutive picks from one category, no index is returned twice.
   */
  lemma NoRepeatAcrossPicks(words: WordBank, category: string, usedWords: UsedWords, rands: seq<real>, i: nat, j: nat)
    requires forall k :: 0 <= k < |rands| ==> 0.0 <= rands[k] < 1.0
    requires category in words && 0 < |words[category]|
    requires i < j < |rands| && j - i <= MinHistory(|words[category]|)
    ensures PickRun(words, category, usedWords, rands)[i] != PickRun(words, category, usedWords, rands)[j]
  {
    PickRunIsDrawRun(words, category, usedWords, rands);
    NoRepeatWithinMinHistory(HistoryOf(usedWords, category), |words[category]|, rands, i, j);
  }

  /**
   * The picker's recursion exactly as the source writes it, with at most fuel
   * nested calls: None when the calls run out before an index is drawn.
   */
  function PickAsWritten(used: seq<int>, len: nat, rand: real, fuel: nat): (r: Option<int>)
    requires 0.0 <= rand < 1.0
    ensures r.Some? ==> 0 <= r.value < len
  {
    if fuel == 0 then None
    else
      var candidates := Candidates(used, len);
      if |candidates| == 0 then PickAsWritten(SliceFromEnd(used, MinHistory(len)), len, rand, fuel - 1)
      else Some(candidates[RandIndex(rand, |candidates|)])
  }

  /**
   * For two words or more the source's recursion returns within one retry
   * (two calls), and it returns the index DrawIndex draws.
   */
  lemma PickAsWrittenRetriesOnce(used: seq<int>, len: nat, rand: real)
    requires 2 <= len && 0.0 <= rand < 1.0
    ensures PickAsWritten(used, len, rand, 2) == Some(DrawIndex(used, len, rand).index)
  {
    RetainedHistoryIsSlice(used, len);
  }

  /**
   * A one-word category whose history holds its only index: minHistory is 0,
   * slice(-0) keeps the whole history, and the recursion never returns.
   */
  lemma {:induction false} SingleWordPickNeverReturns(used: seq<int>, rand: real, fuel: nat)
    requires 0.0 <= rand < 1.0
    requires 0 in used
    ensures PickAsWritten(used, 1, rand, fuel) == None
  {
    if fuel > 0 {
      assert |Candidates(used, 1)| == 0;
      assert SliceFromEnd(used, MinHistory(1)) == used;
      SingleWordPickNeverReturns(used, rand, fuel - 1);
    }
  }

  /**
   * The divergence is reached by the second round in any one-word category:
   * the first draw stores index 0, and the next call never returns.
   */
  lemma SingleWordSecondPickDiverges(used: seq<int>, rand: real, fuel: nat)
    requires 0.0 <= rand < 1.0
    ensures PickAsWritten(DrawIndex(used, 1, rand).history, 1, rand, fuel) == None
  {
    var d := DrawIndex(used, 1, rand);
    DrawIsFresh(used, 1, rand);
    assert d.history[|d.history| - 1] == 0;
    SingleWordPickNeverReturns(d.history, rand, fuel);
  }
}
