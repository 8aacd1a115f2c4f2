/**
 * The high-score table (game.cpp:18-22, 418-419, 480-490, 666-690): at most
 * ten (name, score) records, kept in non-increasing score order. A finished
 * game's score is appended while there is room, and otherwise overwrites the
 * first lowest record only when strictly greater.
 */
module Leaderboard {
  const Capacity := 10
  const NameLength := 19      // char name[20] holds 19 characters and a terminator

  datatype HighScore = HighScore(name: string, score: int)

  /** The name as stored: strncpy of at most 19 characters. */
  function StoredName(s: string): (r: string)
    ensures |r| <= NameLength && |r| <= |s| && r == s[..|r|]
    ensures |s| <= NameLength ==> r == s
    ensures |s| > NameLength ==> |r| == NameLength
  {
    if |s| <= NameLength then s else s[..NameLength]
  }

  /** The name prompt of main: an empty answer becomes "Anonymous", a long one is cut to 19 characters. */
  function PlayerName(answer: string): (r: string)
    ensures 0 < |r| <= NameLength
    ensures answer == "" ==> r == "Anonymous"
    ensures answer != "" ==> r == StoredName(answer)
  {
    if answer == "" then "Anonymous" else StoredName(answer)
  }

  predicate SortedByScore(s: seq<HighScore>) {
    forall p, q :: 0 <= p < q < |s| ==> s[p].score >= s[q].score
  }

  /** k holds the lowest score of s, and no earlier record does. */
  predicate IsFirstMin(s: seq<HighScore>, k: int) {
    && 0 <= k < |s|
    && (forall m :: 0 <= m < |s| ==> s[k].score <= s[m].score)
    && (forall m :: 0 <= m < k ==> s[m].score > s[k].score)
  }

  /** The index the replacement scan settles on, as a function. */
  function FirstMinIndex(s: seq<HighScore>): (k: nat)
    requires |s| > 0
    ensures IsFirstMin(s, k)
  {
    if |s| == 1 then 0
    else
      var k := FirstMinIndex(s[..|s| - 1]);
      if s[|s| - 1].score < s[k].score then |s| - 1 else k
  }

  /** The first lowest record is unique. */
  lemma FirstMinUnique(s: seq<HighScore>, k: int, k': int)
    requires IsFirstMin(s, k) && IsFirstMin(s, k')
    ensures k == k'
  {
    assert s[k].score <= s[k'].score && s[k'].score <= s[k].score;
  }

  /**
   * The table before re-sorting: append while there is room, otherwise
   * overwrite the first lowest record if the new score beats it strictly.
   */
  function InsertOrReplace(s: seq<HighScore>, e: HighScore): seq<HighScore>
    requires |s| <= Capacity
  {
    if |s| < Capacity then s + [e]
    else
      var m := FirstMinIndex(s);
      if e.score > s[m].score then s[m := e] else s
  }

  /**
   * What an insertion promises: the table never exceeds ten records, grows by
   * one while there is room, and when full either keeps its records or trades
   * its first lowest record for the strictly better newcomer.
   */
  lemma InsertOrReplaceSpec(s: seq<HighScore>, e: HighScore)
    requires |s| <= Capacity
    ensures var r := InsertOrReplace(s, e);
      && |r| <= Capacity
      && (|s| < Capacity ==> |r| == |s| + 1 && multiset(r) == multiset(s) + multiset{e})
      && (|s| == Capacity ==> |r| == Capacity)
      && (|s| == Capacity && (forall m :: 0 <= m < |s| ==> e.score <= s[m].score) ==> r == s)
      && (|s| == Capacity && (exists m :: 0 <= m < |s| && e.score > s[m].score) ==>
            var k := FirstMinIndex(s);
            multiset(r) == multiset(s) - multiset{s[k]} + multiset{e})
  {
    var r := InsertOrReplace(s, e);
    if |s| == Capacity {
      var k := FirstMinIndex(s);
      if e.score > s[k].score {
        assert s[k] in multiset(s);
        assert multiset(r) == multiset(s) - multiset{s[k]} + multiset{e};
      }
    }
  }

  /** A full table never gets worse: its lowest score does not drop. */
  lemma InsertOrReplaceRaisesFloor(s: seq<HighScore>, e: HighScore)
    requires |s| == Capacity
    ensures var r := InsertOrReplace(s, e);
      forall m :: 0 <= m < |r| ==> r[m].score >= s[FirstMinIndex(s)].score
  {}

  /** The exchange of two neighbouring records inside the inner loop of sortHighScores. */
  method Swap(hs: array<HighScore>, j: int, n: int)
    requires 0 <= j && j + 1 < n <= hs.Length
    modifies hs
    ensures hs[j] == old(hs[j + 1]) && hs[j + 1] == old(hs[j])
    ensures forall k :: 0 <= k < hs.Length && k != j && k != j + 1 ==> hs[k] == old(hs[k])
    ensures multiset(hs[..n]) == multiset(old(hs[..n]))
  {
    var temp := hs[j];
    hs[j] := hs[j + 1];
    hs[j + 1] := temp;
    assert hs[..n] == old(hs[..n])[j := old(hs[j + 1])][j + 1 := old(hs[j])];
  }

  /**
   * One pass of the inner loop of sortHighScores over hs[0 .. limit): the
   * lowest record of that range sinks to its last place; records from `limit`
   * on are not touched, and a lower bound of the range, when there is one, survives.
   */
  method BubblePass(hs: array<HighScore>, n: int, limit: int, ghost bounded: bool, ghost floor: int)
    requires 0 < limit <= n <= hs.Length
    requires bounded ==> forall k :: 0 <= k < limit ==> hs[k].score >= floor
    modifies hs
    ensures forall k :: 0 <= k < limit ==> hs[k].score >= hs[limit - 1].score
    ensures bounded ==> forall k :: 0 <= k < limit ==> hs[k].score >= floor
    ensures forall k :: limit <= k < hs.Length ==> hs[k] == old(hs[k])
    ensures multiset(hs[..n]) == multiset(old(hs[..n]))
  {
    var j := 0;
    while j < limit - 1
      invariant 0 <= j <= limit - 1
      invariant forall k :: 0 <= k <= j ==> hs[k].score >= hs[j].score
      invariant bounded ==> forall k :: 0 <= k < limit ==> hs[k].score >= floor
      invariant forall k :: limit <= k < hs.Length ==> hs[k] == old(hs[k])
      invariant multiset(hs[..n]) == multiset(old(hs[..n]))
    {
      if hs[j].score < hs[j + 1].score {
        Swap(hs, j, n);
      }
      j := j + 1;
    }
  }

  /** sortHighScores: bubble sort of the first n records into non-increasing score order. */
  method SortHighScores(hs: array<HighScore>, n: int)
    requires 0 <= n <= hs.Length
    modifies hs
    ensures SortedByScore(hs[..n])
    ensures multiset(hs[..n]) == multiset(old(hs[..n]))
    ensures hs[n..] == old(hs[n..])
  {
    var i := 0;
    while i < n - 1
      invariant 0 <= i <= n
      invariant forall p, q :: n - i <= p < q < n ==> hs[p].score >= hs[q].score
      invariant 0 < i ==> forall p :: 0 <= p < n - i ==> hs[p].score >= hs[n - i].score
      invariant forall k :: n <= k < hs.Length ==> hs[k] == old(hs[k])
      invariant multiset(hs[..n]) == multiset(old(hs[..n]))
    {
      BubblePass(hs, n, n - i, i > 0, if i > 0 then hs[n - i].score else 0);
      i := i + 1;
    }
    forall p, q | 0 <= p < q < n ensures hs[..n][p].score >= hs[..n][q].score {
      if p < n - i {
        assert hs[p].score >= hs[n - i].score;
      }
    }
    assert hs[n..] == old(hs[n..]);
  }

  /** The scan of Timer for the first lowest of the first n records. */
  method FindMinIndex(hs: array<HighScore>, n: int) returns (minIndex: int)
    requires 0 < n <= hs.Length
    ensures IsFirstMin(hs[..n], minIndex)
  {
    minIndex := 0;
    var i := 1;
    while i < n
      invariant 1 <= i <= n
      invariant IsFirstMin(hs[..i], minIndex)
    {
      if hs[i].score < hs[minIndex].score {
        minIndex := i;
      }
      i := i + 1;
    }
    assert hs[..n] == hs[..i];
  }

  /** highScores[10] and numHighScores. */
  class Board {
    const entries: array<HighScore>
    var count: int

    ghost predicate Valid()
      reads this
    {
      entries.Length == Capacity && 0 <= count <= Capacity
    }

    function Entries(): (s: seq<HighScore>)
      requires Valid()
      reads this, entries
      ensures |s| == count <= Capacity
    {
      entries[..count]
    }

    /** The board before loadHighScores finds a file. */
    constructor ()
      ensures Valid() && fresh(entries) && Entries() == []
    {
      entries := new HighScore[Capacity](_ => HighScore("", 0));
      count := 0;
    }

    /** The insert-or-replace step of Timer followed by sortHighScores. */
    method Record(name: string, score: int)
      requires Valid()
      modifies this`count, entries
      ensures Valid()
      ensures var e := HighScore(StoredName(name), score);
        var r := InsertOrReplace(old(Entries()), e);
        |Entries()| == |r| && multiset(Entries()) == multiset(r)
      ensures SortedByScore(Entries())
    {
      var e := HighScore(StoredName(name), score);
      ghost var before := Entries();
      if count < Capacity {
        entries[count] := e;
        count := count + 1;
        assert Entries() == before + [e];
      } else {
        var minIndex := FindMinIndex(entries, count);
        FirstMinUnique(before, minIndex, FirstMinIndex(before));
        if score > entries[minIndex].score {
          entries[minIndex] := e;
          assert Entries() == before[minIndex := e];
        }
      }
      SortHighScores(entries, count);
    }
  }
}
