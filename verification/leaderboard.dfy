/** The daily leaderboard's layout (src/client/components/Leaderboard.tsx):
    the top three entries, then, for a player ranked below them, a window of
    up to two entries either side of the player's own, with a gap marker
    when entries between the two blocks are skipped; and the `m:ss` format
    of solve times. */
module Leaderboard {
  import opened Wrappers
  import opened Numerals
  import opened Text

  datatype Entry = Entry(username: string, timeSeconds: int, attempts: int, won: bool)

  const TopCount: nat := 3
  /** Entries shown above and below the player's own. */
  const ContextRange: nat := 2

  /** An index argument of `Array.prototype.slice`: a negative one counts
      from the end, and both are clamped to the array. */
  function SliceIndex(i: int, length: nat): (r: nat)
    ensures r <= length
    ensures 0 <= i <= length ==> r == i
  {
    if i < 0 then Max(length + i, 0) else Min(i, length)
  }

  /** `s.slice(start, end)`. */
  function Slice<T>(s: seq<T>, start: int, end: int): (r: seq<T>)
    ensures 0 <= start <= end <= |s| ==> r == s[start..end]
    ensures 0 <= end <= start ==> r == []
  {
    var from, to := SliceIndex(start, |s|), SliceIndex(end, |s|);
    if from <= to then s[from..to] else []
  }

  /** `data.userRank || 0`: an absent rank counts as 0, and so does a rank
      of 0; any other rank is kept. */
  function EffectiveRank(userRank: Option<int>): (rank: int)
    ensures rank == 0 <==> userRank.None? || userRank.value == 0
    ensures rank != 0 ==> userRank == Some(rank)
  {
    if userRank.Some? then userRank.value else 0
  }

  /** What the leaderboard lists: the top block, whether the gap marker is
      shown, and the block around the player. */
  datatype Layout = Layout(top: seq<Entry>, showGap: bool, context: seq<Entry>)

  /** The first index of the context block for a player ranked `rank`. */
  function ContextStart(rank: int): int
  {
    Max(TopCount, rank - ContextRange - 1)
  }

  /** One past the last index of the context block. */
  function ContextEnd(total: nat, rank: int): int
  {
    Min(total, rank + ContextRange)
  }

  /** The rows the leaderboard lists: the first three entries; for a player
      ranked below them, the entries from two places above the player's own
      entry (but never inside the top block) to two places below it; and
      the gap marker when the player is ranked seventh or lower. */
  function Arrange(entries: seq<Entry>, userRank: Option<int>): (l: Layout)
    ensures l.top == entries[..Min(TopCount, |entries|)]
    ensures l.showGap <==> EffectiveRank(userRank) > TopCount + ContextRange + 1
    ensures EffectiveRank(userRank) <= TopCount ==> l.context == []
    ensures |l.context| <= 2 * ContextRange + 1
  {
    var rank := EffectiveRank(userRank);
    var total := |entries|;
    var top := Slice(entries, 0, TopCount);
    var showGap := rank > TopCount + ContextRange + 1;
    var context :=
      if rank > TopCount then Slice(entries, ContextStart(rank), ContextEnd(total, rank)) else [];
    Layout(top, showGap, context)
  }

  /** The context block is the run of entries from `ContextStart` (never
      inside the top block) to `ContextEnd`, so no entry is listed twice. */
  lemma ContextIsWindow(entries: seq<Entry>, userRank: Option<int>)
    requires EffectiveRank(userRank) > TopCount
    ensures var rank := EffectiveRank(userRank);
            var lo, hi := ContextStart(rank), ContextEnd(|entries|, rank);
            && TopCount <= lo
            && Arrange(entries, userRank).context == (if lo <= hi then entries[lo..hi] else [])
  {
  }

  /** A player ranked below the top three and within the list sees their own
      entry in the context block, with every neighbour up to two places
      away that exists outside the top block. */
  lemma ContextHoldsPlayer(entries: seq<Entry>, userRank: Option<int>)
    requires TopCount < EffectiveRank(userRank) <= |entries|
    ensures var rank := EffectiveRank(userRank);
            var context := Arrange(entries, userRank).context;
            && rank - 1 - ContextStart(rank) < |context|
            && context[rank - 1 - ContextStart(rank)] == entries[rank - 1]
            && forall k :: TopCount <= k < |entries| && rank - 1 - ContextRange <= k <= rank - 1 + ContextRange ==>
                 ContextStart(rank) <= k && k - ContextStart(rank) < |context|
                 && context[k - ContextStart(rank)] == entries[k]
  {
    ContextIsWindow(entries, userRank);
  }

  /** A player whose rank is within the list sees their own entry: in the
      top block when ranked in the top three, in the context block below. */
  lemma ListedPlayerShown(entries: seq<Entry>, userRank: Option<int>)
    requires 1 <= EffectiveRank(userRank) <= |entries|
    ensures var l := Arrange(entries, userRank);
            entries[EffectiveRank(userRank) - 1] in l.top + l.context
  {
    var rank := EffectiveRank(userRank);
    var l := Arrange(entries, userRank);
    if rank <= TopCount {
      assert l.top[rank - 1] == entries[rank - 1];
    } else {
      ContextHoldsPlayer(entries, userRank);
      assert (l.top + l.context)[|l.top| + rank - 1 - ContextStart(rank)] == entries[rank - 1];
    }
  }

  /** A rank past the end of the list (the list holds only the leading
      entries) gets just the list's tail from the window start, and no
      context at all once the rank is three or more places past the end. */
  lemma RankPastListShowsTail(entries: seq<Entry>, userRank: Option<int>)
    requires EffectiveRank(userRank) > Max(TopCount, |entries|)
    ensures var rank := EffectiveRank(userRank);
            Arrange(entries, userRank).context == entries[Min(ContextStart(rank), |entries|)..]
    ensures EffectiveRank(userRank) >= |entries| + ContextRange + 1 ==> Arrange(entries, userRank).context == []
  {
    ContextIsWindow(entries, userRank);
  }

  /** The gap marker is shown exactly when entries between the top block and
      the context block are left out; without it the two blocks together
      list a prefix of the entries. */
  lemma GapMarksSkippedEntries(entries: seq<Entry>, userRank: Option<int>)
    requires EffectiveRank(userRank) > TopCount
    ensures var rank := EffectiveRank(userRank);
            Arrange(entries, userRank).showGap <==> ContextStart(rank) > TopCount
    ensures var rank := EffectiveRank(userRank);
            var l := Arrange(entries, userRank);
            !l.showGap && TopCount <= |entries| ==> l.top + l.context == entries[..ContextEnd(|entries|, rank)]
  {
    ContextIsWindow(entries, userRank);
    var rank := EffectiveRank(userRank);
    var l := Arrange(entries, userRank);
    if !l.showGap && TopCount <= |entries| {
      assert ContextStart(rank) == TopCount;
      assert entries[..TopCount] + entries[TopCount..ContextEnd(|entries|, rank)] == entries[..ContextEnd(|entries|, rank)];
    }
  }

  /** `entries.findIndex(e => e.username === username)`: the first index
      holding `username`, or -1. */
  function FindIndex(entries: seq<Entry>, username: string): (i: int)
    ensures -1 <= i < |entries|
    ensures i >= 0 ==> entries[i].username == username
    ensures forall k :: 0 <= k < |entries| && (i == -1 || k < i) ==> entries[k].username != username
  {
    if entries == [] then -1
    else if entries[0].username == username then 0
    else
      var rest := FindIndex(entries[1..], username);
      if rest == -1 then -1 else rest + 1
  }

  predicate DistinctNames(entries: seq<Entry>)
  {
    forall j, k :: 0 <= j < k < |entries| ==> entries[j].username != entries[k].username
  }

  /** The ranks shown, in display order: `index + 1` for the top block, and
      one more than the first index with the same name for the context. */
  function ShownRanks(entries: seq<Entry>, userRank: Option<int>): (ranks: seq<int>)
    ensures var l := Arrange(entries, userRank); |ranks| == |l.top| + |l.context|
  {
    var l := Arrange(entries, userRank);
    seq(|l.top|, k => k + 1)
      + seq(|l.context|, k requires 0 <= k < |l.context| => FindIndex(entries, l.context[k].username) + 1)
  }

  /** With distinct names every shown rank is the entry's position plus
      one, so the ranks are strictly increasing and never repeat. */
  lemma ShownRanksArePositions(entries: seq<Entry>, userRank: Option<int>)
    requires DistinctNames(entries)
    ensures var l := Arrange(entries, userRank);
            var ranks := ShownRanks(entries, userRank);
            && (forall k :: 0 <= k < |l.top| ==> ranks[k] == k + 1)
            && (forall j :: |l.top| <= j < |ranks| ==> ranks[j] == ContextStart(EffectiveRank(userRank)) + (j - |l.top|) + 1)
    ensures var ranks := ShownRanks(entries, userRank);
            forall j, k :: 0 <= j < k < |ranks| ==> ranks[j] < ranks[k]
  {
    var l := Arrange(entries, userRank);
    var ranks := ShownRanks(entries, userRank);
    var rank := EffectiveRank(userRank);
    if l.context != [] {
      ContextIsWindow(entries, userRank);
      var lo := ContextStart(rank);
      forall j | |l.top| <= j < |ranks| ensures ranks[j] == lo + (j - |l.top|) + 1 {
        var k := j - |l.top|;
        var i := FindIndex(entries, l.context[k].username);
        assert l.context[k] == entries[lo + k];
        assert i == lo + k;
      }
      assert |l.top| <= TopCount <= lo;
    }
  }

  /** `seconds % 60` in JavaScript: the remainder takes the sign of the
      dividend. */
  function SecondsRemainder(seconds: int): (r: int)
    ensures seconds >= 0 ==> 0 <= r < 60
    ensures seconds < 0 ==> -60 < r <= 0
    ensures (seconds - r) % 60 == 0
  {
    if seconds >= 0 then seconds % 60 else -((-seconds) % 60)
  }

  /** `s.padStart(2, '0')`. */
  function PadStart2(s: string): (r: string)
    ensures |r| == if |s| >= 2 then |s| else 2
    ensures s <= r[|r| - |s|..] && r[..|r| - |s|] == seq(|r| - |s|, _ => '0')
  {
    if |s| >= 2 then s else seq(2 - |s|, _ => '0') + s
  }

  /** `formatTime`: whole minutes (`Math.floor`; Dafny's `/` by a positive
      divisor rounds down), a colon, and the remaining seconds padded to two
      digits. A non-negative time ends in a colon and exactly two digits
      worth its seconds below 60, and reads back as the same number of
      seconds. */
  function FormatTime(seconds: int): (text: string)
    ensures seconds >= 0 ==>
              && |text| >= 4 && text[|text| - 3] == ':'
              && IsDigits(text[|text| - 2..]) && DigitsValue(text[|text| - 2..]) == seconds % 60
    ensures seconds >= 0 ==> ParseTime(text) == Some(seconds)
  {
    var text := TimeText(seconds / 60, SecondsRemainder(seconds));
    if seconds < 0 then text
    else
      assert SecondsRemainder(seconds) == seconds % 60;
      TimeTextShape(seconds);
      TimeTextRoundTrip(seconds);
      var m, ss := NatToString(seconds / 60), PadStart2(NatToString(seconds % 60));
      assert text[|text| - 3] == ':' && text[|text| - 2..] == ss by {
        assert text == m + ":" + ss;
      }
      text
  }

  /** Minutes, a colon and the seconds padded to two digits. */
  function TimeText(minutes: int, rest: int): string
  {
    IntToString(minutes) + ":" + PadStart2(IntToString(rest))
  }

  /** Reads an `m:ss` time back into seconds. */
  function ParseTime(text: string): Option<int>
  {
    ParsePieces(Split(text, {':'}))
  }

  /** The minutes and the seconds pieces of a time, as a number of seconds. */
  function ParsePieces(parts: seq<string>): Option<int>
  {
    if |parts| == 2 && parts[0] != [] && parts[1] != [] && IsDigits(parts[0]) && IsDigits(parts[1])
    then Some(DigitsValue(parts[0]) * 60 + DigitsValue(parts[1]))
    else None
  }

  lemma TwoDigits(n: nat)
    requires n < 60
    ensures var ss := PadStart2(NatToString(n));
            |ss| == 2 && IsDigits(ss) && DigitsValue(ss) == n
  {
    NatToStringShort(n);
    NatToStringValue(n);
    var s := NatToString(n);
    var ss := PadStart2(s);
    if n < 10 {
      assert ss == ['0'] + s;
      assert ss[..1] == ['0'];
      assert DigitsValue(ss) == 10 * DigitsValue(['0']) + DigitsValue(s);
    }
  }

  /** A non-negative time prints as its minutes, a colon and exactly two
      digits of seconds below 60. */
  lemma TimeTextShape(seconds: nat)
    ensures var text, ss := TimeText(seconds / 60, seconds % 60), PadStart2(NatToString(seconds % 60));
            && text == NatToString(seconds / 60) + ":" + ss
            && |ss| == 2 && IsDigits(ss) && DigitsValue(ss) == seconds % 60 < 60
  {
    var m, r := seconds / 60, seconds % 60;
    assert IntToString(m) == NatToString(m) && IntToString(r) == NatToString(r);
    TwoDigits(r);
  }

  /** A printed non-negative time reads back as the same number of seconds. */
  lemma TimeTextRoundTrip(seconds: nat)
    ensures ParseTime(TimeText(seconds / 60, seconds % 60)) == Some(seconds)
  {
    TimeTextShape(seconds);
    var m := NatToString(seconds / 60);
    NatToStringValue(seconds / 60);
    ParseJoined(m, PadStart2(NatToString(seconds % 60)));
  }

  /** Two digit runs joined by a colon read back as minutes and seconds. */
  lemma ParseJoined(m: string, ss: string)
    requires m != [] && ss != [] && IsDigits(m) && IsDigits(ss)
    ensures ParseTime(m + ":" + ss) == Some(DigitsValue(m) * 60 + DigitsValue(ss))
  {
    SplitAtColon(m, ss);
    PiecesValue(m, ss);
  }

  /** Digit runs joined by a colon split back into the two runs. */
  lemma SplitAtColon(m: string, ss: string)
    requires IsDigits(m) && IsDigits(ss)
    ensures Split(m + ":" + ss, {':'}) == [m, ss]
  {
    assert m + ":" + ss == m + [':'] + ss;
    DigitsHaveNoColon(m);
    DigitsHaveNoColon(ss);
    SplitAround(m, ':', ss, {':'});
    SplitWithout(m, {':'});
    SplitWithout(ss, {':'});
  }

  lemma PiecesValue(m: string, ss: string)
    requires m != [] && ss != [] && IsDigits(m) && IsDigits(ss)
    ensures ParsePieces([m, ss]) == Some(DigitsValue(m) * 60 + DigitsValue(ss))
  {
  }

  lemma DigitsHaveNoColon(s: string)
    requires IsDigits(s)
    ensures NoneIn(s, {':'})
  {
    forall i | 0 <= i < |s| ensures s[i] !in {':'} {
      assert IsDigit(s[i]);
    }
  }
}
