/**
 * The saved-game list: each entry keeps flat 81-entry arrays of a board, its
 * `progress` counts the cells that hold a value, and the store keeps the most
 * recent games first, at most fifty of them.
 */
module GameHistory {

  import opened Optional
  import opened Decimal

  /** A saved game; its identifier and date are not modelled. */
  datatype SavedGame = SavedGame(
    difficulty: string,
    solutions: seq<int>,
    givens: seq<bool>,
    playerValues: seq<Option<int>>)
  {
    /** Zipping the two arrays stops at the shorter one. */
    function ZipLength(): (n: nat)
      ensures n <= |givens| && n <= |playerValues|
      ensures n == |givens| || n == |playerValues|
    {
      if |givens| <= |playerValues| then |givens| else |playerValues|
    }

    /** The filter's test: zipped position `i` is a given or holds a player answer. */
    predicate IsFilledAt(i: int)
      requires 0 <= i < ZipLength()
    {
      givens[i] || playerValues[i] != None
    }

    /** The zipped positions below `n` that are filled. */
    function FilledBelow(n: nat): set<int>
      requires n <= ZipLength()
    {
      set i | 0 <= i < n && IsFilledAt(i)
    }

    /** The number of filled zipped positions below `n`, counted one position at a time. */
    function FilledCount(n: nat): (k: nat)
      requires n <= ZipLength()
      ensures k <= n
    {
      if n == 0 then 0 else FilledCount(n - 1) + (if IsFilledAt(n - 1) then 1 else 0)
    }

    /**
     * `progress`: the number of filled cells, then "/81". The number is the
     * count of zipped positions whose cell is a given or holds an answer.
     */
    function Progress(): (p: string)
      ensures |p| > 3 && p[|p| - 3..] == "/81"
      ensures AllDigits(p[..|p| - 3]) && DecimalValue(p[..|p| - 3]) == |FilledBelow(ZipLength())|
      ensures p[0] != '0' || p == "0/81"
    {
      FilledCountIsCardinality(ZipLength());
      var digits := ShowNat(FilledCount(ZipLength()));
      var p := digits + "/81";
      assert p[..|p| - 3] == digits;
      p
    }

    lemma {:induction false} FilledCountIsCardinality(n: nat)
      requires n <= ZipLength()
      ensures FilledCount(n) == |FilledBelow(n)|
    {
      if n > 0 {
        FilledCountIsCardinality(n - 1);
        var below, last := FilledBelow(n - 1), if IsFilledAt(n - 1) then {n - 1} else {};
        assert FilledBelow(n) == below + last;
        assert below !! last;
      }
    }
  }

  /** On full 81-entry arrays the progress count is at most 81, and it reads "81/81" when every cell is filled. */
  lemma ProgressOfFullArrays(game: SavedGame)
    requires |game.givens| == 81 && |game.playerValues| == 81
    ensures |game.FilledBelow(81)| <= 81
    ensures (forall i :: 0 <= i < 81 ==> game.IsFilledAt(i)) ==> game.Progress() == "81/81"
  {
    game.FilledCountIsCardinality(81);
    if forall i :: 0 <= i < 81 ==> game.IsFilledAt(i) {
      AllFilledCount(game, 81);
      assert ShowNat(81) == ShowNat(8) + "1";
    }
  }

  lemma {:induction false} AllFilledCount(game: SavedGame, n: nat)
    requires n <= game.ZipLength()
    requires forall i :: 0 <= i < n ==> game.IsFilledAt(i)
    ensures game.FilledCount(n) == n
  {
    if n > 0 {
      AllFilledCount(game, n - 1);
    }
  }

  // ---------------------------------------------------------------------
  // The store
  // ---------------------------------------------------------------------

  /** `save` keeps at most this many games. */
  const MaxGames: nat := 50

  function Min(a: int, b: int): int { if a <= b then a else b }

  /**
   * Inserting at the front and then cutting to the first fifty: the
   * new game first, then the older ones in order, the oldest dropped when
   * fifty were already kept.
   */
  function Pushed(games: seq<SavedGame>, game: SavedGame): (r: seq<SavedGame>)
    ensures |r| == Min(|games| + 1, MaxGames) && r[0] == game
    ensures forall i :: 1 <= i < |r| ==> r[i] == games[i - 1]
  {
    var inserted := [game] + games;
    if |inserted| > MaxGames then inserted[..MaxGames] else inserted
  }

  /** `remove(atOffsets:)` on a value: the elements whose offset is not in `offsets`, in their order. */
  function RemoveOffsets<T>(s: seq<T>, offsets: set<int>): (r: seq<T>)
    ensures |r| <= |s|
  {
    if s == [] then []
    else RemoveOffsets(s[..|s| - 1], offsets) + (if |s| - 1 in offsets then [] else [s[|s| - 1]])
  }

  /** The offsets below `n` that are not removed, in increasing order. */
  function KeptOffsets(n: nat, offsets: set<int>): (k: seq<int>)
    ensures |k| <= n
  {
    if n == 0 then [] else KeptOffsets(n - 1, offsets) + (if n - 1 in offsets then [] else [n - 1])
  }

  /** The kept offsets are increasing, below `n`, not removed, and include every offset below `n` that is not removed. */
  lemma {:induction false} KeptOffsetsEnumerate(n: nat, offsets: set<int>)
    ensures forall a, b :: 0 <= a < b < |KeptOffsets(n, offsets)| ==> KeptOffsets(n, offsets)[a] < KeptOffsets(n, offsets)[b]
    ensures forall j :: 0 <= j < |KeptOffsets(n, offsets)| ==> 0 <= KeptOffsets(n, offsets)[j] < n && KeptOffsets(n, offsets)[j] !in offsets
    ensures forall i :: 0 <= i < n && i !in offsets ==> i in KeptOffsets(n, offsets)
  {
    if n > 0 {
      KeptOffsetsEnumerate(n - 1, offsets);
    }
  }

  /** Removal keeps exactly the elements at the kept offsets, in their original relative order. */
  lemma {:induction false} RemoveOffsetsKeepsOrder<T>(s: seq<T>, offsets: set<int>)
    ensures |RemoveOffsets(s, offsets)| == |KeptOffsets(|s|, offsets)|
    ensures forall j :: 0 <= j < |RemoveOffsets(s, offsets)| ==>
      0 <= KeptOffsets(|s|, offsets)[j] < |s| && RemoveOffsets(s, offsets)[j] == s[KeptOffsets(|s|, offsets)[j]]
  {
    if s != [] {
      var p := s[..|s| - 1];
      RemoveOffsetsKeepsOrder(p, offsets);
      KeptOffsetsEnumerate(|p|, offsets);
    }
  }

  /** The removed offsets below `n`. */
  function RemovedBelow(n: nat, offsets: set<int>): set<int> {
    set i | i in offsets && 0 <= i < n
  }

  lemma {:induction false} KeptOffsetsCount(n: nat, offsets: set<int>)
    ensures |KeptOffsets(n, offsets)| == n - |RemovedBelow(n, offsets)|
  {
    if n > 0 {
      KeptOffsetsCount(n - 1, offsets);
      if n - 1 in offsets {
        assert RemovedBelow(n, offsets) == RemovedBelow(n - 1, offsets) + {n - 1};
      } else {
        assert RemovedBelow(n, offsets) == RemovedBelow(n - 1, offsets);
      }
    }
  }

  /** With every offset in range, removal shortens the list by exactly the number of offsets. */
  lemma RemoveOffsetsLength<T>(s: seq<T>, offsets: set<int>)
    requires forall o :: o in offsets ==> 0 <= o < |s|
    ensures |RemoveOffsets(s, offsets)| == |s| - |offsets|
  {
    RemoveOffsetsKeepsOrder(s, offsets);
    KeptOffsetsCount(|s|, offsets);
    assert RemovedBelow(|s|, offsets) == offsets;
  }

  /** Removing offset 0 right after a save that dropped nothing gives back the earlier list. */
  lemma RemoveAfterSave(games: seq<SavedGame>, game: SavedGame)
    requires |games| < MaxGames
    ensures RemoveOffsets(Pushed(games, game), {0}) == games
  {
    var pushed := Pushed(games, game);
    assert |pushed| == |games| + 1;
    RemoveOffsetsKeepsOrder(pushed, {0});
    var k := KeptOffsets(|pushed|, {0});
    var r := RemoveOffsets(pushed, {0});
    forall j | 0 <= j < |games|
      ensures |r| == |games| && r[j] == games[j]
    {
      KeptIsShifted(|pushed|, j);
      assert r[j] == pushed[j + 1];
    }
    if |games| == 0 {
      KeptOffsetsCount(|pushed|, {0});
      assert RemovedBelow(|pushed|, {0}) == {0};
    }
  }

  /** Without offset 0 removed, the `j`th kept offset is `j + 1`. */
  lemma {:induction false} KeptIsShifted(n: nat, j: nat)
    requires j + 1 < n
    ensures |KeptOffsets(n, {0})| == n - 1 && KeptOffsets(n, {0})[j] == j + 1
  {
    if n > 1 {
      if j + 2 < n {
        KeptIsShifted(n - 1, j);
      } else {
        KeptOffsetsCount(n - 1, {0});
        assert RemovedBelow(n - 1, {0}) == {0};
      }
      KeptOffsetsCount(n, {0});
      assert RemovedBelow(n, {0}) == {0};
    }
  }

  /** `GameHistoryStore`. The JSON encoding in `UserDefaults` is not modelled. */
  class GameHistoryStore {
    var games: seq<SavedGame>

    /** Every list `save` leaves behind is within the cap. */
    predicate Valid()
      reads this
    {
      |games| <= MaxGames
    }

    /**
     * The initialiser loads the history: `stored` is the decoded list found under the
     * history key, or None when there is no data or it does not decode,
     * which leaves the list empty.
     */
    constructor(stored: Option<seq<SavedGame>>)
      ensures stored == None ==> games == []
      ensures stored != None ==> games == stored.value
    {
      games := if stored == None then [] else stored.value;
    }

    /** `save(game:)`: the game goes first and the list is cut to fifty. */
    method Save(game: SavedGame)
      modifies this
      ensures games == Pushed(old(games), game)
      ensures Valid() && games[0] == game
    {
      games := [game] + games;
      if |games| > MaxGames {
        games := games[..MaxGames];
      }
    }

    /** `remove(at:)`: the games at `offsets` go, the others keep their order. */
    method Remove(offsets: set<int>)
      requires forall o :: o in offsets ==> 0 <= o < |games|
      modifies this
      ensures games == RemoveOffsets(old(games), offsets)
      ensures |games| == |old(games)| - |offsets|
      ensures old(Valid()) ==> Valid()
    {
      RemoveOffsetsLength(games, offsets);
      games := RemoveOffsets(games, offsets);
    }
  }
}
