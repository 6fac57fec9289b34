/**
 * The board generator of server.js: 36 cells split evenly between the
 * players' colours and then shuffled with the Fisher-Yates swap loop
 * (Knuth, TAOCP vol. 2, section 3.4.2, Algorithm P).
 */
module Board {

  /** Every board has this many cells. */
  const Cells: nat := 36

  /** A player count for which the board splits evenly into colours `0 .. playerCount - 1`. */
  predicate ValidCapacity(playerCount: int) {
    1 <= playerCount && Cells % playerCount == 0
  }

  /** Every cell of `s` holds a colour in `[0, m)`. */
  predicate CellsBelow(s: seq<int>, m: int) {
    forall k :: 0 <= k < |s| ==> 0 <= s[k] < m
  }

  /** Every cell of `s` holds colour `c`. */
  predicate Filled(s: seq<int>, c: int) {
    forall k :: 0 <= k < |s| ==> s[k] == c
  }

  /** The number of cells of `s` holding colour `v`. */
  function Count(s: seq<int>, v: int): (n: nat)
    ensures n <= |s|
  {
    if s == [] then 0
    else Count(s[..|s| - 1], v) + (if s[|s| - 1] == v then 1 else 0)
  }

  /** Counting a colour is taking its multiplicity in the board's multiset. */
  lemma {:induction false} CountIsMultiplicity(s: seq<int>, v: int)
    ensures Count(s, v) == multiset(s)[v]
  {
    if s != [] {
      var init := s[..|s| - 1];
      CountIsMultiplicity(init, v);
      assert s == init + [s[|s| - 1]];
    }
  }

  /** A colour fills the whole board exactly when every cell holds it. */
  lemma {:induction false} CountFull(s: seq<int>, v: int)
    ensures Count(s, v) == |s| <==> Filled(s, v)
  {
    if s != [] {
      var init := s[..|s| - 1];
      CountFull(init, v);
      if Count(s, v) == |s| {
        forall k | 0 <= k < |s| ensures s[k] == v {
          if k < |s| - 1 { assert s[k] == init[k]; }
        }
      }
    }
  }

  /** A colour no cell holds has count zero. */
  lemma {:induction false} CountAbsent(s: seq<int>, v: int)
    requires forall k :: 0 <= k < |s| ==> s[k] != v
    ensures Count(s, v) == 0
  {
    if s != [] {
      CountAbsent(s[..|s| - 1], v);
    }
  }

  /** Repainting one cell moves exactly that cell from its old colour to its new one. */
  lemma {:induction false} CountUpdate(s: seq<int>, i: int, x: int, v: int)
    requires 0 <= i < |s|
    ensures Count(s[i := x], v) == Count(s, v) - (if s[i] == v then 1 else 0) + (if x == v then 1 else 0)
  {
    var t := s[i := x];
    var n := |s| - 1;
    if i < n {
      assert t[..n] == s[..n][i := x];
      CountUpdate(s[..n], i, x, v);
    } else {
      assert t[..n] == s[..n];
    }
  }

  /** Concatenation adds counts. */
  lemma {:induction false} CountConcat(a: seq<int>, b: seq<int>, v: int)
    ensures Count(a + b, v) == Count(a, v) + Count(b, v)
  {
    if b == [] {
      assert a + b == a;
    } else {
      var init := b[..|b| - 1];
      CountConcat(a, init, v);
      assert (a + b)[..|a + b| - 1] == a + init;
    }
  }

  /** A run of `n` cells of colour `c` counts `n` for `c` and nothing for any other colour. */
  lemma {:induction false} CountRun(c: int, n: nat, v: int)
    ensures Count(seq(n, _ => c), v) == if v == c then n else 0
  {
    if n > 0 {
      CountRun(c, n - 1, v);
      assert seq(n, _ => c)[..n - 1] == seq(n - 1, _ => c);
    }
  }

  /**
   * The board the two push loops of createInitialBoard build before the
   * shuffle: `per` cells of colour 0, then `per` of colour 1, and so on.
   */
  function EvenSplit(playerCount: nat, per: nat): (r: seq<int>)
    ensures CellsBelow(r, playerCount)
  {
    if playerCount == 0 then []
    else EvenSplit(playerCount - 1, per) + seq(per, _ => playerCount - 1)
  }

  /** The unshuffled board holds exactly `per` cells of each colour below `playerCount`. */
  lemma {:induction false} EvenSplitCount(playerCount: nat, per: nat, v: int)
    ensures Count(EvenSplit(playerCount, per), v) == if 0 <= v < playerCount then per else 0
  {
    if playerCount > 0 {
      EvenSplitCount(playerCount - 1, per, v);
      CountConcat(EvenSplit(playerCount - 1, per), seq(per, _ => playerCount - 1), v);
      CountRun(playerCount - 1, per, v);
    }
  }

  /** A board of 36 cells in `[0, playerCount)` with exactly `36 / playerCount` cells of each colour. */
  ghost predicate IsEvenBoard(s: seq<int>, playerCount: nat)
    requires playerCount > 0
  {
    && |s| == Cells
    && CellsBelow(s, playerCount)
    && forall v :: 0 <= v < playerCount ==> Count(s, v) == Cells / playerCount
  }

  /** Every rearrangement of the unshuffled board is an even board. */
  lemma PermutedSplitIsEven(s: seq<int>, playerCount: nat)
    requires ValidCapacity(playerCount)
    requires multiset(s) == multiset(EvenSplit(playerCount, Cells / playerCount))
    ensures IsEvenBoard(s, playerCount)
  {
    var per := Cells / playerCount;
    var e := EvenSplit(playerCount, per);
    EvenSplitFillsBoard(playerCount);
    assert |s| == |multiset(s)| == |multiset(e)| == |e|;
    forall v | 0 <= v < playerCount ensures Count(s, v) == per {
      CountIsMultiplicity(s, v);
      CountIsMultiplicity(e, v);
      EvenSplitCount(playerCount, per, v);
    }
    forall k | 0 <= k < |s| ensures 0 <= s[k] < playerCount {
      assert s[k] in multiset(s);
      assert s[k] in e;
    }
  }

  /** The unshuffled board has `per` cells per colour in all. */
  lemma {:induction false} EvenSplitLength(playerCount: nat, per: nat)
    ensures |EvenSplit(playerCount, per)| == playerCount * per
  {
    if playerCount > 0 {
      EvenSplitLength(playerCount - 1, per);
      calc {
        |EvenSplit(playerCount, per)|;
      ==
        (playerCount - 1) * per + per;
      ==
        playerCount * per;
      }
    }
  }

  /** For a valid player count the unshuffled board has exactly 36 cells. */
  lemma EvenSplitFillsBoard(playerCount: nat)
    requires ValidCapacity(playerCount)
    ensures |EvenSplit(playerCount, Cells / playerCount)| == Cells
  {
    EvenSplitLength(playerCount, Cells / playerCount);
  }

  /** Colours are laid down in order, so a longer run of colours extends a shorter one. */
  lemma {:induction false} EvenSplitGrows(player: nat, playerCount: nat, per: nat)
    requires player <= playerCount
    ensures |EvenSplit(player, per)| <= |EvenSplit(playerCount, per)|
  {
    if player < playerCount {
      EvenSplitGrows(player, playerCount - 1, per);
    }
  }

  /** The push loops of createInitialBoard: colour 0 first, `per` cells each. */
  method FillByColour(board: array<int>, playerCount: nat, per: nat)
    requires board.Length == |EvenSplit(playerCount, per)|
    modifies board
    ensures board[..] == EvenSplit(playerCount, per)
  {
    var n := 0;
    for player := 0 to playerCount
      invariant n <= board.Length
      invariant board[..n] == EvenSplit(player, per)
    {
      EvenSplitGrows(player + 1, playerCount, per);
      for i := 0 to per
        invariant n <= board.Length
        invariant board[..n] == EvenSplit(player, per) + seq(i, _ => player)
      {
        board[n] := player;
        assert seq(i + 1, _ => player) == seq(i, _ => player) + [player];
        n := n + 1;
      }
    }
    assert board[..] == board[..n];
  }

  /**
   * The swap loop of createInitialBoard: from the last cell down to the
   * second, swap each cell with one chosen at or before it. The source's
   * random choice is a nondeterministic choice here.
   */
  method Shuffle(board: array<int>)
    modifies board
    ensures multiset(board[..]) == old(multiset(board[..]))
  {
    var i := board.Length - 1;
    while i > 0
      invariant i < board.Length
      invariant multiset(board[..]) == old(multiset(board[..]))
    {
      var j :| 0 <= j <= i;
      board[i], board[j] := board[j], board[i];
      i := i - 1;
    }
  }

  /** createInitialBoard: the even split of 36 cells, shuffled. */
  method CreateInitialBoard(playerCount: nat) returns (board: array<int>)
    requires ValidCapacity(playerCount)
    ensures fresh(board)
    ensures multiset(board[..]) == multiset(EvenSplit(playerCount, Cells / playerCount))
    ensures IsEvenBoard(board[..], playerCount)
  {
    var per := Cells / playerCount;
    EvenSplitFillsBoard(playerCount);
    board := new int[Cells];
    FillByColour(board, playerCount, per);
    Shuffle(board);
    PermutedSplitIsEven(board[..], playerCount);
  }
}
