/**
 * Scoring of server.js: getColorCounts and the winner resolution at the end
 * of endGame. Player `i` (0-based) owns colour `i` and has player number `i + 1`.
 */
module Scoring {
  import opened Wrappers
  import opened Board

  /** One entry of the `scores` list sent with `gameOver`. */
  datatype Score = Score(playerNumber: nat, score: nat, clicks: nat)

  /** A player number, or the `'tie'` marker. */
  datatype Winner = Player(number: nat) | Tie

  datatype WinType = Normal | AllKill

  /** The payload of `gameOver`. */
  datatype GameResult = GameResult(winner: Winner, scores: seq<Score>, winType: WinType)

  // ----- colour counts -----

  /** The specification of getColorCounts: entry `c` counts the cells of colour `c`. */
  function ColorCounts(board: seq<int>, maxPlayers: nat): seq<nat> {
    seq(maxPlayers, c => Count(board, c))
  }

  /** getColorCounts: one counter per colour, bumped for every cell whose colour is in range. */
  method GetColorCounts(board: seq<int>, maxPlayers: nat) returns (counts: seq<nat>)
    ensures counts == ColorCounts(board, maxPlayers)
  {
    var a := new nat[maxPlayers](_ => 0);
    for k := 0 to |board|
      invariant forall c :: 0 <= c < maxPlayers ==> a[c] == Count(board[..k], c)
    {
      var cell := board[k];
      if 0 <= cell < maxPlayers {
        a[cell] := a[cell] + 1;
      }
      assert board[..k + 1][..k] == board[..k];
    }
    assert board[..|board|] == board;
    counts := a[..];
  }

  /** The sum of a list of counts. */
  function Sum(xs: seq<nat>): nat {
    if xs == [] then 0 else Sum(xs[..|xs| - 1]) + xs[|xs| - 1]
  }

  /** The number of cells whose colour lies in `[0, m)`. */
  function CountBelow(s: seq<int>, m: int): (n: nat)
    ensures n <= |s|
    ensures CellsBelow(s, m) ==> n == |s|
    ensures m <= 0 ==> n == 0
  {
    if s == [] then 0
    else CountBelow(s[..|s| - 1], m) + (if 0 <= s[|s| - 1] < m then 1 else 0)
  }

  lemma {:induction false} CountBelowSplit(s: seq<int>, m: int)
    ensures CountBelow(s, m + 1) == CountBelow(s, m) + (if m >= 0 then Count(s, m) else 0)
  {
    if s != [] {
      CountBelowSplit(s[..|s| - 1], m);
    }
  }

  /**
   * Cells outside `[0, maxPlayers)` are skipped, so the counts add up to at
   * most the board length, and to exactly the board length when every cell
   * is in range.
   */
  lemma {:induction false} ColorCountsSum(board: seq<int>, maxPlayers: nat)
    ensures Sum(ColorCounts(board, maxPlayers)) == CountBelow(board, maxPlayers)
    ensures Sum(ColorCounts(board, maxPlayers)) <= |board|
    ensures CellsBelow(board, maxPlayers) ==> Sum(ColorCounts(board, maxPlayers)) == |board|
  {
    if maxPlayers > 0 {
      var m := maxPlayers - 1;
      var xs := ColorCounts(board, maxPlayers);
      assert xs[..m] == ColorCounts(board, m);
      assert Sum(xs) == Sum(xs[..m]) + Count(board, m);
      ColorCountsSum(board, m);
      CountBelowSplit(board, m);
      assert Sum(xs) == CountBelow(board, m) + Count(board, m);
      assert CountBelow(board, maxPlayers) == CountBelow(board, m) + Count(board, m);
    }
  }

  /**
   * The all-kill test of flipCell (`some count === 36`) on a board of 36
   * cells holds exactly when one colour below `maxPlayers` fills every cell.
   */
  lemma AllKillIffUniform(board: seq<int>, maxPlayers: nat)
    requires |board| == Cells
    ensures Cells in ColorCounts(board, maxPlayers)
        <==> exists c :: 0 <= c < maxPlayers && Filled(board, c)
  {
    var counts := ColorCounts(board, maxPlayers);
    if Cells in counts {
      var c :| 0 <= c < maxPlayers && counts[c] == Cells;
      CountFull(board, c);
    }
    if exists c :: 0 <= c < maxPlayers && Filled(board, c) {
      var c :| 0 <= c < maxPlayers && Filled(board, c);
      CountFull(board, c);
      assert counts[c] == Cells;
    }
  }

  // ----- winner resolution -----

  /** `clicks[playerId] || 0`. */
  function ClicksOf<Id>(clicks: map<Id, nat>, id: Id): nat {
    if id in clicks then clicks[id] else 0
  }

  /** `players.map(...)`: player number, colour count and clicks, in join order. */
  function Scores<Id>(counts: seq<nat>, players: seq<Id>, clicks: map<Id, nat>): seq<Score>
    requires |players| <= |counts|
  {
    seq(|players|, i requires 0 <= i < |players| => Score(i + 1, counts[i], ClicksOf(clicks, players[i])))
  }

  /** Entry `i` carries player number `i + 1`. */
  predicate Numbered(scores: seq<Score>) {
    forall i :: 0 <= i < |scores| ==> scores[i].playerNumber == i + 1
  }

  /** Player numbers strictly increase along the list. */
  predicate Ascending(scores: seq<Score>) {
    forall i, j :: 0 <= i < j < |scores| ==> scores[i].playerNumber < scores[j].playerNumber
  }

  /** `Math.max(...scores.map(s => s.score))` on a non-empty list. */
  function MaxScore(scores: seq<Score>): nat
    requires scores != []
  {
    if |scores| == 1 then scores[0].score
    else
      var rest := MaxScore(scores[1..]);
      if scores[0].score >= rest then scores[0].score else rest
  }

  /** The maximum bounds every score and is some entry's score. */
  lemma {:induction false} MaxScoreIsMax(scores: seq<Score>)
    requires scores != []
    ensures forall i :: 0 <= i < |scores| ==> scores[i].score <= MaxScore(scores)
    ensures exists i :: 0 <= i < |scores| && scores[i].score == MaxScore(scores)
  {
    if |scores| > 1 {
      var tail := scores[1..];
      MaxScoreIsMax(tail);
      forall i | 1 <= i < |scores| ensures scores[i] == tail[i - 1] { }
      var k :| 0 <= k < |tail| && tail[k].score == MaxScore(tail);
      assert scores[k + 1].score == MaxScore(tail);
    } else {
      assert scores[0].score == MaxScore(scores);
    }
  }

  /** `scores.filter(s => s.score === maxScore)`, keeping list order. */
  function Leaders(scores: seq<Score>, m: nat): seq<Score> {
    if scores == [] then []
    else
      var rest := Leaders(scores[1..], m);
      if scores[0].score == m then [scores[0]] + rest else rest
  }

  /** The filter keeps exactly the entries scoring `m`. */
  lemma {:induction false} LeadersMembers(scores: seq<Score>, m: nat)
    ensures forall k :: 0 <= k < |Leaders(scores, m)| ==>
              Leaders(scores, m)[k] in scores && Leaders(scores, m)[k].score == m
    ensures forall k :: 0 <= k < |scores| && scores[k].score == m ==> scores[k] in Leaders(scores, m)
  {
    if scores != [] {
      var tail := scores[1..];
      LeadersMembers(tail, m);
      forall k | 1 <= k < |scores| ensures scores[k] == tail[k - 1] { }
      var w := Leaders(scores, m);
      if scores[0].score == m {
        forall k | 1 <= k < |w| ensures w[k] == Leaders(tail, m)[k - 1] { }
      }
    }
  }

  /** Filtering keeps the list order: leaders of an ascending list are ascending. */
  lemma {:induction false} LeadersAscending(scores: seq<Score>, m: nat)
    requires Ascending(scores)
    ensures Ascending(Leaders(scores, m))
  {
    if scores != [] {
      LeadersAscending(scores[1..], m);
      LeadersMembers(scores[1..], m);
      var rest := Leaders(scores[1..], m);
      forall s | s in rest ensures scores[0].playerNumber < s.playerNumber {
        var j :| 0 <= j < |rest| && rest[j] == s;
        var k :| 0 <= k < |scores[1..]| && scores[1..][k] == s;
        assert scores[k + 1] == s;
      }
    }
  }

  /** `Math.min(...winners.map(w => w.clicks))` on a non-empty list. */
  function MinClicks(w: seq<Score>): nat
    requires w != []
  {
    if |w| == 1 then w[0].clicks
    else
      var rest := MinClicks(w[1..]);
      if w[0].clicks <= rest then w[0].clicks else rest
  }

  /** The minimum bounds every click count and is some entry's count. */
  lemma {:induction false} MinClicksIsMin(w: seq<Score>)
    requires w != []
    ensures forall i :: 0 <= i < |w| ==> MinClicks(w) <= w[i].clicks
    ensures exists i :: 0 <= i < |w| && w[i].clicks == MinClicks(w)
  {
    if |w| > 1 {
      var tail := w[1..];
      MinClicksIsMin(tail);
      forall i | 1 <= i < |w| ensures w[i] == tail[i - 1] { }
      var k :| 0 <= k < |tail| && tail[k].clicks == MinClicks(tail);
      assert w[k + 1].clicks == MinClicks(tail);
    } else {
      assert w[0].clicks == MinClicks(w);
    }
  }

  /** `winners.find(w => w.clicks === minClicks)`: the first entry with that click count. */
  function FindClicks(w: seq<Score>, k: nat): Option<Score> {
    if w == [] then None
    else if w[0].clicks == k then Some(w[0])
    else FindClicks(w[1..], k)
  }

  /** `find` fails exactly when no entry has the count, and otherwise returns the first that does. */
  lemma {:induction false} FindClicksFirst(w: seq<Score>, k: nat)
    ensures FindClicks(w, k).None? <==> forall i :: 0 <= i < |w| ==> w[i].clicks != k
    ensures FindClicks(w, k).Some? ==>
              exists p :: 0 <= p < |w| && w[p] == FindClicks(w, k).value && w[p].clicks == k
                          && forall q :: 0 <= q < p ==> w[q].clicks != k
  {
    if w != [] && w[0].clicks != k {
      var tail := w[1..];
      FindClicksFirst(tail, k);
      forall i | 1 <= i < |w| ensures w[i] == tail[i - 1] { }
      if FindClicks(tail, k).Some? {
        var p :| 0 <= p < |tail| && tail[p] == FindClicks(tail, k).value && tail[p].clicks == k
                 && forall q :: 0 <= q < p ==> tail[q].clicks != k;
        assert w[p + 1] == tail[p];
      }
    }
  }

  /**
   * The choice among the leaders in endGame: the only leader, or else the
   * first leader with the fewest clicks. Over no leaders, `Math.min()` is
   * infinity and `find` finds nothing.
   */
  function Pick(winners: seq<Score>): Option<Score> {
    if |winners| == 1 then Some(winners[0])
    else if winners == [] then None
    else FindClicks(winners, MinClicks(winners))
  }

  /**
   * The winner computation of endGame. With no players, `Math.max()` is
   * minus infinity and no score equals it, so there are no leaders and the
   * result is `'tie'`.
   */
  function WinnerOf(scores: seq<Score>): Winner {
    var winners := if scores == [] then [] else Leaders(scores, MaxScore(scores));
    match Pick(winners)
    case Some(w) => Player(w.playerNumber)
    case None => Tie
  }

  /** Entry `j` does not rank above entry `i`: lower score, or equal score and more clicks, or all equal and a later entry. */
  predicate RanksAtLeast(scores: seq<Score>, i: int, j: int)
    requires 0 <= i < |scores| && 0 <= j < |scores|
  {
    || scores[j].score < scores[i].score
    || (scores[j].score == scores[i].score && scores[i].clicks < scores[j].clicks)
    || (scores[j].score == scores[i].score && scores[i].clicks == scores[j].clicks && i <= j)
  }

  /** Entry `i` ranks first: highest score, then fewest clicks, then lowest player number. */
  predicate IsBest(scores: seq<Score>, i: int) {
    0 <= i < |scores| && forall j :: 0 <= j < |scores| ==> RanksAtLeast(scores, i, j)
  }

  /** At most one entry ranks first. */
  lemma BestIsUnique(scores: seq<Score>, i: int, j: int)
    requires IsBest(scores, i) && IsBest(scores, j)
    ensures i == j
  {
    assert RanksAtLeast(scores, i, j) && RanksAtLeast(scores, j, i);
  }

  /**
   * Among the leaders (in list order), the first one with the fewest clicks
   * ranks first overall.
   */
  lemma FirstFewestIsBest(scores: seq<Score>, winners: seq<Score>, p: nat, i: nat)
    requires Numbered(scores) && scores != []
    requires winners == Leaders(scores, MaxScore(scores))
    requires p < |winners|
    requires forall q :: 0 <= q < |winners| ==> winners[p].clicks <= winners[q].clicks
    requires forall q :: 0 <= q < p ==> winners[q].clicks != winners[p].clicks
    requires i < |scores| && scores[i] == winners[p]
    ensures IsBest(scores, i)
  {
    var m := MaxScore(scores);
    MaxScoreIsMax(scores);
    LeadersMembers(scores, m);
    assert scores[i].score == m;
    forall j | 0 <= j < |scores| ensures RanksAtLeast(scores, i, j) {
      if scores[j].score == m {
        assert scores[j] in winners;
        var q :| 0 <= q < |winners| && winners[q] == scores[j];
        assert scores[i].clicks <= scores[j].clicks;
        if scores[j].clicks == scores[i].clicks {
          TiedLeaderNotEarlier(scores, winners, p, i, j);
        }
      }
    }
  }

  /**
   * A leader with the same clicks as the first fewest-clicks leader does
   * not come before it in the list.
   */
  lemma TiedLeaderNotEarlier(scores: seq<Score>, winners: seq<Score>, p: nat, i: nat, j: nat)
    requires Numbered(scores) && scores != []
    requires winners == Leaders(scores, MaxScore(scores))
    requires p < |winners| && forall q :: 0 <= q < p ==> winners[q].clicks != winners[p].clicks
    requires i < |scores| && scores[i] == winners[p]
    requires j < |scores| && scores[j].score == MaxScore(scores) && scores[j].clicks == scores[i].clicks
    ensures i <= j
  {
    LeadersMembers(scores, MaxScore(scores));
    assert scores[j] in winners;
    var q :| 0 <= q < |winners| && winners[q] == scores[j];
    assert p <= q;
    if p < q {
      LeadersAscending(scores, MaxScore(scores));
      assert winners[p].playerNumber < winners[q].playerNumber;
    }
    assert scores[i].playerNumber == i + 1 && scores[j].playerNumber == j + 1;
  }

  /**
   * Whenever there is a leader, the choice is made, and it is the first
   * leader in list order with the fewest clicks.
   */
  lemma PickIsFirstFewest(winners: seq<Score>) returns (p: nat)
    requires winners != []
    ensures p < |winners| && Pick(winners) == Some(winners[p])
    ensures forall q :: 0 <= q < |winners| ==> winners[p].clicks <= winners[q].clicks
    ensures forall q :: 0 <= q < p ==> winners[q].clicks != winners[p].clicks
  {
    if |winners| == 1 {
      p := 0;
    } else {
      var mc := MinClicks(winners);
      MinClicksIsMin(winners);
      var f := FindClicks(winners, mc);
      FindClicksFirst(winners, mc);
      assert f.Some?;
      p :| p < |winners| && winners[p] == f.value && f.value.clicks == mc
           && forall q :: 0 <= q < p ==> winners[q].clicks != mc;
    }
  }

  /** The code's winner is the first-ranked player; with no players it is `'tie'`. */
  lemma WinnerIsBest(scores: seq<Score>)
    requires Numbered(scores)
    ensures scores == [] ==> WinnerOf(scores) == Tie
    ensures scores != [] ==> WinnerOf(scores).Player? && IsBest(scores, WinnerOf(scores).number - 1)
  {
    if scores != [] {
      var m := MaxScore(scores);
      var winners := Leaders(scores, m);
      MaxScoreIsMax(scores);
      LeadersMembers(scores, m);
      var i0 :| 0 <= i0 < |scores| && scores[i0].score == m;
      assert scores[i0] in winners;
      var p := PickIsFirstFewest(winners);
      assert winners[p] in scores;
      var i :| 0 <= i < |scores| && scores[i] == winners[p];
      FirstFewestIsBest(scores, winners, p, i);
      assert WinnerOf(scores).number - 1 == i;
    }
  }

  /** The winner is player `n` exactly when entry `n - 1` ranks first. */
  lemma WinnerCharacterisation(scores: seq<Score>, n: nat)
    requires Numbered(scores)
    ensures WinnerOf(scores) == Player(n) <==> 1 <= n && IsBest(scores, n - 1)
  {
    WinnerIsBest(scores);
    if 1 <= n && IsBest(scores, n - 1) {
      BestIsUnique(scores, n - 1, WinnerOf(scores).number - 1);
    }
  }

  /**
   * Of two entries with the top score, the one with more clicks never
   * wins: the fewer-clicks rule of the tie-break.
   */
  lemma FewerClicksWins(scores: seq<Score>, i: nat, j: nat)
    requires Numbered(scores) && i < |scores| && j < |scores|
    requires scores[i].score == MaxScore(scores) && scores[j].score == MaxScore(scores)
    requires scores[i].clicks < scores[j].clicks
    ensures WinnerOf(scores) != Player(j + 1)
  {
    WinnerCharacterisation(scores, j + 1);
    assert !RanksAtLeast(scores, j, i);
  }

  /**
   * When every entry with the top score has the same clicks, the first of
   * them wins: the lowest player number, never `'tie'`.
   */
  lemma ClicksTieGoesToFirst(scores: seq<Score>, i: nat)
    requires Numbered(scores) && i < |scores| && scores[i].score == MaxScore(scores)
    requires forall j :: 0 <= j < |scores| && scores[j].score == MaxScore(scores) ==>
               scores[j].clicks == scores[i].clicks && i <= j
    ensures WinnerOf(scores) == Player(i + 1)
  {
    MaxScoreIsMax(scores);
    assert IsBest(scores, i);
    WinnerCharacterisation(scores, i + 1);
  }

  /**
   * The `gameOver` payload: scores from the colour counts, the winner, and
   * `'allkill'` exactly when the round ended by domination.
   */
  function Resolve<Id>(counts: seq<nat>, players: seq<Id>, clicks: map<Id, nat>, isAllKill: bool): GameResult
    requires |players| <= |counts|
  {
    var scores := Scores(counts, players, clicks);
    GameResult(WinnerOf(scores), scores, if isAllKill then AllKill else Normal)
  }

  /**
   * The payload lists one entry per player in join order (number, colour
   * count, clicks or 0), names `'tie'` only when there are no players,
   * otherwise the first-ranked player, and says `'allkill'` exactly for an
   * all-kill.
   */
  lemma ResolveSpec<Id>(counts: seq<nat>, players: seq<Id>, clicks: map<Id, nat>, isAllKill: bool)
    requires |players| <= |counts|
    ensures var r := Resolve(counts, players, clicks, isAllKill);
      && |r.scores| == |players|
      && (forall i :: 0 <= i < |players| ==> r.scores[i] == Score(i + 1, counts[i], ClicksOf(clicks, players[i])))
      && (r.winner == Tie <==> players == [])
      && (r.winner.Player? ==> IsBest(r.scores, r.winner.number - 1))
      && (r.winType == AllKill <==> isAllKill)
  {
    WinnerIsBest(Scores(counts, players, clicks));
  }

  /**
   * When one colour fills the board, its owner wins whatever the click
   * counts are.
   */
  lemma AllKillWinner<Id>(board: seq<int>, players: seq<Id>, clicks: map<Id, nat>, c: nat)
    requires |board| == Cells && c < |players|
    requires Filled(board, c)
    ensures WinnerOf(Scores(ColorCounts(board, |players|), players, clicks)) == Player(c + 1)
  {
    var counts := ColorCounts(board, |players|);
    var scores := Scores(counts, players, clicks);
    CountFull(board, c);
    forall j | 0 <= j < |scores| && j != c ensures scores[j].score < scores[c].score {
      CountAbsent(board, j);
    }
    assert IsBest(scores, c);
    WinnerCharacterisation(scores, c + 1);
  }
}
