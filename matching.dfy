/**
 * The face-matching decision shared by both check-in handlers: scan the users
 * table in order, keep a running best seeded at -1 and replaced only on a
 * strictly greater similarity, then accept the best user when the best score
 * reaches 0.40.
 */
module Matching {
  import opened Wrappers

  /** One users row as the scan sees it: its key, its name and its similarity to the query face. */
  datatype ScoredRow = ScoredRow(id: nat, name: string, score: real)

  /** What the handler decides: record attendance for a user with a score, or "not recognised". */
  datatype Decision = Accept(user: ScoredRow, score: real) | Reject

  /** The running best score starts here: the least cosine similarity; a row scoring -1 or less never replaces it. */
  const Seed: real := -1.0

  /** The smallest best score that is accepted (the comparison `best_score < 0.40` rejects). */
  const Threshold: real := 0.40

  /** The best score after the scan: the larger of the seed and every row's score. */
  function BestScore(rows: seq<ScoredRow>): (best: real)
    ensures Seed <= best
    ensures forall i :: 0 <= i < |rows| ==> rows[i].score <= best
    ensures best == Seed || exists i :: 0 <= i < |rows| && rows[i].score == best
  {
    if rows == [] then Seed
    else
      var earlier := BestScore(rows[..|rows| - 1]);
      var last := rows[|rows| - 1];
      assert forall i :: 0 <= i < |rows| - 1 ==> rows[i] == rows[..|rows| - 1][i];
      if last.score > earlier then last.score else earlier
  }

  /** The position of the first row whose score is exactly `score`, or |rows| if none has it. */
  function FirstWithScore(rows: seq<ScoredRow>, score: real): (k: nat)
    ensures k <= |rows|
    ensures forall j :: 0 <= j < k ==> rows[j].score != score
    ensures k < |rows| ==> rows[k].score == score
  {
    if rows == [] then 0
    else if rows[0].score == score then 0
    else 1 + FirstWithScore(rows[1..], score)
  }

  /**
   * The user the scan keeps: none while no row has beaten the seed, otherwise the
   * first row, in scan order, that reaches the best score.
   */
  function Winner(rows: seq<ScoredRow>): (winner: Option<ScoredRow>)
    ensures winner.None? <==> forall i :: 0 <= i < |rows| ==> rows[i].score <= Seed
    ensures winner.Some? ==> winner.value in rows && winner.value.score == BestScore(rows)
  {
    var best := BestScore(rows);
    if best == Seed then None else Some(rows[FirstWithScore(rows, best)])
  }

  /**
   * The scan of `presensi_kamera` and `presensi_upload`: `best_user` and
   * `best_score` after visiting every row in order.
   */
  method FindBest(rows: seq<ScoredRow>) returns (bestUser: Option<ScoredRow>, bestScore: real)
    ensures bestScore == BestScore(rows)
    ensures bestUser == Winner(rows)
  {
    bestUser, bestScore := None, Seed;
    for i := 0 to |rows|
      invariant bestScore == BestScore(rows[..i])
      invariant bestUser == Winner(rows[..i])
    {
      ScanStep(rows[..i], rows[i]);
      assert rows[..i + 1] == rows[..i] + [rows[i]];
      if rows[i].score > bestScore {
        bestScore := rows[i].score;
        bestUser := Some(rows[i]);
      }
    }
    assert rows[..|rows|] == rows;
  }

  /** One step of the scan: a strictly better row takes over, anything else leaves the best as it was. */
  lemma ScanStep(seen: seq<ScoredRow>, row: ScoredRow)
    ensures row.score > BestScore(seen) ==>
              BestScore(seen + [row]) == row.score && Winner(seen + [row]) == Some(row)
    ensures row.score <= BestScore(seen) ==>
              BestScore(seen + [row]) == BestScore(seen) && Winner(seen + [row]) == Winner(seen)
  {
    var rows := seen + [row];
    assert rows[..|rows| - 1] == seen;
    var best := BestScore(seen);
    if row.score > best {
      var k := FirstWithScore(rows, row.score);
      assert rows[|seen|].score == row.score;
      assert k == |seen|;
    } else if best != Seed {
      var k0 := FirstWithScore(seen, best);
      var k := FirstWithScore(rows, best);
      assert k0 < |seen|;
      assert rows[k0].score == best;
      assert k == k0;
    }
  }

  /** The acceptance decision taken after the scan. */
  function Decide(rows: seq<ScoredRow>): (d: Decision)
    ensures d.Accept? <==> exists i :: 0 <= i < |rows| && rows[i].score >= Threshold
    ensures d.Accept? ==> d.user in rows && d.score == d.user.score
    ensures d.Accept? ==> forall i :: 0 <= i < |rows| ==> rows[i].score <= d.score
  {
    var best := BestScore(rows);
    if best < Threshold then Reject
    else Accept(Winner(rows).value, best)
  }

  /**
   * Ties go to the earlier row: the accepted user is the first row, in scan
   * order, whose score equals the best score.
   */
  lemma AcceptsFirstBest(rows: seq<ScoredRow>)
    requires Decide(rows).Accept?
    ensures var d := Decide(rows);
            exists k :: 0 <= k < |rows| && rows[k] == d.user &&
                        forall j :: 0 <= j < k ==> rows[j].score < d.score
  {
    var best := BestScore(rows);
    var k := FirstWithScore(rows, best);
    assert rows[k] == Decide(rows).user;
  }

  /**
   * What the accept path dereferences and reports: the handler accepts exactly
   * when the scan kept a user whose score reaches the threshold, and then it
   * records that user with that user's own score.
   */
  lemma AcceptsWinner(rows: seq<ScoredRow>)
    ensures Decide(rows).Accept? <==> Winner(rows).Some? && Winner(rows).value.score >= Threshold
    ensures Decide(rows).Accept? ==> Decide(rows) == Accept(Winner(rows).value, Winner(rows).value.score)
  {
  }

  /**
   * `best_user` stays None exactly when the best score stays at the seed, and
   * then the face is not recognised; an empty users table is one such case.
   */
  lemma NoWinnerRejects(rows: seq<ScoredRow>)
    ensures Winner(rows).None? <==> BestScore(rows) == Seed
    ensures Winner(rows).None? ==> Decide(rows) == Reject
    ensures rows == [] ==> Winner(rows).None?
  {
  }

  /** A row whose score is exactly the threshold and beats every other row is accepted. */
  lemma ThresholdIsInclusive(rows: seq<ScoredRow>, k: nat)
    requires k < |rows| && rows[k].score == Threshold
    requires forall j :: 0 <= j < |rows| && j != k ==> rows[j].score < Threshold
    ensures Decide(rows) == Accept(rows[k], Threshold)
  {
    UniqueBestWins(rows, k);
  }

  /**
   * A row that strictly beats every other row and reaches the threshold is the
   * one recorded, with its own score.
   */
  lemma UniqueBestWins(rows: seq<ScoredRow>, k: nat)
    requires k < |rows| && rows[k].score >= Threshold
    requires forall j :: 0 <= j < |rows| && j != k ==> rows[j].score < rows[k].score
    ensures Decide(rows) == Accept(rows[k], rows[k].score)
  {
    var best := BestScore(rows);
    assert best == rows[k].score;
    var first := FirstWithScore(rows, best);
    assert first == k;
  }
}
