/**
 A whole voting session: the user's clicks on the prompt applied one after
 another from `startVoting` (pages/index.js:18-43, 86-102). The main result
 is that after `n(n-1)/2` clicks the results are shown and every pair's cell
 holds exactly the value of the click made while that pair was offered.
 */
module Walk {
  import opened Optional
  import opened Pairs
  import opened Matrix
  import opened Voting

  /** Clicks applied in order. Once the prompt is gone (results shown) a
      click has no button to land on and changes nothing; a click whose
      pair lies outside the matrix, where the source throws, stops the
      session. Clicks never touch the candidates, keep the matrix's shape
      and keep it skew-symmetric. */
  function Run(s: State, clicks: seq<Choice>): (r: State)
    ensures r.items == s.items && r.newItem == s.newItem
    ensures IsSquare(s.matrix, |s.matrix|) ==> IsSquare(r.matrix, |s.matrix|)
    ensures SkewSymmetric(s.matrix) ==> SkewSymmetric(r.matrix)
    decreases |clicks|
  {
    if clicks == [] || !PromptShown(s) || !Recordable(s) then s
    else Run(Vote(s, clicks[0]), clicks[1..])
  }

  /** What a cell should hold after the clicks `votes`: the value of the
      click made when the pair was offered, zero if it has not been offered. */
  function Expected(n: nat, p: Pair, votes: seq<Choice>): int
    requires ValidPair(n, p)
  {
    var k := Rank(n, p);
    if k < |votes| then ChoiceValue(votes[k]) else 0
  }

  /** `m` is the `n x n` matrix the clicks `votes` produce from a zero matrix. */
  predicate Reflects(m: Grid, n: nat, votes: seq<Choice>) {
    && IsSquare(m, n)
    && (forall r | 0 <= r < n :: m[r][r] == 0)
    && forall r, c | 0 <= r < c < n ::
         m[r][c] == Expected(n, Pair(r, c), votes) && m[c][r] == -Expected(n, Pair(r, c), votes)
  }

  /** A matrix built from clicks is skew-symmetric. */
  lemma ReflectsSkew(m: Grid, n: nat, votes: seq<Choice>)
    requires Reflects(m, n, votes)
    ensures SkewSymmetric(m)
  {
    forall r, c | 0 <= r < n && 0 <= c < n
      ensures m[r][c] == -m[c][r]
    {
      if c < r {
        assert m[c][r] == Expected(n, Pair(c, r), votes);
      }
    }
  }

  /** One click extends the record by exactly that click. */
  lemma VoteStep(t: State, votes: seq<Choice>, c: Choice)
    requires PromptShown(t) && Sized(t) && Recordable(t) && t.pairIndex == |votes|
    requires Reflects(t.matrix, |t.items|, votes)
    ensures Reflects(Vote(t, c).matrix, |t.items|, votes + [c])
  {
    var n := |t.items|;
    PromptHasPair(t);
    var p := CurrentPair(t).value;
    var u := Vote(t, c);
    forall r, q | 0 <= r < q < n
      ensures u.matrix[r][q] == Expected(n, Pair(r, q), votes + [c])
      ensures u.matrix[q][r] == -Expected(n, Pair(r, q), votes + [c])
    {
      if Pair(r, q) != p {
        if Rank(n, Pair(r, q)) == |votes| {
          RankInjective(n, Pair(r, q), p);
        }
      }
    }
  }

  lemma {:induction false} RunFrom(t: State, clicks: seq<Choice>, done: nat)
    requires |clicks| == TotalPairs(|t.items|) && done < |clicks|
    requires Sized(t) && !t.showResults && t.pairIndex == done
    requires Reflects(t.matrix, |t.items|, clicks[..done])
    ensures var u := Run(t, clicks[done..]);
            && u.showResults && u.items == t.items && u.pairIndex == |clicks| - 1
            && Reflects(u.matrix, |t.items|, clicks)
    decreases |clicks| - done
  {
    assert PromptShown(t);
    SizedRecordable(t);
    var u := Vote(t, clicks[done]);
    VoteStep(t, clicks[..done], clicks[done]);
    assert clicks[..done] + [clicks[done]] == clicks[..done + 1];
    RunUnfold(t, clicks, done);
    if done + 1 < |clicks| {
      RunFrom(u, clicks, done + 1);
    } else {
      assert clicks[..done + 1] == clicks;
      assert clicks[done + 1..] == [];
    }
  }

  /** One click taken off the front of the remaining clicks. */
  lemma RunUnfold(t: State, clicks: seq<Choice>, done: nat)
    requires done < |clicks| && PromptShown(t) && Recordable(t)
    ensures Run(t, clicks[done..]) == Run(Vote(t, clicks[done]), clicks[done + 1..])
  {
    assert clicks[done..][1..] == clicks[done + 1..];
  }

  /** A complete session: starting with `n >= 2` candidates and clicking
      through all `n(n-1)/2` prompts shows the results, keeps the candidates,
      and leaves a skew-symmetric matrix whose cell `[i][j]` (`i < j`) is the
      value of the click made when `(i, j)` was offered. */
  lemma Session(s: State, clicks: seq<Choice>)
    requires |s.items| >= 2 && |clicks| == TotalPairs(|s.items|)
    ensures var u := Run(StartVoting(s), clicks);
            && u.showResults && u.items == s.items
            && u.pairIndex == TotalPairs(|s.items|) - 1
            && Reflects(u.matrix, |s.items|, clicks)
            && SkewSymmetric(u.matrix)
  {
    var n := |s.items|;
    var t := StartVoting(s);
    RankRoundTrip(n, Pair(0, 1));
    assert clicks[..0] == [];
    assert clicks[0..] == clicks;
    RunFrom(t, clicks, 0);
    ReflectsSkew(Run(t, clicks).matrix, n, clicks);
  }

  /** Once the results are shown the prompt, and with it every button
      that records a preference, is gone; further clicks change nothing. */
  lemma ResultsAreFinal(s: State, clicks: seq<Choice>)
    requires s.showResults
    ensures !PromptShown(s)
    ensures Run(s, clicks) == s
  {
  }

  /** Three candidates: the prompts offer (0, 1), (0, 2), (1, 2) in that
      order, and the final matrix is spelled out by the three clicks. */
  lemma ThreeCandidates(s: State, clicks: seq<Choice>)
    requires |s.items| == 3 && |clicks| == 3
    ensures var u := Run(StartVoting(s), clicks);
            var a, b, c := ChoiceValue(clicks[0]), ChoiceValue(clicks[1]), ChoiceValue(clicks[2]);
            u.showResults && u.matrix == [[0, a, b], [-a, 0, c], [-b, -c, 0]]
  {
    assert TotalPairs(3) == 3;
    Session(s, clicks);
    ThreeByThree(Run(StartVoting(s), clicks).matrix, clicks);
  }

  /** With three candidates the pairs are offered as (0, 1), (0, 2), (1, 2). */
  lemma ThreeExpected(clicks: seq<Choice>)
    requires |clicks| == 3
    ensures Expected(3, Pair(0, 1), clicks) == ChoiceValue(clicks[0])
    ensures Expected(3, Pair(0, 2), clicks) == ChoiceValue(clicks[1])
    ensures Expected(3, Pair(1, 2), clicks) == ChoiceValue(clicks[2])
  {
    assert RowStart(3, 1) == 2;
  }

  lemma ThreeByThree(m: Grid, clicks: seq<Choice>)
    requires |clicks| == 3 && Reflects(m, 3, clicks)
    ensures var a, b, c := ChoiceValue(clicks[0]), ChoiceValue(clicks[1]), ChoiceValue(clicks[2]);
            m == [[0, a, b], [-a, 0, c], [-b, -c, 0]]
  {
    var a, b, c := ChoiceValue(clicks[0]), ChoiceValue(clicks[1]), ChoiceValue(clicks[2]);
    ThreeExpected(clicks);
    ReflectsCell(m, 3, clicks, 0, 1);
    ReflectsCell(m, 3, clicks, 0, 2);
    ReflectsCell(m, 3, clicks, 1, 2);
    assert m[0] == [0, a, b];
    assert m[1] == [-a, 0, c];
    assert m[2] == [-b, -c, 0];
  }

  lemma ReflectsCell(m: Grid, n: nat, votes: seq<Choice>, r: nat, c: nat)
    requires Reflects(m, n, votes) && r < c < n
    ensures m[r][c] == Expected(n, Pair(r, c), votes) && m[c][r] == -Expected(n, Pair(r, c), votes)
  {
  }
}
