/**
 The voting component (`NetFlowVotingApp`, pages/index.js:3-62) as a state
 machine: each event handler is a pure function from the component's state
 to its next state, applied atomically.
 */
module Voting {
  import opened Optional
  import opened Pairs
  import opened Matrix
  import opened Text

  /** The component's `useState` slots (pages/index.js:4-8). */
  datatype State = State(
    items: seq<string>,
    newItem: string,
    matrix: Grid,
    pairIndex: nat,
    showResults: bool)

  /** A click on one of the three preference buttons (pages/index.js:96-102). */
  datatype Choice = PreferFirst | PreferSecond | NoPreference

  /** The value each button passes: its sign says which candidate of the
      offered pair was preferred, zero means neither. */
  function ChoiceValue(c: Choice): (v: int)
    ensures -1 <= v <= 1
    ensures v > 0 <==> c == PreferFirst
    ensures v < 0 <==> c == PreferSecond
  {
    match c
    case PreferFirst => 1
    case PreferSecond => -1
    case NoPreference => 0
  }

  /** The state on first render: no candidates, an empty matrix that is
      trivially sized and skew-symmetric, and no prompt. */
  function Initial(): (s: State)
    ensures s.items == [] && s.newItem == "" && s.matrix == [] && s.pairIndex == 0
    ensures Sized(s) && SkewSymmetric(s.matrix) && ItemsTrimmed(s)
    ensures !PromptShown(s) && !s.showResults
  {
    State([], "", [], 0, false)
  }

  /** The matrix has a row and a column for every candidate. */
  predicate Sized(s: State) {
    IsSquare(s.matrix, |s.items|)
  }

  /** Every name is non-empty and already trimmed. */
  predicate TrimmedNames(names: seq<string>) {
    forall k | 0 <= k < |names| :: names[k] != [] && Trim(names[k]) == names[k]
  }

  predicate ItemsTrimmed(s: State) {
    TrimmedNames(s.items)
  }

  /** Typing into the name field (the input's `onChange`). */
  function TypeItem(s: State, text: string): (t: State)
    ensures t.newItem == text
    ensures t.items == s.items && t.matrix == s.matrix
    ensures t.pairIndex == s.pairIndex && t.showResults == s.showResults
  {
    s.(newItem := text)
  }

  /** `addItem`: a name that is not blank is appended trimmed and the field
      cleared; a blank name changes nothing. Nothing else is touched, in
      particular not the matrix, even after voting has started. */
  function AddItem(s: State): (t: State)
    ensures !Blank(s.newItem) ==> t.items == s.items + [Trim(s.newItem)] && t.newItem == ""
    ensures Blank(s.newItem) ==> t == s
    ensures t.matrix == s.matrix && t.pairIndex == s.pairIndex && t.showResults == s.showResults
  {
    if Trim(s.newItem) != "" then
      s.(items := s.items + [Trim(s.newItem)], newItem := "")
    else
      s
  }

  /** `startVoting`: with fewer than two candidates nothing happens;
      otherwise a fresh all-zero `n x n` matrix, cursor 0, results hidden. */
  function StartVoting(s: State): (t: State)
    ensures |s.items| < 2 ==> t == s
    ensures |s.items| >= 2 ==>
              && t.items == s.items && t.newItem == s.newItem
              && Sized(t) && SkewSymmetric(t.matrix)
              && (forall r, c | 0 <= r < |t.matrix| && 0 <= c < |t.matrix| :: t.matrix[r][c] == 0)
              && t.pairIndex == 0 && !t.showResults
  {
    var size := |s.items|;
    if size < 2 then s
    else s.(matrix := ZeroGrid(size), pairIndex := 0, showResults := false)
  }

  /** Cursor progression after a recorded preference: step to the next pair
      while one remains, otherwise keep the cursor and show the results. */
  function Advance(s: State): (t: State)
    ensures t.items == s.items && t.newItem == s.newItem && t.matrix == s.matrix
    ensures s.pairIndex + 1 < TotalPairs(|s.items|) ==>
              t.pairIndex == s.pairIndex + 1 && t.showResults == s.showResults
    ensures s.pairIndex + 1 >= TotalPairs(|s.items|) ==>
              t.pairIndex == s.pairIndex && t.showResults
  {
    if s.pairIndex < (|s.items| * (|s.items| - 1)) / 2 - 1 then
      s.(pairIndex := s.pairIndex + 1)
    else
      s.(showResults := true)
  }

  /** `recordPreference(i, j, value)`: the matrix update followed by the
      cursor progression. The matrix must be square and hold rows `i` and
      `j`; the source indexes it without checking. */
  function RecordPreference(s: State, i: nat, j: nat, value: int): (t: State)
    requires IsSquare(s.matrix, |s.matrix|) && i < |s.matrix| && j < |s.matrix|
    ensures IsSquare(t.matrix, |s.matrix|)
    ensures i != j ==> t.matrix[i][j] == s.matrix[i][j] + value && t.matrix[j][i] == s.matrix[j][i] - value
    ensures forall r, c | 0 <= r < |s.matrix| && 0 <= c < |s.matrix| && (r, c) != (i, j) && (r, c) != (j, i) ::
              t.matrix[r][c] == s.matrix[r][c]
    ensures SkewSymmetric(s.matrix) ==> SkewSymmetric(t.matrix) && ZeroDiagonal(t.matrix)
    ensures i == j ==> t.matrix == s.matrix
    ensures t.items == s.items && t.newItem == s.newItem
    ensures s.pairIndex + 1 < TotalPairs(|s.items|) ==>
              t.pairIndex == s.pairIndex + 1 && t.showResults == s.showResults
    ensures s.pairIndex + 1 >= TotalPairs(|s.items|) ==>
              t.pairIndex == s.pairIndex && t.showResults
  {
    var m := Record(s.matrix, i, j, value);
    assert SkewSymmetric(s.matrix) ==> SkewSymmetric(m) && ZeroDiagonal(m) by {
      if SkewSymmetric(s.matrix) {
        RecordPreservesSkew(s.matrix, i, j, value);
      }
    }
    Advance(s.(matrix := m))
  }

  /** `restartVoting`: candidates, matrix, cursor and results flag back to
      their initial values. The name field is left as it is. */
  function RestartVoting(s: State): (t: State)
    ensures t == Initial().(newItem := s.newItem)
    ensures Sized(t) && SkewSymmetric(t.matrix) && ItemsTrimmed(t)
  {
    s.(items := [], matrix := [], pairIndex := 0, showResults := false)
  }

  /** The comparison prompt is rendered (pages/index.js:86). It needs at
      least two candidates and always has a pair to offer. */
  predicate PromptShown(s: State)
    ensures PromptShown(s) ==> |s.items| >= 2 && CurrentPair(s).Some?
  {
    PairFromIndexSpec(|s.items|, s.pairIndex);
    !s.showResults && s.pairIndex < TotalPairs(|s.items|)
  }

  /** A click on the offered pair stays inside the matrix: the matrix is
      square and has the row and column of the pair's later candidate.
      Outside this the source throws a `TypeError`. */
  predicate Recordable(s: State) {
    && IsSquare(s.matrix, |s.matrix|)
    && CurrentPair(s).Some?
    && CurrentPair(s).value.second < |s.matrix|
  }

  /** The pair the prompt offers (pages/index.js:90). */
  function CurrentPair(s: State): (r: Option<Pair>)
    ensures r.Some? <==> s.pairIndex < TotalPairs(|s.items|)
    ensures r.Some? ==> ValidPair(|s.items|, r.value) && Rank(|s.items|, r.value) == s.pairIndex
  {
    PairFromIndexSpec(|s.items|, s.pairIndex);
    PairFromIndex(|s.items|, s.pairIndex)
  }

  /** Whenever the prompt is rendered it has a pair of two distinct
      candidates to offer, so the `if (!pair)` guard never fires. */
  lemma PromptHasPair(s: State)
    requires PromptShown(s)
    ensures CurrentPair(s).Some?
    ensures ValidPair(|s.items|, CurrentPair(s).value)
    ensures Rank(|s.items|, CurrentPair(s).value) == s.pairIndex
  {
    PairFromIndexSpec(|s.items|, s.pairIndex);
  }

  /** A button click on the prompt: `recordPreference(pair[0], pair[1], v)`
      with `v` the button's value. Requires the offered pair to lie inside
      the matrix, which the source does not check. */
  function Vote(s: State, c: Choice): (t: State)
    requires PromptShown(s) && Recordable(s)
    ensures IsSquare(t.matrix, |s.matrix|) && t.items == s.items && t.newItem == s.newItem
    ensures Sized(s) ==> Sized(t)
    ensures SkewSymmetric(s.matrix) ==> SkewSymmetric(t.matrix)
    ensures s.pairIndex + 1 < TotalPairs(|s.items|) ==> t.pairIndex == s.pairIndex + 1 && !t.showResults
    ensures s.pairIndex + 1 >= TotalPairs(|s.items|) ==> t.pairIndex == s.pairIndex && t.showResults
    ensures CurrentPair(s).Some?
    ensures var p := CurrentPair(s).value;
            && ValidPair(|s.items|, p) && p.second < |s.matrix|
            && t.matrix[p.first][p.second] == s.matrix[p.first][p.second] + ChoiceValue(c)
            && t.matrix[p.second][p.first] == s.matrix[p.second][p.first] - ChoiceValue(c)
            && forall r, q | 0 <= r < |s.matrix| && 0 <= q < |s.matrix| &&
                             (r, q) != (p.first, p.second) && (r, q) != (p.second, p.first) ::
                 t.matrix[r][q] == s.matrix[r][q]
  {
    PromptHasPair(s);
    var p := CurrentPair(s).value;
    RecordPreference(s, p.first, p.second, ChoiceValue(c))
  }

  /** A prompt over a matrix sized to the candidates can always be answered. */
  lemma SizedRecordable(s: State)
    requires PromptShown(s) && Sized(s)
    ensures Recordable(s)
  {
    PromptHasPair(s);
  }

  /** Skew-symmetry (and with it the zero diagonal) is an invariant of every
      handler: the matrix starts empty, is replaced by a zero matrix, or is
      changed by a recorded preference. */
  lemma SkewInvariant(s: State, text: string, i: nat, j: nat, v: int)
    requires SkewSymmetric(s.matrix)
    ensures SkewSymmetric(Initial().matrix)
    ensures SkewSymmetric(TypeItem(s, text).matrix)
    ensures SkewSymmetric(AddItem(s).matrix)
    ensures SkewSymmetric(StartVoting(s).matrix)
    ensures i < |s.matrix| && j < |s.matrix| ==> SkewSymmetric(RecordPreference(s, i, j, v).matrix)
    ensures SkewSymmetric(RestartVoting(s).matrix)
  {
  }

  /** Stored names stay non-empty and trimmed under every handler that
      touches the candidate list (typing leaves the list as it is). */
  lemma ItemsTrimmedInvariant(s: State, i: nat, j: nat, v: int)
    requires ItemsTrimmed(s)
    ensures ItemsTrimmed(Initial())
    ensures ItemsTrimmed(AddItem(s))
    ensures ItemsTrimmed(StartVoting(s))
    ensures IsSquare(s.matrix, |s.matrix|) && i < |s.matrix| && j < |s.matrix| ==>
              ItemsTrimmed(RecordPreference(s, i, j, v))
    ensures ItemsTrimmed(RestartVoting(s))
  {
    if !Blank(s.newItem) {
      var name := Trim(s.newItem);
      assert name != [] && Trim(name) == name by {
        TrimIdempotent(s.newItem);
      }
      AppendTrimmed(s.items, name);
      assert AddItem(s).items == s.items + [name];
    } else {
      assert AddItem(s) == s;
    }
  }

  lemma AppendTrimmed(names: seq<string>, name: string)
    requires TrimmedNames(names) && name != [] && Trim(name) == name
    ensures TrimmedNames(names + [name])
  {
  }

  /** Sizing is established by starting and by restarting, kept by voting,
      and broken by adding a candidate, which `addItem` allows at any time. */
  lemma SizedTransitions(s: State, c: Choice)
    ensures |s.items| >= 2 ==> Sized(StartVoting(s))
    ensures Sized(RestartVoting(s))
    ensures PromptShown(s) && Recordable(s) && Sized(s) ==> Sized(Vote(s, c))
    ensures Sized(s) && !Blank(s.newItem) ==> !Sized(AddItem(s))
  {
  }

  /** Two names typed and added, voting not started: the prompt is already
      rendered while the matrix is still the empty initial one, so a click
      would index outside it. This is why `RecordPreference` and `Vote`
      carry a precondition the source does not check. */
  lemma PromptBeforeStart(a: string, b: string)
    requires !Blank(a) && !Blank(b)
    ensures var s := AddItem(TypeItem(AddItem(TypeItem(Initial(), a)), b));
            PromptShown(s) && CurrentPair(s) == Some(Pair(0, 1)) && |s.matrix| == 0
  {
    var s1 := AddItem(TypeItem(Initial(), a));
    var s := AddItem(TypeItem(s1, b));
    assert |s1.items| == 1 && s1.matrix == [] && s1.pairIndex == 0 && !s1.showResults;
    assert |s.items| == 2 && s.matrix == [];
    FirstOfTwo(s);
  }

  lemma FirstOfTwo(s: State)
    requires |s.items| == 2 && s.pairIndex == 0 && !s.showResults
    ensures PromptShown(s) && CurrentPair(s) == Some(Pair(0, 1))
  {
    assert TotalPairs(2) == 1;
  }

  /** A name added after voting has started (allowed, since `addItem` is
      not gated): the list outgrows the 3 x 3 matrix, yet the first pairs
      offered, (0, 1) and (0, 2), still lie inside it and can be recorded.
      The pair (0, 3) is the first whose click leaves the matrix. */
  lemma LateAdd(s: State)
    requires Sized(s) && |s.items| == 3 && s.pairIndex == 0 && !s.showResults
    requires !Blank(s.newItem)
    ensures var t := AddItem(s);
            && !Sized(t) && |t.items| == 4
            && PromptShown(t) && CurrentPair(t) == Some(Pair(0, 1)) && Recordable(t)
            && var u := t.(pairIndex := 2);
               PromptShown(u) && CurrentPair(u) == Some(Pair(0, 3)) && !Recordable(u)
  {
    var t := AddItem(s);
    assert |t.items| == 4 && t.matrix == s.matrix;
    FourPairs();
  }

  lemma FourPairs()
    ensures TotalPairs(4) == 6
    ensures PairFromIndex(4, 0) == Some(Pair(0, 1))
    ensures PairFromIndex(4, 2) == Some(Pair(0, 3))
  {
  }
}
