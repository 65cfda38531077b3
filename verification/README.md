# Net-flow voting: a Dafny model of the pairwise voting component

The repository's core is one browser component, `NetFlowVotingApp` in
`pages/index.js`. A user enters candidate names and starts voting. The
component then offers every unordered pair of candidates once, in a fixed
order. Each click records a signed preference (+1, -1 or 0) in a square
preference matrix. When the last pair has been answered, the matrix is shown
as the results.

This project models that component as a pure state machine. The five
`useState` slots become one immutable `State` value. Each handler becomes a
function from state to next state, applied atomically. The modules are:

- `Optional`: the `Option` type that stands for the source's `null` returns.
- `Pairs`: the pair enumerator `getPairFromIndex`. It has the nested loop as
  written (`GetPairFromIndex`) and a recursive reference definition
  (`PairFromIndex`). It also has the inverse `Rank`, which gives the position
  of a pair. The lemmas prove that the enumeration is an order-preserving
  bijection between the cursors `[0, n(n-1)/2)` and the pairs `i < j < n`.
- `Matrix`: the preference matrix. It has the zero matrix built by
  `startVoting` and the cell update of `recordPreference`. The lemmas cover
  skew-symmetry, accumulation, mirroring and commutation of recorded
  preferences.
- `Text`: `String.prototype.trim` over ECMAScript's fixed whitespace set
  (WhiteSpace and LineTerminator, sections 12.2 and 12.3 of ECMA-262).
- `Voting`: the state, the handlers `addItem`, `startVoting`,
  `recordPreference` (matrix update plus cursor progression) and
  `restartVoting`, the prompt condition, and the invariants the handlers
  keep.
- `Walk`: a whole session of clicks. Its theorem: after `n(n-1)/2` clicks
  the results are shown, and each pair's cell holds the value of the click
  made while that pair was offered.

The model keeps these behaviours of the code:

- Adding candidates is not gated once voting has started.
- `recordPreference` does not check `i != j`. With `i == j` the two writes
  cancel and the cell is unchanged.
- After the last pair the cursor does not advance. It stays on the last pair
  and the results flag is set.
- There is a single voter and no score vector.

Two hazards of the source become explicit preconditions on
`Voting.RecordPreference` and `Voting.Vote`: the offered pair must lie inside
a square matrix.

- The prompt is rendered as soon as two names exist, before `startVoting` has
  sized the matrix (`Voting.PromptBeforeStart` exhibits such a state).
- `addItem` can grow the candidate list past the matrix
  (`Voting.SizedTransitions`). Clicks on pairs that still fit the matrix
  are recorded as in the source; the first pair that does not fit is
  where the source throws (`Voting.LateAdd`).

## Model

| member | source | states |
|---|---|---|
| Pairs.TotalPairs | pages/index.js:39 | The source's pair count `n * (n - 1) / 2` is an exact division: twice the result is `n(n-1)` |
| Pairs.GetPairFromIndex | pages/index.js:53-62 | The nested counting loop returns the pair at the cursor's position in the `(i, j)`, `i < j` walk. It returns a pair exactly when `index < n(n-1)/2`, that pair satisfies `i < j < n`, and its rank equals the cursor |
| Pairs.PairFromIndexSpec | pages/index.js:53-61 | A pair comes back exactly for cursors below `n(n-1)/2`, otherwise "no pair". The returned pair is valid and its position in the enumeration is the cursor |
| Pairs.NoPairBelowTwo | pages/index.js:55-61 | With fewer than two candidates no cursor yields a pair |
| Pairs.RowStartTotal | pages/index.js:39 | The number of pairs the nested loop visits equals the closed formula `n * (n - 1) / 2` that the progression check uses |
| Pairs.RowStartClosedForm | pages/index.js:55-58 | The loop's running count at the start of row `i` is `i(2n - i - 1)/2` |
| Pairs.RankOrder | pages/index.js:55-58 | For valid pairs, lexicographic order and enumeration order coincide, in both directions |
| Pairs.RankInjective | pages/index.js:54-59 | Two valid pairs at the same position are the same pair |
| Pairs.RankRoundTrip | pages/index.js:54-59 | Every pair `i < j < n` is produced, at the cursor equal to its rank, and that cursor is in range (surjectivity) |
| Pairs.PairFromIndexInjective | pages/index.js:54-59 | Distinct in-range cursors give distinct pairs (injectivity) |
| Pairs.PairFromIndexOrdered | pages/index.js:55-58 | As the cursor increases, the pairs come out in strictly increasing lexicographic order |
| Matrix.ZeroGrid | pages/index.js:22-24 | The fresh matrix has `n` rows of `n` zeros and is skew-symmetric |
| Matrix.Record | pages/index.js:31-37 | Recording `v` for `(i, j)` adds `v` at `[i][j]` and subtracts it at `[j][i]`. Every other cell and the shape are unchanged. With `i == j` the matrix is unchanged |
| Matrix.SkewHasZeroDiagonal | pages/index.js:34-35 | A skew-symmetric integer matrix has a zero diagonal |
| Matrix.RecordPreservesSkew | pages/index.js:34-35 | For any integer value, recording keeps a skew-symmetric matrix skew-symmetric with a zero diagonal |
| Matrix.RecordAccumulates | pages/index.js:34-35 | Recording `a` then `b` for the same pair equals recording `a + b`: values add up, they do not overwrite |
| Matrix.RecordMirror | pages/index.js:34-35 | Recording `v` for `(i, j)` is the same as recording `-v` for `(j, i)` |
| Matrix.RecordCommutes | pages/index.js:32-36 | Two recorded preferences give the same matrix in either order |
| Text.Trim | pages/index.js:12-13 | The input splits into a blank prefix, the result and a blank suffix. The result is empty exactly when the input is all whitespace; otherwise it neither starts nor ends with whitespace |
| Text.TrimFixed | pages/index.js:12-13 | A string whose first and last characters are not whitespace is its own trim |
| Voting.ChoiceValue | pages/index.js:96-102 | The three buttons pass +1, -1 and 0: the sign says whether the first or the second candidate of the pair was preferred, and zero means neither |
| Voting.Initial | pages/index.js:4-8 | The first render has no candidates, an empty name field, an empty matrix and cursor 0. That matrix is sized and skew-symmetric, and no prompt is shown |
| Voting.TypeItem | pages/index.js:73 | Typing sets the pending name and changes nothing else |
| Voting.AddItem | pages/index.js:11-16 | A name that is not all whitespace is appended in trimmed form and the field is cleared. A blank name leaves the state unchanged. The matrix, cursor and results flag are never touched |
| Voting.StartVoting | pages/index.js:18-29 | With fewer than two candidates nothing changes. Otherwise the candidates are kept, and the matrix becomes an `n x n` all-zero skew-symmetric matrix with cursor 0 and results hidden |
| Voting.Advance | pages/index.js:39-43 | If another pair remains, the cursor moves to the next pair and the results flag is kept. Otherwise the cursor stays and the results are shown |
| Voting.RecordPreference | pages/index.js:31-44 | Adds `value` at `[i][j]` and subtracts it at `[j][i]`. Every other cell and the shape are unchanged, and with `i == j` the matrix is unchanged. Skew-symmetry is kept and the candidates are not touched. The cursor then progresses as in `Voting.Advance` |
| Voting.RestartVoting | pages/index.js:46-51 | Returns to the initial state, with only the pending name kept |
| Voting.PromptShown | pages/index.js:86 | The prompt is rendered while results are hidden and the cursor is below `n(n-1)/2`. It then has at least two candidates and a pair to offer |
| Voting.CurrentPair | pages/index.js:90 | The pair the prompt asks about exists exactly while the cursor is below `n(n-1)/2`. It is then a valid pair whose rank is the cursor |
| Voting.PromptHasPair | pages/index.js:86-91 | Whenever the prompt is rendered, the cursor yields a valid pair whose rank is the cursor, so the null guard never fires |
| Voting.Vote | pages/index.js:96-102 | A button click records the button's value for the offered pair. The pair must lie inside the square matrix (`Voting.Recordable`, the condition under which the source does not throw). It adds the value at `[first][second]`, subtracts it at the mirror cell and leaves every other cell alone. The cursor advances, the matrix keeps its shape and skew-symmetry, and a sized matrix stays sized |
| Voting.SizedRecordable | pages/index.js:86-102 | When the matrix is sized to the candidates, every rendered prompt can be answered inside it |
| Voting.SkewInvariant | pages/index.js:18-51 | Every handler keeps the matrix skew-symmetric, starting from the empty initial matrix |
| Voting.ItemsTrimmedInvariant | pages/index.js:11-16 | Stored candidate names stay non-empty and trimmed under every handler that changes the list |
| Voting.SizedTransitions | pages/index.js:11-29 | Starting and restarting size the matrix to the candidates, and voting keeps it sized. Adding a name to a sized state leaves the matrix too small |
| Voting.LateAdd | pages/index.js:11-16 | A name added after starting with three candidates leaves the matrix too small. The prompt still offers (0, 1), which can be recorded. At cursor 2 it offers (0, 3), which lies outside the matrix |
| Voting.PromptBeforeStart | pages/index.js:86-96 | After any two non-blank names are typed and added without starting, the prompt offers pair (0, 1) while the matrix is still empty |
| Walk.Run | pages/index.js:86-102 | A sequence of clicks on the prompt, each ignored once no prompt is shown. Clicks never change the candidates or the name field, and they keep the matrix's shape and skew-symmetry |
| Walk.VoteStep | pages/index.js:31-43 | One click on the prompt extends the matrix's record of clicks by exactly that click |
| Walk.Session | pages/index.js:18-43 | From `startVoting` with `n >= 2` candidates, `n(n-1)/2` clicks show the results and keep the candidates. The final matrix is skew-symmetric, and cell `[i][j]` is the value of the click made for pair `(i, j)` |
| Walk.ResultsAreFinal | pages/index.js:86 | Once the results are shown no prompt is rendered, so no preference button exists and further clicks change nothing |
| Walk.ThreeCandidates | pages/index.js:53-62 | With three candidates and clicks `a, b, c`, the final matrix is `[[0,a,b],[-a,0,c],[-b,-c,0]]` |

## Left out

- Rendering: markup, CSS classes and the results table (pages/index.js:64-128) are presentation only. From the render the model keeps just two things: the condition under which the prompt is shown, and the values the three buttons pass.
- React mechanics: `useState`, setter batching and the stale closure over `currentPairIndex` are not modelled. Each handler is one atomic transition on an explicit state record.
- The `version` string (pages/index.js:9) is a display constant.
- JavaScript numbers are modelled as unbounded integers, and the cursor as a `nat` (the source only ever sets it to 0 or adds 1). Floating-point precision limits are not modelled.
- Voting.RecordPreference: requires a square matrix holding rows `i` and `j`. Outside that, the source either writes `NaN` into a row or throws a `TypeError`, and neither is modelled.
- Voting.Vote: requires the offered pair to lie inside a square matrix. The source does not guarantee this (see `Voting.PromptBeforeStart` and `Voting.LateAdd`), and it throws a `TypeError` where it fails.
- Walk.Run: a click whose offered pair lies outside the matrix stops the session in the model. This covers an empty matrix before voting starts, or a pair reaching a candidate added after starting. The source throws there.
- Text.Trim: the Unicode space separators are fixed to those of current Unicode versions. Strings are sequences of code points, not UTF-16 code units.
- Net-flow scores, multiple voters and aggregation across voters do not exist in this component, so they are not modelled.
