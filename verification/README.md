# Meows Selector — a verified model of the round generator

Meows Selector is a small web page that organises one round of a
recreational tournament. The user types team names into a list of rows and
presses "Generate Pairings". The page then does the following:

1. It trims every name and drops the blank ones.
2. It refuses fewer than two names, and it refuses repeated names.
3. When the count is odd, it asks an external bye selector which team sits
   the round out. The page passes on the team that had the bye last round.
4. It shuffles the remaining names with Fisher–Yates and pairs them up two
   by two.

This project models that logic and the roster form in Dafny:

| module | file | models |
|---|---|---|
| `TeamNames` | `team_names.dfy` | JavaScript `trim`, the `map(trim)` / `filter` normalisation, the non-blank count, and `[...new Set(...)]` de-duplication. |
| `Shuffle` | `shuffle.dfy` | The in-place Fisher–Yates loop on an array. `Shuffled` is its specification function. The lemmas prove that the shuffle is a permutation and that every arrangement is reachable. |
| `Pairing` | `pairing.dfy` | The loop that cuts the shuffled list into matches, including its truthiness test on `a[i + 1]`. |
| `Round` | `round.dfy` | One press of the button as a pure function, `Generate`, with its error paths and its partition property. |
| `Selector` | `selector.dfy` | The component's state as the class `MeowsSelector`. It has the roster handlers, and `GeneratePairings`, which is proved to leave exactly the outcome of `Round.Generate`. |
| `Options` | `options.dfy` | The `Option` datatype. |

Randomness and the bye selector are parameters:

- **Random draws.** The draw `Math.floor(Math.random() * (i + 1))` becomes a
  draw sequence `js` with `0 <= js[i] <= i`. The component gets this
  sequence from a source `pick: nat -> nat`. `Shuffle.DrawsCoverEveryChoice`
  shows that this form loses no possible draw.
- **Bye selector.** The selector is a function from the working list and
  the hint to `Assigned(byeTeam, updatedTeams)` or `Unavailable`.
  `Unavailable` stands for a call that throws.

### What the code does not check

- **The selector's answer.** The selector declares that it returns the
  teams "with bye team removed" (`src/ai/flows/assign-bye.ts:26`). The
  component adopts `byeTeam` and `updatedTeams` as they come
  (`meows-selector.tsx:110-112`). It does not check that the bye team is on
  the roster, nor that the returned list is the roster minus that team.
  The model therefore proves the partition property,
  `Round.RoundPartitionsTeams`, only under the hypothesis
  `WellFormedReply`.
  `Round.UncheckedReplyBreaksPartition` proves what happens with one
  malformed answer: a team is both the bye and a player, and another team
  is left out of the round.
- **State on an error.** The matches and the bye are cleared before
  validation (`meows-selector.tsx:81-83`), so an error still clears them.
  Only the remembered bye survives an error.

## Model

| member | source | states |
|---|---|---|
| TeamNames.Trim | src/components/meows-selector.tsx:86 | The trimmed name is a contiguous slice of the input. Everything removed on either side is ECMAScript white space, and the slice neither starts nor ends with white space. |
| TeamNames.TrimIdempotent | src/components/meows-selector.tsx:86 | Trimming a trimmed name changes nothing. |
| TeamNames.TrimBlank | src/components/meows-selector.tsx:86-87 | A name trims to "" exactly when every character is white space. These are the entries the filter drops. |
| TeamNames.DropBlank | src/components/meows-selector.tsx:87 | The filter keeps exactly the non-empty entries and never lengthens the list. |
| TeamNames.NormalizeInOrder | src/components/meows-selector.tsx:85-87 | Normalisation keeps the entry order. It acts on a concatenation piece by piece, and a single entry becomes its trimmed name, or nothing when that is empty. |
| TeamNames.NormalizeEntries | src/components/meows-selector.tsx:85-87 | A name is in the normalised list if and only if it is the non-empty trimmed name of some row. Every kept name is non-empty and already trimmed. |
| TeamNames.NormalizedNonBlank | src/components/meows-selector.tsx:85-87 | No entry of the normalised list is empty. |
| TeamNames.NormalizeIdempotent | src/components/meows-selector.tsx:85-87 | Normalising an already normalised list gives it back. |
| TeamNames.NonBlankCountIsNormalizedLength | src/components/meows-selector.tsx:85-97 | The duplicate test's count of rows with a non-blank trimmed name equals the length of the normalised list. |
| TeamNames.Dedup | src/components/meows-selector.tsx:96 | Set de-duplication keeps exactly the same names, never repeats one and never lengthens the list. |
| TeamNames.DedupOfDistinct | src/components/meows-selector.tsx:96 | A list without repeats passes through the Set unchanged, order included. |
| TeamNames.DedupKeepsLengthIffDistinct | src/components/meows-selector.tsx:96-97 | De-duplication keeps the length if and only if no name occurs twice. So the length comparison detects exactly the repeated names. |
| Shuffle.Draws | src/components/meows-selector.tsx:119 | Each draw at index i lies in [0, i]. |
| Shuffle.DrawsCoverEveryChoice | src/components/meows-selector.tsx:119 | Every sequence of draws in range comes from some random source. |
| Shuffle.Swap | src/components/meows-selector.tsx:120 | The destructuring swap exchanges the two positions, leaves every other position alone and keeps the multiset. |
| Shuffle.ShuffleFrom | src/components/meows-selector.tsx:118-121 | The loop state with k indices still to visit: the length and the multiset are kept, and positions from k on are untouched. |
| Shuffle.ShuffledIsPermutation | src/components/meows-selector.tsx:118-121 | For every choice of draws, the shuffle is a permutation of its input: same length, same multiset, same members. |
| Shuffle.ShuffleInPlace | src/components/meows-selector.tsx:118-121 | The in-place loop leaves the array equal to `Shuffled` of its old contents, with the same multiset. |
| Shuffle.EveryArrangementReachable | src/components/meows-selector.tsx:118-121 | For every rearrangement t of the input, some valid draws make the shuffle produce exactly t. |
| Pairing.PairUp | src/components/meows-selector.tsx:123-128 | The pairing loop returns `Pairs` of the array. That is the pair (a[i], a[i+1]) for every even i whose partner exists and is non-empty. |
| Pairing.PairsOfNamed | src/components/meows-selector.tsx:124-128 | On non-empty names there are ⌊n/2⌋ matches. Match k is (s[2k], s[2k+1]), and the matches give back the list without its odd last name. |
| Pairing.PairsDrawFromList | src/components/meows-selector.tsx:124-128 | The matches never invent or repeat a name: their names form a sub-multiset of the list. |
| Round.ByeHint | src/components/meows-selector.tsx:108 | `previousByeTeam \|\| undefined`: the hint is absent exactly when nothing, or "", is remembered. Otherwise it is the remembered name. |
| Round.ErrorsExactly | src/components/meows-selector.tsx:85-132 | Each of the three error messages is produced if and only if its condition holds. The conditions are too few names, repeated names among at least two, and a failing selector on an odd count. No error occurs exactly when none applies. On every error there are no matches and no bye, and the remembered bye is kept. |
| Round.GenerateOnValid | src/components/meows-selector.tsx:85-112 | Past validation, the normalised list is a valid roster, and the round is decided on it as is. |
| Round.EvenRound | src/components/meows-selector.tsx:113-128 | Even count: no error, no bye, the remembered bye cleared, n/2 matches, and every team in exactly one match. |
| Round.OddRound | src/components/meows-selector.tsx:105-128 | Odd count with an answer: the selector's team is shown and remembered as the bye. The matches draw only on its `updatedTeams` and number half of that list when it has no empty name. |
| Round.PartitionWithBye | src/components/meows-selector.tsx:105-128 | Odd count with a well-formed answer: the matches plus the bye hold every team exactly once, in ⌊n/2⌋ matches. |
| Round.RoundPartitionsTeams | src/components/meows-selector.tsx:85-129 | For valid input and a well-formed answer: no error, every team either the bye or in exactly one match, a bye if and only if the count is odd, and ⌊n/2⌋ matches. |
| Round.FullyPaired | src/components/meows-selector.tsx:117-128 | Shuffling and pairing an even list of non-empty names uses every name exactly once, in n/2 matches. |
| Round.UncheckedReplyBreaksPartition | src/components/meows-selector.tsx:106-112 | When the selector returns the bye team still inside `updatedTeams`, the bye team also plays, the third team is left out and the partition fails. The code adopts the answer unchecked. |
| Round.EveryPairingReachable | src/components/meows-selector.tsx:117-128 | With an even count, every ordering of the teams is the flattened list of matches for some random source. |
| Selector.WithoutId | src/components/meows-selector.tsx:61 | `filter(team => team.id !== id)` keeps exactly the rows whose id differs and never lengthens the roster. |
| Selector.WithoutIdInOrder | src/components/meows-selector.tsx:61 | The filter works row by row and keeps the order of the remaining rows. |
| Selector.WithoutIdKeepsDistinctIds | src/components/meows-selector.tsx:61 | Removal keeps the ids distinct. |
| Selector.RemoveOneRow | src/components/meows-selector.tsx:59-63 | With distinct ids, removal deletes exactly the one row carrying the id and changes nothing when no row carries it. |
| Selector.RenameOnlyThatRow | src/components/meows-selector.tsx:65-69 | Renaming keeps the length, the order and every id. It renames the rows carrying the id and leaves every other row unchanged. |
| Selector.MeowsSelector.constructor | src/components/meows-selector.tsx:33-39 | The initial state: one empty row with id 1, next id 2, nothing shown, no bye remembered. |
| Selector.MeowsSelector.AddTeam | src/components/meows-selector.tsx:54-57 | Appends an empty row with the next id and increments the counter. The roster stays non-empty with distinct ids below the counter. |
| Selector.MeowsSelector.RemoveTeam | src/components/meows-selector.tsx:59-63 | Filters out the row with the id unless it is the only row. The invariant is kept. |
| Selector.MeowsSelector.TeamNameChange | src/components/meows-selector.tsx:65-69 | Replaces the roster with its renamed version. The invariant is kept. |
| Selector.MeowsSelector.GeneratePairings | src/components/meows-selector.tsx:79-136 | The matches, bye, remembered bye and error it leaves are exactly `Round.Generate` of the typed names and the old remembered bye. |
| Selector.MeowsSelector.PlayRound | src/components/meows-selector.tsx:104-135 | The `try` block, run on the validated list, leaves exactly `Round.SettleByeAndPair`. It settles the bye, shuffles an array in place and pairs. |

## Left out

- The bye selector (`src/ai/flows/assign-bye.ts`) is a call to a text-generation service. It is a parameter here. Its fairness policy (avoid giving the previous bye team the bye again) is the service's concern, and nothing in the component enforces it.
- `src/ai/flows/generate-pairings.ts` and `src/app/page.tsx` are not part of this model. The component does not call the pairing flow, and the page only renders the component.
- `Math.random()` and its floating-point arithmetic are replaced by draws in range. Uniformity is a probabilistic statement. The model proves only that every draw sequence and every arrangement is reachable, not that they are equally likely.
- The asynchronous `await`, the `isLoading` flag, `console.error`, the focus effect, the Enter-key handler and all JSX rendering are left out.
- React's deferred state updates and stale closures are not modelled. Each handler is one atomic step on the current state.
- A selector that throws and one that returns `undefined` are merged into `Unavailable`. The latter makes `byeResult.byeTeam` throw inside the same `try`, so both give the same outcome.
- Selector.MeowsSelector.AddTeam: the id counter is an unbounded integer. JavaScript numbers lose precision above 2^53, which no form reaches.
- Selector.MeowsSelector.GeneratePairings: its own `ensures` does not repeat that an error keeps the remembered bye. That follows from its tie to `Round.Generate` and `Round.ErrorsExactly`.
- Round.OddRound: for an arbitrary answer it bounds the matches by the selector's list, not by the roster. The code does not check the answer, so no stronger statement holds.
