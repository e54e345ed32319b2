# Hidden Word Finder — a Dafny model

This project models the game logic of the Hidden Word Finder page
(`src/app/page.tsx`). The page shows a string of 50 random upper-case letters
with five target words (DOG, CAT, BIRD, FISH, LION) written into it. The player
types guesses and has 60 seconds to find all five words.

The model has three modules:

- `Puzzle` (`puzzle.dfy`) is the generator. `GenerateRandomString` builds the
  random letter string. `InsertWordsRandomly` is a method with a loop, like
  the `forEach` of the source, that writes each word over the string in list
  order. Its result is the recursive function `InsertAll`. The lemmas say
  what ends up where in the puzzle.
- `Session` (`session.dfy`) holds the five state cells of the component as a
  `State` value, and one function per transition: `NewGame`, `Submit`, `Tick`
  and `UpdateInput`. It also has the invariant `Valid`, lemmas for every
  transition, lemmas for any sequence of events within one game, and the game
  scenarios.
- `Game` (`game.dfy`) is the component as a class, `HiddenWordFinder`. Its
  fields `puzzle`, `found`, `input`, `message` and `timeLeft` are set one at a
  time, as the React setters do. Each method is proved to leave exactly the
  state that the matching `Session` function gives, and to keep `Valid`.

The random source is an input. Each value of `Math.random()` is a `Draw`: a
rational number `num/den` with `num < den`, so it lies in [0, 1).
`Math.floor(r * m)` is `FloorScale(r, m)`, that is `num * m / den`. Dafny's
division by a positive divisor rounds down, as `Math.floor` does. A new game
takes 50 draws for the letters and 5 draws for the offsets.

Three points of the code decide details of the model:

- Line 19 computes `floor(r * (len - |w|))`, so the offset lies in
  `[0, len - |w| - 1]` and the last slot where the word would fit is never
  chosen (`LastSlotNeverChosen`); every other slot can be
  (`OffsetReaches`).
- The run of the countdown effect that decrements (lines 37-38) sets no
  message. The next run, which sees `timeLeft == 0`, sets it (lines 40-41).
  `Tick` is one run of the effect, so `TimeoutScenario` needs 60 ticks to
  reach zero and then a 61st to show the time's-up message.
- `handleSubmit` does not refuse a guess after the game is over. Only the
  disabled input and button do (lines 91 and 93), so `Submit` has no such
  guard either. `IsOver` states the condition that disables them.

## Model

| member | source | states |
|---|---|---|
| Puzzle.FloorScale | src/app/page.tsx:13 | `floor(r * m)` for r in [0,1) lies in [0, m) when m > 0, is 0 when m = 0, and lies in [m, 0] when m < 0 |
| Puzzle.FloorScaleReaches | src/app/page.tsx:13 | every k in [0, m) is `floor(r * m)` for some r in [0,1), namely k/m |
| Puzzle.AlphabetCharacters | src/app/page.tsx:12 | the k-th character of the alphabet string is the k-th letter after 'A' |
| Puzzle.RandomLetter | src/app/page.tsx:13 | `characters.charAt(floor(r * 26))` is an upper-case letter, the one at position floor(r * 26) of A–Z |
| Puzzle.GenerateRandomString | src/app/page.tsx:11-14 | the string has exactly `length` characters, each an upper-case letter chosen by its own draw |
| Puzzle.GenerateReachesAll | src/app/page.tsx:11-14 | every string of upper-case letters is produced by some sequence of draws |
| Puzzle.Offset | src/app/page.tsx:19 | the insertion offset is in [0, len − \|w\| − 1] when the word is shorter than the string, and 0 when the lengths are equal |
| Puzzle.LastSlotNeverChosen | src/app/page.tsx:19 | the offset len − \|w\|, the last place the word would fit, is never chosen |
| Puzzle.OffsetReaches | src/app/page.tsx:19 | every offset below len − \|w\| is chosen by some draw |
| Puzzle.InsertAt | src/app/page.tsx:20 | the slice-and-join keeps the length, puts the word at the offset and leaves every character outside that window unchanged |
| Puzzle.Offsets | src/app/page.tsx:18-19 | the offsets drawn for the words, one per word, put every word's window inside the string |
| Puzzle.Overwrite | src/app/page.tsx:18-21 | writing words one after the other at in-range offsets keeps the length of the string |
| Puzzle.InsertAll | src/app/page.tsx:16-22 | writing the words in list order, each at the offset its draw gives, keeps the length of the base string |
| Puzzle.InsertWordsRandomly | src/app/page.tsx:16-22 | the `forEach` loop over the `result` accumulator returns the words written in list order, with the length of the base string |
| Puzzle.UncoveredKept | src/app/page.tsx:18-21 | a position that no word's window covers keeps its base character |
| Puzzle.WordSurvives | src/app/page.tsx:18-21 | a word is still hidden at its offset in the final string when no later word's window overlaps it; earlier words do not matter |
| Puzzle.LastWordHidden | src/app/page.tsx:18-21 | the last word inserted always appears at its offset |
| Puzzle.OverwriteUpper | src/app/page.tsx:18-21 | writing upper-case words over an upper-case string gives an upper-case string |
| Puzzle.EarlierWordOverwritten | src/app/page.tsx:18-21 | a later word can overwrite an earlier one: CAT written over DOG at the same offset leaves no DOG there |
| Session.FoundMessage | src/app/page.tsx:59 | the success message is the text `Great! You found "`, then the found word, then a closing quote |
| Session.WordSetIs | src/app/page.tsx:9 | the target words are DOG, CAT, BIRD, FISH and LION |
| Session.WordSetSize | src/app/page.tsx:9 | the five target words are distinct, so the set of them has as many elements as the list |
| Session.AllFoundIffCount | src/app/page.tsx:61 | for a subset of the target words, having as many words as the list is the same as having all of them |
| Session.UpperChar | src/app/page.tsx:56 | a character's upper-case form is a capital letter exactly when the character is a letter of either case; a lower-case letter maps to the capital 32 code points below, every other character is kept, and no lower-case letter comes out |
| Session.ToUpper | src/app/page.tsx:56 | upper-casing keeps the length, works character by character, leaves no lower-case letter, and leaves a string without lower-case letters unchanged |
| Session.ToUpperMatches | src/app/page.tsx:56-57 | a guess matches a target word exactly when it has the word's length and each of its letters is the word's letter in upper or lower case |
| Session.ToUpperIdempotent | src/app/page.tsx:56 | upper-casing twice gives the same result as upper-casing once |
| Session.ToUpperOfUpper | src/app/page.tsx:56-57 | a string of upper-case letters, such as a target word, is its own upper-case form |
| Session.NewPuzzle | src/app/page.tsx:46-47 | the puzzle of a new game is 50 upper-case letters with the last target word, LION, at the offset its draw gives |
| Session.NewGame | src/app/page.tsx:45-52 | the state after `startNewGame`, whatever the state before, satisfies the invariant; `NewGameState` gives each field |
| Session.NewGameState | src/app/page.tsx:45-52 | a new game has a 50-letter upper-case puzzle, nothing found, empty input and message, 60 seconds, LION at its offset, and satisfies the invariant |
| Session.NewGameHidesAllWhenApart | src/app/page.tsx:45-47 | when no two offsets make the words' windows overlap, all five words are hidden at their offsets |
| Session.Submit | src/app/page.tsx:54-69 | a guess never changes the puzzle or the clock and keeps the invariant; `SubmitNewWord`, `SubmitAlreadyFound` and `SubmitNotInList` give its three outcomes |
| Session.SubmitNewWord | src/app/page.tsx:56-63 | a target word not yet found is added and the input is cleared; the message names the word, or is the congratulations when the found set becomes complete; puzzle and clock are unchanged |
| Session.SubmitAlreadyFound | src/app/page.tsx:64-65 | a guess already found changes only the message, to the already-found text; submitting it again changes nothing |
| Session.SubmitNotInList | src/app/page.tsx:66-68 | a guess that is not a target word changes only the message, to the not-in-list text |
| Session.SubmitFoundGrowth | src/app/page.tsx:57-58 | the found set grows by at most the guessed word, and it changes if and only if the guess is a target word not found before |
| Session.SubmitCongratulatesIffComplete | src/app/page.tsx:59-62 | in a game not yet won, the message after a guess is the congratulations if and only if the guess completes the found set |
| Session.SubmitValid | src/app/page.tsx:54-69 | a guess keeps the found set inside the target words and keeps the rest of the invariant |
| Session.Tick | src/app/page.tsx:36-43 | one run of the countdown effect keeps the puzzle, the found set and the input, only ever sets the time's-up message and only at zero, and never raises the time or takes it below 0; `TickState` gives each field |
| Session.TickState | src/app/page.tsx:36-43 | the countdown decrements the time by 1 only while it is positive, and never below 0; at 0 the message becomes time's-up unless all words are found; nothing else changes |
| Session.TickValid | src/app/page.tsx:36-43 | the countdown step keeps the invariant |
| Session.UpdateInput | src/app/page.tsx:89 | the input becomes the typed text, and the state is valid afterwards exactly when it was before |
| Session.UpdateInputState | src/app/page.tsx:89 | the input update replaces the input verbatim and changes nothing else |
| Session.RunInvariants | src/app/page.tsx:36-69 | across any guesses, countdown steps and input edits in one game: the invariant holds, the puzzle is fixed, the found set only grows, by at most one word per guess, and the time never goes up |
| Session.TicksCountDown | src/app/page.tsx:37-38 | n countdown steps with at least n seconds left take off exactly n seconds and change nothing else |
| Session.FirstGuessScenario | src/app/page.tsx:54-63 | in a new game, the guess "dog" finds DOG, names it in the message, and leaves 60 seconds |
| Session.RepeatedGuessScenario | src/app/page.tsx:64-65 | guessing "dog" twice leaves DOG as the only found word and gives the already-found message |
| Session.GuessAllNew | src/app/page.tsx:57-63 | guessing distinct target words that were not found before adds all of them; when they complete the set, the last message is the congratulations |
| Session.AllWordsScenario | src/app/page.tsx:57-63 | in a new game, guessing the five words in lower case finds all five and ends with the congratulations |
| Session.TimeoutScenario | src/app/page.tsx:36-43 | in a new game without guesses, 60 countdown steps bring the time to 0 and the next step shows the time's-up message |
| Game.HiddenWordFinder.constructor | src/app/page.tsx:26-34 | mounting the component sets the initial cells, then starts a new game; the state is then the new-game state |
| Game.HiddenWordFinder.NewGame | src/app/page.tsx:45-52 | sets the five cells to the new-game state, whatever they held before |
| Game.HiddenWordFinder.Submit | src/app/page.tsx:54-69 | the setters leave the state `Session.Submit` gives and keep the invariant; the completion test reads the found set from before the guess |
| Game.HiddenWordFinder.Tick | src/app/page.tsx:36-43 | the effect leaves the state `Session.Tick` gives and keeps the invariant |
| Game.HiddenWordFinder.UpdateInput | src/app/page.tsx:89 | the change handler leaves the state `Session.UpdateInput` gives and keeps the invariant |
| Game.HiddenWordFinder.Progress | src/app/page.tsx:79 | the badge shows the found count out of 5; the count never exceeds 5 and equals 5 exactly when all words are found |
| Game.HiddenWordFinder.IsOver | src/app/page.tsx:91-93 | the controls are disabled exactly when the time is 0 or every target word is found |

## Left out

- Rendering: the JSX, the `Card`, `Badge`, `Button` and `Input` components, and the form's `preventDefault`. They only display state.
- React scheduling: `useState`, `useEffect`, batching, and the `setTimeout`/`clearTimeout` timer handle. `Tick` is one run of the countdown effect, with the one-second timer it arms, taken as a single step.
- The countdown effect also runs again when `foundWords` changes. While time is left, that only restarts the current second. At zero it sets the time's-up message again. Neither changes the state beyond what `Tick` already does, so the model does not reproduce that extra run.
- `Math.random` and floating point. Each random value is a supplied rational draw in [0, 1), and rounding errors of the floating-point product are not modelled.
- Session.ToUpper: does not model full Unicode `toUpperCase`, only ASCII letters, because Dafny has no Unicode case mapping here. Some non-ASCII characters upper-case to ASCII letters (for example the dotless ı to I), so in the source such a guess could match a word that the model does not match.
- JavaScript `Set` cloning is not modelled; `foundWords` is a Dafny `set<string>`.
- Puzzle.InsertAll: requires every word to fit into the base string, which holds for the five words and 50 letters of the game. A longer word would make the JavaScript `slice` count from the end of the string, and that case is not modelled.
