/** The state of one game of the hidden word finder and its four transitions:
    a new game, a submitted guess, one step of the countdown and an edit of the
    input text. Each transition is a function from the old state to the new
    one; the class in module Game performs the same updates field by field. */
module Session {
  import opened Puzzle

  /** The five target words hidden in every puzzle. */
  const Words: seq<string> := ["DOG", "CAT", "BIRD", "FISH", "LION"]

  /** Length of the random letter string of a new game. */
  const PuzzleLength: nat := 50

  /** Seconds on the clock at the start of a game. */
  const GameSeconds: int := 60

  const Congratulations: string := "Congratulations! You found all the words!"
  const AlreadyFound: string := "You already found this word"
  const NotInList: string := "Sorry, that word is not in the list"
  const TimesUp: string := "Time's up! Game over."

  /** The message for a newly found word, which names the word. */
  function FoundMessage(word: string): (m: string)
    ensures |m| == |word| + 19 && m[18..18 + |word|] == word
    ensures m[..18] == "Great! You found \"" && m[|m| - 1] == '"'
  {
    "Great! You found \"" + word + "\""
  }

  /** The target words as a set. */
  function WordSet(): set<string> {
    set w | w in Words
  }

  lemma WordSetSize()
    ensures |WordSet()| == |Words| == 5
  {
    WordSetIs();
  }

  lemma WordSetIs()
    ensures WordSet() == {"DOG", "CAT", "BIRD", "FISH", "LION"}
  {
  }

  lemma {:induction false} SubsetCardLe<T>(a: set<T>, b: set<T>)
    requires a <= b
    ensures |a| <= |b|
    decreases b
  {
    if b != {} {
      var y :| y in b;
      SubsetCardLe(a - {y}, b - {y});
    }
  }

  /** A set of found words is complete exactly when it has as many words as
      the target list. */
  lemma AllFoundIffCount(found: set<string>)
    requires found <= WordSet()
    ensures found == WordSet() <==> |found| == |Words|
  {
    WordSetSize();
    if |found| == |Words| {
      if WordSet() - found != {} {
        var x :| x in WordSet() - found;
        SubsetCardLe(found, WordSet() - {x});
        assert false;
      }
      forall x | x in WordSet()
        ensures x in found
      {
        assert x !in WordSet() - found;
      }
    }
    if found == WordSet() {
      assert |found| == |WordSet()|;
    }
  }

  // ---------------------------------------------------------------------
  // Upper-casing of the guess

  predicate IsLowerLetter(c: char) {
    'a' <= c <= 'z'
  }

  /** The upper-case form of one character: a lower-case ASCII letter becomes
      its capital, 32 code points lower; every other character stays. */
  function UpperChar(c: char): (u: char)
    ensures IsUpperLetter(u) <==> IsUpperLetter(c) || IsLowerLetter(c)
    ensures IsLowerLetter(c) ==> u as int + 32 == c as int
    ensures !IsLowerLetter(c) ==> u == c
    ensures !IsLowerLetter(u)
  {
    if IsLowerLetter(c) then (c as int - 32) as char else c
  }

  /** The upper-case form of a guess, on ASCII letters. */
  function ToUpper(s: string): (r: string)
    ensures |r| == |s|
    ensures forall i :: 0 <= i < |s| ==> r[i] == UpperChar(s[i])
    ensures forall i :: 0 <= i < |r| ==> !IsLowerLetter(r[i])
    ensures (forall i :: 0 <= i < |s| ==> !IsLowerLetter(s[i])) ==> r == s
  {
    seq(|s|, i requires 0 <= i < |s| => UpperChar(s[i]))
  }

  /** Upper-casing twice is upper-casing once. */
  lemma ToUpperIdempotent(s: string)
    ensures ToUpper(ToUpper(s)) == ToUpper(s)
  {
  }

  /** A word of upper-case letters is its own upper-case form, so each target
      word is matched by itself and by any mix of cases of its letters. */
  lemma ToUpperOfUpper(s: string)
    requires AllUpperLetters(s)
    ensures ToUpper(s) == s
  {
  }

  /** A guess upper-cases to an upper-case word exactly when it has the word's
      length and each of its letters is the word's letter in either case. */
  lemma ToUpperMatches(g: string, w: string)
    requires AllUpperLetters(w)
    ensures ToUpper(g) == w <==>
            |g| == |w| && forall i :: 0 <= i < |g| ==> g[i] == w[i] || g[i] == (w[i] as int + 32) as char
  {
    if ToUpper(g) == w {
      forall i | 0 <= i < |g|
        ensures g[i] == w[i] || g[i] == (w[i] as int + 32) as char
      {
        assert ToUpper(g)[i] == UpperChar(g[i]);
      }
    }
    if |g| == |w| && forall i :: 0 <= i < |g| ==> g[i] == w[i] || g[i] == (w[i] as int + 32) as char {
      forall i | 0 <= i < |g|
        ensures ToUpper(g)[i] == w[i]
      {
        assert ToUpper(g)[i] == UpperChar(g[i]);
      }
    }
  }

  // ---------------------------------------------------------------------
  // The state and its transitions

  /** The five state cells of the component: `randomString`, `foundWords`,
      `input`, `message` and `timeLeft`. */
  datatype State = State(puzzle: string, found: set<string>, input: string,
                         message: string, timeLeft: int)

  /** What holds of every state a game goes through. */
  predicate Valid(s: State) {
    s.found <= WordSet() &&
    0 <= s.timeLeft <= GameSeconds &&
    |s.puzzle| == PuzzleLength &&
    AllUpperLetters(s.puzzle)
  }

  lemma WordsFit()
    ensures Fits(Words, PuzzleLength)
    ensures forall j :: 0 <= j < |Words| ==> AllUpperLetters(Words[j])
  {
  }

  /** The puzzle of a new game: 50 random letters with the target words
      written over them. */
  function NewPuzzle(letters: seq<UnitDraw>, offsets: seq<UnitDraw>): (p: string)
    requires |letters| == PuzzleLength && |offsets| == |Words|
    ensures |p| == PuzzleLength && AllUpperLetters(p)
    ensures HiddenAt(p, Words[4], Offset(PuzzleLength, Words[4], offsets[4]))
  {
    WordsFit();
    var base := GenerateRandomString(PuzzleLength, letters);
    OverwriteUpper(base, Words, Offsets(PuzzleLength, Words, offsets));
    LastWordHidden(base, Words, offsets);
    InsertAll(base, Words, offsets)
  }

  /** `startNewGame`: the state after it, whatever the state before. */
  function NewGame(letters: seq<UnitDraw>, offsets: seq<UnitDraw>): (s: State)
    requires |letters| == PuzzleLength && |offsets| == |Words|
    ensures Valid(s)
  {
    State(NewPuzzle(letters, offsets), {}, "", "", GameSeconds)
  }

  /** `handleSubmit`: checks the upper-cased input against the target words.
      On the completing guess the second message overrides the first. */
  function Submit(s: State): (t: State)
    ensures t.puzzle == s.puzzle && t.timeLeft == s.timeLeft
    ensures Valid(s) ==> Valid(t)
  {
    var word := ToUpper(s.input);
    if word in Words && word !in s.found then
      var message := if |s.found| + 1 == |Words| then Congratulations else FoundMessage(word);
      s.(found := s.found + {word}, message := message, input := "")
    else if word in s.found then
      s.(message := AlreadyFound)
    else
      s.(message := NotInList)
  }

  /** One run of the countdown effect together with the timer it arms: while
      time is left, one second passes; at zero, the time's-up message is
      shown unless every word has been found. */
  function Tick(s: State): (t: State)
    ensures t.puzzle == s.puzzle && t.found == s.found && t.input == s.input
    ensures t.message != s.message ==> s.timeLeft <= 0 && t.message == TimesUp
    ensures 0 <= s.timeLeft ==> 0 <= t.timeLeft <= s.timeLeft
  {
    if s.timeLeft > 0 then s.(timeLeft := s.timeLeft - 1)
    else if |s.found| < |Words| then s.(message := TimesUp)
    else s
  }

  /** The input's change handler: the input becomes the text typed so far. */
  function UpdateInput(s: State, text: string): (t: State)
    ensures t.input == text
    ensures Valid(t) <==> Valid(s)
  {
    s.(input := text)
  }

  // ---------------------------------------------------------------------
  // Properties of the transitions

  /** A new game: 50 upper-case letters, nothing found, empty input and
      message, 60 seconds; the last target word is at its offset. */
  lemma NewGameState(letters: seq<UnitDraw>, offsets: seq<UnitDraw>)
    requires |letters| == PuzzleLength && |offsets| == |Words|
    ensures var s := NewGame(letters, offsets);
            Valid(s) && |s.puzzle| == 50 && s.found == {} && s.input == "" &&
            s.message == "" && s.timeLeft == 60 &&
            HiddenAt(s.puzzle, "LION", Offset(50, "LION", offsets[4]))
  {
  }

  /** When no two words' windows overlap, every target word is hidden at its
      own offset. */
  lemma NewGameHidesAllWhenApart(letters: seq<UnitDraw>, offsets: seq<UnitDraw>)
    requires |letters| == PuzzleLength && |offsets| == |Words|
    requires forall k, j :: 0 <= k < j < |Words| ==>
               Apart(Offset(PuzzleLength, Words[k], offsets[k]), Words[k],
                     Offset(PuzzleLength, Words[j], offsets[j]), Words[j])
    ensures forall k :: 0 <= k < |Words| ==>
              HiddenAt(NewGame(letters, offsets).puzzle, Words[k], Offset(PuzzleLength, Words[k], offsets[k]))
  {
    WordsFit();
    var base := GenerateRandomString(PuzzleLength, letters);
    var offs := Offsets(PuzzleLength, Words, offsets);
    forall k | 0 <= k < |Words|
      ensures HiddenAt(Overwrite(base, Words, offs), Words[k], offs[k])
    {
      WordSurvives(base, Words, offs, k);
    }
  }

  /** A guess that is a target word not yet found is added and clears the
      input; the message names it, or congratulates when it completes the set. */
  lemma SubmitNewWord(s: State)
    requires Valid(s)
    requires ToUpper(s.input) in Words && ToUpper(s.input) !in s.found
    ensures var t, w := Submit(s), ToUpper(s.input);
            t.found == s.found + {w} && t.input == "" &&
            t.message == (if t.found == WordSet() then Congratulations else FoundMessage(w)) &&
            t.puzzle == s.puzzle && t.timeLeft == s.timeLeft
  {
    var w := ToUpper(s.input);
    AllFoundIffCount(s.found + {w});
    assert |s.found + {w}| == |s.found| + 1;
  }

  /** A guess found before only changes the message. Submitting it again is
      idempotent. */
  lemma SubmitAlreadyFound(s: State)
    requires ToUpper(s.input) in s.found
    ensures Submit(s) == s.(message := AlreadyFound)
    ensures Submit(Submit(s)) == Submit(s)
  {
  }

  /** A guess that is not a target word only changes the message. */
  lemma SubmitNotInList(s: State)
    requires Valid(s)
    requires ToUpper(s.input) !in Words
    ensures Submit(s) == s.(message := NotInList)
  {
  }

  /** The found set grows by at most the guessed word, and changes exactly
      when the guess is a target word not found before. */
  lemma SubmitFoundGrowth(s: State)
    ensures var t, w := Submit(s), ToUpper(s.input);
            s.found <= t.found <= s.found + {w} &&
            (t.found != s.found <==> w in Words && w !in s.found)
  {
  }

  /** The congratulations message appears exactly when the guess completes the set. */
  lemma SubmitCongratulatesIffComplete(s: State)
    requires Valid(s) && s.found != WordSet()
    ensures Submit(s).message == Congratulations <==> Submit(s).found == WordSet()
  {
    var w := ToUpper(s.input);
    if w in Words && w !in s.found {
      SubmitNewWord(s);
      assert FoundMessage(w)[0] != Congratulations[0];
    }
  }

  /** The countdown step: time goes down by one while positive, never below
      zero; at zero the time's-up message appears unless all words are found.
      Nothing else changes. */
  lemma TickState(s: State)
    requires Valid(s)
    ensures var t := Tick(s);
            t.timeLeft == (if s.timeLeft > 0 then s.timeLeft - 1 else 0) && t.timeLeft >= 0 &&
            t.message == (if s.timeLeft == 0 && s.found != WordSet() then TimesUp else s.message) &&
            t.found == s.found && t.puzzle == s.puzzle && t.input == s.input
  {
    AllFoundIffCount(s.found);
    SubsetCardLe(s.found, WordSet());
    WordSetSize();
    assert s.found != WordSet() <==> |s.found| < |Words|;
  }

  /** Editing the input replaces it verbatim and touches nothing else. */
  lemma UpdateInputState(s: State, text: string)
    ensures var t := UpdateInput(s, text);
            t.input == text && t.found == s.found && t.puzzle == s.puzzle &&
            t.message == s.message && t.timeLeft == s.timeLeft
  {
  }

  lemma SubmitValid(s: State)
    requires Valid(s)
    ensures Valid(Submit(s))
  {
  }

  lemma TickValid(s: State)
    requires Valid(s)
    ensures Valid(Tick(s))
  {
  }

  // ---------------------------------------------------------------------
  // Sequences of events within one game

  /** What the player and the clock can do between two new games. */
  datatype Event = Guess | Second | Type(text: string)

  function Step(s: State, e: Event): State {
    match e
    case Guess => Submit(s)
    case Second => Tick(s)
    case Type(text) => UpdateInput(s, text)
  }

  function Run(s: State, events: seq<Event>): State
    decreases |events|
  {
    if events == [] then s else Run(Step(s, events[0]), events[1..])
  }

  function Guesses(events: seq<Event>): nat
    decreases |events|
  {
    if events == [] then 0 else (if events[0] == Guess then 1 else 0) + Guesses(events[1..])
  }

  /** Along any events of one game: the state stays valid, the puzzle is fixed,
      the found set only grows, by at most one word per guess, and the clock
      never goes up. */
  lemma {:induction false} RunInvariants(s: State, events: seq<Event>)
    requires Valid(s)
    ensures var t := Run(s, events);
            Valid(t) && t.puzzle == s.puzzle && s.found <= t.found &&
            |t.found| <= |s.found| + Guesses(events) && t.timeLeft <= s.timeLeft
    decreases |events|
  {
    if events != [] {
      var u := Step(s, events[0]);
      if events[0] == Guess {
        SubmitFoundGrowth(s);
        SubsetCardLe(u.found, s.found + {ToUpper(s.input)});
      }
      RunInvariants(u, events[1..]);
    }
  }

  /** n countdown steps. */
  function Ticks(s: State, n: nat): State
    decreases n
  {
    if n == 0 then s else Ticks(Tick(s), n - 1)
  }

  /** While time is left, each step takes one second off and leaves the rest. */
  lemma {:induction false} TicksCountDown(s: State, n: nat)
    requires n <= s.timeLeft
    ensures Ticks(s, n) == s.(timeLeft := s.timeLeft - n)
    decreases n
  {
    if n > 0 {
      TicksCountDown(Tick(s), n - 1);
    }
  }

  // ---------------------------------------------------------------------
  // Game scenarios

  /** A fresh game and the guess "dog": DOG is found and named, the clock untouched. */
  lemma FirstGuessScenario(letters: seq<UnitDraw>, offsets: seq<UnitDraw>)
    requires |letters| == PuzzleLength && |offsets| == |Words|
    ensures var t := Submit(UpdateInput(NewGame(letters, offsets), "dog"));
            t.found == {"DOG"} && t.message == FoundMessage("DOG") && t.timeLeft == 60
  {
    var u := UpdateInput(NewGame(letters, offsets), "dog");
    assert u.found == {} && u.timeLeft == 60;
    GuessesUpper();
    assert Words[0] == "DOG";
  }

  /** The same guess twice: the second finds it already found. */
  lemma RepeatedGuessScenario(letters: seq<UnitDraw>, offsets: seq<UnitDraw>)
    requires |letters| == PuzzleLength && |offsets| == |Words|
    ensures var s := Submit(UpdateInput(NewGame(letters, offsets), "dog"));
            var t := Submit(UpdateInput(s, "dog"));
            t.found == {"DOG"} && t.message == AlreadyFound
  {
    FirstGuessScenario(letters, offsets);
    var s := Submit(UpdateInput(NewGame(letters, offsets), "dog"));
    GuessesUpper();
    SubmitAlreadyFound(UpdateInput(s, "dog"));
  }

  function GuessAll(s: State, guesses: seq<string>): State
    decreases |guesses|
  {
    if guesses == [] then s else GuessAll(Submit(UpdateInput(s, guesses[0])), guesses[1..])
  }

  /** Guessing the five words in turn ends with all found and the congratulations. */
  lemma AllWordsScenario(letters: seq<UnitDraw>, offsets: seq<UnitDraw>)
    requires |letters| == PuzzleLength && |offsets| == |Words|
    ensures var t := GuessAll(NewGame(letters, offsets), ["dog", "cat", "bird", "fish", "lion"]);
            t.found == WordSet() && |t.found| == 5 && t.message == Congratulations
  {
    NewGameState(letters, offsets);
    AllWordsFrom(NewGame(letters, offsets));
  }

  /** The upper-case forms of the guesses. */
  function UpperSet(gs: seq<string>): set<string>
    decreases |gs|
  {
    if gs == [] then {} else {ToUpper(gs[0])} + UpperSet(gs[1..])
  }

  /** Guesses of distinct target words, none found before, are all added;
      when they complete the set, the last message is the congratulations. */
  lemma {:induction false} GuessAllNew(s: State, gs: seq<string>)
    requires Valid(s)
    requires forall i :: 0 <= i < |gs| ==> ToUpper(gs[i]) in Words && ToUpper(gs[i]) !in s.found
    requires forall i, j :: 0 <= i < j < |gs| ==> ToUpper(gs[i]) != ToUpper(gs[j])
    ensures var t := GuessAll(s, gs);
            Valid(t) && t.found == s.found + UpperSet(gs) &&
            (gs != [] && t.found == WordSet() ==> t.message == Congratulations)
    decreases |gs|
  {
    if gs != [] {
      var t := NewGuess(s, gs[0]);
      var rest := gs[1..];
      forall i | 0 <= i < |rest|
        ensures ToUpper(rest[i]) in Words && ToUpper(rest[i]) !in t.found
      {
        assert rest[i] == gs[i + 1];
        assert ToUpper(gs[0]) != ToUpper(gs[i + 1]);
      }
      forall i, j | 0 <= i < j < |rest|
        ensures ToUpper(rest[i]) != ToUpper(rest[j])
      {
        assert rest[i] == gs[i + 1] && rest[j] == gs[j + 1];
      }
      assert GuessAll(s, gs) == GuessAll(t, rest);
      assert UpperSet(gs) == {ToUpper(gs[0])} + UpperSet(rest);
      GuessAllNew(t, rest);
    }
  }

  /** One step of GuessAllNew: typing and submitting a target word not found before. */
  lemma NewGuess(s: State, g: string) returns (t: State)
    requires Valid(s) && ToUpper(g) in Words && ToUpper(g) !in s.found
    ensures t == Submit(UpdateInput(s, g)) && Valid(t)
    ensures t.found == s.found + {ToUpper(g)}
    ensures t.found == WordSet() ==> t.message == Congratulations
  {
    var u := UpdateInput(s, g);
    t := Submit(u);
    SubmitNewWord(u);
    SubmitValid(u);
  }

  lemma AllWordsFrom(s0: State)
    requires Valid(s0) && s0.found == {}
    ensures var t := GuessAll(s0, ["dog", "cat", "bird", "fish", "lion"]);
            t.found == WordSet() && |t.found| == 5 && t.message == Congratulations
  {
    var gs: seq<string> := ["dog", "cat", "bird", "fish", "lion"];
    LowerCaseGuesses(gs);
    WordSetSize();
    GuessAllNew(s0, gs);
  }

  /** The five target words typed in lower case are distinct target words once
      upper-cased, and together they are the whole set. */
  lemma LowerCaseGuesses(gs: seq<string>)
    requires gs == ["dog", "cat", "bird", "fish", "lion"]
    ensures forall i :: 0 <= i < |gs| ==> ToUpper(gs[i]) in Words
    ensures forall i, j :: 0 <= i < j < |gs| ==> ToUpper(gs[i]) != ToUpper(gs[j])
    ensures UpperSet(gs) == WordSet()
  {
    GuessesMatchWords(gs);
    WordsDistinct();
    UpperSetOfLower(gs);
    WordSetIs();
  }

  lemma GuessesMatchWords(gs: seq<string>)
    requires gs == ["dog", "cat", "bird", "fish", "lion"]
    ensures |gs| == |Words| && forall i :: 0 <= i < |gs| ==> ToUpper(gs[i]) == Words[i]
  {
  }

  lemma WordsDistinct()
    ensures forall i, j :: 0 <= i < j < |Words| ==> Words[i] != Words[j]
  {
  }

  lemma UpperSetOfLower(gs: seq<string>)
    requires gs == ["dog", "cat", "bird", "fish", "lion"]
    ensures UpperSet(gs) == {"DOG", "CAT", "BIRD", "FISH", "LION"}
  {
    GuessesUpper();
    assert gs[1..] == ["cat", "bird", "fish", "lion"];
    assert gs[2..] == ["bird", "fish", "lion"];
    assert gs[3..] == ["fish", "lion"];
    assert gs[4..] == ["lion"];
    assert UpperSet(gs[4..]) == {"LION"};
    assert UpperSet(gs[3..]) == {"FISH", "LION"};
    assert UpperSet(gs[2..]) == {"BIRD", "FISH", "LION"};
    assert UpperSet(gs[1..]) == {"CAT", "BIRD", "FISH", "LION"};
  }

  lemma GuessesUpper()
    ensures ToUpper("dog") == "DOG" && ToUpper("cat") == "CAT" && ToUpper("bird") == "BIRD"
    ensures ToUpper("fish") == "FISH" && ToUpper("lion") == "LION"
  {
  }

  /** Without guesses, 60 seconds run the clock to zero and the next run of
      the countdown effect shows the time's-up message. */
  lemma TimeoutScenario(letters: seq<UnitDraw>, offsets: seq<UnitDraw>)
    requires |letters| == PuzzleLength && |offsets| == |Words|
    ensures var s := Ticks(NewGame(letters, offsets), 60);
            s.timeLeft == 0 && s.found == {} && Tick(s).message == TimesUp
  {
    TicksCountDown(NewGame(letters, offsets), 60);
  }
}
