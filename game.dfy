/** The `HiddenWordFinder` component: its five state cells as fields, updated
    one setter at a time by its event handlers. Each method is proved to leave
    the state that the matching function of module Session describes. */
module Game {
  import opened Puzzle
  import Session

  class HiddenWordFinder {
    var puzzle: string
    var found: set<string>
    var input: string
    var message: string
    var timeLeft: int

    /** The five cells as one value. */
    function State(): Session.State
      reads this
    {
      Session.State(puzzle, found, input, message, timeLeft)
    }

    ghost predicate Valid()
      reads this
    {
      Session.Valid(State())
    }

    /** Mounting the component: the initial values of the state cells, then
        the mount effect starts a new game. */
    constructor (letters: seq<UnitDraw>, offsets: seq<UnitDraw>)
      requires |letters| == Session.PuzzleLength && |offsets| == |Session.Words|
      ensures Valid() && State() == Session.NewGame(letters, offsets)
    {
      puzzle, found, input, message, timeLeft := "", {}, "", "", Session.GameSeconds;
      new;
      NewGame(letters, offsets);
    }

    /** `startNewGame` */
    method NewGame(letters: seq<UnitDraw>, offsets: seq<UnitDraw>)
      requires |letters| == Session.PuzzleLength && |offsets| == |Session.Words|
      modifies this
      ensures Valid() && State() == Session.NewGame(letters, offsets)
    {
      var base := GenerateRandomString(Session.PuzzleLength, letters);
      Session.WordsFit();
      puzzle := InsertWordsRandomly(base, Session.Words, offsets);
      found := {};
      input := "";
      message := "";
      timeLeft := Session.GameSeconds;
      Session.NewGameState(letters, offsets);
    }

    /** `handleSubmit`: the found set read by the completion test is the one
        from before the guess. */
    method Submit()
      requires Valid()
      modifies this
      ensures Valid() && State() == Session.Submit(old(State()))
    {
      var before := found;
      var word := Session.ToUpper(input);
      if word in Session.Words && word !in before {
        found := before + {word};
        message := Session.FoundMessage(word);
        input := "";
        if |before| + 1 == |Session.Words| {
          message := Session.Congratulations;
        }
      } else if word in before {
        message := Session.AlreadyFound;
      } else {
        message := Session.NotInList;
      }
      Session.SubmitValid(old(State()));
    }

    /** One run of the countdown effect with the timer it arms. */
    method Tick()
      requires Valid()
      modifies this
      ensures Valid() && State() == Session.Tick(old(State()))
    {
      if timeLeft > 0 {
        timeLeft := timeLeft - 1;
      } else if |found| < |Session.Words| {
        message := Session.TimesUp;
      }
    }

    /** The input's change handler. */
    method UpdateInput(text: string)
      requires Valid()
      modifies this
      ensures Valid() && State() == Session.UpdateInput(old(State()), text)
    {
      input := text;
    }

    /** The "Found: count/total" badge. */
    method Progress() returns (count: nat, total: nat)
      requires Valid()
      ensures total == |Session.Words| && count == |found| && count <= total
      ensures count == total <==> found == Session.WordSet()
    {
      count, total := |found|, |Session.Words|;
      Session.SubsetCardLe(found, Session.WordSet());
      Session.WordSetSize();
      Session.AllFoundIffCount(found);
    }

    /** The condition that disables the input and the submit button: the time
        is up or every word is found. */
    method IsOver() returns (over: bool)
      requires Valid()
      ensures over <==> timeLeft == 0 || found == Session.WordSet()
    {
      over := timeLeft == 0 || |found| == |Session.Words|;
      Session.AllFoundIffCount(found);
    }
  }
}
