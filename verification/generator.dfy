/**
 * The generator's driver: the configuration checks that decide whether it
 * runs at all, the round-robin choice of character card, one question and
 * answer cycle, and the loop that repeats cycles until the caller's counter
 * reaches the target.
 */
module Generator {
  import opened Wrappers
  import opened Text
  import opened Words
  import opened Questions
  import opened Responses
  import opened Transcript

  /** A character card as loaded from its JSON file. */
  datatype Card = Card(name: string, description: string, stayInCharacter: string)

  /**
   * The `gtkm` instructor configuration. `None` in an option field stands
   * for a missing key (or `null`); the whole configuration is `None` when it
   * is missing or empty.
   */
  datatype Conf = Conf(count: Option<int>, questionCount: Option<int>, maxPromptWords: Option<int>)

  /** The values the loop runs with. */
  datatype Settings = Settings(count: int, questionCount: int, maxPromptWords: int)

  const DefaultQuestionCount: int := 20
  const DefaultMaxPromptWords: int := 2500

  /** Python's `x or default` on an optional integer: missing and zero both fall back. */
  function OrDefault(x: Option<int>, default: int): int {
    if x.Some? && x.value != 0 then x.value else default
  }

  /**
   * The early returns ahead of the loop. `defaultCount` is the instructor's
   * default, `characterConfigured` says whether a non-empty `character`
   * configuration exists, and `cards` are the loaded cards. `None` is the
   * generator returning without yielding anything.
   */
  function Setup(gtkm: Option<Conf>, defaultCount: int, characterConfigured: bool, cards: seq<Card>): (s: Option<Settings>)
    ensures s.Some? <==>
              gtkm.Some? && characterConfigured && cards != []
              && (if gtkm.value.count.Some? then gtkm.value.count.value else defaultCount) != 0
    ensures s.Some? ==>
              && s.value.count != 0
              && s.value.questionCount != 0
              && s.value.maxPromptWords != 0
              && (gtkm.value.count.Some? ==> s.value.count == gtkm.value.count.value)
              && (gtkm.value.count.None? ==> s.value.count == defaultCount)
    ensures s.Some? ==> var q := gtkm.value.questionCount;
              && (q.Some? && q.value != 0 ==> s.value.questionCount == q.value)
              && (q.None? || q.value == 0 ==> s.value.questionCount == DefaultQuestionCount)
    ensures s.Some? ==> var w := gtkm.value.maxPromptWords;
              && (w.Some? && w.value != 0 ==> s.value.maxPromptWords == w.value)
              && (w.None? || w.value == 0 ==> s.value.maxPromptWords == DefaultMaxPromptWords)
  {
    match gtkm
    case None => None
    case Some(conf) =>
      var count := if conf.count.Some? then conf.count.value else defaultCount;
      if count == 0 then None
      else if !characterConfigured then None
      else if cards == [] then None
      else Some(Settings(count, OrDefault(conf.questionCount, DefaultQuestionCount),
                         OrDefault(conf.maxPromptWords, DefaultMaxPromptWords)))
  }

  /** The persona preamble: the role line, the description and the stay-in-character note, one per line. */
  function BaseSystem(card: Card): string {
    Join("\n", [RoleLine + card.name, card.description, card.stayInCharacter])
  }

  /** The words of the role line `You are to take on the role of: `, which ends on a colon and a space. */
  const RoleWords: seq<string> := ["You", "are", "to", "take", "on", "the", "role", "of"]
  const RoleLine: string := Join(" ", RoleWords) + ": "

  /** The role words, joined by spaces, are eight matches of the word pattern. */
  lemma RoleWordsCount()
    ensures Tokens(Join(" ", RoleWords)) == RoleWords
  {
    TokensOfWords(RoleWords);
  }

  /** The colon and space that close the role line add no word to the name's. */
  lemma ColonSpaceCount(name: string)
    ensures Tokens(": " + name) == Tokens(name)
  {
    NoTokensNoWords(": ");
    TokensConcat(": ", name);
  }

  /** The role line holds eight words, and the name's words follow them. */
  lemma RoleLineCount(name: string)
    ensures Count(RoleLine + name) == 8 + Count(name)
  {
    var words := Join(" ", RoleWords);
    RoleWordsCount();
    ColonSpaceCount(name);
    TokensConcat(words, ": " + name);
    assert RoleLine + name == words + (": " + name);
  }

  /**
   * The preamble's budget cost: the eight words of the role line plus the
   * words of the name, the description and the stay-in-character note.
   */
  lemma BaseSystemCount(card: Card)
    ensures Count(BaseSystem(card)) == 8 + Count(card.name) + Count(card.description) + Count(card.stayInCharacter)
  {
    var role := RoleLine + card.name;
    RoleLineCount(card.name);
    CountJoined(role, '\n', card.description);
    CountJoined(role + "\n" + card.description, '\n', card.stayInCharacter);
    var parts := [role, card.description, card.stayInCharacter];
    assert parts[..2][..1] == [role];
    assert Join("\n", parts[..2]) == role + "\n" + card.description;
    assert BaseSystem(card) == (role + "\n" + card.description) + "\n" + card.stayInCharacter;
  }

  /**
   * What the service returned for one cycle: the question batch (`None`
   * when the call gave nothing) and its replies to the asked questions, in
   * the order they were asked.
   */
  datatype Round = Round(batch: Option<string>, answers: seq<Option<string>>)

  /**
   * The `asyncio.gather` result for `asked` questions: exactly one entry per
   * question, in order, the reply given to it, or `None` for a question the
   * service gave no reply to.
   */
  function Gathered(asked: nat, replies: seq<Option<string>>): seq<Option<string>> {
    seq(asked, k requires 0 <= k < asked => if k < |replies| then replies[k] else None)
  }

  /** When the service replies once per asked question, the gathered responses are its replies, unchanged. */
  lemma GatheredAligned(replies: seq<Option<string>>)
    ensures Gathered(|replies|, replies) == replies
  {
  }

  /** How one cycle ends: abandoned on a blank batch, a yielded example, or `IndexError` on no surviving turn. */
  datatype CycleOutcome = Skipped | Emitted(example: Example) | Crashed

  /** One cycle with `card`, as a value. */
  function CycleResult(card: Card, settings: Settings, round: Round): CycleOutcome {
    match round.batch
    case None => Skipped
    case Some(text) =>
      if Strip(text) == [] then Skipped
      else
        var questions := Extract(text);
        var (user, assistant) := Filtered(questions, Gathered(|questions|, round.answers));
        match Assembled(BaseSystem(card), user, assistant, settings.maxPromptWords)
        case None => Crashed
        case Some(ex) => Emitted(ex)
  }

  /**
   * A cycle crashes exactly when the batch is usable but no answer survives
   * the filter; a blank batch is skipped whatever the answers.
   */
  lemma CycleCrashIff(card: Card, settings: Settings, round: Round)
    ensures CycleResult(card, settings, round).Crashed? <==>
              round.batch.Some? && Strip(round.batch.value) != [] && KeptIndices(Gathered(|Extract(round.batch.value)|, round.answers)) == []
    ensures CycleResult(card, settings, round).Skipped? <==>
              round.batch.None? || Strip(round.batch.value) == []
  {
    if round.batch.Some? {
      var questions := Extract(round.batch.value);
      FilteredIsKept(questions, Gathered(|questions|, round.answers));
    }
  }

  /** The index after `i`: one on, back to 0 after the last card. */
  function Next(i: nat, n: nat): (j: nat)
    requires i < n
    ensures j < n
  {
    if i + 1 == n then 0 else i + 1
  }

  /** The card index after `j` cycles from `start`. */
  function Rotated(start: nat, j: nat, n: nat): (i: nat)
    requires start < n
    ensures i < n
  {
    if j == 0 then start else Next(Rotated(start, j - 1, n), n)
  }

  /** Card rotation from `start`: the card that cycle `j` uses. */
  function CardFor(cards: seq<Card>, start: nat, j: nat): Card
    requires start < |cards|
  {
    cards[Rotated(start, j, |cards|)]
  }

  /**
   * The outcomes of running `rounds` in order from card `start`: cycle `j`
   * runs round `j` with the card the rotation has reached after `j` cycles.
   */
  function Outcomes(cards: seq<Card>, start: nat, settings: Settings, rounds: seq<Round>): seq<CycleOutcome>
    requires start < |cards|
  {
    seq(|rounds|, j requires 0 <= j < |rounds| => CycleResult(CardFor(cards, start, j), settings, rounds[j]))
  }

  /** The example an outcome yields, if any. */
  function ExampleOf(out: CycleOutcome): seq<Example> {
    if out.Emitted? then [out.example] else []
  }

  /** The examples a run of outcomes yields, in order. */
  function EmittedOf(outs: seq<CycleOutcome>): (examples: seq<Example>)
    ensures |examples| <= |outs|
  {
    if outs == [] then [] else EmittedOf(outs[..|outs| - 1]) + ExampleOf(outs[|outs| - 1])
  }

  /**
   * The generator loop from cycle `c` on, over the outcomes `outs` its
   * cycles have, `examples` being those yielded so far. Before each cycle
   * the caller's count, raised by one per yielded example, is compared
   * with `target`; the loop ends there, when the outcomes run out, or with
   * a cycle that crashes. The result is the examples yielded, the number of
   * cycles run and whether the last one crashed.
   */
  function RunFrom(outs: seq<CycleOutcome>, counter: int, target: int, c: nat, examples: seq<Example>): (r: (seq<Example>, nat, bool))
    requires c <= |outs|
    ensures c <= r.1 <= |outs|
    decreases |outs| - c
  {
    if counter + |examples| >= target || c == |outs| then (examples, c, false)
    else if outs[c].Crashed? then (examples, c + 1, true)
    else RunFrom(outs, counter, target, c + 1, examples + ExampleOf(outs[c]))
  }

  /**
   * The generator's state across cycles: the loaded cards, the settings
   * and the index of the next card.
   */
  class Gtkm {
    const cards: seq<Card>
    const settings: Settings
    var cardIndex: nat

    ghost predicate Valid()
      reads this
    {
      cards != [] && cardIndex < |cards|
    }

    /** `start` is the randomly drawn first index. */
    constructor(cards: seq<Card>, settings: Settings, start: nat)
      requires cards != [] && start < |cards|
      ensures Valid()
      ensures this.cards == cards && this.settings == settings && cardIndex == start
    {
      this.cards := cards;
      this.settings := settings;
      cardIndex := start;
    }

    /** Select the current card and move the index on by one, wrapping to 0 after the last card. */
    method NextCard() returns (card: Card)
      requires Valid()
      modifies this
      ensures Valid()
      ensures card == cards[old(cardIndex)]
      ensures cardIndex == Next(old(cardIndex), |cards|)
    {
      card := cards[cardIndex];
      cardIndex := cardIndex + 1;
      if cardIndex == |cards| {
        cardIndex := 0;
      }
    }

    /**
     * One pass of the loop body: the card advances whether or not the
     * batch is usable, and the outcome is the cycle's value.
     */
    method Cycle(round: Round) returns (out: CycleOutcome)
      requires Valid()
      modifies this
      ensures Valid()
      ensures cardIndex == Next(old(cardIndex), |cards|)
      ensures out == CycleResult(cards[old(cardIndex)], settings, round)
    {
      var card := NextCard();
      if round.batch.None? || Strip(round.batch.value) == [] {
        return Skipped;
      }
      var questions := Extract(round.batch.value);
      var responses := Gathered(|questions|, round.answers);
      var user, assistant := FilterResponses(questions, responses);
      var r, _ := Assemble(BaseSystem(card), user, assistant, settings.maxPromptWords);
      if r.None? {
        out := Crashed;
      } else {
        out := Emitted(r.value);
      }
    }

    /**
     * The loop, driven by `rounds`, the service's answers cycle by cycle.
     * `counter` is the caller's count of `gtkm` examples when the loop is
     * entered; the caller adds one per yielded example. The loop ends when
     * the counter reaches the target, when a cycle raises `IndexError`
     * (`crashed`), or when the rounds run out.
     */
    method Run(counter: int, rounds: seq<Round>) returns (examples: seq<Example>, cycles: nat, crashed: bool)
      requires Valid()
      modifies this
      ensures Valid()
      ensures (examples, cycles, crashed) ==
              RunFrom(Outcomes(cards, old(cardIndex), settings, rounds), counter, settings.count, 0, [])
      ensures cardIndex == Rotated(old(cardIndex), cycles, |cards|)
    {
      ghost var start := cardIndex;
      ghost var outs := Outcomes(cards, start, settings, rounds);
      ghost var run := RunFrom(outs, counter, settings.count, 0, []);
      examples, cycles, crashed := [], 0, false;
      while !crashed && counter + |examples| < settings.count && cycles < |rounds|
        invariant Valid()
        invariant cycles <= |rounds|
        invariant start < |cards| && cardIndex == Rotated(start, cycles, |cards|)
        invariant !crashed ==> RunFrom(outs, counter, settings.count, cycles, examples) == run
        invariant crashed ==> (examples, cycles, true) == run
      {
        assert cards[cardIndex] == CardFor(cards, start, cycles);
        var out := Cycle(rounds[cycles]);
        assert out == outs[cycles];
        RunFromStep(outs, counter, settings.count, cycles, examples);
        RotatedNext(start, cycles, |cards|);
        cycles := cycles + 1;
        if out.Crashed? {
          crashed := true;
        } else {
          examples := examples + ExampleOf(out);
        }
      }
    }
  }

  /**
   * The whole generator: the configuration checks, then, when they pass,
   * the loop from the randomly drawn card `start` with the settings they
   * give. When a check fails nothing is yielded and no cycle runs. When
   * they pass, the run is the loop over the cycle outcomes, it never takes
   * the counter past the configured count, and it stops only for a crash,
   * the end of the rounds or that count.
   */
  method Generate(gtkm: Option<Conf>, defaultCount: int, characterConfigured: bool, cards: seq<Card>,
                  start: nat, counter: int, rounds: seq<Round>)
    returns (examples: seq<Example>, cycles: nat, crashed: bool)
    requires cards != [] ==> start < |cards|
    ensures Setup(gtkm, defaultCount, characterConfigured, cards).None? ==> examples == [] && cycles == 0 && !crashed
    ensures Setup(gtkm, defaultCount, characterConfigured, cards).Some? ==>
              var settings := Setup(gtkm, defaultCount, characterConfigured, cards).value;
              && (examples, cycles, crashed) == RunFrom(Outcomes(cards, start, settings, rounds), counter, settings.count, 0, [])
              && (counter < settings.count ==> counter + |examples| <= settings.count)
              && (crashed || cycles == |rounds| || counter + |examples| >= settings.count)
  {
    var setup := Setup(gtkm, defaultCount, characterConfigured, cards);
    if setup.None? {
      return [], 0, false;
    }
    var settings := setup.value;
    var generator := new Gtkm(cards, settings, start);
    examples, cycles, crashed := generator.Run(counter, rounds);
    RunSpec(Outcomes(cards, start, settings, rounds), counter, settings.count);
  }

  lemma {:induction false} MulAtLeast(d: nat, n: nat)
    requires 1 <= d
    ensures n <= d * n
    decreases d
  {
    if d > 1 {
      MulAtLeast(d - 1, n);
      assert d * n == (d - 1) * n + n;
    }
  }

  /** Euclidean division is unique: a quotient and a remainder in range are the ones `/` and `%` give. */
  lemma DivModUnique(x: int, n: int, q: int, r: int)
    requires 0 < n && 0 <= r < n && x == q * n + r
    ensures x / n == q && x % n == r
  {
    var q', r' := x / n, x % n;
    assert q' * n + r' == q * n + r;
    if q' > q {
      MulAtLeast(q' - q, n);
    } else if q' < q {
      MulAtLeast(q - q', n);
    }
  }

  /** Moving on one card is adding one modulo the number of cards. */
  lemma NextIsMod(i: nat, n: nat)
    requires i < n
    ensures Next(i, n) == (i + 1) % n
  {
    if i + 1 == n {
      DivModUnique(i + 1, n, 1, 0);
    } else {
      DivModUnique(i + 1, n, 0, i + 1);
    }
  }

  /** Moving on one card from `(start + j) mod n` lands on `(start + j + 1) mod n`. */
  lemma RotationStep(start: nat, j: nat, n: nat)
    requires 0 < n
    ensures ((start + j) % n + 1) % n == (start + j + 1) % n
  {
    var a := start + j;
    var q, r := a / n, a % n;
    if r + 1 < n {
      DivModUnique(a + 1, n, q, r + 1);
      DivModUnique(r + 1, n, 0, r + 1);
    } else {
      DivModUnique(a + 1, n, q + 1, 0);
      DivModUnique(r + 1, n, 1, 0);
    }
  }

  /**
   * The index stays in range and advances by exactly one modulo the
   * number of cards per cycle, abandoned cycles included: after `j` cycles
   * it is `(start + j) mod n`.
   */
  lemma {:induction false} RotatedIsMod(start: nat, j: nat, n: nat)
    requires start < n
    ensures Rotated(start, j, n) == (start + j) % n
    decreases j
  {
    if j == 0 {
      DivModUnique(start, n, 0, start);
    } else {
      RotatedIsMod(start, j - 1, n);
      NextIsMod(Rotated(start, j - 1, n), n);
      RotationStep(start, j - 1, n);
    }
  }

  /** One more cycle moves the rotation on by one card. */
  lemma RotatedNext(start: nat, c: nat, n: nat)
    requires start < n
    ensures Rotated(start, c + 1, n) == Next(Rotated(start, c, n), n)
  {
  }

  /** One pass of the loop below the target: a crash ends it, any other outcome adds its example and moves on. */
  lemma RunFromStep(outs: seq<CycleOutcome>, counter: int, target: int, c: nat, examples: seq<Example>)
    requires c < |outs| && counter + |examples| < target
    ensures outs[c].Crashed? ==> RunFrom(outs, counter, target, c, examples) == (examples, c + 1, true)
    ensures !outs[c].Crashed? ==>
              RunFrom(outs, counter, target, c, examples) == RunFrom(outs, counter, target, c + 1, examples + ExampleOf(outs[c]))
  {
  }

  /** One more outcome adds the example it yields, if any. */
  lemma EmittedStep(outs: seq<CycleOutcome>, c: nat)
    requires c < |outs|
    ensures EmittedOf(outs[..c + 1]) == EmittedOf(outs[..c]) + ExampleOf(outs[c])
  {
    assert outs[..c + 1][..c] == outs[..c];
  }

  /**
   * The loop from cycle `c` yields, after the examples of the cycles before
   * it, exactly the examples of the cycles it runs.
   */
  lemma {:induction false} RunFromYields(outs: seq<CycleOutcome>, counter: int, target: int, c: nat, examples: seq<Example>)
    requires c <= |outs|
    requires examples == EmittedOf(outs[..c])
    ensures var r := RunFrom(outs, counter, target, c, examples);
      r.0 == EmittedOf(outs[..r.1])
    decreases |outs| - c
  {
    if counter + |examples| < target && c < |outs| {
      EmittedStep(outs, c);
      if !outs[c].Crashed? {
        RunFromYields(outs, counter, target, c + 1, examples + ExampleOf(outs[c]));
      }
    }
  }

  /**
   * The loop from cycle `c`, when no cycle before it crashed, reports a
   * crash exactly when its last cycle crashed, and no earlier cycle did.
   */
  lemma {:induction false} RunFromCrashesLast(outs: seq<CycleOutcome>, counter: int, target: int, c: nat, examples: seq<Example>)
    requires c <= |outs|
    requires forall j :: 0 <= j < c ==> !outs[j].Crashed?
    ensures var r := RunFrom(outs, counter, target, c, examples);
      && (r.2 <==> r.1 > 0 && outs[r.1 - 1].Crashed?)
      && forall j :: 0 <= j < r.1 - 1 ==> !outs[j].Crashed?
    decreases |outs| - c
  {
    if counter + |examples| < target && c < |outs| && !outs[c].Crashed? {
      RunFromCrashesLast(outs, counter, target, c + 1, examples + ExampleOf(outs[c]));
    }
  }

  /**
   * The loop from cycle `c` never takes the caller's count past the target
   * when it started below it, runs no cycle when it started at or above it,
   * and stops only for a crash, for the end of the outcomes or for the
   * target.
   */
  lemma {:induction false} RunFromBudget(outs: seq<CycleOutcome>, counter: int, target: int, c: nat, examples: seq<Example>)
    requires c <= |outs|
    requires counter < target ==> counter + |examples| <= target
    requires counter >= target ==> c == 0 && examples == []
    ensures var r := RunFrom(outs, counter, target, c, examples);
      && (counter < target ==> counter + |r.0| <= target)
      && (counter >= target ==> r.1 == 0)
      && (r.2 || r.1 == |outs| || counter + |r.0| >= target)
    decreases |outs| - c
  {
    if counter + |examples| < target && c < |outs| && !outs[c].Crashed? {
      RunFromBudget(outs, counter, target, c + 1, examples + ExampleOf(outs[c]));
    }
  }

  /**
   * The whole run, from the first cycle, which is what `Gtkm.Run` returns:
   * it runs rounds `0 .. cycles - 1` in order, yields exactly the examples
   * of their outcomes, crashes only on its last cycle and reports that,
   * keeps the caller's count within the target, and stops only for a
   * crash, for the end of the rounds or for the target.
   */
  lemma RunSpec(outs: seq<CycleOutcome>, counter: int, target: int)
    ensures var r := RunFrom(outs, counter, target, 0, []);
      && r.1 <= |outs|
      && r.0 == EmittedOf(outs[..r.1])
      && (r.2 <==> r.1 > 0 && outs[r.1 - 1].Crashed?)
      && (forall j :: 0 <= j < r.1 - 1 ==> !outs[j].Crashed?)
      && (counter < target ==> counter + |r.0| <= target)
      && (counter >= target ==> r.1 == 0)
      && (r.2 || r.1 == |outs| || counter + |r.0| >= target)
  {
    RunFromYields(outs, counter, target, 0, []);
    RunFromCrashesLast(outs, counter, target, 0, []);
    RunFromBudget(outs, counter, target, 0, []);
  }

  /**
   * Every card is reached: from any start index, card `c` comes up within
   * the first `n` cycles, however many of them were abandoned.
   */
  lemma RoundRobinVisits(start: nat, n: nat, c: nat)
    requires start < n && c < n
    ensures var j := (c + n - start) % n; j < n && Rotated(start, j, n) == c
  {
    var j := (c + n - start) % n;
    RotatedIsMod(start, j, n);
    if c >= start {
      DivModUnique(c + n - start, n, 1, c - start);
      DivModUnique(start + j, n, 0, c);
    } else {
      DivModUnique(c + n - start, n, 0, c + n - start);
      DivModUnique(start + j, n, 1, c);
    }
  }
}
