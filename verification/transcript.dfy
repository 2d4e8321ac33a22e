/**
 * Word-budgeted assembly of one training example from the surviving
 * question/answer turns: the budget loop, the rendered transcript and the
 * emitted record.
 */
module Transcript {
  import opened Wrappers
  import opened Text
  import opened Words

  /** The record the generator yields. */
  datatype Example = Example(category: string, instruction: string, response: string, skipPromptFormatting: bool)

  const Category: string := "gtkm"

  function Sum(xs: seq<nat>): nat
    decreases |xs|
  {
    if xs == [] then 0 else Sum(xs[..|xs| - 1]) + xs[|xs| - 1]
  }

  /** The budget cost of each turn that may be admitted: every turn but the held-out last one. */
  function PriorCosts(user: seq<string>, assistant: seq<string>): seq<nat>
    requires |user| == |assistant|
  {
    seq(if user == [] then 0 else |user| - 1, i requires 0 <= i < |user| => Count(user[i]) + Count(assistant[i]))
  }

  /**
   * Where the greedy loop stops when it reaches turn `i` with a running
   * count of `wordCount`: it admits turns oldest first and stops at the
   * first one that would push the count strictly above `limit`. From
   * `i = 0` this is the number of admitted turns.
   */
  function Admit(costs: seq<nat>, i: nat, wordCount: int, limit: int): (k: nat)
    requires i <= |costs|
    ensures i <= k <= |costs|
    decreases |costs| - i
  {
    if i == |costs| || wordCount + costs[i] > limit then i
    else Admit(costs, i + 1, wordCount + costs[i], limit)
  }

  lemma {:induction false} SumCons(c: nat, xs: seq<nat>)
    ensures Sum([c] + xs) == c + Sum(xs)
    decreases |xs|
  {
    if xs != [] {
      var ys := [c] + xs;
      assert ys[..|ys| - 1] == [c] + xs[..|xs| - 1];
      SumCons(c, xs[..|xs| - 1]);
    }
  }

  /**
   * The admitted turns are the longest run from `i` whose running total
   * never exceeds the limit: every admitted prefix fits (reaching the limit
   * exactly is allowed), and one more turn would not.
   */
  lemma {:induction false} AdmitIsLongestFit(costs: seq<nat>, i: nat, wordCount: int, limit: int)
    requires i <= |costs|
    ensures forall j :: i < j <= Admit(costs, i, wordCount, limit) ==> wordCount + Sum(costs[i..j]) <= limit
    ensures Admit(costs, i, wordCount, limit) < |costs| ==>
              wordCount + Sum(costs[i..Admit(costs, i, wordCount, limit) + 1]) > limit
    decreases |costs| - i
  {
    if i < |costs| {
      forall j | i < j <= |costs| ensures Sum(costs[i..j]) == costs[i] + Sum(costs[i + 1..j]) {
        assert costs[i..j] == [costs[i]] + costs[i + 1..j];
        SumCons(costs[i], costs[i + 1..j]);
      }
      assert Sum(costs[i + 1..i + 1]) == 0;
      if wordCount + costs[i] <= limit {
        AdmitIsLongestFit(costs, i + 1, wordCount + costs[i], limit);
      }
    }
  }

  /** Raising the limit never admits fewer turns. */
  lemma {:induction false} AdmitMonotone(costs: seq<nat>, i: nat, wordCount: int, limit1: int, limit2: int)
    requires i <= |costs| && limit1 <= limit2
    ensures Admit(costs, i, wordCount, limit1) <= Admit(costs, i, wordCount, limit2)
    decreases |costs| - i
  {
    if i < |costs| && wordCount + costs[i] <= limit1 {
      AdmitMonotone(costs, i + 1, wordCount + costs[i], limit1, limit2);
    }
  }

  /** A turn that fits is admitted and the loop goes on from the next one, `i'` with count `wordCount'`. */
  lemma AdmitStep(costs: seq<nat>, i: nat, wordCount: int, limit: int, i': nat, wordCount': int)
    requires i < |costs| && wordCount + costs[i] <= limit
    requires i' == i + 1 && wordCount' == wordCount + costs[i]
    ensures Admit(costs, i, wordCount, limit) == Admit(costs, i', wordCount', limit)
  {
  }

  lemma SumStep(costs: seq<nat>, idx: nat)
    requires idx < |costs|
    ensures Sum(costs[..idx + 1]) == Sum(costs[..idx]) + costs[idx]
  {
    assert costs[..idx + 1][..idx] == costs[..idx];
  }

  /** One admitted turn: `USER: <question>` and `ASSISTANT: <answer>` on two lines. */
  function RenderTurn(question: string, answer: string): string {
    "USER: " + Strip(question) + "\n" + "ASSISTANT: " + Strip(answer)
  }

  /** The held-out question, with an empty assistant line for the model to complete. */
  function RenderOpen(question: string): string {
    "USER: " + Strip(question) + "\n" + "ASSISTANT: "
  }

  /** The first `k` turns, rendered, oldest first. */
  function RenderPrior(user: seq<string>, assistant: seq<string>, k: nat): seq<string>
    requires k <= |user| == |assistant|
  {
    if k == 0 then [] else RenderPrior(user, assistant, k - 1) + [RenderTurn(user[k - 1], assistant[k - 1])]
  }

  /** The example the assembly yields, or `None` where indexing `user[-1]` raises `IndexError`. */
  function Assembled(baseSystem: string, user: seq<string>, assistant: seq<string>, maxPromptWords: int): Option<Example>
    requires |user| == |assistant|
  {
    if user == [] then None
    else
      var k := Admit(PriorCosts(user, assistant), 0, Count(baseSystem), maxPromptWords);
      var parts := RenderPrior(user, assistant, k) + [RenderOpen(user[|user| - 1])];
      Some(Example(Category, Strip(baseSystem) + "\n" + Join("\n", parts), Strip(assistant[|assistant| - 1]), true))
  }

  lemma AssembledUnfold(baseSystem: string, user: seq<string>, assistant: seq<string>, maxPromptWords: int, k: nat)
    requires |user| == |assistant| && user != []
    requires k == Admit(PriorCosts(user, assistant), 0, Count(baseSystem), maxPromptWords)
    ensures Assembled(baseSystem, user, assistant, maxPromptWords) ==
              Some(Example(Category, Strip(baseSystem) + "\n" + Join("\n", RenderPrior(user, assistant, k) + [RenderOpen(user[|user| - 1])]),
                           Strip(assistant[|assistant| - 1]), true))
  {
  }

  /**
   * The budget loop and the record built after it. `user` and `assistant`
   * are the filter's aligned output. With no turns the source fails on
   * `user[-1]`; that is the `None` result. `wordCount` is the loop's
   * running count when it stops: the preamble's words plus those of the
   * admitted turns, over the budget only when the preamble alone is.
   */
  method Assemble(baseSystem: string, user: seq<string>, assistant: seq<string>, maxPromptWords: int)
    returns (r: Option<Example>, wordCount: int)
    requires |user| == |assistant|
    ensures r.None? <==> user == []
    ensures r == Assembled(baseSystem, user, assistant, maxPromptWords)
    ensures var costs := PriorCosts(user, assistant);
      wordCount == Count(baseSystem) + Sum(costs[..Admit(costs, 0, Count(baseSystem), maxPromptWords)])
    ensures wordCount > maxPromptWords ==> wordCount == Count(baseSystem)
  {
    ghost var costs := PriorCosts(user, assistant);
    ghost var base := Count(baseSystem);
    var instruction: seq<string> := [];
    wordCount := Count(baseSystem);
    var idx := 0;
    while idx < |user| - 1
      invariant 0 <= idx <= |costs|
      invariant wordCount == base + Sum(costs[..idx])
      invariant idx == 0 || wordCount <= maxPromptWords
      invariant Admit(costs, 0, base, maxPromptWords) == Admit(costs, idx, wordCount, maxPromptWords)
      invariant instruction == RenderPrior(user, assistant, idx)
    {
      var nextCount := Count(user[idx]) + Count(assistant[idx]);
      assert nextCount == costs[idx];
      if wordCount + nextCount > maxPromptWords {
        break;
      }
      instruction := instruction + [RenderTurn(user[idx], assistant[idx])];
      SumStep(costs, idx);
      ghost var prevIdx, prevCount := idx, wordCount;
      wordCount := wordCount + nextCount;
      idx := idx + 1;
      AdmitStep(costs, prevIdx, prevCount, maxPromptWords, idx, wordCount);
    }
    assert idx == Admit(costs, 0, base, maxPromptWords);
    if user == [] {
      return None, wordCount;
    }
    instruction := instruction + [RenderOpen(user[|user| - 1])];
    AssembledUnfold(baseSystem, user, assistant, maxPromptWords, idx);
    r := Some(Example(Category, Strip(baseSystem) + "\n" + Join("\n", instruction), Strip(assistant[|assistant| - 1]), true));
  }

  /**
   * The shape of every emitted record: category `gtkm`, the verbatim flag
   * set, the instruction opening with the stripped preamble and always
   * closing on the held-out question with an empty assistant line, and the
   * response the held-out answer, stripped.
   */
  lemma AssembledShape(baseSystem: string, user: seq<string>, assistant: seq<string>, maxPromptWords: int)
    requires |user| == |assistant| && user != []
    ensures Assembled(baseSystem, user, assistant, maxPromptWords).Some?
    ensures var ex := Assembled(baseSystem, user, assistant, maxPromptWords).value;
      && ex.category == Category && ex.skipPromptFormatting
      && ex.response == Strip(assistant[|assistant| - 1])
      && |Strip(baseSystem) + "\n"| <= |ex.instruction|
      && ex.instruction[..|Strip(baseSystem) + "\n"|] == Strip(baseSystem) + "\n"
      && EndsWith(ex.instruction, RenderOpen(user[|user| - 1]))
  {
    var k := Admit(PriorCosts(user, assistant), 0, Count(baseSystem), maxPromptWords);
    AssembledUnfold(baseSystem, user, assistant, maxPromptWords, k);
    var parts := RenderPrior(user, assistant, k) + [RenderOpen(user[|user| - 1])];
    JoinEndsWithLast("\n", parts);
    PrependKeeps(Strip(baseSystem) + "\n", Join("\n", parts), RenderOpen(user[|user| - 1]));
  }

  /**
   * The budget the loop keeps: the held-out turn is never admitted, and the
   * preamble plus the admitted turns stays within `maxPromptWords` unless no
   * turn was admitted at all.
   */
  lemma BudgetKept(baseSystem: string, user: seq<string>, assistant: seq<string>, maxPromptWords: int)
    requires |user| == |assistant| && user != []
    ensures var k := Admit(PriorCosts(user, assistant), 0, Count(baseSystem), maxPromptWords);
      && k <= |user| - 1
      && (k == 0 || Count(baseSystem) + Sum(PriorCosts(user, assistant)[..k]) <= maxPromptWords)
  {
    var costs := PriorCosts(user, assistant);
    var k := Admit(costs, 0, Count(baseSystem), maxPromptWords);
    AdmitIsLongestFit(costs, 0, Count(baseSystem), maxPromptWords);
    assert costs[0..k] == costs[..k];
  }
}
