/**
 * The response filter of the generator: the loop over the gathered answers
 * that keeps each usable answer, cut at `REMINDER:` and stripped, beside its
 * question.
 */
module Responses {
  import opened Wrappers
  import opened Text

  const Reminder: string := "REMINDER:"

  /**
   * What the filter keeps of one gathered answer: nothing when it is missing,
   * empty or blank, otherwise its text before the first `REMINDER:`, stripped,
   * unless that is empty.
   */
  function KeepAnswer(answer: Option<string>): (kept: Option<string>)
    ensures kept.Some? ==> kept.value != [] && !Contains(kept.value, Reminder)
  {
    match answer
    case None => None
    case Some(t) =>
      if t == [] || Strip(t) == [] then None
      else
        var cut := Strip(BeforeFirst(t, Reminder));
        if cut == [] then None
        else
          assert !Contains(cut, Reminder) by {
            var pre := BeforeFirst(t, Reminder);
            BeforeFirstSpec(t, Reminder);
            var lo, hi := StripIsSlice(pre);
            SliceKeepsAbsence(pre, lo, hi, Reminder);
          }
          Some(cut)
  }

  /**
   * The blank checks ahead of the cut decide nothing on their own: an answer
   * is kept exactly when it is present and its stripped text before the
   * first `REMINDER:` is non-empty, and what is kept is that text, which is
   * already stripped.
   */
  lemma KeepAnswerIff(answer: Option<string>)
    ensures KeepAnswer(answer).Some? <==> answer.Some? && Strip(BeforeFirst(answer.value, Reminder)) != []
    ensures KeepAnswer(answer).Some? ==>
              KeepAnswer(answer).value == Strip(BeforeFirst(answer.value, Reminder))
              && Strip(KeepAnswer(answer).value) == KeepAnswer(answer).value
  {
    if answer.Some? {
      var t := answer.value;
      var pre := BeforeFirst(t, Reminder);
      BeforeFirstSpec(t, Reminder);
      StripEmptyIffBlank(t);
      StripEmptyIffBlank(pre);
      if AllSpace(t) {
        assert AllSpace(pre) by {
          forall i | 0 <= i < |pre| ensures IsSpace(pre[i]) { assert pre[i] == t[i]; }
        }
      }
      StripIdempotent(pre);
    }
  }

  /** Positions of the `true` entries, in increasing order. */
  function Positions(flags: seq<bool>): (ks: seq<nat>)
    ensures forall k :: 0 <= k < |ks| ==> ks[k] < |flags| && flags[ks[k]]
    ensures forall k, l :: 0 <= k < l < |ks| ==> ks[k] < ks[l]
    ensures forall i :: 0 <= i < |flags| && flags[i] ==> i in ks
    decreases |flags|
  {
    if flags == [] then []
    else
      var n := |flags| - 1;
      Positions(flags[..n]) + (if flags[n] then [n] else [])
  }

  /** Which gathered answers are usable. */
  function Usable(answers: seq<Option<string>>): seq<bool> {
    seq(|answers|, i requires 0 <= i < |answers| => KeepAnswer(answers[i]).Some?)
  }

  /**
   * Indices of the answers the filter keeps: exactly the usable ones, in
   * increasing order.
   */
  function KeptIndices(answers: seq<Option<string>>): (ks: seq<nat>)
    ensures forall k :: 0 <= k < |ks| ==> ks[k] < |answers| && KeepAnswer(answers[ks[k]]).Some?
    ensures forall k, l :: 0 <= k < l < |ks| ==> ks[k] < ks[l]
    ensures forall i :: 0 <= i < |answers| && KeepAnswer(answers[i]).Some? ==> i in ks
  {
    Positions(Usable(answers))
  }

  /**
   * What the filter loop leaves in `user` and `assistant`: each question
   * whose answer is kept, beside the kept text, in order.
   */
  function Filtered(questions: seq<string>, answers: seq<Option<string>>): (r: (seq<string>, seq<string>))
    requires |answers| == |questions|
    ensures |r.0| == |r.1| <= |answers|
    decreases |answers|
  {
    if answers == [] then ([], [])
    else
      var n := |answers| - 1;
      var (user, assistant) := Filtered(questions[..n], answers[..n]);
      match KeepAnswer(answers[n])
      case None => (user, assistant)
      case Some(kept) => (user + [questions[n]], assistant + [kept])
  }

  /** The kept indices of a longer list are those of its prefix, then the last index if it is kept. */
  lemma KeptIndicesStep(answers: seq<Option<string>>)
    requires answers != []
    ensures KeptIndices(answers) ==
              KeptIndices(answers[..|answers| - 1]) + (if KeepAnswer(answers[|answers| - 1]).Some? then [|answers| - 1] else [])
  {
    var n := |answers| - 1;
    assert Usable(answers)[..n] == Usable(answers[..n]);
  }

  /**
   * The filter's output, index by index: the two lists are aligned, as long
   * as the kept indices, and entry `k` is the unmodified question at the
   * `k`-th kept index beside that index's cut and stripped answer. The kept
   * indices increase, so `user` is a subsequence of `questions` in order.
   */
  lemma {:induction false} FilteredIsKept(questions: seq<string>, answers: seq<Option<string>>)
    requires |answers| == |questions|
    ensures var (user, assistant) := Filtered(questions, answers);
      && |user| == |assistant| == |KeptIndices(answers)|
      && forall k :: 0 <= k < |user| ==>
           user[k] == questions[KeptIndices(answers)[k]]
           && Some(assistant[k]) == KeepAnswer(answers[KeptIndices(answers)[k]])
    decreases |answers|
  {
    if answers != [] {
      var n := |answers| - 1;
      FilteredIsKept(questions[..n], answers[..n]);
      KeptIndicesStep(answers);
    }
  }

  /**
   * The filter loop. `answers` stands for the `asyncio.gather` result, one
   * entry per question.
   */
  method FilterResponses(questions: seq<string>, answers: seq<Option<string>>)
    returns (user: seq<string>, assistant: seq<string>)
    requires |answers| == |questions|
    ensures (user, assistant) == Filtered(questions, answers)
  {
    user, assistant := [], [];
    for idx := 0 to |answers|
      invariant (user, assistant) == Filtered(questions[..idx], answers[..idx])
    {
      assert questions[..idx + 1][..idx] == questions[..idx];
      assert answers[..idx + 1][..idx] == answers[..idx];
      if answers[idx].None? || answers[idx].value == [] || Strip(answers[idx].value) == [] {
        continue;
      }
      var response := Strip(BeforeFirst(answers[idx].value, Reminder));
      if response == [] {
        continue;
      }
      user := user + [questions[idx]];
      assistant := assistant + [response];
    }
    assert questions[..|answers|] == questions;
    assert answers[..|answers|] == answers;
  }
}
