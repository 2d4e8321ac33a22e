# gtkm: a verified model of the "get to know me" instructor

The `gtkm` instructor of airoboros (`airoboros/instructors/gtkm.py`) writes
multi-turn role-play training examples. It picks character cards round-robin
and asks the generation service for a batch of questions for each card. It
extracts the questions with a regular expression and asks the service to
answer each one in character. The answers are filtered. A single example is
then assembled: the card's persona preamble, as many earlier question/answer
turns as fit a word budget, and the last question held out, with its answer
as the training target.

This project models the deterministic core of that generator in Dafny and
proves properties about it:

- `wrappers.dfy`: `Option`.
- `text.dfy`: the Python string operations the generator uses. These are
  `strip()` (the full `str.isspace` set), `split(sep)[0]`, `sep.join(parts)`
  and `in`.
- `words.dfy`: the nested `_count`, that is `len(re.findall(r"[\w'-]+", s))`.
- `questions.dfy`: `re.findall("QUESTION:(.*?)(?=QUESTION|$)", text, re.DOTALL)`,
  written as a scanner. It is proved equal to "one captured segment per
  occurrence of `QUESTION:`".
- `responses.dfy`: the loop that filters the gathered answers. It is a method
  proved against a recursive specification function.
- `transcript.dfy`: the word-budget loop and the emitted record. It is a
  method proved against a specification function, with the greedy cut-off
  characterised as the longest fitting run of turns.
- `generator.dfy`:
  - the configuration checks that decide whether the generator runs;
  - the card rotation, as a class whose index field is updated in place;
  - one cycle, as a method and as a value;
  - the loop, driven by the service's replies cycle by cycle and stopped by
    the caller's example counter.

Each state-changing operation is a method whose `ensures` ties its result and
new state to a specification function. The properties the source promises
are proved about those functions as lemmas.

Three behaviours of `gtkm.py` that a quick reading can miss, and that the
model keeps:

- **No surviving turn.** A cycle in which no answer survives the filter is
  not skipped. The code logs "Too few responses" (lines 108-109) and goes on;
  `user[-1]` at line 131 then raises `IndexError` and ends the generator. The
  model has an explicit `Crashed` outcome, and `Gtkm.Run` stops on it.
- **Where extraction stops.** The lookahead `(?=QUESTION|$)` at line 88 stops
  a question at `QUESTION` even without a colon, and at `$`, which without
  `MULTILINE` also matches just before a final newline.
- **Questions are not trimmed.** The captured questions keep their
  surrounding whitespace. `" What is your name?"` is stored as it is in
  `user`, and it is stripped only when rendered into the prompt (lines 125 and 131).

## Model

Source paths are relative to the repository root.

| member | source | states |
|---|---|---|
| Generator.Setup | airoboros/instructors/gtkm.py:13-44 | The generator runs exactly when a `gtkm` configuration exists, the count (the configured one, or the instructor default when the key is missing) is non-zero, a `character` configuration exists and at least one card was loaded. The run count is the configured value, or the default when the key is missing. The question count and the word budget are the configured values when present and non-zero, and otherwise 20 and 2500 (`x or default`). |
| Generator.BaseSystemCount | airoboros/instructors/gtkm.py:73-79 | The persona preamble, which the budget counts first, costs the eight words of the role line plus the words of the name, the description and the stay-in-character note. |
| Generator.RoleLineCount | airoboros/instructors/gtkm.py:75 | `You are to take on the role of: ` followed by a name counts eight words plus the words of the name. |
| Generator.Gtkm.constructor | airoboros/instructors/gtkm.py:53 | The loop starts at the given (randomly drawn) card index, which is in range. |
| Generator.Gtkm.NextCard | airoboros/instructors/gtkm.py:56-59 | Returns the current card and moves the index on by one, back to 0 after the last card. |
| Generator.NextIsMod | airoboros/instructors/gtkm.py:57-59 | One rotation step is `(i + 1) mod n`. |
| Generator.RotatedIsMod | airoboros/instructors/gtkm.py:53-59 | After `j` cycles, skipped ones included, the index is `(start + j) mod n`. |
| Generator.RoundRobinVisits | airoboros/instructors/gtkm.py:53-59 | From any start, every card comes up within the first `n` cycles. |
| Generator.Gtkm.Cycle | airoboros/instructors/gtkm.py:56-137 | One loop pass: the card advances whatever happens, and the outcome is `CycleResult` for the card that was current. |
| Generator.CycleCrashIff | airoboros/instructors/gtkm.py:70-131 | A blank or missing batch is skipped whatever the answers. Otherwise the cycle ends in `IndexError` exactly when no gathered answer survives the filter. |
| Generator.GatheredAligned | airoboros/instructors/gtkm.py:87-98 | When the service replies once per asked question, the gathered responses are exactly its replies, in order. |
| Generator.Gtkm.Run | airoboros/instructors/gtkm.py:53-139 | The loop returns what `RunFrom` gives for the cycle outcomes from the starting card, and the card index has advanced once per cycle run. |
| Generator.Generate | airoboros/instructors/gtkm.py:13-139 | The configuration checks gate the loop: when they fail nothing is yielded and no cycle runs. When they pass, the loop runs from the drawn card with the settings they give, never takes the counter past the configured count, and stops only for a crash, the end of the rounds or that count. |
| Generator.RunSpec | airoboros/instructors/gtkm.py:54-139 | The run yields exactly the examples of the first `cycles` outcomes, in order. It reports a crash only when its last cycle crashed, and no earlier cycle crashed. It never takes the counter past the target when started below it, runs nothing once the target is reached, and stops only for a crash, the end of the rounds or the target. |
| Generator.RunFromYields | airoboros/instructors/gtkm.py:132-137 | From any cycle on, the examples yielded are those already yielded followed by the examples of the cycles run. |
| Generator.RunFromCrashesLast | airoboros/instructors/gtkm.py:131 | A crash is reported exactly when the last cycle run crashed, and no earlier one did. |
| Generator.RunFromBudget | airoboros/instructors/gtkm.py:54-139 | The counter check before each cycle keeps counter plus yielded examples within the target, and the loop stops only for a crash, the end of the rounds or the target. |
| Questions.ExtractIsPerMarker | airoboros/instructors/gtkm.py:88 | `findall` returns one question per occurrence of `QUESTION:`, in order, each the untrimmed text after that marker up to the lookahead. |
| Questions.ExtractFromMarkers | airoboros/instructors/gtkm.py:88 | The scanner resumed at any position captures after exactly the markers that remain from there. |
| Questions.ExtractEmptyIff | airoboros/instructors/gtkm.py:88 | No questions exactly when the batch contains no `QUESTION:`. |
| Questions.ExtractedHaveNoKeyword | airoboros/instructors/gtkm.py:88 | No extracted question contains `QUESTION`: the lazy group stops before the first one. |
| Questions.NextMarkerIsFirst | airoboros/instructors/gtkm.py:88 | The search finds the first `QUESTION:` at or after the resume point, and finds none only when there is none. |
| Questions.SegmentEndIsFirstStop | airoboros/instructors/gtkm.py:88 | The lazy group ends at the first position where the lookahead holds: `QUESTION` follows, the text ends, or only a final newline remains. |
| Responses.KeepAnswer | airoboros/instructors/gtkm.py:101-105 | A kept answer is non-empty and contains no `REMINDER:`. |
| Responses.KeepAnswerIff | airoboros/instructors/gtkm.py:101-105 | An answer is kept exactly when it is present and its stripped text before the first `REMINDER:` is non-empty; that text, already stripped, is what is kept. |
| Responses.KeptIndices | airoboros/instructors/gtkm.py:100-107 | The kept indices are exactly the usable answers, in increasing order. |
| Responses.FilteredIsKept | airoboros/instructors/gtkm.py:100-107 | The filter's two lists are aligned and as long as the kept indices. Entry `k` is the unmodified question at the `k`-th kept index beside its cut, stripped answer. |
| Responses.FilterResponses | airoboros/instructors/gtkm.py:99-107 | The filter loop leaves in `user` and `assistant` exactly what `Filtered` specifies. |
| Words.TokensAreWords | airoboros/instructors/gtkm.py:114-115 | Every match of `[\w'-]+` is a non-empty run of word characters, apostrophes and hyphens. |
| Words.WordIsOneToken | airoboros/instructors/gtkm.py:114-115 | A text that is a single run of `[\w'-]` is found as exactly one match, the whole text. |
| Words.TokensOfWords | airoboros/instructors/gtkm.py:114-115 | Words joined by single spaces are found one match each, in order, so `_count` of such a text is the number of words. |
| Words.RunIsMaximal | airoboros/instructors/gtkm.py:115 | The greedy `+` takes token characters and stops at a non-token character or at the end. |
| Words.TokensConcat | airoboros/instructors/gtkm.py:114-115 | The words of `a + b` are those of `a` followed by those of `b` when no word straddles the seam. |
| Words.CountJoined | airoboros/instructors/gtkm.py:114-115 | `_count(a + sep + b) == _count(a) + _count(b)` for any separator that is not a word character. |
| Words.CountStrip | airoboros/instructors/gtkm.py:114-115 | Stripping whitespace never changes the word count. |
| Transcript.AdmitIsLongestFit | airoboros/instructors/gtkm.py:117-130 | The admitted turns are the longest oldest-first run whose running total never exceeds the limit (reaching it exactly is allowed), and one more turn would exceed it. |
| Transcript.AdmitMonotone | airoboros/instructors/gtkm.py:120-121 | Raising `max_prompt_words` never admits fewer turns. |
| Transcript.BudgetKept | airoboros/instructors/gtkm.py:117-130 | The held-out turn is never admitted, and preamble plus admitted turns stay within the budget unless no turn was admitted. |
| Transcript.Assemble | airoboros/instructors/gtkm.py:117-137 | The budget loop and the record equal `Assembled`; the result is the `IndexError` case exactly when there are no turns. The final `word_count` is the preamble's words plus those of the admitted turns (each a question and its answer), and it exceeds `max_prompt_words` only when the preamble alone does. |
| Transcript.AssembledShape | airoboros/instructors/gtkm.py:131-137 | Every emitted record has category `gtkm` and the verbatim flag set. Its instruction opens with the stripped preamble and a newline and ends with the held-out question and an empty `ASSISTANT: ` line. Its response is the held-out answer, stripped. |
| Text.StripEmptyIffBlank | airoboros/instructors/gtkm.py:70 | `not s.strip()` holds exactly when `s` is all whitespace. |
| Text.StripIdempotent | airoboros/instructors/gtkm.py:103 | Stripping twice is stripping once (so a kept answer is unchanged by the `.strip()` at rendering). |
| Text.StripIsSlice | airoboros/instructors/gtkm.py:103 | `strip()` removes exactly the leading and trailing whitespace: the result is a slice with whitespace before and after it and none at its ends. |
| Text.BeforeFirstSpec | airoboros/instructors/gtkm.py:103 | `split("REMINDER:")[0]` is a prefix without `REMINDER:` that ends at the end of the text or where `REMINDER:` first occurs. |
| Text.JoinEndsWithLast | airoboros/instructors/gtkm.py:134 | `"\n".join(parts)` ends with the last part. |

## Left out

- Card loading (directory creation, globbing, JSON parsing) is left out. The cards are a parameter, and `Setup` takes "a `character` configuration exists" and the loaded list as inputs.
- Prompt templates, `RULES`, the system prompt and `api_params` only shape what is sent to the service. The service is outside the model, so they are left out.
- The generation service is represented by its results. Each `Round` holds the question batch and the per-question replies, and `Gathered` gives exactly one response per asked question. The service's concurrency and the ordering `asyncio.gather` guarantees are assumed, not modelled.
- The random starting index is a parameter of `Gtkm.constructor`.
- Logging, including the "Too few responses" warning, is left out. The warning does not change control flow.
- The caller's increment of `instructor_counts["gtkm"]` (one per yielded example) is modelled as `counter + |examples|`. No other writer to the counter is modelled.
- The loop is driven by a finite list of rounds, so `Gtkm.Run` also stops when they run out. The source loops for as long as the service answers.
- Words.IsWordChar: `\w` is restricted to ASCII letters, digits and underscore. Python's Unicode word characters are not modelled, so `_count` on non-ASCII letters differs.
- Setup: `count` and the other settings are taken as integers. Python truthiness of other value types (strings, floats) is not modelled.
