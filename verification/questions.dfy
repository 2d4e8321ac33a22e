/**
 * Question extraction: `re.findall("QUESTION:(.*?)(?=QUESTION|$)", response, re.DOTALL)`
 * written out as a scanner.
 *
 * A match starts at each literal `QUESTION:`; the lazy group then grows one
 * character at a time until the lookahead holds: `QUESTION` (no colon needed)
 * follows, or `$` holds, which without MULTILINE means end of text or just
 * before a final newline. `findall` resumes where the match ended, and the
 * captured segments are returned untrimmed.
 */
module Questions {
  import opened Wrappers
  import opened Text

  const Marker: string := "QUESTION:"
  const Keyword: string := "QUESTION"

  /** The lookahead `(?=QUESTION|$)` holds at position `j`. */
  predicate StopsAt(s: string, j: nat)
    requires j <= |s|
  {
    OccursAt(s, Keyword, j) || j == |s| || (j + 1 == |s| && s[j] == '\n')
  }

  /** Where the lazy group that starts at `i` ends: the first position at or after `i` where the lookahead holds. */
  function SegmentEnd(s: string, i: nat): (e: nat)
    requires i <= |s|
    ensures i <= e <= |s|
    decreases |s| - i
  {
    if StopsAt(s, i) then i else SegmentEnd(s, i + 1)
  }

  /** The lazy group ends at the first position where the lookahead holds. */
  lemma {:induction false} SegmentEndIsFirstStop(s: string, i: nat)
    requires i <= |s|
    ensures StopsAt(s, SegmentEnd(s, i))
    ensures forall j :: i <= j < SegmentEnd(s, i) ==> !StopsAt(s, j)
    decreases |s| - i
  {
    if !StopsAt(s, i) {
      SegmentEndIsFirstStop(s, i + 1);
    }
  }

  /** The first `QUESTION:` at or after `i`, if any: where the regex search next succeeds. */
  function NextMarker(s: string, i: nat): (p: Option<nat>)
    requires i <= |s|
    ensures p.Some? ==> i <= p.value && p.value + |Marker| <= |s|
    decreases |s| - i
  {
    if i == |s| then None
    else if OccursAt(s, Marker, i) then Some(i)
    else NextMarker(s, i + 1)
  }

  /** The search finds the first `QUESTION:` at or after `i`, and finds none only when there is none. */
  lemma {:induction false} NextMarkerIsFirst(s: string, i: nat)
    requires i <= |s|
    ensures NextMarker(s, i).Some? ==> OccursAt(s, Marker, NextMarker(s, i).value)
    ensures NextMarker(s, i).Some? ==> forall j :: i <= j < NextMarker(s, i).value ==> !OccursAt(s, Marker, j)
    ensures NextMarker(s, i).None? ==> forall j :: i <= j ==> !OccursAt(s, Marker, j)
    decreases |s| - i
  {
    if i < |s| && !OccursAt(s, Marker, i) {
      NextMarkerIsFirst(s, i + 1);
    }
  }

  /** The captured group of the match whose `QUESTION:` sits at `p`. */
  function QuestionAt(s: string, p: nat): string
    requires p + |Marker| <= |s|
  {
    s[p + |Marker|..SegmentEnd(s, p + |Marker|)]
  }

  /** `findall` resumed at position `i`. */
  function ExtractFrom(s: string, i: nat): seq<string>
    requires i <= |s|
    decreases |s| - i
  {
    match NextMarker(s, i)
    case None => []
    case Some(p) =>
      var e := SegmentEnd(s, p + |Marker|);
      [s[p + |Marker|..e]] + ExtractFrom(s, e)
  }

  /** The questions found in a question-batch response. */
  function Extract(s: string): seq<string> {
    ExtractFrom(s, 0)
  }

  /** Every position of `QUESTION:` at or after `i`, in increasing order (the reference the scanner is checked against). */
  function MarkersFrom(s: string, i: nat): (ps: seq<nat>)
    requires i <= |s|
    ensures forall k :: 0 <= k < |ps| ==> i <= ps[k] && OccursAt(s, Marker, ps[k])
    ensures forall k, l :: 0 <= k < l < |ps| ==> ps[k] < ps[l]
    ensures forall j :: i <= j && OccursAt(s, Marker, j) ==> j in ps
    decreases |s| - i
  {
    if i == |s| then []
    else (if OccursAt(s, Marker, i) then [i] else []) + MarkersFrom(s, i + 1)
  }

  /** Positions without a marker contribute nothing. */
  lemma {:induction false} MarkersSkip(s: string, i: nat, j: nat)
    requires i <= j <= |s|
    requires forall k :: i <= k < j ==> !OccursAt(s, Marker, k)
    ensures MarkersFrom(s, i) == MarkersFrom(s, j)
    decreases j - i
  {
    if i < j {
      MarkersSkip(s, i + 1, j);
    }
  }

  /** A marker begins with `Q` and with the keyword `QUESTION`. */
  lemma MarkerShape(s: string, k: nat)
    ensures OccursAt(s, Marker, k) ==> s[k] == 'Q' && OccursAt(s, Keyword, k)
  {
    if OccursAt(s, Marker, k) {
      assert s[k] == s[k..k + |Marker|][0];
      assert s[k..k + |Keyword|] == s[k..k + |Marker|][..|Keyword|];
    }
  }

  /** No marker starts inside a marker or inside the segment that follows it. */
  lemma NoMarkerInsideMatch(s: string, p: nat)
    requires OccursAt(s, Marker, p)
    ensures forall k :: p < k < SegmentEnd(s, p + |Marker|) ==> !OccursAt(s, Marker, k)
  {
    var e := SegmentEnd(s, p + |Marker|);
    SegmentEndIsFirstStop(s, p + |Marker|);
    forall k | p < k < e ensures !OccursAt(s, Marker, k) {
      MarkerShape(s, k);
      if k < p + |Marker| {
        assert s[k] == Marker[k - p] by {
          assert s[p..p + |Marker|][k - p] == s[k];
        }
      } else {
        assert !StopsAt(s, k);
      }
    }
  }

  /** One match of the scanner accounts for exactly the first remaining marker. */
  lemma MarkersOfMatch(s: string, i: nat, p: nat)
    requires i <= |s| && NextMarker(s, i) == Some(p)
    ensures MarkersFrom(s, i) == [p] + MarkersFrom(s, SegmentEnd(s, p + |Marker|))
  {
    NextMarkerIsFirst(s, i);
    MarkersSkip(s, i, p);
    NoMarkerInsideMatch(s, p);
    MarkersSkip(s, p + 1, SegmentEnd(s, p + |Marker|));
  }

  /** The question captured after each of the marker positions `ps`. */
  function QuestionsAt(s: string, ps: seq<nat>): (qs: seq<string>)
    requires forall k :: 0 <= k < |ps| ==> ps[k] + |Marker| <= |s|
    ensures |qs| == |ps|
    ensures forall k :: 0 <= k < |ps| ==> qs[k] == QuestionAt(s, ps[k])
  {
    if ps == [] then [] else [QuestionAt(s, ps[0])] + QuestionsAt(s, ps[1..])
  }

  /** One step of the scanner. */
  lemma ExtractStep(s: string, i: nat, p: nat)
    requires i <= |s| && NextMarker(s, i) == Some(p)
    ensures ExtractFrom(s, i) == [QuestionAt(s, p)] + ExtractFrom(s, SegmentEnd(s, p + |Marker|))
  {
  }

  lemma QuestionsAtCons(s: string, p: nat, ps: seq<nat>)
    requires p + |Marker| <= |s|
    requires forall k :: 0 <= k < |ps| ==> ps[k] + |Marker| <= |s|
    ensures QuestionsAt(s, [p] + ps) == [QuestionAt(s, p)] + QuestionsAt(s, ps)
  {
    assert ([p] + ps)[1..] == ps;
  }

  /** The scanner, resumed anywhere, captures after exactly the remaining markers. */
  lemma {:induction false} ExtractFromMarkers(s: string, i: nat)
    requires i <= |s|
    ensures ExtractFrom(s, i) == QuestionsAt(s, MarkersFrom(s, i))
    decreases |s| - i
  {
    match NextMarker(s, i)
    case None =>
      NextMarkerIsFirst(s, i);
      MarkersSkip(s, i, |s|);
    case Some(p) =>
      var e := SegmentEnd(s, p + |Marker|);
      MarkersOfMatch(s, i, p);
      ExtractFromMarkers(s, e);
      ExtractStep(s, i, p);
      QuestionsAtCons(s, p, MarkersFrom(s, e));
  }

  /**
   * The scanner returns exactly one question per occurrence of `QUESTION:`,
   * in order of appearance, each the untrimmed text after its marker up to
   * the lookahead.
   */
  lemma ExtractIsPerMarker(s: string)
    ensures |Extract(s)| == |MarkersFrom(s, 0)|
    ensures forall k :: 0 <= k < |Extract(s)| ==>
              MarkersFrom(s, 0)[k] + |Marker| <= |s| && Extract(s)[k] == QuestionAt(s, MarkersFrom(s, 0)[k])
  {
    ExtractFromMarkers(s, 0);
  }

  /** Text without a marker yields no questions, and text with one yields at least one. */
  lemma ExtractEmptyIff(s: string)
    ensures Extract(s) == [] <==> !Contains(s, Marker)
  {
    NextMarkerIsFirst(s, 0);
    if Contains(s, Marker) {
      var j :| 0 <= j <= |s| && OccursAt(s, Marker, j);
      assert NextMarker(s, 0).Some?;
    } else {
      assert NextMarker(s, 0).None?;
    }
  }

  /** No extracted question contains `QUESTION`: the lazy group stops before the first one. */
  lemma {:induction false} ExtractedHaveNoKeyword(s: string, i: nat)
    requires i <= |s|
    ensures forall k :: 0 <= k < |ExtractFrom(s, i)| ==> !Contains(ExtractFrom(s, i)[k], Keyword)
    decreases |s| - i
  {
    match NextMarker(s, i)
    case None =>
    case Some(p) =>
      var a := p + |Marker|;
      var e := SegmentEnd(s, a);
      var q := s[a..e];
      SegmentEndIsFirstStop(s, a);
      forall j | 0 <= j <= |q| && OccursAt(q, Keyword, j) ensures false {
        assert s[a + j..a + j + |Keyword|] == q[j..j + |Keyword|];
        assert StopsAt(s, a + j);
      }
      ExtractedHaveNoKeyword(s, e);
  }
}
