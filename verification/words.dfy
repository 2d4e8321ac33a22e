/**
 * The nested `_count` of the generator: `len(re.findall(r"[\w'-]+", s))`,
 * the number of maximal runs of word characters, apostrophes and hyphens.
 */
module Words {
  import opened Text

  /** Regex `\w`, restricted to its ASCII members: letters, digits and underscore. */
  predicate IsWordChar(c: char) {
    ('a' <= c <= 'z') || ('A' <= c <= 'Z') || ('0' <= c <= '9') || c == '_'
  }

  /** The character class `[\w'-]`. */
  predicate IsTokenChar(c: char) {
    IsWordChar(c) || c == '\'' || c == '-'
  }

  predicate NoTokenChars(s: string) {
    forall i :: 0 <= i < |s| ==> !IsTokenChar(s[i])
  }

  /** Whitespace is never part of a word. */
  lemma SpaceIsNotToken(c: char)
    requires IsSpace(c)
    ensures !IsTokenChar(c)
  {
  }

  /** A non-empty run made only of token characters. */
  predicate IsWord(t: string) {
    t != [] && forall i :: 0 <= i < |t| ==> IsTokenChar(t[i])
  }

  /** Length of the run of token characters at the start of `s` (what the greedy `+` consumes). */
  function RunLength(s: string): (n: nat)
    ensures n <= |s|
    decreases |s|
  {
    if s != [] && IsTokenChar(s[0]) then 1 + RunLength(s[1..]) else 0
  }

  /** The list `re.findall(r"[\w'-]+", s)`: every maximal run, left to right. */
  function Tokens(s: string): seq<string>
    decreases |s|
  {
    if s == [] then []
    else if !IsTokenChar(s[0]) then Tokens(s[1..])
    else
      var n := RunLength(s);
      [s[..n]] + Tokens(s[n..])
  }

  /** The run at the start of `s` is made of token characters and stops at a non-token character or at the end. */
  lemma {:induction false} RunIsMaximal(s: string)
    ensures forall i :: 0 <= i < RunLength(s) ==> IsTokenChar(s[i])
    ensures RunLength(s) < |s| ==> !IsTokenChar(s[RunLength(s)])
    decreases |s|
  {
    if s != [] && IsTokenChar(s[0]) {
      RunIsMaximal(s[1..]);
    }
  }

  /** Every match of the pattern is a non-empty run of token characters. */
  lemma {:induction false} TokensAreWords(s: string)
    ensures forall k :: 0 <= k < |Tokens(s)| ==> IsWord(Tokens(s)[k])
    decreases |s|
  {
    if s == [] {
    } else if !IsTokenChar(s[0]) {
      TokensAreWords(s[1..]);
    } else {
      RunIsMaximal(s);
      TokensAreWords(s[RunLength(s)..]);
    }
  }

  /** A single word is found as one match, the whole of it. */
  lemma {:induction false} WordIsOneToken(w: string)
    requires IsWord(w)
    ensures Tokens(w) == [w]
  {
    RunIsMaximal(w);
    assert RunLength(w) == |w|;
    assert w[..|w|] == w;
    assert w[|w|..] == [];
  }

  /** The generator's `_count`. */
  function Count(s: string): nat {
    |Tokens(s)|
  }

  /** A run of token characters stops where `a` stops it, or else continues into `b`. */
  lemma {:induction false} RunLengthConcat(a: string, b: string)
    ensures RunLength(a + b) == if RunLength(a) < |a| then RunLength(a) else |a| + RunLength(b)
    decreases |a|
  {
    if a == [] {
      assert a + b == b;
    } else if IsTokenChar(a[0]) {
      assert (a + b)[1..] == a[1..] + b;
      RunLengthConcat(a[1..], b);
    }
  }

  /** Text without token characters has no words. */
  lemma {:induction false} NoTokensNoWords(s: string)
    requires NoTokenChars(s)
    ensures Tokens(s) == []
    decreases |s|
  {
    if s != [] {
      NoTokensNoWords(s[1..]);
    }
  }

  /**
   * Words of a concatenation are the words of the parts, as long as no run
   * straddles the seam (one side of it is not a token character).
   */
  lemma {:induction false} TokensConcat(a: string, b: string)
    requires a == [] || b == [] || !IsTokenChar(a[|a| - 1]) || !IsTokenChar(b[0])
    ensures Tokens(a + b) == Tokens(a) + Tokens(b)
    decreases |a|
  {
    if a == [] {
      assert a + b == b;
    } else if !IsTokenChar(a[0]) {
      assert (a + b)[1..] == a[1..] + b;
      TokensConcat(a[1..], b);
    } else {
      var n := RunLength(a);
      RunStopsAtSeam(a, b);
      SliceConcat(a, b, n);
      TokensConcat(a[n..], b);
    }
  }

  /** A word that opens `a` is not extended by `b` when nothing joins them across the seam. */
  lemma RunStopsAtSeam(a: string, b: string)
    requires a != [] && IsTokenChar(a[0])
    requires b == [] || !IsTokenChar(a[|a| - 1]) || !IsTokenChar(b[0])
    ensures RunLength(a + b) == RunLength(a)
  {
    RunIsMaximal(a);
    RunLengthConcat(a, b);
  }

  /** Cutting `a + b` inside `a` cuts `a` alone. */
  lemma SliceConcat(a: string, b: string, n: nat)
    requires n <= |a|
    ensures (a + b)[..n] == a[..n]
    ensures (a + b)[n..] == a[n..] + b
  {
  }

  /** Words separated by any non-word character add up: `_count(a + " " + b) == _count(a) + _count(b)`. */
  lemma CountJoined(a: string, sep: char, b: string)
    requires !IsTokenChar(sep)
    ensures Tokens(a + [sep] + b) == Tokens(a) + Tokens(b)
    ensures Count(a + [sep] + b) == Count(a) + Count(b)
  {
    TokensConcat([sep], b);
    NoTokensNoWords([sep]);
    TokensConcat(a, [sep] + b);
    assert a + [sep] + b == a + ([sep] + b);
  }

  /**
   * Words separated by single spaces are found one match each, in order:
   * together with `TokensConcat` and `NoTokensNoWords` this fixes the
   * matches, and so `_count`, on every text.
   */
  lemma {:induction false} TokensOfWords(ws: seq<string>)
    requires forall k :: 0 <= k < |ws| ==> IsWord(ws[k])
    ensures Tokens(Join(" ", ws)) == ws
    ensures Count(Join(" ", ws)) == |ws|
    decreases |ws|
  {
    if ws == [] {
    } else if |ws| == 1 {
      WordIsOneToken(ws[0]);
    } else {
      var init, last := ws[..|ws| - 1], ws[|ws| - 1];
      TokensOfWords(init);
      WordIsOneToken(last);
      CountJoined(Join(" ", init), ' ', last);
      assert Join(" ", ws) == Join(" ", init) + [' '] + last;
      assert init + [last] == ws;
    }
  }

  /** Stripping whitespace never changes the word count. */
  lemma CountStrip(s: string)
    ensures Tokens(Strip(s)) == Tokens(s)
    ensures Count(Strip(s)) == Count(s)
  {
    var lo, hi := StripIsSlice(s);
    var pre, mid, post := s[..lo], s[lo..hi], s[hi..];
    assert s == pre + (mid + post);
    forall i | 0 <= i < |pre| ensures !IsTokenChar(pre[i]) { SpaceIsNotToken(pre[i]); }
    forall i | 0 <= i < |post| ensures !IsTokenChar(post[i]) { SpaceIsNotToken(post[i]); }
    NoTokensNoWords(pre);
    NoTokensNoWords(post);
    TokensConcat(mid, post);
    TokensConcat(pre, mid + post);
  }
}
