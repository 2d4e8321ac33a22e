/**
 * The few pieces of Python's `str` behaviour that the generator relies on:
 * `strip()`, `split(sep)[0]`, `sep.join(parts)` and substring search.
 */
module Text {

  /**
   * Python's `str.isspace` for one character: the ASCII controls 0x09-0x0D
   * and 0x1C-0x1F, the space, and the Unicode whitespace U+0085, U+00A0,
   * U+1680, U+2000-U+200A, U+2028, U+2029, U+202F, U+205F and U+3000.
   */
  predicate IsSpace(c: char) {
    c == ' ' || ('\U{9}' <= c <= '\U{D}') || ('\U{1C}' <= c <= '\U{1F}')
    || c == '\U{85}' || c == '\U{A0}' || c == '\U{1680}'
    || ('\U{2000}' <= c <= '\U{200A}') || c == '\U{2028}' || c == '\U{2029}'
    || c == '\U{202F}' || c == '\U{205F}' || c == '\U{3000}'
  }

  predicate AllSpace(s: string) {
    forall i :: 0 <= i < |s| ==> IsSpace(s[i])
  }

  /** `pat` occurs in `s` starting at index `i`. */
  predicate OccursAt(s: string, pat: string, i: nat) {
    i + |pat| <= |s| && s[i..i + |pat|] == pat
  }

  /** Python's `pat in s`. */
  predicate Contains(s: string, pat: string) {
    exists i :: 0 <= i <= |s| && OccursAt(s, pat, i)
  }

  predicate EndsWith(s: string, suffix: string) {
    |suffix| <= |s| && s[|s| - |suffix|..] == suffix
  }

  /** Python's `s.lstrip()`. */
  function StripStart(s: string): string
    decreases |s|
  {
    if s != [] && IsSpace(s[0]) then StripStart(s[1..]) else s
  }

  /** Python's `s.rstrip()`. */
  function StripEnd(s: string): string
    decreases |s|
  {
    if s != [] && IsSpace(s[|s| - 1]) then StripEnd(s[..|s| - 1]) else s
  }

  /** Python's `s.strip()`. */
  function Strip(s: string): string {
    StripEnd(StripStart(s))
  }

  /** `lstrip` drops exactly the leading whitespace. */
  lemma {:induction false} StripStartSlice(s: string) returns (lo: nat)
    ensures lo <= |s| && StripStart(s) == s[lo..]
    ensures AllSpace(s[..lo]) && (lo < |s| ==> !IsSpace(s[lo]))
    decreases |s|
  {
    if s != [] && IsSpace(s[0]) {
      var lo' := StripStartSlice(s[1..]);
      lo := lo' + 1;
      assert s[1..][lo'..] == s[lo..];
      assert s[..lo] == [s[0]] + s[1..][..lo'];
    } else {
      lo := 0;
    }
  }

  /** `rstrip` drops exactly the trailing whitespace. */
  lemma {:induction false} StripEndSlice(s: string) returns (hi: nat)
    ensures hi <= |s| && StripEnd(s) == s[..hi]
    ensures AllSpace(s[hi..]) && (0 < hi ==> !IsSpace(s[hi - 1]))
    decreases |s|
  {
    if s != [] && IsSpace(s[|s| - 1]) {
      var init := s[..|s| - 1];
      hi := StripEndSlice(init);
      assert init[..hi] == s[..hi];
      assert s[hi..] == init[hi..] + [s[|s| - 1]];
    } else {
      hi := |s|;
    }
  }

  /**
   * `strip` keeps the slice between the leading and the trailing whitespace:
   * what it drops is all whitespace, and what it keeps, when non-empty,
   * begins and ends with a non-whitespace character.
   */
  lemma StripIsSlice(s: string) returns (lo: nat, hi: nat)
    ensures lo <= hi <= |s| && Strip(s) == s[lo..hi]
    ensures AllSpace(s[..lo]) && AllSpace(s[hi..])
    ensures lo < hi ==> !IsSpace(s[lo]) && !IsSpace(s[hi - 1])
  {
    lo := StripStartSlice(s);
    var t := s[lo..];
    var n := StripEndSlice(t);
    hi := lo + n;
    assert s[lo..hi] == t[..n];
    assert s[hi..] == t[n..];
    if lo < hi {
      assert s[hi - 1] == t[n - 1];
    }
  }

  /** Python's `not s.strip()`: the stripped text is empty exactly when `s` is blank. */
  lemma StripEmptyIffBlank(s: string)
    ensures Strip(s) == [] <==> AllSpace(s)
  {
    var lo, hi := StripIsSlice(s);
    if lo == hi {
      assert s == s[..lo] + s[hi..];
    } else {
      assert !IsSpace(s[lo]);
    }
  }

  /** Stripping twice is stripping once. */
  lemma StripIdempotent(s: string)
    ensures Strip(Strip(s)) == Strip(s)
  {
    var lo, hi := StripIsSlice(s);
    var r := s[lo..hi];
    if r != [] {
      assert !IsSpace(r[0]) && !IsSpace(r[|r| - 1]);
      assert StripStart(r) == r;
      assert StripEnd(r) == r;
    }
  }

  /** Taking a slice cannot create an occurrence of a pattern. */
  lemma SliceKeepsAbsence(s: string, lo: nat, hi: nat, pat: string)
    requires lo <= hi <= |s|
    requires !Contains(s, pat)
    ensures !Contains(s[lo..hi], pat)
  {
    if Contains(s[lo..hi], pat) {
      var i :| 0 <= i <= hi - lo && OccursAt(s[lo..hi], pat, i);
      forall k | 0 <= k < |pat| ensures s[lo + i..lo + i + |pat|][k] == pat[k] {
        assert pat[k] == s[lo..hi][i..i + |pat|][k];
      }
      assert OccursAt(s, pat, lo + i);
    }
  }

  /**
   * Python's `s.split(sep)[0]`: the text before the first occurrence of
   * `sep`, or all of `s` when `sep` does not occur.
   */
  function BeforeFirst(s: string, sep: string): (r: string)
    requires sep != []
    ensures |r| <= |s|
    decreases |s|
  {
    if |s| < |sep| then s
    else if s[..|sep|] == sep then []
    else [s[0]] + BeforeFirst(s[1..], sep)
  }

  lemma {:induction false} BeforeFirstIsPrefix(s: string, sep: string)
    requires sep != []
    ensures BeforeFirst(s, sep) == s[..|BeforeFirst(s, sep)|]
    decreases |s|
  {
    if |s| >= |sep| && s[..|sep|] != sep {
      BeforeFirstIsPrefix(s[1..], sep);
    }
  }

  lemma {:induction false} BeforeFirstLacksSep(s: string, sep: string)
    requires sep != []
    ensures !Contains(BeforeFirst(s, sep), sep)
    decreases |s|
  {
    if |s| < |sep| {
      forall i | 0 <= i <= |s| ensures !OccursAt(s, sep, i) { }
    } else if s[..|sep|] != sep {
      var rest := BeforeFirst(s[1..], sep);
      var r := [s[0]] + rest;
      BeforeFirstLacksSep(s[1..], sep);
      BeforeFirstIsPrefix(s[1..], sep);
      forall i | 0 <= i <= |r| && OccursAt(r, sep, i) ensures false {
        if i > 0 {
          assert rest[i - 1..i - 1 + |sep|] == r[i..i + |sep|];
          assert OccursAt(rest, sep, i - 1);
        }
      }
    }
  }

  lemma {:induction false} BeforeFirstStopsAtSep(s: string, sep: string)
    requires sep != []
    ensures |BeforeFirst(s, sep)| < |s| ==> OccursAt(s, sep, |BeforeFirst(s, sep)|)
    decreases |s|
  {
    if |s| >= |sep| && s[..|sep|] != sep {
      var rest := BeforeFirst(s[1..], sep);
      BeforeFirstStopsAtSep(s[1..], sep);
      if |rest| < |s| - 1 {
        assert s[1 + |rest|..1 + |rest| + |sep|] == s[1..][|rest|..|rest| + |sep|];
      }
    }
  }

  /**
   * What `split(sep)[0]` keeps: a prefix of `s` in which `sep` does not
   * occur, ending either at the end of `s` or where `sep` first occurs.
   */
  lemma BeforeFirstSpec(s: string, sep: string)
    requires sep != []
    ensures var r := BeforeFirst(s, sep);
      && r == s[..|r|]
      && !Contains(r, sep)
      && (|r| < |s| ==> OccursAt(s, sep, |r|))
  {
    BeforeFirstIsPrefix(s, sep);
    BeforeFirstLacksSep(s, sep);
    BeforeFirstStopsAtSep(s, sep);
  }

  /** Python's `sep.join(parts)`. */
  function Join(sep: string, parts: seq<string>): string
    decreases |parts|
  {
    if parts == [] then []
    else if |parts| == 1 then parts[0]
    else Join(sep, parts[..|parts| - 1]) + sep + parts[|parts| - 1]
  }

  /** Putting text in front keeps that text as the prefix and keeps every suffix. */
  lemma PrependKeeps(head: string, s: string, suffix: string)
    requires EndsWith(s, suffix)
    ensures (head + s)[..|head|] == head
    ensures EndsWith(head + s, suffix)
  {
    assert (head + s)[|head + s| - |suffix|..] == s[|s| - |suffix|..];
  }

  /** A joined text ends with its last part. */
  lemma JoinEndsWithLast(sep: string, parts: seq<string>)
    requires parts != []
    ensures EndsWith(Join(sep, parts), parts[|parts| - 1])
  {
    var r := Join(sep, parts);
    var last := parts[|parts| - 1];
    if |parts| > 1 {
      assert r == (Join(sep, parts[..|parts| - 1]) + sep) + last;
    }
    assert r[|r| - |last|..] == last;
  }
}
