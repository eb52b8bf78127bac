/**
 The string normalisation the booking engine relies on: Python's
 `str.strip()` and `str.lower()`, restricted to the ASCII range.
 */
module Text {

  /** The ASCII characters Python's `str.strip()` removes: tab, line feed,
      vertical tab, form feed, carriage return, the four information
      separators 0x1C-0x1F, and the space. */
  predicate IsSpace(c: char) {
    var n := c as int;
    n == 32 || 9 <= n <= 13 || 28 <= n <= 31
  }

  /** No whitespace at either end. */
  predicate Trimmed(s: string) {
    s == [] || (!IsSpace(s[0]) && !IsSpace(s[|s| - 1]))
  }

  /** The first index at or after `i` that is not whitespace (`|s|` if none). */
  function SkipSpaces(s: string, i: nat): (j: nat)
    requires i <= |s|
    ensures i <= j <= |s|
    ensures forall k | i <= k < j :: IsSpace(s[k])
    ensures j < |s| ==> !IsSpace(s[j])
    decreases |s| - i
  {
    if i < |s| && IsSpace(s[i]) then SkipSpaces(s, i + 1) else i
  }

  /** The smallest `e` in `lo..j` such that only whitespace lies in `s[e..j]`. */
  function SkipSpacesBack(s: string, lo: nat, j: nat): (e: nat)
    requires lo <= j <= |s|
    ensures lo <= e <= j
    ensures forall k | e <= k < j :: IsSpace(s[k])
    ensures e > lo ==> !IsSpace(s[e - 1])
    decreases j
  {
    if j > lo && IsSpace(s[j - 1]) then SkipSpacesBack(s, lo, j - 1) else j
  }

  /** Where `str.strip()` cuts `s`: the text kept is `s[StripStart(s)..StripEnd(s)]`. */
  function StripStart(s: string): nat {
    SkipSpaces(s, 0)
  }

  function StripEnd(s: string): nat {
    SkipSpacesBack(s, StripStart(s), |s|)
  }

  /** `str.strip()`: `s` without its surrounding whitespace. The kept text
      is the infix between the leading and the trailing whitespace. */
  function Strip(s: string): (r: string)
    ensures StripStart(s) <= StripEnd(s) <= |s| && r == s[StripStart(s)..StripEnd(s)]
    ensures forall k | 0 <= k < StripStart(s) :: IsSpace(s[k])
    ensures forall k | StripEnd(s) <= k < |s| :: IsSpace(s[k])
    ensures Trimmed(r)
    ensures r == [] <==> forall k | 0 <= k < |s| :: IsSpace(s[k])
    ensures Trimmed(s) ==> r == s
  {
    s[StripStart(s)..StripEnd(s)]
  }

  /** ASCII `str.lower()` on one character. */
  function LowerChar(c: char): char {
    if 'A' <= c <= 'Z' then (c as int + 32) as char else c
  }

  /** ASCII `str.lower()`: every upper-case letter replaced by its lower-case form. */
  function Lower(s: string): (r: string)
    ensures |r| == |s|
    ensures forall k | 0 <= k < |s| :: r[k] == LowerChar(s[k])
  {
    if s == [] then [] else [LowerChar(s[0])] + Lower(s[1..])
  }

  /** The normalised lookup key `s.strip().lower()` used for bus names,
      routes and administrator user names. */
  function Key(s: string): string {
    Lower(Strip(s))
  }

  lemma StripIdempotent(s: string)
    ensures Strip(Strip(s)) == Strip(s)
  {
  }

  lemma LowerIdempotent(s: string)
    ensures Lower(Lower(s)) == Lower(s)
  {
  }

  /** Lower-casing never turns a non-space into a space or back. */
  lemma LowerKeepsTrimmed(s: string)
    requires Trimmed(s)
    ensures Trimmed(Lower(s))
  {
  }

  lemma KeyIdempotent(s: string)
    ensures Key(Key(s)) == Key(s)
  {
    LowerKeepsTrimmed(Strip(s));
    LowerIdempotent(Strip(s));
  }

  /** Normalising an already stripped string gives the same key. */
  lemma KeyOfStrip(s: string)
    ensures Key(Strip(s)) == Key(s)
  {
    StripIdempotent(s);
  }

  /** A key is empty exactly when the stripped string is. */
  lemma KeyEmpty(s: string)
    ensures Key(s) == [] <==> Strip(s) == []
  {
  }

  /** Stripping and lower-casing commute. */
  lemma {:induction false} StripLowerCommute(s: string)
    ensures Strip(Lower(s)) == Lower(Strip(s))
  {
    var i := StripStart(s);
    var r := Strip(s);
    var j := StripEnd(s);
    var l := Lower(s);
    assert Lower(r) == l[i..j] by { LowerSlice(s, i, j); }
    assert Trimmed(l[i..j]) by { LowerKeepsTrimmed(r); }
    assert forall k | 0 <= k < i :: IsSpace(l[k]) by { LowerKeepsSpaces(s); }
    assert forall k | j <= k < |l| :: IsSpace(l[k]) by { LowerKeepsSpaces(s); }
    assert i < j || forall k | 0 <= k < |l| :: IsSpace(l[k]) by { LowerKeepsSpaces(s); }
    StripOfPadded(l, i, j);
  }

  /** Lower-casing an infix is taking the infix of the lower-cased string. */
  lemma {:induction false} LowerSlice(s: string, i: nat, j: nat)
    requires i <= j <= |s|
    ensures Lower(s[i..j]) == Lower(s)[i..j]
  {
    var a := Lower(s[i..j]);
    var b := Lower(s)[i..j];
    assert |a| == |b|;
    forall k | 0 <= k < |a|
      ensures a[k] == b[k]
    {
      assert a[k] == LowerChar(s[i + k]);
    }
  }

  /** Lower-casing keeps every whitespace character and creates none. */
  lemma LowerKeepsSpaces(s: string)
    ensures forall k | 0 <= k < |s| :: IsSpace(Lower(s)[k]) == IsSpace(s[k])
  {
  }

  /** Stripping removes exactly a whitespace padding around a trimmed infix. */
  lemma {:induction false} StripOfPadded(s: string, i: nat, j: nat)
    requires i <= j <= |s|
    requires Trimmed(s[i..j])
    requires i < j || forall k | 0 <= k < |s| :: IsSpace(s[k])
    requires forall k | 0 <= k < i :: IsSpace(s[k])
    requires forall k | j <= k < |s| :: IsSpace(s[k])
    ensures Strip(s) == s[i..j]
  {
    var r := Strip(s);
    var i' := StripStart(s);
    if i == j {
    } else {
      assert !IsSpace(s[i]) && !IsSpace(s[j - 1]);
      assert r != [];
      assert !IsSpace(s[i']) && !IsSpace(s[i' + |r| - 1]);
      assert i' == i;
      assert i' + |r| == j;
    }
  }
}
