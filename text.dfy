/** Character classes and string helpers standing for what the grammar functions take
    from Python: the `\s` and `\d` classes, runs such as `[iu]+`, `str.strip()` and
    `int()` on a run of digits. */
module ExText {

  /** The ASCII characters Python's `\s` and `str.strip()` treat as whitespace, except the
      separators U+001C to U+001F, which are left out. */
  const Whitespace: set<char> := {' ', '\t', '\n', '\r', '\U{000B}', '\U{000C}'}

  /** The characters Python's `\d` and `str.isdigit()` accept (the ASCII ones). */
  const Digits: set<char> := {'0', '1', '2', '3', '4', '5', '6', '7', '8', '9'}

  predicate IsSpace(c: char) { c in Whitespace }

  predicate IsDigit(c: char) { '0' <= c <= '9' }

  lemma DigitsAreDigits(c: char)
    ensures c in Digits <==> IsDigit(c)
  {
  }

  predicate IsLetter(c: char) { 'a' <= c <= 'z' || 'A' <= c <= 'Z' }

  /** Every character of s[i..j] is whitespace. */
  predicate SpacesIn(s: string, i: nat, j: nat)
    requires i <= j <= |s|
  {
    forall k :: i <= k < j ==> IsSpace(s[k])
  }

  predicate AllSpace(s: string) { SpacesIn(s, 0, |s|) }

  function Max(a: nat, b: nat): nat { if a < b then b else a }

  /** The end of the longest run of characters drawn from cs that starts at i: what a
      greedy `[...]*` leaves the cursor at. */
  function RunEnd(s: string, i: nat, cs: set<char>): (j: nat)
    requires i <= |s|
    ensures i <= j <= |s|
    ensures forall k :: i <= k < j ==> s[k] in cs
    ensures j < |s| ==> s[j] !in cs
    decreases |s| - i
  {
    if i < |s| && s[i] in cs then RunEnd(s, i + 1, cs) else i
  }

  /** A run is determined by where it starts: any j that closes a run from i is RunEnd. */
  lemma RunEndUnique(s: string, i: nat, cs: set<char>, j: nat)
    requires i <= j <= |s|
    requires forall k :: i <= k < j ==> s[k] in cs
    requires j < |s| ==> s[j] !in cs
    ensures RunEnd(s, i, cs) == j
  {
  }

  /** The first index from i on that holds c, or |s| when there is none. */
  function Until(s: string, i: nat, c: char): (j: nat)
    requires i <= |s|
    ensures i <= j <= |s|
    ensures forall k :: i <= k < j ==> s[k] != c
    ensures j < |s| ==> s[j] == c
    decreases |s| - i
  {
    if i < |s| && s[i] != c then Until(s, i + 1, c) else i
  }

  /** The first whitespace index from i on, or |s|: the end of the word that starts at i. */
  function WordEnd(s: string, i: nat): (j: nat)
    requires i <= |s|
    ensures i <= j <= |s|
    ensures forall k :: i <= k < j ==> !IsSpace(s[k])
    ensures j < |s| ==> IsSpace(s[j])
    decreases |s| - i
  {
    if i < |s| && !IsSpace(s[i]) then WordEnd(s, i + 1) else i
  }

  lemma WordEndUnique(s: string, i: nat, j: nat)
    requires i <= j <= |s|
    requires forall k :: i <= k < j ==> !IsSpace(s[k])
    requires j < |s| ==> IsSpace(s[j])
    ensures WordEnd(s, i) == j
  {
  }

  lemma UntilUnique(s: string, i: nat, c: char, j: nat)
    requires i <= j <= |s|
    requires forall k :: i <= k < j ==> s[k] != c
    requires j < |s| ==> s[j] == c
    ensures Until(s, i, c) == j
  {
  }

  /** The same, with the stretch before j given as a slice that does not contain c. */
  lemma UntilSlice(s: string, i: nat, c: char, j: nat)
    requires i <= j <= |s| && c !in s[i..j]
    requires j < |s| ==> s[j] == c
    ensures Until(s, i, c) == j
  {
    forall k | i <= k < j ensures s[k] != c {
      assert s[k] == s[i..j][k - i];
    }
    UntilUnique(s, i, c, j);
  }

  /** Where the trailing whitespace of s begins: the least l such that s[l..] is all
      whitespace. */
  function TrailStart(s: string): (l: nat)
    ensures l <= |s|
    ensures SpacesIn(s, l, |s|)
    ensures l > 0 ==> !IsSpace(s[l - 1])
  {
    if |s| > 0 && IsSpace(s[|s| - 1]) then TrailStart(s[..|s| - 1]) else |s|
  }

  lemma TrailStartUnique(s: string, l: nat)
    requires l <= |s|
    requires SpacesIn(s, l, |s|)
    requires l > 0 ==> !IsSpace(s[l - 1])
    ensures TrailStart(s) == l
  {
  }

  /** Python's `str.strip()`: s without its leading and trailing whitespace. */
  function Strip(s: string): (r: string)
    ensures r == [] || (!IsSpace(r[0]) && !IsSpace(r[|r| - 1]))
  {
    var a := RunEnd(s, 0, Whitespace);
    if a == |s| then [] else s[a..TrailStart(s)]
  }

  /** Stripping gives back exactly the text between the leading and the trailing
      whitespace, whatever that whitespace is. */
  lemma StripBetween(s: string, a: nat, b: nat)
    requires a < b <= |s|
    requires SpacesIn(s, 0, a) && SpacesIn(s, b, |s|)
    requires !IsSpace(s[a]) && !IsSpace(s[b - 1])
    ensures Strip(s) == s[a..b]
  {
    RunEndUnique(s, 0, Whitespace, a);
    TrailStartUnique(s, b);
  }

  /** A text that starts with a non-space keeps its first character when stripped. */
  lemma StripLead(s: string)
    requires s != [] && !IsSpace(s[0])
    ensures Strip(s) != [] && Strip(s)[0] == s[0]
  {
    RunEndUnique(s, 0, Whitespace, 0);
  }

  lemma StripAllSpace(s: string)
    requires AllSpace(s)
    ensures Strip(s) == []
  {
    RunEndUnique(s, 0, Whitespace, |s|);
  }

  /** Leading whitespace does not change what strip returns. */
  lemma StripDropsLeading(t: string, d: nat)
    requires d <= |t| && SpacesIn(t, 0, d)
    ensures Strip(t) == Strip(t[d..])
  {
    var u := t[d..];
    var a := RunEnd(u, 0, Whitespace);
    var ta := a + d;
    assert SpacesIn(t, 0, ta) by {
      SpacesShift(t, d, d, ta);
    }
    if a == |u| {
      StripAllSpace(t);
      StripAllSpace(u);
    } else {
      var b := TrailStart(u);
      var tb := b + d;
      assert SpacesIn(t, tb, |t|) by {
        SpacesShift(t, d, tb, |t|);
      }
      assert t[ta] == u[a] && t[tb - 1] == u[b - 1];
      assert Strip(t) == t[ta..tb] by {
        StripBetween(t, ta, tb);
      }
      assert Strip(u) == u[a..b] by {
        StripBetween(u, a, b);
      }
      SliceShift(t, d, a, b);
    }
  }

  /** Whitespace between i and j in t is whitespace between i - d and j - d in t[d..]. */
  lemma SpacesShift(t: string, d: nat, i: nat, j: nat)
    requires d <= i <= j <= |t|
    ensures SpacesIn(t, i, j) == SpacesIn(t[d..], i - d, j - d)
  {
    forall k | i <= k < j
      ensures t[k] == t[d..][k - d]
    {
    }
  }

  /** A slice of a suffix is a slice of the whole, shifted. */
  lemma SliceShift(t: string, d: nat, a: nat, b: nat)
    requires d <= |t| && a <= b <= |t| - d
    ensures t[d..][a..b] == t[a + d..b + d]
  {
    assert forall k :: 0 <= k < b - a ==> t[d..][a..b][k] == t[a + d + k];
  }

  /** Python's `int()` on a run of ASCII digits. */
  function DecimalValue(s: string): nat
    requires forall k :: 0 <= k < |s| ==> IsDigit(s[k])
  {
    if s == [] then 0
    else
      assert IsDigit(s[|s| - 1]);
      10 * DecimalValue(s[..|s| - 1]) + (s[|s| - 1] as int - '0' as int)
  }
}
