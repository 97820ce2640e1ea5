/** Hand-written matchers for the regular expressions the grammar functions hand to the
    scanner's `match` and `expect_match`. Each takes t, the text from the cursor to the end
    of the line (the match is anchored at the cursor), and returns the groups the grammar
    reads, chosen in the order Python's backtracking matcher tries them: a greedy
    quantifier tries its longest run first and gives characters back one at a time, a lazy
    one tries its shortest run first. A command line is one line: `.` matches every
    character and `$` is the end of the text. */
module ExPatterns {
  import opened ExText
  import opened ExTokens

  // ---------------------------------------------------------------------------------
  // `\s*(?P<x>.+?)\s*$`: the unmap family's lhs and copy's address.

  /** The leading `\s*` takes all the leading whitespace, unless the text is only
      whitespace: then it gives one character back so that `.+?` has one. The lazy group
      then stops where only whitespace is left. */
  function LazyTrimmed(t: string): (r: Option<string>)
    ensures r.None? <==> t == []
  {
    if t == [] then None
    else
      var w := RunEnd(t, 0, Whitespace);
      var a := if w < |t| then w else w - 1;
      Some(t[a..Max(a + 1, TrailStart(t))])
  }

  /** The group is the stripped text; on text that is only whitespace it is the last
      whitespace character. */
  lemma LazyTrimmedIsStrip(t: string)
    ensures Strip(t) != [] ==> LazyTrimmed(t) == Some(Strip(t))
    ensures t != [] && AllSpace(t) ==> LazyTrimmed(t) == Some([t[|t| - 1]])
  {
    var w := RunEnd(t, 0, Whitespace);
    if w < |t| {
      assert !IsSpace(t[w]);
      assert TrailStart(t) > w;
    } else if t != [] {
      TrailStartUnique(t, 0);
      assert t[|t| - 1..|t|] == [t[|t| - 1]];
    }
  }

  // ---------------------------------------------------------------------------------
  // `(?P<path>.+?)\s*$`: cd's path.

  /** The lazy group takes at least one character and stops where only whitespace is left. */
  function LazyTrimmedEnd(t: string): (r: Option<string>)
    ensures r.None? <==> t == []
  {
    if t == [] then None else Some(t[..Max(1, TrailStart(t))])
  }

  /** On text that starts with a non-space, the group is the text without its trailing
      whitespace. */
  lemma LazyTrimmedEndIsStrip(t: string)
    requires t != [] && !IsSpace(t[0])
    ensures LazyTrimmedEnd(t) == Some(Strip(t))
  {
    RunEndUnique(t, 0, Whitespace, 0);
  }

  // ---------------------------------------------------------------------------------
  // `\s*(?P<lhs>.+?)\s+(?P<rhs>.+?)\s*$`: the noremap family.

  /** Where rhs starts when lhs ends at e: `\s+` takes the whole whitespace run at e, and
      gives its last character back to `.+?` when the run reaches the end of the line. */
  function RhsStart(t: string, e: nat): (f: Option<nat>)
    requires e <= |t|
    ensures f.Some? ==> e < f.value < |t| && SpacesIn(t, e, f.value)
    ensures f.Some? <==> e + 1 < |t| && IsSpace(t[e])
  {
    if e == |t| || !IsSpace(t[e]) then None
    else
      var r := RunEnd(t, e, Whitespace);
      if r < |t| then Some(r)
      else if r - 1 > e then Some(r - 1)
      else None
  }

  /** The lazy lhs grows one character at a time from e: the first end at which the rest
      of the pattern matches, with the start of rhs there. */
  function FirstLhsEnd(t: string, e: nat): (r: Option<(nat, nat)>)
    ensures r.Some? ==> e <= r.value.0 < r.value.1 < |t| && RhsStart(t, r.value.0) == Some(r.value.1)
    ensures r.Some? ==> forall k :: e <= k < r.value.0 ==> RhsStart(t, k).None?
    ensures r.None? ==> forall k :: e <= k <= |t| ==> RhsStart(t, k).None?
    decreases |t| + 1 - e
  {
    if e > |t| then None
    else
      match RhsStart(t, e)
      case Some(f) => Some((e, f))
      case None => FirstLhsEnd(t, e + 1)
  }

  /** The leading `\s*` gives characters back one at a time: lhs starts at a, then a - 1, ... */
  function MapFrom(t: string, a: nat): (r: Option<(nat, nat, nat)>)
    ensures r.Some? ==> r.value.0 <= a && r.value.0 < r.value.1 < r.value.2 < |t|
    ensures r.Some? ==> RhsStart(t, r.value.1) == Some(r.value.2)
    decreases a
  {
    match FirstLhsEnd(t, a + 1)
    case Some((e, f)) => Some((a, e, f))
    case None => if a == 0 then None else MapFrom(t, a - 1)
  }

  /** The bounds (a, e, f, g) of the match: lhs is t[a..e] and rhs is t[f..g]; what lies
      before, between and after them is whitespace, and the gap between them is not empty. */
  function MapBounds(t: string): (r: Option<(nat, nat, nat, nat)>)
    ensures r.Some? ==> var (a, e, f, g) := r.value;
      a < e < f < g <= |t| && SpacesIn(t, 0, a) && SpacesIn(t, e, f) && SpacesIn(t, g, |t|)
  {
    var w := RunEnd(t, 0, Whitespace);
    match MapFrom(t, w)
    case None => None
    case Some((a, e, f)) => Some((a, e, f, Max(f + 1, TrailStart(t))))
  }

  function MapSplit(t: string): Option<(string, string)>
  {
    match MapBounds(t)
    case None => None
    case Some((a, e, f, g)) => Some((t[a..e], t[f..g]))
  }

  lemma MapFromSome(t: string, a: nat)
    requires FirstLhsEnd(t, 1).Some?
    ensures MapFrom(t, a).Some?
    decreases a
  {
    if FirstLhsEnd(t, a + 1).None? && a > 0 {
      MapFromSome(t, a - 1);
    }
  }

  /** A map command splits exactly when some whitespace character stands after the first
      character and before the last one. */
  lemma MapSplitExists(t: string)
    ensures MapSplit(t).Some? <==> exists e :: 1 <= e && e + 1 < |t| && IsSpace(t[e])
  {
    if e :| 1 <= e && e + 1 < |t| && IsSpace(t[e]) {
      assert RhsStart(t, e).Some?;
      MapFromSome(t, RunEnd(t, 0, Whitespace));
    }
    if MapSplit(t).Some? {
      var (a, e, f, g) := MapBounds(t).value;
      assert 1 <= e && e + 1 < |t| && IsSpace(t[e]);
    }
  }

  /** The lazy split puts the first word (a run without whitespace) into lhs and the rest,
      without its surrounding whitespace, into rhs, whatever whitespace rhs contains. */
  lemma MapSplitWords(t: string, a: nat, e: nat, f: nat, g: nat)
    requires a < e < f < g <= |t|
    requires SpacesIn(t, 0, a) && SpacesIn(t, e, f) && SpacesIn(t, g, |t|)
    requires forall k :: a <= k < e ==> !IsSpace(t[k])
    requires !IsSpace(t[f]) && !IsSpace(t[g - 1])
    ensures MapSplit(t) == Some((t[a..e], t[f..g]))
  {
    RunEndUnique(t, 0, Whitespace, a);
    RunEndUnique(t, e, Whitespace, f);
    TrailStartUnique(t, g);
    assert RhsStart(t, e) == Some(f);
    var r := FirstLhsEnd(t, a + 1);
    assert r.Some?;
    assert r.value.0 == e;
  }

  // ---------------------------------------------------------------------------------
  // `(?P<name>.+?)\s*=\s*(?P<value>.+?)\s*$`: let.

  /** With `=` at j: where the value starts. `\s*` takes the whole whitespace run after
      `=`, and gives one character back when the run reaches the end of the line. */
  function ValueStart(t: string, j: nat): (k: Option<nat>)
    requires j < |t|
    ensures k.Some? ==> j < k.value < |t| && SpacesIn(t, j + 1, k.value)
    ensures k.Some? <==> j + 1 < |t|
  {
    var k := RunEnd(t, j + 1, Whitespace);
    if k < |t| then Some(k) else if k - 1 > j then Some(k - 1) else None
  }

  /** The lazy name grows from e: the first end after which whitespace, `=` and a value
      follow. The result is (name end, position of `=`, value start). */
  function LetFrom(t: string, e: nat): (r: Option<(nat, nat, nat)>)
    ensures r.Some? ==> var (n, j, k) := r.value;
      e <= n <= j < k < |t| && t[j] == '=' && SpacesIn(t, n, j) && SpacesIn(t, j + 1, k)
    decreases |t| + 1 - e
  {
    if e >= |t| then None
    else
      var j := RunEnd(t, e, Whitespace);
      if j + 1 < |t| && t[j] == '=' then Some((e, j, ValueStart(t, j).value))
      else LetFrom(t, e + 1)
  }

  /** The bounds (e, j, k, g) of let's match: name is t[..e], `=` is at j and value is
      t[k..g]; only whitespace stands around `=` and after the value. */
  function LetBounds(t: string): (r: Option<(nat, nat, nat, nat)>)
    ensures r.Some? ==> var (e, j, k, g) := r.value;
      0 < e <= j < k < g <= |t| && t[j] == '=' && SpacesIn(t, e, j) && SpacesIn(t, j + 1, k)
      && SpacesIn(t, g, |t|)
  {
    match LetFrom(t, 1)
    case None => None
    case Some((e, j, k)) => Some((e, j, k, Max(k + 1, TrailStart(t))))
  }

  function LetSplit(t: string): Option<(string, string)>
  {
    match LetBounds(t)
    case None => None
    case Some((e, j, k, g)) => Some((t[..e], t[k..g]))
  }

  lemma LetFromSkip(t: string, e: nat, n: nat)
    requires 1 <= e <= n < |t|
    requires forall i :: 0 <= i < n ==> t[i] != '='
    requires !IsSpace(t[n - 1])
    ensures LetFrom(t, e) == LetFrom(t, n)
    decreases n - e
  {
    if e < n {
      LetFromSkip(t, e + 1, n);
    }
  }

  /** For `name = value` with a name free of `=` and not ending in whitespace, and a
      value that neither starts nor ends with whitespace, name and value come out exactly. */
  lemma LetSplitCommon(t: string, e: nat, j: nat, k: nat, g: nat)
    requires 0 < e <= j < k < g <= |t|
    requires forall i :: 0 <= i < e ==> t[i] != '='
    requires !IsSpace(t[e - 1])
    requires SpacesIn(t, e, j) && t[j] == '=' && SpacesIn(t, j + 1, k) && SpacesIn(t, g, |t|)
    requires !IsSpace(t[k]) && !IsSpace(t[g - 1])
    ensures LetSplit(t) == Some((t[..e], t[k..g]))
  {
    assert LetFrom(t, 1) == LetFrom(t, e) by {
      LetFromSkip(t, 1, e);
    }
    assert LetFrom(t, e) == Some((e, j, k)) by {
      RunEndUnique(t, e, Whitespace, j);
      RunEndUnique(t, j + 1, Whitespace, k);
    }
    assert TrailStart(t) == g by {
      TrailStartUnique(t, g);
    }
  }

  // ---------------------------------------------------------------------------------
  // `(?P<option>.+?)(?:[:=](?P<value>.+?))?$`: set and setlocal.

  const OptionSeparators: set<char> := {':', '='}

  /** The lazy option grows from e until either `:` or `=` follows it with at least one
      more character after, or the line ends. */
  function OptionEnd(t: string, e: nat): (r: nat)
    requires 1 <= e <= |t|
    ensures e <= r <= |t|
    ensures r < |t| ==> t[r] in OptionSeparators && r + 1 < |t|
    ensures forall k :: e <= k < r ==> !(t[k] in OptionSeparators && k + 1 < |t|)
    decreases |t| - e
  {
    if e == |t| || (t[e] in OptionSeparators && e + 1 < |t|) then e else OptionEnd(t, e + 1)
  }

  function SetSplit(t: string): (r: Option<(string, Option<string>)>)
    ensures r.None? <==> t == []
  {
    if t == [] then None
    else
      var e := OptionEnd(t, 1);
      Some((t[..e], if e < |t| then Some(t[e + 1..]) else None))
  }

  /** The option ends at the first `:` or `=` after its first character that has a value
      after it; the value is everything after that separator. */
  lemma SetSplitValue(t: string, e: nat)
    requires 1 <= e && e + 1 < |t| && t[e] in OptionSeparators
    requires forall k :: 1 <= k < e ==> t[k] !in OptionSeparators
    ensures SetSplit(t) == Some((t[..e], Some(t[e + 1..])))
  {
  }

  /** Without such a separator the whole text is the option and there is no value. */
  lemma SetSplitNoValue(t: string)
    requires t != []
    requires forall k :: 1 <= k < |t| - 1 ==> t[k] !in OptionSeparators
    ensures SetSplit(t) == Some((t, None))
  {
    assert t[..|t|] == t;
  }

  // ---------------------------------------------------------------------------------
  // `(?P<bang>!)?\s*(?P<subject>.+)?$`: help. It matches every line.

  function HelpMatch(t: string): (r: (bool, Option<string>))
    ensures r.0 <==> t != [] && t[0] == '!'
    ensures r.1.Some? ==> r.1.value != [] && !IsSpace(r.1.value[0])
  {
    var bang := t != [] && t[0] == '!';
    var w := RunEnd(t, if bang then 1 else 0, Whitespace);
    (bang, if w < |t| then Some(t[w..]) else None)
  }

  // ---------------------------------------------------------------------------------
  // `\s+(?P<file>.+)`: split and vsplit.

  /** `\s+` takes the whole leading whitespace run and gives one character back when the
      run reaches the end of the line. */
  function SplitFileMatch(t: string): (r: Option<string>)
    ensures r.Some? ==> r.value != []
  {
    var w := RunEnd(t, 0, Whitespace);
    if w == 0 then None
    else if w < |t| then Some(t[w..])
    else if w >= 2 then Some(t[w - 1..])
    else None
  }

  /** After a non-empty whitespace run, a file name that starts with a non-space is
      captured whole, to the end of the line. */
  lemma SplitFileMatchOf(t: string, w: nat)
    requires 0 < w < |t| && SpacesIn(t, 0, w) && !IsSpace(t[w])
    ensures SplitFileMatch(t) == Some(t[w..])
  {
    RunEndUnique(t, 0, Whitespace, w);
  }

  // ---------------------------------------------------------------------------------
  // `\s*(?P<options>[iu]+)`: sort. Not anchored at the end: returns where it stops.

  const SortFlags: set<char> := {'i', 'u'}

  function SortMatch(t: string): (r: Option<(string, nat)>)
    ensures r.Some? ==> r.value.1 <= |t| && r.value.0 != [] && forall k :: 0 <= k < |r.value.0| ==> r.value.0[k] in SortFlags
  {
    var w := RunEnd(t, 0, Whitespace);
    var e := RunEnd(t, w, SortFlags);
    if e > w then Some((t[w..e], e)) else None
  }

  /** The options are the whole run of `i` and `u` after the leading whitespace, and the
      match stops at its end. */
  lemma SortMatchOf(t: string, w: nat, e: nat)
    requires w < e <= |t| && SpacesIn(t, 0, w)
    requires forall k :: w <= k < e ==> t[k] in SortFlags
    requires e < |t| ==> t[e] !in SortFlags
    ensures SortMatch(t) == Some((t[w..e], e))
  {
    RunEndUnique(t, 0, Whitespace, w);
    RunEndUnique(t, w, SortFlags, e);
  }

  // ---------------------------------------------------------------------------------
  // `(?P<register>[a-zA-Z0-9"])(?:\s+(?P<count>\d+))?\s*$`: delete and yank.

  predicate IsRegisterName(c: char) { IsLetter(c) || IsDigit(c) || c == '"' }

  /** The optional group is tried first: whitespace, digits, then only whitespace to the
      end. Failing that, only whitespace may follow the register. */
  function RegisterMatch(t: string): (r: Option<(char, Option<string>)>)
  {
    if t == [] || !IsRegisterName(t[0]) then None
    else
      var w := RunEnd(t, 1, Whitespace);
      var d := RunEnd(t, w, Digits);
      if w > 1 && d > w && RunEnd(t, d, Whitespace) == |t| then Some((t[0], Some(t[w..d])))
      else if w == |t| then Some((t[0], None))
      else None
  }

  /** The register alone, with only whitespace after it, gives no count. */
  lemma RegisterAlone(t: string)
    requires t != [] && IsRegisterName(t[0]) && SpacesIn(t, 1, |t|)
    ensures RegisterMatch(t) == Some((t[0], None))
  {
    RunEndUnique(t, 1, Whitespace, |t|);
  }

  /** A register, whitespace, a run of digits and only whitespace after: the digits are
      the count. */
  lemma RegisterWithCount(t: string, w: nat, d: nat)
    requires 1 < w < d <= |t| && IsRegisterName(t[0])
    requires SpacesIn(t, 1, w) && SpacesIn(t, d, |t|)
    requires forall k :: w <= k < d ==> IsDigit(t[k])
    requires d < |t| ==> !IsDigit(t[d])
    ensures RegisterMatch(t) == Some((t[0], Some(t[w..d])))
  {
    assert !IsSpace(t[w]) by { assert IsDigit(t[w]); }
    RunEndUnique(t, 1, Whitespace, w);
    forall k | w <= k < d ensures t[k] in Digits {
      DigitsAreDigits(t[k]);
    }
    if d < |t| {
      DigitsAreDigits(t[d]);
    }
    RunEndUnique(t, w, Digits, d);
    RunEndUnique(t, d, Whitespace, |t|);
  }

  // ---------------------------------------------------------------------------------
  // `\s*([cgr])*\s*(\d*)\s*$`: &&. The character classes are pairwise disjoint, so the
  // greedy reading is the only one, and it matches exactly when the text has this shape.

  const RepeatFlags: set<char> := {'c', 'g', 'r'}

  /** The bounds (f0, f1, d0, d1) of the match: the run of flags is t[f0..f1] and the
      count t[d0..d1]; None when the text has another shape. */
  function RepeatBounds(t: string): (r: Option<(nat, nat, nat, nat)>)
    ensures r.Some? ==> var (f0, f1, d0, d1) := r.value;
      f0 <= f1 <= d0 <= d1 <= |t| && SpacesIn(t, 0, f0) && SpacesIn(t, f1, d0) && SpacesIn(t, d1, |t|)
      && (forall k :: f0 <= k < f1 ==> t[k] in RepeatFlags) && (forall k :: d0 <= k < d1 ==> t[k] in Digits)
  {
    var f0 := RunEnd(t, 0, Whitespace);
    var f1 := RunEnd(t, f0, RepeatFlags);
    var d0 := RunEnd(t, f1, Whitespace);
    var d1 := RunEnd(t, d0, Digits);
    if RunEnd(t, d1, Whitespace) < |t| then None else Some((f0, f1, d0, d1))
  }
}
