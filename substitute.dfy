/** `_ex_route_substitute`: `:s/pattern/replacement/flags count`, with any character after
    the name as the delimiter. */
module ExSubstitute {
  import opened ExText
  import opened ExTokens
  import opened ExScanner

  /** The flag letters `[&cegiInp#lr]`. */
  const SubstituteFlags: set<char> := {'&', 'c', 'e', 'g', 'i', 'I', 'n', 'p', '#', 'l', 'r'}

  /** The message of both of substitute's `ValueError`s: the whole command line. */
  function BadCommand(src: string): string
  {
    "bad command: " + src
  }

  /** `\s*[&cegiInp#lr]+` at q, stripped as the code strips it: the flags and where the
      cursor ends; no flags and an unmoved cursor when the pattern does not match. */
  function FlagsAt(src: string, q: nat): (r: (seq<char>, nat))
    requires q <= |src|
    ensures q <= r.1 <= |src|
  {
    var a := RunEnd(src, q, Whitespace);
    if a < |src| && src[a] in SubstituteFlags then
      var f := RunEnd(src, a, SubstituteFlags);
      (Strip(src[q..f]), f)
    else ([], q)
  }

  /** The count's digits: after at least one space, a run of digits, if there is one. Also
      returns where the cursor ends. */
  function CountAt(src: string, f: nat): (r: (Option<string>, nat))
    requires f <= |src|
    ensures f <= r.1 <= |src|
    ensures r.0.Some? ==> r.0.value != [] && forall k :: 0 <= k < |r.0.value| ==> IsDigit(r.0.value[k])
  {
    if f < |src| && src[f] == ' ' then
      var b := SkipSpaces(src, f);
      var e := RunEnd(src, b, Digits);
      if b < e then (Some(src[b..e]), e) else (None, b)
    else (None, f)
  }

  /** The count a command carries: the value of its digits, 1 when there are none. */
  function CountValue(digits: Option<string>): nat
    requires digits.Some? ==> forall k :: 0 <= k < |digits.value| ==> IsDigit(digits.value[k])
  {
    match digits
    case None => 1
    case Some(ds) => DecimalValue(ds)
  }

  /** The pattern, the replacement and where the cursor stands after them, for the line
      read from the delimiter at p on: the pattern runs to the second delimiter, which must
      be there, the replacement to the third one or to the end of the line. */
  function SubstituteParts(src: string, p: nat): (r: Option<(string, string, nat)>)
    requires p < |src|
    ensures r.Some? ==> r.value.2 <= |src|
  {
    var j := Until(src, p + 1, src[p]);
    if j == |src| then None
    else
      var m := Until(src, j + 1, src[p]);
      Some((src[p + 1..j], src[j + 1..m], if m < |src| then m + 1 else m))
  }

  /** The command with the line read from p on: nothing but the name gives the command
      without parameters; a missing second delimiter is a bad command. */
  function SubstituteSpec(src: string, p: nat): Result<TokenCommand>
    requires p <= |src|
  {
    if p == |src| then Ok(Command("substitute").(addressable := true))
    else
      match SubstituteParts(src, p)
      case None => Err(Value(BadCommand(src)))
      case Some((pattern, replacement, q)) => SubstituteFlagsSpec(src, pattern, replacement, q)
  }

  /** What follows the replacement, from q on. */
  function SubstituteFlagsSpec(src: string, pattern: string, replacement: string, q: nat): Result<TokenCommand>
    requires q <= |src|
  {
    var (flags, f) := FlagsAt(src, q);
    if '&' in flags && flags[0] != '&' then Err(Value(BadCommand(src)))
    else SubstituteCountSpec(src, pattern, replacement, flags, f)
  }

  /** What follows the flags, from f on. */
  function SubstituteCountSpec(src: string, pattern: string, replacement: string, flags: seq<char>, f: nat): Result<TokenCommand>
    requires f <= |src|
  {
    var (digits, e) := CountAt(src, f);
    if SkipSpaces(src, e) < |src| then Err(Expected(EndOfInput))
    else Ok(Command("substitute").(addressable := true, params := Substitution(pattern, replacement, CountValue(digits), flags)))
  }

  /** The first loop: from the delimiter at p, up to the next copy of it. On success the
      pending slice starts at that second delimiter and the cursor is just past it. */
  method ScanPattern(s: Scanner, ghost p: nat, d: char) returns (found: bool, pattern: string)
    requires s.Valid() && s.start == p && s.pos == p + 1 && s.source[p] == d
    modifies s
    ensures s.Valid()
    ensures found <==> Until(s.source, p + 1, d) < |s.source|
    ensures found ==> (s.start == Until(s.source, p + 1, d) && s.pos == s.start + 1
      && pattern == s.source[p + 1..s.start])
  {
    while true
      invariant s.Valid() && s.start == p && p < s.pos
      invariant forall k :: p + 1 <= k < s.pos ==> s.source[k] != d
      decreases |s.source| - s.pos
    {
      var c := s.Consume();
      if c == Ch(d) {
        UntilUnique(s.source, p + 1, d, s.pos - 1);
        s.ShiftStart();
        s.Backup();
        pattern := s.Emit();
        c := s.Consume();
        return true, pattern;
      }
      if c == EOF {
        UntilUnique(s.source, p + 1, d, |s.source|);
        return false, [];
      }
    }
  }

  /** The second loop: from the delimiter at j up to the next copy of it, or to the end of
      the line. The cursor ends past the closing delimiter, with the pending slice empty. */
  method ScanReplacement(s: Scanner, ghost j: nat, d: char) returns (replacement: string)
    requires s.Valid() && s.start == j && s.pos == j + 1
    modifies s
    ensures s.Valid() && s.start == s.pos
    ensures var m := Until(s.source, j + 1, d);
      replacement == s.source[j + 1..m] && s.pos == if m < |s.source| then m + 1 else m
  {
    while true
      invariant s.Valid() && s.start == j && j < s.pos
      invariant forall k :: j + 1 <= k < s.pos ==> s.source[k] != d
      decreases |s.source| - s.pos
    {
      var c := s.Consume();
      if c == Ch(d) {
        UntilUnique(s.source, j + 1, d, s.pos - 1);
        s.ShiftStart();
        s.Backup();
        replacement := s.Emit();
        c := s.Consume();
        s.Ignore();
        return;
      }
      if c == EOF {
        UntilUnique(s.source, j + 1, d, |s.source|);
        s.ShiftStart();
        replacement := s.Emit();
        c := s.Consume();
        s.Ignore();
        return;
      }
    }
  }

  /** `state.match(r'\s*[&cegiInp#lr]+')` and the emit that follows it. */
  method ScanFlags(s: Scanner) returns (flags: seq<char>)
    requires s.Valid() && s.start == s.pos
    modifies s
    ensures s.Valid() && s.start == s.pos
    ensures (flags, s.pos) == FlagsAt(s.source, old(s.pos))
  {
    flags := [];
    var a := RunEnd(s.source, s.pos, Whitespace);
    if a < |s.source| && s.source[a] in SubstituteFlags {
      s.Jump(RunEnd(s.source, a, SubstituteFlags));
      var t := s.Emit();
      flags := Strip(t);
    }
  }

  /** The optional count after a space. */
  method ScanCount(s: Scanner) returns (count: nat)
    requires s.Valid() && s.start == s.pos
    modifies s
    ensures s.Valid() && s.start == s.pos
    ensures count == CountValue(CountAt(s.source, old(s.pos)).0) && s.pos == CountAt(s.source, old(s.pos)).1
  {
    count := 1;
    var space := s.Peek(' ');
    if space {
      s.Skip(' ');
      s.Ignore();
      var e := RunEnd(s.source, s.pos, Digits);
      if s.pos < e {
        s.Jump(e);
        var t := s.Emit();
        count := DecimalValue(t);
      }
    }
  }

  method Substitute(s: Scanner) returns (r: Result<TokenCommand>)
    requires s.Valid() && s.start == s.pos
    modifies s
    ensures s.Valid()
    ensures r == SubstituteSpec(s.source, old(s.pos))
  {
    ghost var src, p := s.source, s.pos;
    var c := s.Consume();
    if c == EOF {
      return Ok(Command("substitute").(addressable := true));
    }
    s.Backup();
    var delim := s.Consume();
    var found, pattern := ScanPattern(s, s.start, delim.c);
    if !found {
      return Err(Value(BadCommand(s.source)));
    }
    var replacement := ScanReplacement(s, s.start, delim.c);
    assert SubstituteParts(src, p) == Some((pattern, replacement, s.pos));
    r := SubstituteTail(s, pattern, replacement);
  }

  /** From the flags to the end of the line. */
  method SubstituteTail(s: Scanner, pattern: string, replacement: string) returns (r: Result<TokenCommand>)
    requires s.Valid() && s.start == s.pos
    modifies s
    ensures s.Valid()
    ensures r == SubstituteFlagsSpec(s.source, pattern, replacement, old(s.pos))
  {
    var flags := ScanFlags(s);
    if '&' in flags && flags[0] != '&' {
      return Err(Value(BadCommand(s.source)));
    }
    var count := ScanCount(s);
    s.Skip(' ');
    s.Ignore();
    var ok := s.ExpectEof();
    if !ok {
      return Err(Expected(EndOfInput));
    }
    r := Ok(Command("substitute").(addressable := true, params := Substitution(pattern, replacement, count, flags)));
  }

  /** The text after a pattern and a replacement written back with delimiter d: the flags,
      then, when there is a count, a space and its digits. */
  function FlagsAndCount(flags: seq<char>, digits: string): string
  {
    flags + if digits == [] then [] else [' '] + digits
  }

  /** A delimiter at p, a pattern and a replacement that do not contain it, each followed by
      the delimiter or, for the replacement, by the end of the line, split back into that
      pattern and that replacement. */
  lemma SubstitutePartsAt(src: string, p: nat, a: nat, j: nat, b: nat, m: nat, pattern: string, replacement: string)
    requires a == p + 1 && j == a + |pattern| && b == j + 1 && m == b + |replacement| && m <= |src|
    requires src[p] !in pattern && src[p] !in replacement
    requires src[a..j] == pattern && src[j] == src[p] && src[b..m] == replacement
    requires m < |src| ==> src[m] == src[p]
    ensures SubstituteParts(src, p) == Some((pattern, replacement, if m < |src| then m + 1 else m))
  {
    UntilSlice(src, a, src[p], j);
    UntilSlice(src, b, src[p], m);
  }

  /** A delimiter, a pattern and a replacement that do not contain it, and an optional
      closing delimiter split back into that pattern and that replacement. */
  lemma SubstitutePartsOf(head: string, d: char, pattern: string, replacement: string, tail: string)
    requires d !in pattern && d !in replacement
    requires tail == [] || tail[0] == d
    ensures var src := head + [d] + pattern + [d] + replacement + tail;
      var m := |head| + 2 + |pattern| + |replacement|;
      SubstituteParts(src, |head|) == Some((pattern, replacement, if tail == [] then m else m + 1))
  {
    var a := head + [d];
    var b := a + pattern;
    var c := b + [d];
    var e := c + replacement;
    var src := e + tail;
    Delimited(head, d, pattern, replacement);
    assert src[..|e|] == e;
    if tail != [] {
      assert src[|e|] == tail[0];
    }
    var p, pa, j, pb, m := |head|, |a|, |b|, |c|, |e|;
    assert src[p] == e[p] && src[j] == e[j];
    assert src[pa..j] == e[pa..j] && src[pb..m] == e[pb..];
    SubstitutePartsAt(src, p, pa, j, pb, m, pattern, replacement);
  }

  /** Where the pieces of head, d, pattern, d, replacement sit, read through any text that
      follows them. */
  lemma Delimited(head: string, d: char, pattern: string, replacement: string)
    ensures var e := head + [d] + pattern + [d] + replacement;
      var p := |head|;
      var j := p + 1 + |pattern|;
      |e| == j + 1 + |replacement| && e[p] == d && e[j] == d
      && e[p + 1..j] == pattern && e[j + 1..] == replacement
  {
    var a := head + [d];
    var b := a + pattern;
    var c := b + [d];
    var e := c + replacement;
    var p := |head|;
    var j := |b|;
    assert e[..|c|] == c && c[..j] == b;
    assert e[p] == d by {
      assert e[p] == c[p] == b[p] == a[p];
    }
    assert e[j] == d by {
      assert e[j] == c[j];
    }
    assert e[p + 1..j] == pattern by {
      assert e[..j] == e[..|c|][..j] == c[..j] == b;
      assert e[p + 1..j] == e[..j][p + 1..] == b[|a|..];
    }
    assert e[j + 1..] == replacement;
  }

  /** A run of flag letters at q that is followed by neither another flag letter nor
      whitespace is read as exactly those flags. */
  lemma FlagsAtOf(src: string, q: nat, f: nat, flags: seq<char>)
    requires flags != [] && f == q + |flags| && f <= |src| && src[q..f] == flags
    requires forall k :: 0 <= k < |flags| ==> flags[k] in SubstituteFlags
    requires f < |src| ==> src[f] !in SubstituteFlags
    ensures FlagsAt(src, q) == (flags, f)
  {
    assert forall k :: q <= k < f ==> src[k] == flags[k - q];
    RunEndUnique(src, q, Whitespace, q);
    RunEndUnique(src, q, SubstituteFlags, f);
    StripBetween(flags, 0, |flags|);
    assert flags[0..|flags|] == flags;
  }

  /** No flags when the line ends at q, or when a space and a digit follow. */
  lemma NoFlagsAt(src: string, q: nat)
    requires q == |src| || (q + 1 < |src| && src[q] == ' ' && IsDigit(src[q + 1]))
    ensures FlagsAt(src, q) == ([], q)
  {
    if q < |src| {
      RunEndUnique(src, q, Whitespace, q + 1);
    }
  }

  /** A space and a run of digits that ends the line are read as the count. */
  lemma CountAtOf(src: string, f: nat, digits: string)
    requires f <= |src| && src[f..] == if digits == [] then [] else [' '] + digits
    requires forall k :: 0 <= k < |digits| ==> IsDigit(digits[k])
    ensures CountAt(src, f) == (if digits == [] then None else Some(digits), |src|)
  {
    if digits != [] {
      var g := f + 1;
      assert src[g..] == src[f..][1..] == digits;
      assert src[g..|src|] == digits;
      SpaceBeforeDigits(src, f, g, digits);
      DigitsToEnd(src, g, digits);
    }
  }

  lemma SpaceBeforeDigits(src: string, f: nat, g: nat, digits: string)
    requires digits != [] && g == f + 1 && f < |src| && src[f] == ' ' && src[g..] == digits
    requires forall k :: 0 <= k < |digits| ==> IsDigit(digits[k])
    ensures SkipSpaces(src, f) == g
  {
    assert src[g] == digits[0];
    RunEndUnique(src, f, {' '}, g);
  }

  lemma DigitsToEnd(src: string, b: nat, digits: string)
    requires b <= |src| && src[b..] == digits
    requires forall k :: 0 <= k < |digits| ==> IsDigit(digits[k])
    ensures RunEnd(src, b, Digits) == |src|
  {
    forall k | b <= k < |src| ensures src[k] in Digits {
      assert src[k] == digits[k - b];
      DigitsAreDigits(src[k]);
    }
    RunEndUnique(src, b, Digits, |src|);
  }

  /** What follows the replacement is decided by the flags, the count and whether only
      spaces come after them. */
  lemma SubstituteFlagsSpecOf(src: string, pattern: string, replacement: string, q: nat, flags: seq<char>, digits: Option<string>)
    requires q <= |src|
    requires FlagsAt(src, q).0 == flags && CountAt(src, FlagsAt(src, q).1) == (digits, |src|)
    ensures SubstituteFlagsSpec(src, pattern, replacement, q) ==
      if '&' in flags && flags[0] != '&' then Err(Value(BadCommand(src)))
      else Ok(Command("substitute").(addressable := true, params := Substitution(pattern, replacement, CountValue(digits), flags)))
  {
    RunEndUnique(src, |src|, {' '}, |src|);
  }

  /** Flags and a count written after the replacement are read back as written, except that
      `&` anywhere but first makes the command bad. */
  lemma SubstituteTailOf(src: string, q: nat, f: nat, pattern: string, replacement: string, flags: seq<char>, digits: string)
    requires f == q + |flags| && f <= |src| && src[q..f] == flags
    requires src[f..] == if digits == [] then [] else [' '] + digits
    requires forall k :: 0 <= k < |flags| ==> flags[k] in SubstituteFlags
    requires forall k :: 0 <= k < |digits| ==> IsDigit(digits[k])
    ensures SubstituteFlagsSpec(src, pattern, replacement, q) ==
      if '&' in flags && flags[0] != '&' then Err(Value(BadCommand(src)))
      else Ok(Command("substitute").(addressable := true,
        params := Substitution(pattern, replacement, CountValue(if digits == [] then None else Some(digits)), flags)))
  {
    if flags != [] {
      FlagsAtOf(src, q, f, flags);
    } else {
      if digits != [] {
        assert src[q..][1] == digits[0];
      }
      NoFlagsAt(src, q);
    }
    CountAtOf(src, f, digits);
    SubstituteFlagsSpecOf(src, pattern, replacement, q, flags, if digits == [] then None else Some(digits));
  }

  /** Writing a substitution back out — delimiter, pattern, delimiter, replacement,
      delimiter, flags, a space and the count — and parsing it gives back the same pattern,
      replacement, count and flags, for any delimiter that occurs in neither pattern nor
      replacement; the count defaults to 1 and `&` is accepted only as the first flag. */
  lemma SubstituteRoundTrip(head: string, d: char, pattern: string, replacement: string, flags: seq<char>, digits: string)
    requires d !in pattern && d !in replacement
    requires forall k :: 0 <= k < |flags| ==> flags[k] in SubstituteFlags
    requires forall k :: 0 <= k < |digits| ==> IsDigit(digits[k])
    ensures SubstituteSpec(head + [d] + pattern + [d] + replacement + [d] + FlagsAndCount(flags, digits), |head|) ==
      var src := head + [d] + pattern + [d] + replacement + [d] + FlagsAndCount(flags, digits);
      if '&' in flags && flags[0] != '&' then Err(Value(BadCommand(src)))
      else Ok(Command("substitute").(addressable := true,
        params := Substitution(pattern, replacement, CountValue(if digits == [] then None else Some(digits)), flags)))
  {
    var src := head + [d] + pattern + [d] + replacement + [d] + FlagsAndCount(flags, digits);
    var p := |head|;
    var a := p + 1;
    var j := a + |pattern|;
    var b := j + 1;
    var m := b + |replacement|;
    var q := m + 1;
    var f := q + |flags|;
    SubstituteLayout(head, d, pattern, replacement, flags, digits, p, a, j, b, m, q, f);
    SubstituteAt(src, p, a, j, b, m, q, f, pattern, replacement, flags, digits);
  }

  /** The same on a line given by its pieces' positions: the delimiter at p, after the
      pattern and after the replacement, then the flags and the count. */
  lemma SubstituteAt(src: string, p: nat, a: nat, j: nat, b: nat, m: nat, q: nat, f: nat,
                     pattern: string, replacement: string, flags: seq<char>, digits: string)
    requires a == p + 1 && j == a + |pattern| && b == j + 1 && m == b + |replacement|
    requires q == m + 1 && f == q + |flags| && f <= |src|
    requires src[p] !in pattern && src[p] !in replacement
    requires src[a..j] == pattern && src[j] == src[p] && src[b..m] == replacement && src[m] == src[p]
    requires src[q..f] == flags && src[f..] == if digits == [] then [] else [' '] + digits
    requires forall k :: 0 <= k < |flags| ==> flags[k] in SubstituteFlags
    requires forall k :: 0 <= k < |digits| ==> IsDigit(digits[k])
    ensures SubstituteSpec(src, p) ==
      if '&' in flags && flags[0] != '&' then Err(Value(BadCommand(src)))
      else Ok(Command("substitute").(addressable := true,
        params := Substitution(pattern, replacement, CountValue(if digits == [] then None else Some(digits)), flags)))
  {
    assert SubstituteParts(src, p) == Some((pattern, replacement, q)) by {
      SubstitutePartsAt(src, p, a, j, b, m, pattern, replacement);
    }
    var spaces := if digits == [] then "" else " ";
    OneSpaceTail(src, q, f, flags, digits);
    SpacedAt(src, p, q, pattern, replacement, flags, spaces, digits, []);
  }

  /** Flags and a count written with one space before it, as a spaced tail. */
  lemma OneSpaceTail(src: string, q: nat, f: nat, flags: seq<char>, digits: string)
    requires f == q + |flags| && f <= |src| && src[q..f] == flags
    requires src[f..] == if digits == [] then [] else [' '] + digits
    ensures src[q..] == flags + (if digits == [] then "" else " ") + digits + []
  {
    assert src[q..] == src[q..f] + src[f..];
  }

  lemma SubstituteSpecOfParts(src: string, p: nat, pattern: string, replacement: string, q: nat)
    requires p < |src| && q <= |src| && SubstituteParts(src, p) == Some((pattern, replacement, q))
    ensures SubstituteSpec(src, p) == SubstituteFlagsSpec(src, pattern, replacement, q)
  {
  }

  /** Where the pieces of a written-out substitution sit in the line. */
  lemma SubstituteLayout(head: string, d: char, pattern: string, replacement: string, flags: seq<char>, digits: string,
                         p: nat, a: nat, j: nat, b: nat, m: nat, q: nat, f: nat)
    requires p == |head| && a == p + 1 && j == a + |pattern| && b == j + 1 && m == b + |replacement|
    requires q == m + 1 && f == q + |flags|
    ensures var src := head + [d] + pattern + [d] + replacement + [d] + FlagsAndCount(flags, digits);
      f <= |src| && src[p] == d && src[j] == d && src[m] == d
      && src[a..j] == pattern && src[b..m] == replacement
      && src[q..f] == flags && src[f..] == if digits == [] then [] else [' '] + digits
  {
    var rest := FlagsAndCount(flags, digits);
    var e := head + [d] + pattern + [d] + replacement;
    var g := e + [d];
    var src := g + rest;
    Delimited(head, d, pattern, replacement);
    assert m == |e| && q == |g|;
    assert src[..m] == e && g[..m] == e;
    assert src[m] == d by {
      assert src[m] == g[m];
    }
    assert src[p] == e[p] && src[j] == e[j];
    assert src[a..j] == pattern by {
      assert src[a..j] == src[..m][a..j] == e[a..j];
    }
    assert src[b..m] == replacement by {
      assert src[b..m] == src[..m][b..] == e[b..];
    }
    FlagsAndCountParts(flags, digits);
    assert src[q..] == rest;
    assert src[q..f] == flags by {
      assert src[q..f] == src[q..][..|flags|];
    }
    assert src[f..] == rest[|flags|..] by {
      assert src[f..] == src[q..][|flags|..];
    }
  }

  /** The flags come first in what FlagsAndCount writes, and the count after them. */
  lemma FlagsAndCountParts(flags: seq<char>, digits: string)
    ensures var r := FlagsAndCount(flags, digits);
      |flags| <= |r| && r[..|flags|] == flags && r[|flags|..] == if digits == [] then [] else [' '] + digits
  {
  }

  /** Without a closing delimiter the replacement runs to the end of the line. */
  lemma SubstituteUnclosed(head: string, d: char, pattern: string, replacement: string)
    requires d !in pattern && d !in replacement
    ensures SubstituteSpec(head + [d] + pattern + [d] + replacement, |head|)
      == Ok(Command("substitute").(addressable := true, params := Substitution(pattern, replacement, 1, [])))
  {
    var src := head + [d] + pattern + [d] + replacement;
    assert src == head + [d] + pattern + [d] + replacement + [];
    SubstitutePartsOf(head, d, pattern, replacement, []);
    SubstituteTailOf(src, |src|, |src|, pattern, replacement, [], []);
  }

  /** Text left after the flags and the count is refused: the closing `expect_eof` fails,
      unless a misplaced `&` has already made the command bad. The leftover text starts with
      a character that neither the flags, the count nor the spaces before the end take. */
  lemma SubstituteTrailing(head: string, d: char, pattern: string, replacement: string, flags: seq<char>, digits: string,
                           rest: string)
    requires d !in pattern && d !in replacement
    requires forall k :: 0 <= k < |flags| ==> flags[k] in SubstituteFlags
    requires forall k :: 0 <= k < |digits| ==> IsDigit(digits[k])
    requires rest != [] && !IsSpace(rest[0]) && !IsDigit(rest[0]) && rest[0] !in SubstituteFlags
    ensures SubstituteSpec(head + [d] + pattern + [d] + replacement + [d] + FlagsAndCount(flags, digits) + rest, |head|) ==
      var src := head + [d] + pattern + [d] + replacement + [d] + FlagsAndCount(flags, digits) + rest;
      if '&' in flags && flags[0] != '&' then Err(Value(BadCommand(src)))
      else Err(Expected(EndOfInput))
  {
    var e := head + [d] + pattern + [d] + replacement;
    var tail := [d] + FlagsAndCount(flags, digits) + rest;
    var src := e + tail;
    assert src == head + [d] + pattern + [d] + replacement + [d] + FlagsAndCount(flags, digits) + rest;
    var q := |e| + 1;
    assert SubstituteParts(src, |head|) == Some((pattern, replacement, q)) by {
      SubstitutePartsOf(head, d, pattern, replacement, tail);
    }
    assert src[q..] == FlagsAndCount(flags, digits) + rest by {
      AfterDelimiter(e, d, FlagsAndCount(flags, digits), rest);
    }
    TrailingAt(src, |head|, q, pattern, replacement, flags, digits, rest);
  }

  /** The same on a line given by positions: the parts cut at p end at q, and the flags, the
      count and the leftover text follow from q on. */
  lemma TrailingAt(src: string, p: nat, q: nat, pattern: string, replacement: string,
                   flags: seq<char>, digits: string, rest: string)
    requires p < |src| && q <= |src| && SubstituteParts(src, p) == Some((pattern, replacement, q))
    requires src[q..] == FlagsAndCount(flags, digits) + rest
    requires forall k :: 0 <= k < |flags| ==> flags[k] in SubstituteFlags
    requires forall k :: 0 <= k < |digits| ==> IsDigit(digits[k])
    requires rest != [] && !IsSpace(rest[0]) && !IsDigit(rest[0]) && rest[0] !in SubstituteFlags
    ensures SubstituteSpec(src, p) ==
      if '&' in flags && flags[0] != '&' then Err(Value(BadCommand(src)))
      else Err(Expected(EndOfInput))
  {
    var f := q + |flags|;
    var c := f + (if digits == [] then 0 else 1 + |digits|);
    TrailingLayout(src, q, f, c, flags, digits, rest);
    SubstituteSpecOfParts(src, p, pattern, replacement, q);
    SubstituteTailTrailing(src, q, f, c, pattern, replacement, flags, digits);
  }

  /** What follows the closing delimiter. */
  lemma AfterDelimiter(e: string, d: char, x: string, y: string)
    ensures (e + ([d] + x + y))[|e| + 1..] == x + y
  {
    var t := [d] + x + y;
    assert (e + t)[|e| + 1..] == t[1..];
  }

  /** Where flags, the count and the leftover text sit, from q on. */
  lemma TrailingLayout(src: string, q: nat, f: nat, c: nat, flags: seq<char>, digits: string, rest: string)
    requires q <= |src| && src[q..] == FlagsAndCount(flags, digits) + rest && rest != []
    requires f == q + |flags| && c == f + (if digits == [] then 0 else 1 + |digits|)
    ensures c < |src| && src[q..f] == flags && src[c] == rest[0]
    ensures src[f..c] == if digits == [] then [] else [' '] + digits
  {
    var r := FlagsAndCount(flags, digits);
    FlagsAndCountParts(flags, digits);
    var t := src[q..];
    assert t[..|r|] == r && t[|r|] == rest[0];
    assert src[q..f] == t[..|flags|] == r[..|flags|];
    assert src[f..c] == t[|flags|..|r|] == r[|flags|..];
  }

  /** The same from the flags on: flags from q to f, the count's space and digits from f to
      e, and at e a character none of them takes. */
  lemma SubstituteTailTrailing(src: string, q: nat, f: nat, e: nat, pattern: string, replacement: string,
                               flags: seq<char>, digits: string)
    requires f == q + |flags| && f <= e < |src| && src[q..f] == flags
    requires e == f + (if digits == [] then 0 else 1 + |digits|)
    requires src[f..e] == if digits == [] then [] else [' '] + digits
    requires forall k :: 0 <= k < |flags| ==> flags[k] in SubstituteFlags
    requires forall k :: 0 <= k < |digits| ==> IsDigit(digits[k])
    requires !IsSpace(src[e]) && !IsDigit(src[e]) && src[e] !in SubstituteFlags
    ensures SubstituteFlagsSpec(src, pattern, replacement, q) ==
      if '&' in flags && flags[0] != '&' then Err(Value(BadCommand(src)))
      else Err(Expected(EndOfInput))
  {
    FlagsBeforeTrailing(src, q, f, e, flags, digits);
    if digits != [] {
      CountBeforeTrailing(src, f, f + 1, e, digits);
    }
    RunEndUnique(src, e, {' '}, e);
  }

  /** The flags before the count, or before the leftover text, are read as written. */
  lemma FlagsBeforeTrailing(src: string, q: nat, f: nat, e: nat, flags: seq<char>, digits: string)
    requires f == q + |flags| && f <= e < |src| && src[q..f] == flags
    requires src[f..e] == if digits == [] then [] else [' '] + digits
    requires forall k :: 0 <= k < |flags| ==> flags[k] in SubstituteFlags
    requires digits != [] ==> IsDigit(digits[0])
    requires !IsSpace(src[e]) && src[e] !in SubstituteFlags
    ensures FlagsAt(src, q) == (flags, f)
  {
    if flags != [] {
      if f < e {
        assert src[f] == src[f..e][0];
      }
      FlagsAtOf(src, q, f, flags);
    } else if digits != [] {
      assert src[q] == src[f..e][0] && src[q + 1] == src[f..e][1];
      NoFlagsAt(src, q);
    } else {
      RunEndUnique(src, q, Whitespace, q);
    }
  }

  /** A space and a run of digits that the leftover text at e ends are read as the count. */
  lemma CountBeforeTrailing(src: string, f: nat, g: nat, e: nat, digits: string)
    requires g == f + 1 && g <= e < |src| && src[f..e] == [' '] + digits
    requires digits != [] && forall k :: 0 <= k < |digits| ==> IsDigit(digits[k])
    requires !IsDigit(src[e])
    ensures CountAt(src, f) == (Some(digits), e)
  {
    assert src[f] == src[f..e][0];
    assert src[g..e] == src[f..e][1..] == digits;
    assert src[g] == digits[0];
    RunEndUnique(src, f, {' '}, g);
    forall k | g <= k < e
      ensures src[k] in Digits
    {
      assert src[k] == digits[k - g];
      DigitsAreDigits(src[k]);
    }
    DigitsAreDigits(src[e]);
    RunEndUnique(src, g, Digits, e);
  }

  /** Any run of spaces and then digits is read as the count, and spaces with no digits
      after them as no count; the cursor ends after the digits, or after the spaces when
      there are none. */
  lemma CountAtSpaced(src: string, f: nat, e: nat, spaces: string, digits: string)
    requires f <= e <= |src| && src[f..e] == spaces + digits
    requires forall k :: 0 <= k < |spaces| ==> spaces[k] == ' '
    requires forall k :: 0 <= k < |digits| ==> IsDigit(digits[k])
    requires digits != [] ==> spaces != []
    requires e < |src| ==> !IsDigit(src[e]) && (digits == [] ==> src[e] != ' ')
    ensures CountAt(src, f) == (if digits == [] then None else Some(digits), e)
  {
    var g := f + |spaces|;
    assert forall k :: f <= k < g ==> src[k] == src[f..e][k - f] == spaces[k - f];
    assert forall k :: g <= k < e ==> src[k] == src[f..e][k - f] == digits[k - g];
    if spaces != [] {
      assert g < |src| ==> src[g] != ' ' by {
        if digits != [] {
          assert src[g] == digits[0];
        }
      }
      RunEndUnique(src, f, {' '}, g);
      forall k | g <= k < e
        ensures src[k] in Digits
      {
        DigitsAreDigits(src[k]);
      }
      if e < |src| {
        DigitsAreDigits(src[e]);
      }
      RunEndUnique(src, g, Digits, e);
      assert src[g..e] == digits;
    }
  }

  /** Flags, then spaces and a count, then spaces to the end of the line: the flags and the
      count are read back as written, however many spaces surround the count. */
  lemma SubstituteTailSpaced(src: string, q: nat, pattern: string, replacement: string, flags: seq<char>,
                             spaces: string, digits: string, trail: string)
    requires q <= |src| && src[q..] == flags + spaces + digits + trail
    requires forall k :: 0 <= k < |flags| ==> flags[k] in SubstituteFlags
    requires forall k :: 0 <= k < |spaces| ==> spaces[k] == ' '
    requires forall k :: 0 <= k < |digits| ==> IsDigit(digits[k])
    requires forall k :: 0 <= k < |trail| ==> trail[k] == ' '
    requires digits != [] ==> spaces != []
    ensures SubstituteFlagsSpec(src, pattern, replacement, q) ==
      if '&' in flags && flags[0] != '&' then Err(Value(BadCommand(src)))
      else Ok(Command("substitute").(addressable := true,
        params := Substitution(pattern, replacement, CountValue(if digits == [] then None else Some(digits)), flags)))
  {
    var f := q + |flags|;
    var c := if digits == [] then |src| else f + |spaces| + |digits|;
    assert FlagsAt(src, q) == (flags, f) by {
      SpacedLayout(src, q, flags, spaces, digits, trail);
      FlagsBeforeSpaced(src, q, f, f + |spaces|, f + |spaces| + |digits|, flags, digits);
    }
    assert CountAt(src, f) == (if digits == [] then None else Some(digits), c) && SkipSpaces(src, c) == |src| by {
      SpacedLayout(src, q, flags, spaces, digits, trail);
      SpacedCount(src, f, c, spaces, digits, trail);
    }
  }

  /** The count and the spaces after it, from f on. */
  lemma SpacedCount(src: string, f: nat, c: nat, spaces: string, digits: string, trail: string)
    requires f <= |src| && src[f..] == spaces + digits + trail
    requires c == if digits == [] then |src| else f + |spaces| + |digits|
    requires forall k :: 0 <= k < |spaces| ==> spaces[k] == ' '
    requires forall k :: 0 <= k < |digits| ==> IsDigit(digits[k])
    requires forall k :: 0 <= k < |trail| ==> trail[k] == ' '
    requires digits != [] ==> spaces != []
    ensures c <= |src| && CountAt(src, f) == (if digits == [] then None else Some(digits), c)
    ensures SkipSpaces(src, c) == |src|
  {
    var t := src[f..];
    var e := |spaces| + |digits|;
    assert forall k :: e <= k < |t| ==> t[k] == trail[k - e];
    if digits == [] {
      assert t == spaces + trail;
      CountAtSpaced(src, f, c, spaces + trail, digits);
    } else {
      assert t[..e] == spaces + digits;
      assert src[f..c] == t[..e];
      assert c < |src| ==> src[c] == t[e] == trail[0];
      CountAtSpaced(src, f, c, spaces, digits);
    }
    assert forall k :: c <= k < |src| ==> src[k] == t[k - f];
    RunEndUnique(src, c, {' '}, |src|);
  }

  /** Where flags, spaces, count and trailing spaces sit, from q on. */
  lemma SpacedLayout(src: string, q: nat, flags: seq<char>, spaces: string, digits: string, trail: string)
    requires q <= |src| && src[q..] == flags + spaces + digits + trail
    ensures var f := q + |flags|; var g := f + |spaces|; var e := g + |digits|;
      e <= |src| && src[q..f] == flags && src[f..g] == spaces && src[g..e] == digits && src[e..] == trail
      && src[f..] == spaces + digits + trail && src[f..e] == spaces + digits
  {
    var t := src[q..];
    var f := |flags|;
    var g := f + |spaces|;
    var e := g + |digits|;
    assert t[..f] == flags && t[f..g] == spaces && t[g..e] == digits && t[e..] == trail;
    assert t[f..] == spaces + digits + trail && t[f..e] == spaces + digits;
  }

  /** The flags before the spaced count are read as written. */
  lemma FlagsBeforeSpaced(src: string, q: nat, f: nat, g: nat, e: nat, flags: seq<char>, digits: string)
    requires q <= f <= g <= e <= |src| && f == q + |flags| && src[q..f] == flags
    requires forall k :: 0 <= k < |flags| ==> flags[k] in SubstituteFlags
    requires forall k :: f <= k < g ==> src[k] == ' '
    requires src[g..e] == digits && forall k :: 0 <= k < |digits| ==> IsDigit(digits[k])
    requires digits != [] ==> f < g
    requires forall k :: e <= k < |src| ==> src[k] == ' '
    ensures FlagsAt(src, q).0 == flags && FlagsAt(src, q).1 == f
  {
    if flags != [] {
      assert f < |src| ==> src[f] == ' ' by {
        if f < |src| && f == g {
          assert digits == [] && e == g;
        }
      }
      FlagsAtOf(src, q, f, flags);
    } else if digits != [] {
      assert src[g] == digits[0];
      NoFlagsBlanks(src, q, g);
    } else {
      NoFlagsBlanks(src, q, |src|);
    }
  }

  /** Spaces up to the end of the line, or up to a digit, hold no flags. */
  lemma NoFlagsBlanks(src: string, q: nat, g: nat)
    requires q <= g <= |src| && forall k :: q <= k < g ==> src[k] == ' '
    requires g < |src| ==> IsDigit(src[g])
    ensures FlagsAt(src, q) == ([], q)
  {
    assert forall k :: q <= k < g ==> src[k] in Whitespace;
    RunEndUnique(src, q, Whitespace, g);
  }

  /** A whole command with spaces before and after its count: `s/a/b/g   3  ` has count 3,
      and spaces alone after the flags leave the count at 1. */
  lemma SubstituteSpaced(head: string, d: char, pattern: string, replacement: string, flags: seq<char>,
                         spaces: string, digits: string, trail: string)
    requires d !in pattern && d !in replacement
    requires forall k :: 0 <= k < |flags| ==> flags[k] in SubstituteFlags
    requires forall k :: 0 <= k < |spaces| ==> spaces[k] == ' '
    requires forall k :: 0 <= k < |digits| ==> IsDigit(digits[k])
    requires forall k :: 0 <= k < |trail| ==> trail[k] == ' '
    requires digits != [] ==> spaces != []
    ensures var src := head + [d] + pattern + [d] + replacement + ([d] + flags + spaces + digits + trail);
      SubstituteSpec(src, |head|) ==
      if '&' in flags && flags[0] != '&' then Err(Value(BadCommand(src)))
      else Ok(Command("substitute").(addressable := true,
        params := Substitution(pattern, replacement, CountValue(if digits == [] then None else Some(digits)), flags)))
  {
    var tail := [d] + flags + spaces + digits + trail;
    var e := head + [d] + pattern + [d] + replacement;
    var src := e + tail;
    var q := |e| + 1;
    assert SubstituteParts(src, |head|) == Some((pattern, replacement, q)) by {
      SubstitutePartsOf(head, d, pattern, replacement, tail);
    }
    assert src[q..] == flags + spaces + digits + trail by {
      assert tail == [d] + (flags + spaces + digits) + trail;
      AfterDelimiter(e, d, flags + spaces + digits, trail);
    }
    SpacedAt(src, |head|, q, pattern, replacement, flags, spaces, digits, trail);
  }

  /** The same on a line given by positions: the parts cut at p end at q, and the flags,
      the spaced count and the trailing spaces follow from q on. */
  lemma SpacedAt(src: string, p: nat, q: nat, pattern: string, replacement: string, flags: seq<char>,
                 spaces: string, digits: string, trail: string)
    requires p < |src| && q <= |src| && SubstituteParts(src, p) == Some((pattern, replacement, q))
    requires src[q..] == flags + spaces + digits + trail
    requires forall k :: 0 <= k < |flags| ==> flags[k] in SubstituteFlags
    requires forall k :: 0 <= k < |spaces| ==> spaces[k] == ' '
    requires forall k :: 0 <= k < |digits| ==> IsDigit(digits[k])
    requires forall k :: 0 <= k < |trail| ==> trail[k] == ' '
    requires digits != [] ==> spaces != []
    ensures SubstituteSpec(src, p) ==
      if '&' in flags && flags[0] != '&' then Err(Value(BadCommand(src)))
      else Ok(Command("substitute").(addressable := true,
        params := Substitution(pattern, replacement, CountValue(if digits == [] then None else Some(digits)), flags)))
  {
    SubstituteSpecOfParts(src, p, pattern, replacement, q);
    SubstituteTailSpaced(src, q, pattern, replacement, flags, spaces, digits, trail);
  }

  /** With no second delimiter the command is bad, and the message quotes the whole line. */
  lemma SubstituteMissingDelimiter(src: string, p: nat)
    requires p < |src|
    requires forall k :: p < k < |src| ==> src[k] != src[p]
    ensures SubstituteSpec(src, p) == Err(Value("bad command: " + src))
  {
    UntilUnique(src, p + 1, src[p], |src|);
  }
}
