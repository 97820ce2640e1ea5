/** `_ex_route_print`: an optional count and optional flags from `l`, `#` and `p`. */
module ExPrint {
  import opened ExText
  import opened ExTokens
  import opened ExScanner

  /** What `[l#p]+` accepts. */
  const PrintFlags: set<char> := {'l', '#', 'p'}

  /** The command with the line read from p on: addressable, cooperating with `:global`. */
  function PrintSpec(src: string, p: nat): Result<TokenCommand>
    requires p <= |src|
  {
    match PrintLoop(src, p, None)
    case Err(e) => Err(e)
    case Ok(args) => Ok(Command("print").(addressable := true, cooperatesWithGlobal := true, params := args))
  }

  /** One turn of the loop from k on, with the count read so far. The character at k is
      consumed and dropped, the spaces after it skipped; then a digit starts a count, after
      which the loop turns again, and anything else must be flags up to the end of the
      line. */
  function PrintLoop(src: string, k: nat, count: Option<string>): Result<Params>
    requires k <= |src|
    decreases |src| - k
  {
    if k == |src| then Ok(PrintArgs(count, None))
    else
      var j := SkipSpaces(src, k + 1);
      if j < |src| && IsDigit(src[j]) then
        var e := RunEnd(src, j + 1, Digits);
        PrintLoop(src, e, Some(src[j..e]))
      else PrintFlagsSpec(src, j, count)
  }

  /** The flags, the symbol read at j not being a digit. When j is the end of the line the
      backup steps onto the last character, so the flags are read from there. */
  function PrintFlagsSpec(src: string, j: nat, count: Option<string>): Result<Params>
    requires 0 < j <= |src|
  {
    var i := if j == |src| then j - 1 else j;
    var f := RunEnd(src, i, PrintFlags);
    if f == i then Err(Expected(Match))
    else if f < |src| then Err(Expected(EndOfInput))
    else Ok(PrintArgs(count, Some(src[i..f])))
  }

  method Print(s: Scanner) returns (r: Result<TokenCommand>)
    requires s.Valid() && s.start == s.pos
    modifies s
    ensures s.Valid()
    ensures r == PrintSpec(s.source, old(s.pos))
  {
    var args := PrintArguments(s);
    match args
    case Err(e) => r := Err(e);
    case Ok(a) => r := Ok(Command("print").(addressable := true, cooperatesWithGlobal := true, params := a));
  }

  /** The loop. */
  method PrintArguments(s: Scanner) returns (r: Result<Params>)
    requires s.Valid() && s.start == s.pos
    modifies s
    ensures s.Valid()
    ensures r == PrintLoop(s.source, old(s.pos), None)
  {
    var count: Option<string> := None;
    while true
      invariant s.Valid() && s.start == s.pos && old(s.pos) <= s.pos
      invariant PrintLoop(s.source, old(s.pos), None) == PrintLoop(s.source, s.pos, count)
      decreases |s.source| - s.pos
    {
      ghost var k := s.pos;
      var c := s.Consume();
      s.Skip(' ');
      s.Ignore();
      if c == EOF {
        break;
      }
      ghost var j := s.pos;
      assert j == SkipSpaces(s.source, k + 1);
      var d := s.Consume();
      if d != EOF && IsDigit(d.c) {
        assert s.pos == j + 1 && s.start == j && IsDigit(s.source[j]);
        var e := RunEnd(s.source, s.pos, Digits);
        s.Jump(e);
        var t := s.Emit();
        PrintLoopCount(s.source, k, j, e, count);
        count := Some(t);
        continue;
      }
      PrintLoopFlags(s.source, k, count);
      if d == EOF {
        s.Retreat();
      } else {
        s.Backup();
      }
      r := PrintFlagList(s, j, count);
      return;
    }
    r := Ok(PrintArgs(count, None));
  }

  /** A turn of the loop that finds a digit after the spaces reads the digit run as the
      count and turns again after it. */
  lemma PrintLoopCount(src: string, k: nat, j: nat, e: nat, count: Option<string>)
    requires k < |src| && j == SkipSpaces(src, k + 1) && j < |src| && IsDigit(src[j])
    requires e == RunEnd(src, j + 1, Digits)
    ensures j < e && PrintLoop(src, k, count) == PrintLoop(src, e, Some(src[j..e]))
  {
  }

  /** A turn of the loop that finds anything else after the spaces reads the flags. */
  lemma PrintLoopFlags(src: string, k: nat, count: Option<string>)
    requires k < |src|
    requires var j := SkipSpaces(src, k + 1); !(j < |src| && IsDigit(src[j]))
    ensures 0 < SkipSpaces(src, k + 1)
    ensures PrintLoop(src, k, count) == PrintFlagsSpec(src, SkipSpaces(src, k + 1), count)
  {
  }

  /** `expect_match(r'[l#p]+')` and `expect_eof`, from the cursor. */
  method PrintFlagList(s: Scanner, ghost j: nat, count: Option<string>) returns (r: Result<Params>)
    requires s.Valid() && 0 < j <= |s.source|
    requires s.pos == if j == |s.source| then j - 1 else j
    modifies s
    ensures s.Valid()
    ensures r == PrintFlagsSpec(s.source, j, count)
  {
    var i := s.pos;
    var f := RunEnd(s.source, i, PrintFlags);
    if f == i {
      return Err(Expected(Match));
    }
    s.Jump(f);
    var flags := s.source[i..f];
    s.Ignore();
    var ok := s.ExpectEof();
    if !ok {
      return Err(Expected(EndOfInput));
    }
    r := Ok(PrintArgs(count, Some(flags)));
  }

  /** What a successful parse can hold: a count made of digits, and flags drawn from
      `l`, `#` and `p`, at least one of them. */
  predicate WellFormed(a: Params)
  {
    a.PrintArgs?
    && (a.printCount.Some? ==> a.printCount.value != [] && forall k :: 0 <= k < |a.printCount.value| ==> IsDigit(a.printCount.value[k]))
    && (a.printFlags.Some? ==> a.printFlags.value != [] && forall k :: 0 <= k < |a.printFlags.value| ==> a.printFlags.value[k] in PrintFlags)
  }

  /** Every successful parse is well formed: the flags are the last thing on the line, and
      the count is whichever digit run came last. */
  lemma {:induction false} PrintLoopWellFormed(src: string, k: nat, count: Option<string>)
    requires k <= |src| && WellFormed(PrintArgs(count, None))
    ensures PrintLoop(src, k, count).Ok? ==> WellFormed(PrintLoop(src, k, count).value)
    decreases |src| - k
  {
    if k < |src| {
      var j := SkipSpaces(src, k + 1);
      if j < |src| && IsDigit(src[j]) {
        var e := RunEnd(src, j + 1, Digits);
        DigitRunWellFormed(src, j, e);
        PrintLoopCount(src, k, j, e, count);
        PrintLoopWellFormed(src, e, Some(src[j..e]));
      } else {
        PrintLoopFlags(src, k, count);
        PrintFlagsWellFormed(src, j, count);
      }
    }
  }

  /** A digit at j and the digit run after it make a well-formed count. */
  lemma DigitRunWellFormed(src: string, j: nat, e: nat)
    requires j < |src| && IsDigit(src[j]) && e == RunEnd(src, j + 1, Digits)
    ensures WellFormed(PrintArgs(Some(src[j..e]), None))
  {
    forall i | 0 <= i < e - j ensures IsDigit(src[j..e][i]) {
      if i > 0 {
        DigitsAreDigits(src[j + i]);
      }
    }
  }

  /** The flags clause, when it succeeds, keeps the count and adds a well-formed flag list. */
  lemma PrintFlagsWellFormed(src: string, j: nat, count: Option<string>)
    requires 0 < j <= |src| && WellFormed(PrintArgs(count, None))
    ensures PrintFlagsSpec(src, j, count).Ok? ==> WellFormed(PrintFlagsSpec(src, j, count).value)
  {
    var i := if j == |src| then j - 1 else j;
    var f := RunEnd(src, i, PrintFlags);
    forall k | 0 <= k < f - i ensures src[i..f][k] in PrintFlags {
      assert src[i..f][k] == src[i + k];
    }
  }

  /** Every successful parse is a print that is addressable and cooperates with global. */
  lemma PrintCapabilities(src: string, p: nat)
    requires p <= |src|
    ensures PrintSpec(src, p).Ok? ==> (PrintSpec(src, p).value.name == "print"
      && PrintSpec(src, p).value.addressable && PrintSpec(src, p).value.cooperatesWithGlobal
      && WellFormed(PrintSpec(src, p).value.params))
  {
    PrintLoopWellFormed(src, p, None);
  }

  /** A digit run at j, followed by the end of the line or a space, is the count. */
  lemma CountRun(src: string, j: nat, digits: string)
    requires j + |digits| <= |src| && src[j..j + |digits|] == digits
    requires forall k :: 0 <= k < |digits| ==> IsDigit(digits[k])
    requires j + |digits| < |src| ==> src[j + |digits|] == ' '
    ensures j + 1 <= j + |digits| ==> RunEnd(src, j + 1, Digits) == j + |digits|
  {
    var e := j + |digits|;
    if j + 1 <= e {
      forall i | j + 1 <= i < e ensures src[i] in Digits {
        assert src[i] == src[j..e][i - j];
      }
      RunEndUnique(src, j + 1, Digits, e);
    }
  }

  /** One space, a count and the end of the line give that count and no flags. */
  lemma PrintCount(head: string, digits: string)
    requires digits != [] && forall k :: 0 <= k < |digits| ==> IsDigit(digits[k])
    ensures PrintSpec(head + " " + digits, |head|)
      == Ok(Command("print").(addressable := true, cooperatesWithGlobal := true,
        params := PrintArgs(Some(digits), None)))
  {
    var src := head + " " + digits;
    var j := |head| + 1;
    assert src[j..] == digits;
    assert src[j] == digits[0];
    RunEndUnique(src, j, {' '}, j);
    CountRun(src, j, digits);
    PrintLoopCount(src, |head|, j, |src|, None);
    assert src[j..|src|] == digits;
  }

  /** Flags that run to the end of the line, read from i, are the flags of the command. */
  lemma FlagsToEnd(src: string, i: nat, count: Option<string>)
    requires 0 < i < |src| && forall k :: i <= k < |src| ==> src[k] in PrintFlags
    ensures PrintFlagsSpec(src, i, count) == Ok(PrintArgs(count, Some(src[i..])))
  {
    RunEndUnique(src, i, PrintFlags, |src|);
    assert src[i..|src|] == src[i..];
  }

  /** One space and a run of flags give those flags and no count. */
  lemma PrintFlagsOnly(head: string, flags: string)
    requires flags != [] && forall k :: 0 <= k < |flags| ==> flags[k] in PrintFlags
    ensures PrintSpec(head + " " + flags, |head|)
      == Ok(Command("print").(addressable := true, cooperatesWithGlobal := true,
        params := PrintArgs(None, Some(flags))))
  {
    var src := head + " " + flags;
    var j := |head| + 1;
    assert src[j..] == flags;
    assert forall k :: j <= k < |src| ==> src[k] == src[j..][k - j];
    RunEndUnique(src, j, {' '}, j);
    PrintLoopFlags(src, |head|, None);
    FlagsToEnd(src, j, None);
  }

  /** A count, one space and flags give both. */
  lemma PrintCountAndFlags(head: string, digits: string, flags: string)
    requires digits != [] && forall k :: 0 <= k < |digits| ==> IsDigit(digits[k])
    requires flags != [] && forall k :: 0 <= k < |flags| ==> flags[k] in PrintFlags
    ensures PrintSpec(head + " " + digits + " " + flags, |head|)
      == Ok(Command("print").(addressable := true, cooperatesWithGlobal := true,
        params := PrintArgs(Some(digits), Some(flags))))
  {
    var a := head + " " + digits;
    var b := a + " ";
    var src := b + flags;
    var j := |head| + 1;
    var e := |a|;
    assert src[..e] == a && src[..|b|] == b;
    assert src[j..e] == digits by {
      assert src[j..e] == src[..e][j..] == a[j..];
    }
    assert src[e] == ' ' by {
      assert src[e] == b[e];
    }
    assert src[e + 1..] == flags;
    assert forall i :: j <= i < e ==> src[i] == src[j..e][i - j];
    assert forall i :: e + 1 <= i < |src| ==> src[i] == src[e + 1..][i - e - 1];
    CountAndFlagsAt(src, |head|, e);
  }

  /** The same on a line given by its characters: after the character at k, digits up to e,
      a space at e, and flags from there to the end of the line. */
  lemma CountAndFlagsAt(src: string, k: nat, e: nat)
    requires k + 1 < e && e + 1 < |src| && src[e] == ' '
    requires forall i :: k + 1 <= i < e ==> IsDigit(src[i])
    requires forall i :: e + 1 <= i < |src| ==> src[i] in PrintFlags
    ensures PrintLoop(src, k, None) == Ok(PrintArgs(Some(src[k + 1..e]), Some(src[e + 1..])))
  {
    CountLoopAt(src, k, e);
    FlagsLoopAt(src, e, Some(src[k + 1..e]));
  }

  /** After the character at k, a digit run up to e that a space or the end of the line
      closes: the loop reads it as the count and turns again at e. */
  lemma CountLoopAt(src: string, k: nat, e: nat)
    requires k + 1 < e <= |src| && (e < |src| ==> src[e] == ' ')
    requires forall i :: k + 1 <= i < e ==> IsDigit(src[i])
    ensures PrintLoop(src, k, None) == PrintLoop(src, e, Some(src[k + 1..e]))
  {
    RunEndUnique(src, k + 1, {' '}, k + 1);
    forall i | k + 2 <= i < e ensures src[i] in Digits {
      DigitsAreDigits(src[i]);
    }
    RunEndUnique(src, k + 2, Digits, e);
    PrintLoopCount(src, k, k + 1, e, None);
  }

  /** After the character at e, flags up to the end of the line: the loop ends with them. */
  lemma FlagsLoopAt(src: string, e: nat, count: Option<string>)
    requires e + 1 < |src|
    requires forall i :: e + 1 <= i < |src| ==> src[i] in PrintFlags
    ensures PrintLoop(src, e, count) == Ok(PrintArgs(count, Some(src[e + 1..])))
  {
    RunEndUnique(src, e + 1, {' '}, e + 1);
    PrintLoopFlags(src, e, count);
    FlagsToEnd(src, e + 1, count);
  }

  /** Flags followed by anything but more flags are refused: the flags must end the line. */
  lemma PrintTrailing(src: string, j: nat, f: nat)
    requires 0 < j < f < |src| && src[f] !in PrintFlags
    requires forall k :: j <= k < f ==> src[k] in PrintFlags
    ensures PrintFlagsSpec(src, j, None) == Err(Expected(EndOfInput))
  {
    RunEndUnique(src, j, PrintFlags, f);
  }
}
