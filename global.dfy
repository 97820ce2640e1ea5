/** `_ex_route_global`: `:g/pattern/cmd`, with a separator drawn from a fixed set unless a
    bang comes first, after which any character separates. */
module ExGlobal {
  import opened ExText
  import opened ExTokens
  import opened ExScanner

  /** The separators `'!:?/\&$'` accepts; `!` is the bang, after which the separator is
      the next character, whatever it is. */
  const GlobalSeparators: set<char> := {'!', ':', '?', '/', '\\', '&', '$'}

  /** What the EOF sentinel turns into when the message concatenates it. The sentinel's
      text belongs to the scanner, which is not part of this model; this stands for it. */
  const EofText: string := "EOF"

  /** "bad separator: " followed by the first symbol after the name. */
  function BadSeparator(c: Symbol): string
  {
    "bad separator: " + match c case Ch(x) => [x] case EOF => EofText
  }

  function UnexpectedEof(src: string): string
  {
    "unexpected EOF in: " + src
  }

  /** The command with the line read from p on: the separator (after an optional bang), the
      pattern up to the next copy of the separator, which must be there, and the stripped
      rest of the line as the command when it is not empty. */
  function GlobalSpec(src: string, p: nat): Result<TokenCommand>
    requires p <= |src|
  {
    var c := SymbolAt(src, p);
    if c == EOF || c.c !in GlobalSeparators then Err(Value(BadSeparator(c)))
    else
      var bang := c.c == '!';
      var i := if bang then p + 2 else p + 1;
      if |src| < i then Err(Value(UnexpectedEof(src))) else GlobalBodySpec(src, bang, i)
  }

  /** What follows the separator, which is the character before i. */
  function GlobalBodySpec(src: string, bang: bool, i: nat): Result<TokenCommand>
    requires 0 < i <= |src|
  {
    var j := Until(src, i, src[i - 1]);
    if j == |src| then Err(Value(UnexpectedEof(src)))
    else
      Ok(Command("global").(addressable := true, forced := bang,
        params := GlobalArgs(src[i..j], CommandOf(src[j + 1..]))))
  }

  /** The command after the closing separator: the rest of the line stripped, none when
      that leaves nothing. */
  function CommandOf(rest: string): Option<string>
  {
    var cmd := Strip(rest);
    if cmd == [] then None else Some(cmd)
  }

  method Global(s: Scanner) returns (r: Result<TokenCommand>)
    requires s.Valid() && s.start == s.pos
    modifies s
    ensures s.Valid()
    ensures r == GlobalSpec(s.source, old(s.pos))
  {
    ghost var p := s.pos;
    var c := s.Consume();
    var bang := c == Ch('!');
    var sep := c;
    if bang {
      sep := s.Consume();
    }
    if c == EOF || c.c !in GlobalSeparators {
      GlobalRefused(s.source, p);
      return Err(Value(BadSeparator(c)));
    }
    s.Ignore();
    if sep == EOF {
      GlobalBangAtEnd(s.source, p);
      var d := s.Consume();
      return Err(Value(UnexpectedEof(s.source)));
    }
    assert s.pos == (if bang then p + 2 else p + 1) && s.source[s.pos - 1] == sep.c;
    GlobalOpened(s.source, p);
    r := GlobalBody(s, bang, sep.c);
  }

  /** No separator, or one outside the accepted set: refused, naming what was found. */
  lemma GlobalRefused(src: string, p: nat)
    requires p <= |src| && (p == |src| || src[p] !in GlobalSeparators)
    ensures GlobalSpec(src, p) == Err(Value(BadSeparator(SymbolAt(src, p))))
  {
  }

  /** A bang that ends the line leaves no separator: an unexpected end of input. */
  lemma GlobalBangAtEnd(src: string, p: nat)
    requires p + 1 == |src| && src[p] == '!'
    ensures GlobalSpec(src, p) == Err(Value(UnexpectedEof(src)))
  {
  }

  /** An accepted separator (or a bang and the character after it) hands the rest of the
      line to the body. */
  lemma GlobalOpened(src: string, p: nat)
    requires p < |src| && src[p] in GlobalSeparators && (src[p] == '!' ==> p + 1 < |src|)
    ensures var i := if src[p] == '!' then p + 2 else p + 1;
      i <= |src| && GlobalSpec(src, p) == GlobalBodySpec(src, src[p] == '!', i)
  {
  }

  /** The pattern up to the closing separator, and the command after it. */
  method GlobalBody(s: Scanner, bang: bool, sep: char) returns (r: Result<TokenCommand>)
    requires s.Valid() && s.start == s.pos && 0 < s.pos && s.source[s.pos - 1] == sep
    modifies s
    ensures s.Valid()
    ensures r == GlobalBodySpec(s.source, bang, old(s.pos))
  {
    ghost var i := s.pos;
    var found := FindSeparator(s, sep);
    if !found {
      GlobalBodyUnclosed(s.source, bang, i);
      return Err(Value(UnexpectedEof(s.source)));
    }
    ghost var src, j := s.source, s.pos - 1;
    var pattern, cmd := SplitAtSeparator(s);
    assert pattern == src[i..j] && cmd == CommandOf(src[j + 1..]);
    r := Ok(Command("global").(addressable := true, forced := bang, params := GlobalArgs(pattern, cmd)));
    GlobalBodyClosed(src, bang, i, j);
  }

  /** With the cursor just past the closing separator: the pending slice before it is the
      pattern, and the rest of the line is the command. */
  method SplitAtSeparator(s: Scanner) returns (pattern: string, cmd: Option<string>)
    requires s.Valid() && s.start < s.pos
    modifies s
    ensures s.Valid()
    ensures pattern == s.source[old(s.start)..old(s.pos) - 1]
    ensures cmd == CommandOf(s.source[old(s.pos)..])
  {
    s.Backup();
    pattern := s.Emit();
    var d := s.Consume();
    s.Ignore();
    cmd := CommandOf(s.source[s.pos..]);
    s.Jump(|s.source|);
  }

  /** The loop: consumes up to and including the next separator, and reports whether there
      was one before the end of the line. */
  method FindSeparator(s: Scanner, sep: char) returns (found: bool)
    requires s.Valid() && s.start == s.pos
    modifies s
    ensures s.Valid() && s.start == old(s.pos)
    ensures found <==> Until(s.source, old(s.pos), sep) < |s.source|
    ensures found ==> s.pos == Until(s.source, old(s.pos), sep) + 1
  {
    ghost var i := s.pos;
    while true
      invariant s.Valid() && s.start == i && i <= s.pos
      invariant forall k :: i <= k < s.pos ==> s.source[k] != sep
      decreases |s.source| - s.pos
    {
      var d := s.Consume();
      if d == EOF {
        UntilUnique(s.source, i, sep, |s.source|);
        return false;
      }
      if d == Ch(sep) {
        UntilUnique(s.source, i, sep, s.pos - 1);
        return true;
      }
    }
  }

  /** A separator that never comes back is an unexpected end of input. */
  lemma GlobalBodyUnclosed(src: string, bang: bool, i: nat)
    requires 0 < i <= |src| && Until(src, i, src[i - 1]) == |src|
    ensures GlobalBodySpec(src, bang, i) == Err(Value(UnexpectedEof(src)))
  {
  }

  /** A separator that comes back at j closes the pattern, and the rest of the line after it
      is the command. */
  lemma GlobalBodyClosed(src: string, bang: bool, i: nat, j: nat)
    requires 0 < i <= j < |src| && Until(src, i, src[i - 1]) == j
    ensures GlobalBodySpec(src, bang, i) == Ok(Command("global").(addressable := true, forced := bang,
      params := GlobalArgs(src[i..j], CommandOf(src[j + 1..]))))
  {
  }

  /** Writing a global command back out — an optional bang, the separator, the pattern,
      the separator and the command — and parsing it gives back the pattern, the bang and
      the command stripped (none when it strips to nothing). Without a bang the separator
      must be one of the accepted ones; after a bang any character that is not in the
      pattern will do. */
  lemma GlobalRoundTrip(head: string, bang: bool, sep: char, pattern: string, cmd: string)
    requires sep !in pattern
    requires bang || (sep in GlobalSeparators && sep != '!')
    ensures var src := head + (if bang then "!" else "") + [sep] + pattern + [sep] + cmd;
      GlobalSpec(src, |head|) == Ok(Command("global").(addressable := true, forced := bang,
        params := GlobalArgs(pattern, if Strip(cmd) == [] then None else Some(Strip(cmd)))))
  {
    var b: string := if bang then "!" else "";
    var x := head + b + [sep];
    var y := x + pattern;
    var z := y + [sep];
    var src := z + cmd;
    var p := |head|;
    var i := |x|;
    var j := |y|;
    assert src[..|z|] == z && z[..j] == y && y[..i] == x;
    assert src[p] == if bang then '!' else sep by {
      assert src[p] == z[p] == y[p] == x[p];
    }
    assert src[i - 1] == sep by {
      assert src[i - 1] == z[i - 1] == y[i - 1] == x[i - 1];
    }
    assert src[j] == sep by {
      assert src[j] == z[j];
    }
    assert src[i..j] == pattern by {
      assert src[..j] == src[..|z|][..j] == z[..j] == y;
      assert src[i..j] == src[..j][i..] == y[|x|..];
    }
    assert src[j + 1..] == cmd;
    GlobalClosedAt(src, p, bang, i, j);
  }

  /** The same on a line given by its characters: the bang or the separator at p, the
      separator just before i, and its next occurrence at j. */
  lemma GlobalClosedAt(src: string, p: nat, bang: bool, i: nat, j: nat)
    requires p < |src| && i == (if bang then p + 2 else p + 1) && i <= j < |src|
    requires if bang then src[p] == '!' else src[p] in GlobalSeparators && src[p] != '!'
    requires src[j] == src[i - 1] && src[i - 1] !in src[i..j]
    ensures GlobalSpec(src, p) == Ok(Command("global").(addressable := true, forced := bang,
      params := GlobalArgs(src[i..j], CommandOf(src[j + 1..]))))
  {
    UntilSlice(src, i, src[i - 1], j);
    GlobalBodyClosed(src, bang, i, j);
  }

  /** Without a bang, a first character outside the accepted separators is refused, and
      the message names it. */
  lemma GlobalBadSeparator(src: string, p: nat)
    requires p < |src| && src[p] !in GlobalSeparators
    ensures GlobalSpec(src, p) == Err(Value("bad separator: " + [src[p]]))
  {
  }

  /** A separator that never comes back is an unexpected end of input, and the message
      quotes the whole line. */
  lemma GlobalUnclosed(src: string, p: nat)
    requires p < |src| && src[p] in GlobalSeparators
    requires var i := if src[p] == '!' then p + 2 else p + 1;
      i <= |src| ==> forall k :: i <= k < |src| ==> src[k] != src[i - 1]
    ensures GlobalSpec(src, p) == Err(Value("unexpected EOF in: " + src))
  {
    var i := if src[p] == '!' then p + 2 else p + 1;
    if i <= |src| {
      UntilUnique(src, i, src[i - 1], |src|);
    }
  }
}
