/** The ordered route table: name patterns tried in order against the start of the command
    line, the first that matches choosing the grammar. */
module ExRoutes {
  import opened ExText
  import opened ExTokens

  /** The lookaheads the name patterns end with. */
  datatype Lookahead =
    | Anything  // no lookahead, or one that is itself optional
    | NonEmpty  // `(?=.+)`
    | NotA  // `(?=[^a]|$)`
    | EndOrSpace  // `(?=$|\s)`
    | EndOrOneOf(cs: set<char>)  // `(?=[...]|$)`
    | WriteOpening  // `(?=(?:!?(?:\+\+|>>| |$)))`

  /** Whether w occurs in line at k. */
  predicate At(line: string, k: nat, w: string)
  {
    k + |w| <= |line| && line[k..k + |w|] == w
  }

  /** `\+\+|>>| |$` at b. */
  predicate WriteClauseOpens(line: string, b: nat)
  {
    At(line, b, "++") || At(line, b, ">>") || At(line, b, " ") || b == |line|
  }

  predicate Holds(look: Lookahead, line: string, k: nat)
    requires k <= |line|
  {
    match look
    case Anything => true
    case NonEmpty => k < |line|
    case NotA => k == |line| || line[k] != 'a'
    case EndOrSpace => k == |line| || IsSpace(line[k])
    case EndOrOneOf(cs) => k == |line| || line[k] in cs
    case WriteOpening => WriteClauseOpens(line, k) || (At(line, k, "!") && WriteClauseOpens(line, k + 1))
  }

  /** The shapes of the name patterns.
      - Word: the short form, then an optional group (`rest`, empty when there is none)
        tried first and given up when what follows fails, a negative lookahead `guard`
        right after the short form (empty when there is none), and a lookahead at the end;
      - Alternatives: `(?:a|b|...)!?`, the first alternative that is there and an optional
        bang;
      - WordThenSpace: the word and one whitespace character, which is part of the name. */
  datatype NamePattern =
    | Word(short: string, rest: string, guard: string, look: Lookahead)
    | Alternatives(words: seq<string>)
    | WordThenSpace(word: string)

  /** The grammar a route calls. A literal route carries the arguments `_literal_route`
      receives; the map and unmap routes, set/setlocal and split/vsplit share a grammar that
      takes the command name. */
  datatype Grammar =
    | Literal(name: string, forcable: bool, addressable: bool)
    | MapCmd(name: string)
    | UnmapCmd(name: string)
    | ShellOut
    | DoubleAmpersand
    | Cd
    | Copy
    | Delete
    | Yank
    | Edit
    | Global
    | Help
    | Let
    | Move
    | Print
    | Read
    | SetCmd(name: string)
    | Sort
    | SplitCmd(name: string)
    | Substitute
    | Write

  /** The length of the first alternative that is at the start of the line, and the bang
      after it. */
  function AlternativeMatch(words: seq<string>, line: string): (r: Option<nat>)
    ensures r.Some? ==> r.value <= |line|
    ensures r.Some? <==> exists k :: 0 <= k < |words| && At(line, 0, words[k])
  {
    if words == [] then None
    else if At(line, 0, words[0]) then
      var n := |words[0]|;
      Some(if At(line, n, "!") then n + 1 else n)
    else
      var r := AlternativeMatch(words[1..], line);
      assert forall k :: 1 <= k < |words| ==> words[k] == words[1..][k - 1];
      r
  }

  /** The length of the name span the pattern matches at the start of the line, if any. */
  function NameMatch(pat: NamePattern, line: string): (r: Option<nat>)
    ensures r.Some? ==> r.value <= |line|
  {
    match pat
    case Word(short, rest, guard, look) =>
      if !At(line, 0, short) || (guard != "" && At(line, |short|, guard)) then None
      else if At(line, |short|, rest) && Holds(look, line, |short| + |rest|) then Some(|short| + |rest|)
      else if Holds(look, line, |short|) then Some(|short|)
      else None
    case Alternatives(words) => AlternativeMatch(words, line)
    case WordThenSpace(word) =>
      if At(line, 0, word) && |word| < |line| && IsSpace(line[|word|]) then Some(|word| + 1) else None
  }

  /** A route: the name pattern and the grammar. */
  datatype Route = Route(pattern: NamePattern, grammar: Grammar)

  function Plain(short: string, rest: string): NamePattern
  {
    Word(short, rest, "", Anything)
  }

  function Lit(name: string): Grammar { Literal(name, false, false) }

  function Forcable(name: string): Grammar { Literal(name, true, false) }

  /** The number of routes. */
  const RouteCount: nat := 63

  /** The i-th insertion into the table. */
  function RouteAt(i: nat): Route
    requires i < RouteCount
  {
    if i < 31 then
      if i < 15 then
        if i < 7 then
          if i < 3 then
            if i < 1 then
              Route(Word("!", "", "", NonEmpty), ShellOut)
            else
              if i < 2 then
                Route(Plain("&", "&"), DoubleAmpersand)
              else
                Route(Alternatives(["files", "ls", "buffers"]), Lit("buffers"))
          else
            if i < 5 then
              if i < 4 then
                Route(Plain("bf", "irst"), Lit("bfirst"))
              else
                Route(Plain("bl", "ast"), Lit("blast"))
            else
              if i < 6 then
                Route(Plain("bn", "ext"), Lit("bnext"))
              else
                Route(Plain("bN", "ext"), Lit("bprevious"))
        else
          if i < 11 then
            if i < 9 then
              if i < 8 then
                Route(Plain("bp", "revious"), Lit("bprevious"))
              else
                Route(Plain("bro", "wse"), Lit("browse"))
            else
              if i < 10 then
                Route(Plain("br", "ewind"), Lit("bfirst"))
              else
                Route(Plain("cd", ""), Cd)
          else
            if i < 13 then
              if i < 12 then
                Route(Plain("clo", "se"), Forcable("close"))
              else
                Route(Plain("co", "py"), Copy)
            else
              if i < 14 then
                Route(Plain("cq", "uit"), Lit("cquit"))
              else
                Route(Plain("d", "elete"), Delete)
      else
        if i < 23 then
          if i < 19 then
            if i < 17 then
              if i < 16 then
                Route(Plain("exi", "t"), Lit("exit"))
              else
                Route(Plain("e", "dit"), Edit)
            else
              if i < 18 then
                Route(Plain("f", "ile"), Lit("file"))
              else
                Route(Plain("g", "lobal"), Global)
          else
            if i < 21 then
              if i < 20 then
                Route(Plain("h", "elp"), Help)
              else
                Route(WordThenSpace("let"), Let)
            else
              if i < 22 then
                Route(Word("m", "ove", "", NotA), Move)
              else
                Route(Plain("new", ""), Lit("new"))
        else
          if i < 27 then
            if i < 25 then
              if i < 24 then
                Route(Plain("nn", "oremap"), MapCmd("nnoremap"))
              else
                Route(Plain("no", "remap"), MapCmd("noremap"))
            else
              if i < 26 then
                Route(Plain("nun", "map"), UnmapCmd("nunmap"))
              else
                Route(Plain("ono", "remap"), MapCmd("onoremap"))
          else
            if i < 29 then
              if i < 28 then
                Route(Plain("on", "ly"), Forcable("only"))
              else
                Route(Plain("ou", "nmap"), UnmapCmd("ounmap"))
            else
              if i < 30 then
                Route(Plain("pw", "d"), Lit("pwd"))
              else
                Route(Plain("p", "rint"), Print)
    else
      if i < 47 then
        if i < 39 then
          if i < 35 then
            if i < 33 then
              if i < 32 then
                Route(Plain("qa", "ll"), Forcable("qall"))
              else
                Route(Word("q", "uit", "a", Anything), Forcable("quit"))
            else
              if i < 34 then
                Route(Plain("reg", "isters"), Lit("registers"))
              else
                Route(Word("r", "ead", "eg", Anything), Read)
          else
            if i < 37 then
              if i < 36 then
                Route(Plain("setl", "ocal"), SetCmd("setlocal"))
              else
                Route(Word("se", "t", "", EndOrSpace), SetCmd("set"))
            else
              if i < 38 then
                Route(Word("s", "ubstitute", "", EndOrOneOf(SubstituteFollowers)), Substitute)
              else
                Route(Plain("sh", "ell"), Lit("shell"))
        else
          if i < 43 then
            if i < 41 then
              if i < 40 then
                Route(Plain("snor", "emap"), MapCmd("snoremap"))
              else
                Route(Plain("sor", "t"), Sort)
            else
              if i < 42 then
                Route(Plain("sp", "lit"), SplitCmd("split"))
              else
                Route(Plain("sunm", "ap"), UnmapCmd("sunmap"))
          else
            if i < 45 then
              if i < 44 then
                Route(Plain("tabc", "lose"), Forcable("tabclose"))
              else
                Route(Plain("tabfir", "st"), Forcable("tabfirst"))
            else
              if i < 46 then
                Route(Plain("tabl", "ast"), Forcable("tablast"))
              else
                Route(Plain("tabn", "ext"), Forcable("tabnext"))
      else
        if i < 55 then
          if i < 51 then
            if i < 49 then
              if i < 48 then
                Route(Plain("tabN", "ext"), Forcable("tabprevious"))
              else
                Route(Plain("tabo", "nly"), Forcable("tabonly"))
            else
              if i < 50 then
                Route(Plain("tabp", "revious"), Forcable("tabprevious"))
              else
                Route(Plain("tabr", "ewind"), Forcable("tabfirst"))
          else
            if i < 53 then
              if i < 52 then
                Route(Plain("unm", "ap"), UnmapCmd("unmap"))
              else
                Route(Plain("unvsplit", ""), Lit("unvsplit"))
            else
              if i < 54 then
                Route(Plain("vn", "oremap"), MapCmd("vnoremap"))
              else
                Route(Plain("vs", "plit"), SplitCmd("vsplit"))
        else
          if i < 59 then
            if i < 57 then
              if i < 56 then
                Route(Plain("vu", "nmap"), UnmapCmd("vunmap"))
              else
                Route(Word("w", "rite", "", WriteOpening), Write)
            else
              if i < 58 then
                Route(Plain("wa", "ll"), Forcable("wall"))
              else
                Route(Plain("wqa", "ll"), Literal("wqall", false, true))
          else
            if i < 61 then
              if i < 60 then
                Route(Plain("wq", ""), Forcable("wq"))
              else
                Route(Plain("xa", "ll"), Literal("wqall", false, true))
            else
              if i < 62 then
                Route(Plain("x", "it"), Lit("exit"))
              else
                Route(Plain("y", "ank"), Yank)
  }

  /** The table, in the order of its insertions. */
  function Table(): (t: seq<Route>)
    ensures |t| == RouteCount && forall i :: 0 <= i < RouteCount ==> t[i] == RouteAt(i)
  {
    seq(RouteCount, i requires 0 <= i < RouteCount => RouteAt(i))
  }

  /** The first route of the table from index i on whose pattern matches the line, and the
      length of its name span: first match, not longest match. */
  function FirstMatch(table: seq<Route>, line: string, i: nat): (r: Option<(nat, nat)>)
    requires i <= |table|
    ensures r.Some? ==> (i <= r.value.0 < |table|
      && NameMatch(table[r.value.0].pattern, line) == Some(r.value.1)
      && forall k :: i <= k < r.value.0 ==> NameMatch(table[k].pattern, line).None?)
    ensures r.None? ==> forall k :: i <= k < |table| ==> NameMatch(table[k].pattern, line).None?
    decreases |table| - i
  {
    if i == |table| then None
    else match NameMatch(table[i].pattern, line)
      case Some(n) => Some((i, n))
      case None => FirstMatch(table, line, i + 1)
  }

  /** The grammar the line routes to and the length of the name, or none when no pattern
      matches. */
  function Select(line: string): (r: Option<(nat, Grammar)>)
    ensures r.Some? ==> r.value.0 <= |line|
  {
    match FirstMatch(Table(), line, 0)
    case None => None
    case Some((i, n)) => Some((n, Table()[i].grammar))
  }

  // ---------------------------------------------------------------------------------
  // First characters

  /** The first character of every name the pattern can match. */
  function Lead(pat: NamePattern): set<char>
  {
    match pat
    case Word(short, _, _, _) => if short == [] then {} else {short[0]}
    case Alternatives(words) => AlternativeLeads(words)
    case WordThenSpace(word) => if word == [] then {} else {word[0]}
  }

  function AlternativeLeads(words: seq<string>): set<char>
  {
    if words == [] then {}
    else (if words[0] == [] then {} else {words[0][0]}) + AlternativeLeads(words[1..])
  }

  /** Every name the pattern matches has at least one character. */
  predicate NonEmptyNames(pat: NamePattern)
  {
    match pat
    case Word(short, _, _, _) => short != []
    case Alternatives(words) => forall k :: 0 <= k < |words| ==> words[k] != []
    case WordThenSpace(word) => word != []
  }

  /** A line whose first character no name of the pattern starts with is not matched. */
  lemma {:induction false} NoLeadNoMatch(pat: NamePattern, line: string)
    requires NonEmptyNames(pat) && line != [] && line[0] !in Lead(pat)
    ensures NameMatch(pat, line).None?
  {
    match pat
    case Word(short, _, _, _) =>
      assert !At(line, 0, short);
    case Alternatives(words) => NoAlternativeMatch(words, line);
    case WordThenSpace(word) =>
      assert !At(line, 0, word);
  }

  lemma {:induction false} NoAlternativeMatch(words: seq<string>, line: string)
    requires forall k :: 0 <= k < |words| ==> words[k] != []
    requires line != [] && line[0] !in AlternativeLeads(words)
    ensures AlternativeMatch(words, line).None?
    decreases |words|
  {
    if words != [] {
      assert !At(line, 0, words[0]);
      NoAlternativeMatch(words[1..], line);
    }
  }

  /** The first characters of the entries, by ranges of the table: after the three
      symbolic entries the table runs in alphabetical order of its first letters. */
  function Initial(k: nat): set<char>
  {
    if k == 0 then {'!'} else if k == 1 then {'&'} else if k == 2 then {'f', 'l', 'b'}
    else if k <= 9 then {'b'} else if k <= 13 then {'c'} else if k == 14 then {'d'}
    else if k <= 16 then {'e'} else if k == 17 then {'f'} else if k == 18 then {'g'}
    else if k == 19 then {'h'} else if k == 20 then {'l'} else if k == 21 then {'m'}
    else if k <= 25 then {'n'} else if k <= 28 then {'o'} else if k <= 30 then {'p'}
    else if k <= 32 then {'q'} else if k <= 34 then {'r'} else if k <= 42 then {'s'}
    else if k <= 50 then {'t'} else if k <= 52 then {'u'} else if k <= 55 then {'v'}
    else if k <= 59 then {'w'} else if k <= 61 then {'x'} else {'y'}
  }

  lemma EntryInitial(k: nat)
    requires k < RouteCount
    ensures Lead(RouteAt(k).pattern) == Initial(k) && NonEmptyNames(RouteAt(k).pattern)
  {
    if k < 16 {
      EntryInitialFirst(k);
    } else if k < 32 {
      EntryInitialSecond(k);
    } else if k < 48 {
      EntryInitialThird(k);
    } else {
      EntryInitialFourth(k);
    }
  }

  lemma EntryInitialFirst(k: nat)
    requires 0 <= k <= 15
    ensures Lead(RouteAt(k).pattern) == Initial(k) && NonEmptyNames(RouteAt(k).pattern)
  {
    if k == 0 {} else if k == 1 {} else if k == 2 {
      assert AlternativeLeads(["files", "ls", "buffers"]) == {'f', 'l', 'b'};
    } else if k == 3 {} else if k == 4 {} else if k == 5 {} else if k == 6 {} else if k == 7 {} else if k == 8 {} else if k == 9 {} else if k == 10 {} else if k == 11 {} else if k == 12 {} else if k == 13 {} else if k == 14 {} else {}
  }

  lemma EntryInitialSecond(k: nat)
    requires 16 <= k <= 31
    ensures Lead(RouteAt(k).pattern) == Initial(k) && NonEmptyNames(RouteAt(k).pattern)
  {
    if k == 16 {} else if k == 17 {} else if k == 18 {} else if k == 19 {} else if k == 20 {} else if k == 21 {} else if k == 22 {} else if k == 23 {} else if k == 24 {} else if k == 25 {} else if k == 26 {} else if k == 27 {} else if k == 28 {} else if k == 29 {} else if k == 30 {} else {}
  }

  lemma EntryInitialThird(k: nat)
    requires 32 <= k <= 47
    ensures Lead(RouteAt(k).pattern) == Initial(k) && NonEmptyNames(RouteAt(k).pattern)
  {
    if k == 32 {} else if k == 33 {} else if k == 34 {} else if k == 35 {} else if k == 36 {} else if k == 37 {} else if k == 38 {} else if k == 39 {} else if k == 40 {} else if k == 41 {} else if k == 42 {} else if k == 43 {} else if k == 44 {} else if k == 45 {} else if k == 46 {} else {}
  }

  lemma EntryInitialFourth(k: nat)
    requires 48 <= k <= 62
    ensures Lead(RouteAt(k).pattern) == Initial(k) && NonEmptyNames(RouteAt(k).pattern)
  {
    if k == 48 {} else if k == 49 {} else if k == 50 {} else if k == 51 {} else if k == 52 {} else if k == 53 {} else if k == 54 {} else if k == 55 {} else if k == 56 {} else if k == 57 {} else if k == 58 {} else if k == 59 {} else if k == 60 {} else if k == 61 {} else {}
  }

  /** Routes whose names cannot start with the line's first character are passed over. */
  lemma {:induction false} SkipRoutes(line: string, i: nat, j: nat)
    requires line != [] && i <= j <= RouteCount
    requires forall k :: i <= k < j ==> line[0] !in Initial(k)
    ensures FirstMatch(Table(), line, i) == FirstMatch(Table(), line, j)
    decreases j - i
  {
    if i < j {
      EntryInitial(i);
      NoLeadNoMatch(RouteAt(i).pattern, line);
      SkipRoutes(line, i + 1, j);
    }
  }
  // ---------------------------------------------------------------------------------
  // Properties of the name patterns and of the order of the table

  /** An optional group is all or nothing: a word pattern matches the short form or the
      full name, never a length in between. */
  lemma WordAllOrNothing(short: string, rest: string, guard: string, look: Lookahead, line: string)
    requires NameMatch(Word(short, rest, guard, look), line).Some?
    ensures var n := NameMatch(Word(short, rest, guard, look), line).value;
      (n == |short| && line[..n] == short) || (n == |short| + |rest| && line[..n] == short + rest)
  {
    var n := NameMatch(Word(short, rest, guard, look), line).value;
    if n == |short| + |rest| && rest != [] {
      assert line[..n] == line[0..|short|] + line[|short|..n];
    }
  }

  /** The full name is preferred whenever what follows it passes the lookahead. */
  lemma WordFullName(short: string, rest: string, guard: string, look: Lookahead, line: string)
    requires At(line, 0, short + rest) && !(guard != "" && At(line, |short|, guard))
    requires Holds(look, line, |short| + |rest|)
    ensures NameMatch(Word(short, rest, guard, look), line) == Some(|short| + |rest|)
  {
    assert line[0..|short|] == line[0..|short| + |rest|][..|short|];
    assert line[|short|..|short| + |rest|] == line[0..|short| + |rest|][|short|..];
  }

  /** A line whose character k + i differs from w's i-th does not have w at k. */
  lemma NotAt(line: string, k: nat, w: string, i: nat)
    requires i < |w| && k + i < |line| && line[k + i] != w[i]
    ensures !At(line, k, w)
  {
  }

  /** The first character of a line that starts with w. */
  lemma AtFirst(line: string, w: string)
    requires w != [] && At(line, 0, w)
    ensures line != [] && line[0] == w[0]
  {
    assert line[0] == line[0..|w|][0];
  }

  /** A route whose pattern does not match is passed over. */
  lemma Pass(line: string, i: nat)
    requires i < RouteCount && NameMatch(RouteAt(i).pattern, line).None?
    ensures FirstMatch(Table(), line, i) == FirstMatch(Table(), line, i + 1)
  {
  }

  /** The line selects the i-th route when every route before it was passed over and its
      pattern matches. */
  lemma Selects(line: string, i: nat, n: nat)
    requires i < RouteCount && FirstMatch(Table(), line, 0) == FirstMatch(Table(), line, i)
    requires NameMatch(RouteAt(i).pattern, line) == Some(n)
    ensures Select(line) == Some((n, RouteAt(i).grammar))
  {
  }

  /** Selects, for the quit route. */
  lemma SelectsQuit(line: string, n: nat)
    requires FirstMatch(Table(), line, 0) == FirstMatch(Table(), line, 32)
    requires NameMatch(Word("q", "uit", "a", Anything), line) == Some(n)
    ensures Select(line) == Some((n, Literal("quit", true, false)))
  {
    assert RouteAt(32) == Route(Word("q", "uit", "a", Anything), Forcable("quit"));
    Selects(line, 32, n);
  }

  /** Selects, for the read route. */
  lemma SelectsRead(line: string, n: nat)
    requires FirstMatch(Table(), line, 0) == FirstMatch(Table(), line, 34)
    requires NameMatch(Word("r", "ead", "eg", Anything), line) == Some(n)
    ensures Select(line) == Some((n, Read))
  {
    assert RouteAt(34) == Route(Word("r", "ead", "eg", Anything), Read);
    Selects(line, 34, n);
  }

  /** Selects, for the substitute route. */
  lemma SelectsSubstitute(line: string, n: nat)
    requires FirstMatch(Table(), line, 0) == FirstMatch(Table(), line, 37)
    requires NameMatch(Word("s", "ubstitute", "", EndOrOneOf(SubstituteFollowers)), line) == Some(n)
    ensures Select(line) == Some((n, Substitute))
  {
    assert RouteAt(37).pattern == Word("s", "ubstitute", "", EndOrOneOf(SubstituteFollowers));
    assert RouteAt(37).grammar == Substitute;
    Selects(line, 37, n);
  }

  /** `qa` is tried before `q`: a line starting with `qa` selects qall. */
  lemma QallBeforeQuit(line: string)
    requires At(line, 0, "qa")
    ensures Select(line) == Some((if At(line, 2, "ll") then 4 else 2, Literal("qall", true, false)))
  {
    AtFirst(line, "qa");
    SkipRoutes(line, 0, 31);
    assert RouteAt(31) == Route(Plain("qa", "ll"), Forcable("qall"));
    Selects(line, 31, if At(line, 2, "ll") then 4 else 2);
  }

  /** The quit pattern refuses `qa` on its own account: its negative lookahead fails. */
  lemma QuitRefusesQa(line: string)
    requires At(line, 0, "qa")
    ensures RouteAt(32) == Route(Word("q", "uit", "a", Anything), Literal("quit", true, false))
    ensures NameMatch(RouteAt(32).pattern, line).None?
  {
    assert line[1..2] == line[0..2][1..];
  }

  /** Any other line starting with `q` selects quit, by its short form or its full name. */
  lemma QuitRoute(line: string)
    requires line != [] && line[0] == 'q' && !At(line, 0, "qa")
    ensures Select(line) == Some((if At(line, 1, "uit") then 4 else 1, Literal("quit", true, false)))
  {
    var n := PassQall(line);
    SelectsQuit(line, n);
  }

  /** Every route before quit is passed over. */
  lemma PassQall(line: string) returns (n: nat)
    requires line != [] && line[0] == 'q' && !At(line, 0, "qa")
    ensures FirstMatch(Table(), line, 0) == FirstMatch(Table(), line, 32)
    ensures NameMatch(Word("q", "uit", "a", Anything), line) == Some(n)
    ensures n == if At(line, 1, "uit") then 4 else 1
  {
    SkipRoutes(line, 0, 31);
    n := QuitPattern(line);
    assert RouteAt(31) == Route(Plain("qa", "ll"), Forcable("qall"));
    Pass(line, 31);
  }

  /** On such a line the qall pattern fails and the quit pattern matches. */
  lemma QuitPattern(line: string) returns (n: nat)
    requires line != [] && line[0] == 'q' && !At(line, 0, "qa")
    ensures n == if At(line, 1, "uit") then 4 else 1
    ensures NameMatch(Plain("qa", "ll"), line).None?
    ensures NameMatch(Word("q", "uit", "a", Anything), line) == Some(n)
  {
    n := if At(line, 1, "uit") then 4 else 1;
  }

  /** `reg` is tried before `r`: a line starting with `reg` selects registers. */
  lemma RegistersBeforeRead(line: string)
    requires At(line, 0, "reg")
    ensures Select(line) == Some((if At(line, 3, "isters") then 9 else 3, Literal("registers", false, false)))
  {
    AtFirst(line, "reg");
    SkipRoutes(line, 0, 33);
    assert RouteAt(33) == Route(Plain("reg", "isters"), Lit("registers"));
    Selects(line, 33, if At(line, 3, "isters") then 9 else 3);
  }

  /** The read pattern refuses `reg` on its own account. */
  lemma ReadRefusesReg(line: string)
    requires At(line, 0, "reg")
    ensures RouteAt(34) == Route(Word("r", "ead", "eg", Anything), Read)
    ensures NameMatch(RouteAt(34).pattern, line).None?
  {
    assert line[1..3] == line[0..3][1..];
  }

  /** Any other line starting with `r` selects read. */
  lemma ReadRoute(line: string)
    requires line != [] && line[0] == 'r' && !At(line, 0, "reg")
    ensures Select(line) == Some((if At(line, 1, "ead") then 4 else 1, Read))
  {
    var n := PassRegisters(line);
    SelectsRead(line, n);
  }

  /** Every route before read is passed over. */
  lemma PassRegisters(line: string) returns (n: nat)
    requires line != [] && line[0] == 'r' && !At(line, 0, "reg")
    ensures FirstMatch(Table(), line, 0) == FirstMatch(Table(), line, 34)
    ensures NameMatch(Word("r", "ead", "eg", Anything), line) == Some(n)
    ensures n == if At(line, 1, "ead") then 4 else 1
  {
    SkipRoutes(line, 0, 33);
    n := ReadPattern(line);
    assert RouteAt(33) == Route(Plain("reg", "isters"), Lit("registers"));
    Pass(line, 33);
  }

  /** On such a line the registers pattern fails and the read pattern matches. */
  lemma ReadPattern(line: string) returns (n: nat)
    requires line != [] && line[0] == 'r' && !At(line, 0, "reg")
    ensures n == if At(line, 1, "ead") then 4 else 1
    ensures NameMatch(Plain("reg", "isters"), line).None?
    ensures NameMatch(Word("r", "ead", "eg", Anything), line) == Some(n)
  {
    n := if At(line, 1, "ead") then 4 else 1;
  }

  /** `setl` is tried before `se`: a line starting with `setl` selects setlocal. */
  lemma SetlocalBeforeSet(line: string)
    requires At(line, 0, "setl")
    ensures Select(line) == Some((if At(line, 4, "ocal") then 8 else 4, SetCmd("setlocal")))
  {
    AtFirst(line, "setl");
    SkipRoutes(line, 0, 35);
    assert RouteAt(35) == Route(Plain("setl", "ocal"), SetCmd("setlocal"));
    Selects(line, 35, if At(line, 4, "ocal") then 8 else 4);
  }

  const SubstituteFollowers: set<char> := {'%', '&', ':', '/', '='}

  /** The set entries do not match a line that starts with `s` but not with `se`. */
  lemma PassSetEntries(line: string)
    requires line != [] && line[0] == 's' && !At(line, 0, "se")
    ensures FirstMatch(Table(), line, 0) == FirstMatch(Table(), line, 37)
  {
    PassBeforeS(line);
    SetPatternsFail(line);
    PassSet(line);
  }

  lemma PassBeforeS(line: string)
    requires line != [] && line[0] == 's'
    ensures FirstMatch(Table(), line, 0) == FirstMatch(Table(), line, 35)
  {
    SkipRoutes(line, 0, 35);
  }

  lemma PassSet(line: string)
    requires NameMatch(Plain("setl", "ocal"), line).None?
    requires NameMatch(Word("se", "t", "", EndOrSpace), line).None?
    ensures FirstMatch(Table(), line, 35) == FirstMatch(Table(), line, 37)
  {
    assert RouteAt(35) == Route(Plain("setl", "ocal"), SetCmd("setlocal"));
    Pass(line, 35);
    assert RouteAt(36) == Route(Word("se", "t", "", EndOrSpace), SetCmd("set"));
    Pass(line, 36);
  }

  lemma SetPatternsFail(line: string)
    requires !At(line, 0, "se")
    ensures NameMatch(Plain("setl", "ocal"), line).None?
    ensures NameMatch(Word("se", "t", "", EndOrSpace), line).None?
  {
  }

  /** `s` followed by a delimiter the lookahead accepts, or by nothing, selects substitute
      with a one-character name. */
  lemma SubstituteShortName(line: string)
    requires line != [] && line[0] == 's'
    requires |line| == 1 || line[1] in SubstituteFollowers
    ensures Select(line) == Some((1, Substitute))
  {
    PassSetEntries(line);
    SubstituteShortPattern(line);
    SelectsSubstitute(line, 1);
  }

  lemma SubstituteShortPattern(line: string)
    requires line != [] && line[0] == 's'
    requires |line| == 1 || line[1] in SubstituteFollowers
    ensures NameMatch(Word("s", "ubstitute", "", EndOrOneOf(SubstituteFollowers)), line) == Some(1)
  {
    assert line[0..1] == "s";
    assert !At(line, 1, "ubstitute") by {
      if |line| >= 10 {
        assert line[1] == line[1..10][0];
      }
    }
  }

  /** The full name `substitute`, followed by such a delimiter or by nothing, selects
      substitute with the whole name. */
  lemma SubstituteFullName(line: string)
    requires At(line, 0, "substitute")
    requires |line| == 10 || line[10] in SubstituteFollowers
    ensures Select(line) == Some((10, Substitute))
  {
    AtFirst(line, "substitute");
    assert line[0..2] == line[0..10][..2] == "su";
    PassSetEntries(line);
    SubstituteSpelled();
    WordFullName("s", "ubstitute", "", EndOrOneOf(SubstituteFollowers), line);
    SelectsSubstitute(line, 10);
  }

  lemma SubstituteSpelled()
    ensures "s" + "ubstitute" == "substitute"
  {
  }

  /** A partial name is no name: `su/a/b/` selects nothing. */
  lemma SubstitutePartialName()
    ensures Select("su/a/b/") == None
  {
    var line := "su/a/b/";
    assert line[0..2] == "su";
    PassSetEntries(line);
    PassSubstituteToSplit(line);
    PassSplitToSunmap(line);
    PassAfterSunmap(line);
  }

  /** No route after sunmap matches `su/a/b/`: none of them starts with `s`. */
  lemma PassAfterSunmap(line: string)
    requires line == "su/a/b/"
    ensures FirstMatch(Table(), line, 43) == None
  {
    SkipRoutes(line, 43, RouteCount);
  }

  /** The routes from substitute to sort do not match `su/a/b/`. */
  lemma PassSubstituteToSplit(line: string)
    requires line == "su/a/b/"
    ensures FirstMatch(Table(), line, 37) == FirstMatch(Table(), line, 41)
  {
    assert line[0..1] == "s" && line[0..2] == "su" && line[0..3] == "su/" && line[0..4] == "su/a";
    assert RouteAt(37).pattern == Word("s", "ubstitute", "", EndOrOneOf(SubstituteFollowers));
    Pass(line, 37);
    assert RouteAt(38).pattern == Plain("sh", "ell");
    Pass(line, 38);
    assert RouteAt(39).pattern == Plain("snor", "emap");
    Pass(line, 39);
    assert RouteAt(40).pattern == Plain("sor", "t");
    Pass(line, 40);
  }

  /** The split and sunmap routes do not match `su/a/b/`. */
  lemma PassSplitToSunmap(line: string)
    requires line == "su/a/b/"
    ensures FirstMatch(Table(), line, 41) == FirstMatch(Table(), line, 43)
  {
    assert line[0..2] == "su" && line[0..4] == "su/a";
    assert RouteAt(41).pattern == Plain("sp", "lit");
    Pass(line, 41);
    assert RouteAt(42).pattern == Plain("sunm", "ap");
    Pass(line, 42);
  }

  /** `&` and `&&` both select the `&&` grammar, with a name of one or two characters. */
  lemma AmpersandRoute(line: string)
    requires line != [] && line[0] == '&'
    ensures Select(line) == Some((if At(line, 1, "&") then 2 else 1, DoubleAmpersand))
  {
    SkipRoutes(line, 0, 1);
    assert RouteAt(1) == Route(Plain("&", "&"), DoubleAmpersand);
    Selects(line, 1, if At(line, 1, "&") then 2 else 1);
  }

  /** The move pattern gives up `move` when an `a` follows it and falls back to `m`; and it
      refuses `m` followed by `a`. */
  lemma MoveLookahead()
    ensures RouteAt(21) == Route(Word("m", "ove", "", NotA), Move)
    ensures NameMatch(RouteAt(21).pattern, "movea") == Some(1)
    ensures NameMatch(RouteAt(21).pattern, "ma").None?
  {
  }

  // ---------------------------------------------------------------------------------
  // Routes of the commands whose grammars the entry point's properties go through

  /** A line starting with `d` selects delete, by `d` or by the full name. */
  lemma DeleteRoute(line: string)
    requires line != [] && line[0] == 'd'
    ensures Select(line) == Some((if At(line, 1, "elete") then 6 else 1, Delete))
  {
    SkipRoutes(line, 0, 14);
    assert RouteAt(14) == Route(Plain("d", "elete"), Delete);
    assert line[0..1] == "d";
    WordNames("d", "elete", line);
    Selects(line, 14, if At(line, 1, "elete") then 6 else 1);
  }

  /** A line starting with `y` selects yank, by `y` or by the full name. */
  lemma YankRoute(line: string)
    requires line != [] && line[0] == 'y'
    ensures Select(line) == Some((if At(line, 1, "ank") then 4 else 1, Yank))
  {
    SkipRoutes(line, 0, 62);
    assert RouteAt(62) == Route(Plain("y", "ank"), Yank);
    assert line[0..1] == "y";
    WordNames("y", "ank", line);
    Selects(line, 62, if At(line, 1, "ank") then 4 else 1);
  }

  /** A line starting with `g` selects global, by `g` or by the full name. */
  lemma GlobalRoute(line: string)
    requires line != [] && line[0] == 'g'
    ensures Select(line) == Some((if At(line, 1, "lobal") then 6 else 1, Global))
  {
    SkipRoutes(line, 0, 18);
    assert RouteAt(18) == Route(Plain("g", "lobal"), Global);
    assert line[0..1] == "g";
    WordNames("g", "lobal", line);
    Selects(line, 18, if At(line, 1, "lobal") then 6 else 1);
  }

  /** A line starting with `cd` selects cd, whose name has no longer form. */
  lemma CdRoute(line: string)
    requires At(line, 0, "cd")
    ensures Select(line) == Some((2, Cd))
  {
    AtFirst(line, "cd");
    SkipRoutes(line, 0, 10);
    assert RouteAt(10) == Route(Plain("cd", ""), Cd);
    Selects(line, 10, 2);
  }

  /** A line starting with `e` but not with `exi` selects edit. The lookahead of the edit
      pattern is itself optional, so whatever follows the name is accepted. */
  lemma EditRoute(line: string)
    requires line != [] && line[0] == 'e' && !At(line, 0, "exi")
    ensures Select(line) == Some((if At(line, 1, "dit") then 4 else 1, Edit))
  {
    SkipRoutes(line, 0, 15);
    assert RouteAt(15) == Route(Plain("exi", "t"), Lit("exit"));
    Pass(line, 15);
    assert RouteAt(16) == Route(Plain("e", "dit"), Edit);
    assert line[0..1] == "e";
    WordNames("e", "dit", line);
    Selects(line, 16, if At(line, 1, "dit") then 4 else 1);
  }

  /** `w` followed by what the write lookahead accepts (an optional bang, then `++`, `>>`, a
      space or the end of the line) selects write with a one-character name. */
  lemma WriteShortRoute(line: string)
    requires line != [] && line[0] == 'w' && Holds(WriteOpening, line, 1)
    ensures Select(line) == Some((1, Write))
  {
    PassBeforeW(line);
    WriteShortPattern(line);
    assert RouteAt(56) == Route(Word("w", "rite", "", WriteOpening), Write);
    Selects(line, 56, 1);
  }

  lemma PassBeforeW(line: string)
    requires line != [] && line[0] == 'w'
    ensures FirstMatch(Table(), line, 0) == FirstMatch(Table(), line, 56)
  {
    SkipRoutes(line, 0, 56);
  }

  lemma WriteShortPattern(line: string)
    requires line != [] && line[0] == 'w' && Holds(WriteOpening, line, 1)
    ensures NameMatch(Word("w", "rite", "", WriteOpening), line) == Some(1)
  {
    assert line[0..1] == "w";
    assert !At(line, 1, "rite") by {
      WriteOpeningFirst(line, 1);
      if |line| >= 5 {
        assert line[1..5][0] == line[1];
      }
    }
  }

  /** What the write lookahead accepts starts with `+`, `>`, a space or a bang, or is the
      end of the line. */
  lemma WriteOpeningFirst(line: string, k: nat)
    requires k <= |line| && Holds(WriteOpening, line, k)
    ensures k == |line| || line[k] in {'+', '>', ' ', '!'}
  {
    if k < |line| {
      if At(line, k, "++") || At(line, k, ">>") {
        assert line[k] == line[k..k + 2][0];
      } else if At(line, k, " ") || At(line, k, "!") {
        assert line[k] == line[k..k + 1][0];
      }
    }
  }

  /** A plain word pattern matches the full name when it is there and the short form
      otherwise. */
  lemma WordNames(short: string, rest: string, line: string)
    requires At(line, 0, short)
    ensures NameMatch(Plain(short, rest), line) == Some(if At(line, |short|, rest) then |short| + |rest| else |short|)
  {
  }
}
