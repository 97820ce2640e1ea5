/** The grammar functions of nv/ex_routes.py that drive the scanner without a loop. Each is
    a method over the shared scanner, called with the cursor just past the command name and
    the pending slice empty (the router drops the name with `ignore` before it calls the
    grammar), and proved to return what a pure specification function of the line and the
    cursor says. */
module ExSimpleRoutes {
  import opened ExText
  import opened ExTokens
  import opened ExScanner
  import opened ExPatterns

  // ---------------------------------------------------------------------------------
  // _literal_route

  /** `_literal_route`: the command with no parameters; a forcable one takes a `!` right
      after its name. Whatever follows is left unread. Returns the token and the cursor. */
  function LiteralRoute(src: string, p: nat, name: string, forcable: bool, addressable: bool): (r: (TokenCommand, nat))
    requires p <= |src|
    ensures r.0 == Command(name).(forced := r.0.forced, addressable := addressable)
    ensures r.0.forced <==> forcable && p < |src| && src[p] == '!'
    ensures r.1 == if r.0.forced then p + 1 else p
  {
    var bang := forcable && p < |src| && src[p] == '!';
    (Command(name).(forced := bang, addressable := addressable), if bang then p + 1 else p)
  }

  /** `_literal_route` on the scanner: `state.match('!')` moves the cursor over the bang. */
  method Literal(s: Scanner, name: string, forcable: bool, addressable: bool) returns (cmd: TokenCommand)
    requires s.Valid()
    modifies s
    ensures s.Valid() && s.start == old(s.start)
    ensures (cmd, s.pos) == LiteralRoute(s.source, old(s.pos), name, forcable, addressable)
  {
    cmd := Command(name).(addressable := addressable);
    if forcable {
      var bang := s.Peek('!');
      if bang {
        s.Jump(s.pos + 1);
        cmd := cmd.(forced := true);
      }
    }
  }

  // ---------------------------------------------------------------------------------
  // _create_map_route, _create_unmap_route

  function MapRouteSpec(src: string, p: nat, name: string): TokenCommand
    requires p <= |src|
  {
    match MapSplit(src[p..])
    case Some((lhs, rhs)) => Command(name).(params := MapKeys(lhs, rhs))
    case None => Command(name)
  }

  /** `_create_map_route`: lhs and rhs when the rest of the line splits, no parameters
      otherwise; it never fails. */
  method MapRoute(s: Scanner, name: string) returns (cmd: TokenCommand)
    requires s.Valid() && s.start == s.pos
    modifies s
    ensures s.Valid()
    ensures cmd == MapRouteSpec(s.source, old(s.pos), name)
  {
    cmd := Command(name);
    var m := MapSplit(s.source[s.pos..]);
    if m.Some? {
      s.Jump(|s.source|);
      cmd := cmd.(params := MapKeys(m.value.0, m.value.1));
    }
  }

  function UnmapRouteSpec(src: string, p: nat, name: string): Result<TokenCommand>
    requires p <= |src|
  {
    match LazyTrimmed(src[p..])
    case None => Err(Expected(Match))
    case Some(lhs) => Ok(Command(name).(params := UnmapKey(lhs)))
  }

  /** `_create_unmap_route`: lhs is required. */
  method UnmapRoute(s: Scanner, name: string) returns (r: Result<TokenCommand>)
    requires s.Valid() && s.start == s.pos
    modifies s
    ensures s.Valid()
    ensures r == UnmapRouteSpec(s.source, old(s.pos), name)
  {
    var m := LazyTrimmed(s.source[s.pos..]);
    if m.None? {
      return Err(Expected(Match));
    }
    s.Jump(|s.source|);
    r := Ok(Command(name).(params := UnmapKey(m.value)));
  }

  /** An unmap command fails only when nothing follows its name; otherwise lhs is the rest
      of the line stripped of whitespace. */
  lemma UnmapLhs(src: string, p: nat, name: string)
    requires p <= |src|
    ensures UnmapRouteSpec(src, p, name).Err? <==> p == |src|
    ensures Strip(src[p..]) != [] ==> UnmapRouteSpec(src, p, name) == Ok(Command(name).(params := UnmapKey(Strip(src[p..]))))
  {
    LazyTrimmedIsStrip(src[p..]);
  }

  // ---------------------------------------------------------------------------------
  // _ex_route_cd

  function CdSpec(src: string, p: nat): Result<TokenCommand>
    requires p <= |src|
  {
    var (cmd, q) := LiteralRoute(src, p, "cd", true, false);
    var i := SkipSpaces(src, q);
    if i < |src| && src[i] == '-' then Err(NotImplemented)
    else
      match LazyTrimmedEnd(src[i..])
      case None => Ok(cmd)
      case Some(path) => Ok(cmd.(params := Path(path)))
  }

  /** `_ex_route_cd`: an optional bang, spaces, then the path without its trailing
      whitespace; `cd -` is not implemented. */
  method Cd(s: Scanner) returns (r: Result<TokenCommand>)
    requires s.Valid() && s.start == s.pos
    modifies s
    ensures s.Valid()
    ensures r == CdSpec(s.source, old(s.pos))
  {
    var cmd := Literal(s, "cd", true, false);
    s.Skip(' ');
    s.Ignore();
    var dash := s.Peek('-');
    if dash {
      s.Jump(s.pos + 1);
      return Err(NotImplemented);
    }
    var m := LazyTrimmedEnd(s.source[s.pos..]);
    if m.Some? {
      s.Jump(|s.source|);
      cmd := cmd.(params := Path(m.value));
    }
    r := Ok(cmd);
  }

  /** `cd -`, with or without a bang and with any number of spaces before the dash, is
      reported as not implemented, whatever follows the dash. */
  lemma CdDashNotImplemented(name: string, bang: string, spaces: string, rest: string)
    requires bang == "" || bang == "!"
    requires forall k :: 0 <= k < |spaces| ==> spaces[k] == ' '
    ensures CdSpec(name + bang + spaces + "-" + rest, |name|) == Err(NotImplemented)
  {
    var src := name + bang + spaces + "-" + rest;
    var q := |name| + |bang|;
    var i := q + |spaces|;
    assert src[i] == '-';
    assert forall k :: q <= k < i ==> src[k] == spaces[k - q];
    assert LiteralRoute(src, |name|, "cd", true, false).1 == q by {
      if bang == "" {
        assert src[|name|] == if spaces == [] then '-' else spaces[0];
      } else {
        assert src[|name|] == '!';
      }
    }
    RunEndUnique(src, q, {' '}, i);
  }

  /** After `cd`, an optional bang and spaces, a path that starts with neither whitespace
      nor `-` comes out without its trailing whitespace; the command is forced exactly when
      the bang is there. (A `!` right after the name is always the bang: `cd!x` is the
      forced `cd` of `x`, so a path written straight after the name does not start with
      `!`.) */
  lemma CdPath(name: string, bang: string, spaces: string, path: string)
    requires bang == "" || bang == "!"
    requires forall k :: 0 <= k < |spaces| ==> spaces[k] == ' '
    requires path != [] && !IsSpace(path[0]) && path[0] != '-'
    requires bang == "" && spaces == [] ==> path[0] != '!'
    ensures CdSpec(name + bang + spaces + path, |name|)
      == Ok(Command("cd").(forced := bang == "!", params := Path(Strip(path))))
  {
    var src := name + bang + spaces + path;
    var q := |name| + |bang|;
    var i := q + |spaces|;
    assert src[i..] == path && src[i] == path[0];
    assert forall k :: q <= k < i ==> src[k] == spaces[k - q];
    assert LiteralRoute(src, |name|, "cd", true, false) == (Command("cd").(forced := bang == "!"), q) by {
      if bang == "" {
        assert src[|name|] == if spaces == [] then path[0] else spaces[0];
      } else {
        assert src[|name|] == '!';
      }
    }
    RunEndUnique(src, q, {' '}, i);
    LazyTrimmedEndIsStrip(path);
  }

  /** `cd` with nothing but an optional bang and spaces after it has no path. */
  lemma CdBare(name: string, bang: string, spaces: string)
    requires bang == "" || bang == "!"
    requires forall k :: 0 <= k < |spaces| ==> spaces[k] == ' '
    ensures CdSpec(name + bang + spaces, |name|) == Ok(Command("cd").(forced := bang == "!"))
  {
    var src := name + bang + spaces;
    var q := |name| + |bang|;
    assert forall k :: q <= k < |src| ==> src[k] == spaces[k - q];
    assert LiteralRoute(src, |name|, "cd", true, false) == (Command("cd").(forced := bang == "!"), q) by {
      if bang == "!" {
        assert src[|name|] == '!';
      } else if spaces != [] {
        assert src[|name|] == spaces[0];
      }
    }
    RunEndUnique(src, q, {' '}, |src|);
    assert src[|src|..] == [];
  }

  // ---------------------------------------------------------------------------------
  // _ex_route_copy, _ex_route_move

  function CopySpec(src: string, p: nat): Result<TokenCommand>
    requires p <= |src|
  {
    match LazyTrimmed(src[p..])
    case None => Err(Expected(Match))
    case Some(address) => Ok(Command("copy").(addressable := true, params := Address(address)))
  }

  /** `_ex_route_copy`: the address is required. */
  method Copy(s: Scanner) returns (r: Result<TokenCommand>)
    requires s.Valid() && s.start == s.pos
    modifies s
    ensures s.Valid()
    ensures r == CopySpec(s.source, old(s.pos))
  {
    var m := LazyTrimmed(s.source[s.pos..]);
    if m.None? {
      return Err(Expected(Match));
    }
    s.Jump(|s.source|);
    r := Ok(Command("copy").(addressable := true, params := Address(m.value)));
  }

  /** Copy fails only when nothing follows its name; otherwise its address is the rest of
      the line stripped of whitespace. */
  lemma CopyAddress(src: string, p: nat)
    requires p <= |src|
    ensures CopySpec(src, p).Err? <==> p == |src|
    ensures Strip(src[p..]) != [] ==> CopySpec(src, p) == Ok(Command("copy").(addressable := true, params := Address(Strip(src[p..]))))
  {
    LazyTrimmedIsStrip(src[p..]);
  }

  function MoveSpec(src: string, p: nat): TokenCommand
    requires p <= |src|
  {
    var address := Strip(src[SkipSpaces(src, p)..]);
    Command("move").(addressable := true, params := Address(if address == [] then "." else address))
  }

  /** `_ex_route_move`: the stripped rest of the line, or `.` when there is none. */
  method Move(s: Scanner) returns (cmd: TokenCommand)
    requires s.Valid() && s.start == s.pos
    modifies s
    ensures s.Valid()
    ensures cmd == MoveSpec(s.source, old(s.pos))
  {
    cmd := Command("move").(addressable := true);
    s.Skip(' ');
    s.Ignore();
    var rest := s.source[s.pos..];
    s.Jump(|s.source|);
    var address := Strip(rest);
    cmd := cmd.(params := Address(if address == [] then "." else address));
  }

  /** Move always has an address: the stripped text after the name, `.` when that is empty. */
  lemma MoveAddress(src: string, p: nat)
    requires p <= |src|
    ensures MoveSpec(src, p).params.Address? && MoveSpec(src, p).params.address != []
    ensures MoveSpec(src, p).params.address == "." <==> Strip(src[p..]) == [] || Strip(src[p..]) == "."
  {
    MoveSkipsSpaces(src, p);
  }

  /** Skipping the spaces after the name does not change what is stripped. */
  lemma MoveSkipsSpaces(src: string, p: nat)
    requires p <= |src|
    ensures Strip(src[SkipSpaces(src, p)..]) == Strip(src[p..])
  {
    var i := SkipSpaces(src, p);
    var t := src[p..];
    var d := i - p;
    assert SpacesIn(t, 0, d) && t[d..] == src[i..] by {
      SkippedSpaces(src, p, i, t);
    }
    StripDropsLeading(t, d);
  }

  /** The spaces skipped from p to i, read in the rest of the line from p. */
  lemma SkippedSpaces(src: string, p: nat, i: nat, t: string)
    requires p <= i <= |src| && t == src[p..]
    requires forall k :: p <= k < i ==> src[k] in {' '}
    ensures SpacesIn(t, 0, i - p) && t[i - p..] == src[i..]
  {
    forall k | 0 <= k < i - p
      ensures IsSpace(t[k])
    {
      assert t[k] == src[p + k] == ' ';
    }
  }

  // ---------------------------------------------------------------------------------
  // _ex_route_delete, _ex_route_yank

  function RegisterRouteSpec(src: string, p: nat, name: string): Result<TokenCommand>
    requires p <= |src|
  {
    var i := SkipSpaces(src, p);
    var cmd := Command(name).(addressable := true);
    if i == |src| then Ok(cmd.(params := Register('"', None)))
    else
      match RegisterMatch(src[i..])
      case None => Err(Expected(Match))
      case Some((register, None)) => Ok(cmd.(params := Register(register, None)))
      case Some((_, Some(_))) => Err(NotImplemented)
  }

  /** `_ex_route_delete` and `_ex_route_yank`, which differ only in the name: an optional
      register (the unnamed register `"` by default); a count is not implemented. */
  method RegisterRoute(s: Scanner, name: string) returns (r: Result<TokenCommand>)
    requires s.Valid() && s.start == s.pos
    modifies s
    ensures s.Valid()
    ensures r == RegisterRouteSpec(s.source, old(s.pos), name)
  {
    var cmd := Command(name).(addressable := true);
    s.Skip(' ');
    s.Ignore();
    var c := s.Consume();
    if c == EOF {
      return Ok(cmd.(params := Register('"', None)));
    }
    s.Backup();
    s.Skip(' ');
    RunEndUnique(s.source, s.pos, {' '}, s.pos);
    s.Ignore();
    var m := RegisterMatch(s.source[s.pos..]);
    if m.None? {
      return Err(Expected(Match));
    }
    s.Jump(|s.source|);
    if m.value.1.Some? {
      return Err(NotImplemented);
    }
    r := Ok(cmd.(params := Register(m.value.0, None)));
  }

  /** With nothing but spaces after the name, the register is `"` and there is no count. */
  lemma RegisterDefault(src: string, p: nat, name: string)
    requires p <= |src|
    requires forall k :: p <= k < |src| ==> src[k] == ' '
    ensures RegisterRouteSpec(src, p, name) == Ok(Command(name).(addressable := true, params := Register('"', None)))
  {
    RunEndUnique(src, p, {' '}, |src|);
  }

  /** A register followed by whitespace and a count is refused as not implemented, rather
      than parsed with the count dropped. */
  lemma RegisterCountNotImplemented(head: string, name: string, spaces: string, register: char, gap: string,
                                    count: string, trail: string)
    requires forall k :: 0 <= k < |spaces| ==> spaces[k] == ' '
    requires IsRegisterName(register) && register != ' '
    requires gap != [] && AllSpace(gap)
    requires count != [] && forall k :: 0 <= k < |count| ==> IsDigit(count[k])
    requires AllSpace(trail)
    ensures RegisterRouteSpec(head + spaces + [register] + gap + count + trail, |head|, name) == Err(NotImplemented)
  {
    var src := head + spaces + [register] + gap + count + trail;
    var p := |head|;
    var i := p + |spaces|;
    assert forall k :: p <= k < i ==> src[k] == spaces[k - p];
    assert src[i] == register;
    RunEndUnique(src, p, {' '}, i);
    var t := src[i..];
    assert t == [register] + gap + count + trail;
    var w := 1 + |gap|;
    var d := w + |count|;
    assert forall k :: 1 <= k < w ==> t[k] == gap[k - 1];
    assert forall k :: w <= k < d ==> t[k] == count[k - w];
    assert forall k :: d <= k < |t| ==> t[k] == trail[k - d];
    RegisterWithCount(t, w, d);
  }

  /** A lone register, with only whitespace after it, is taken as the register. */
  lemma RegisterGiven(src: string, p: nat, i: nat, name: string)
    requires p <= i < |src|
    requires forall k :: p <= k < i ==> src[k] == ' '
    requires src[i] != ' ' && IsRegisterName(src[i]) && SpacesIn(src, i + 1, |src|)
    ensures RegisterRouteSpec(src, p, name) == Ok(Command(name).(addressable := true, params := Register(src[i], None)))
  {
    RunEndUnique(src, p, {' '}, i);
    RegisterAlone(src[i..]);
  }

  // ---------------------------------------------------------------------------------
  // _ex_route_double_ampersand

  /** `&&`'s token: the flags and the count of the repeated substitution. */
  function RepeatCommand(flags: seq<char>, count: string): TokenCommand
  {
    TokenCommand("&&", Some("double_ampersand"), false, true, false, Repeat(flags, count))
  }

  /** The corrected reading of `_ex_route_double_ampersand`: every flag of the run is kept
      (see ExFindings for the code as written, which keeps the last one only). */
  function DoubleAmpersandSpec(src: string, p: nat): Result<TokenCommand>
    requires p <= |src|
  {
    var t := src[p..];
    match RepeatBounds(t)
    case None => Err(MatchMissing)
    case Some((f0, f1, d0, d1)) => Ok(RepeatCommand(t[f0..f1], t[d0..d1]))
  }

  method DoubleAmpersand(s: Scanner) returns (r: Result<TokenCommand>)
    requires s.Valid() && s.start == s.pos
    modifies s
    ensures s.Valid()
    ensures r == DoubleAmpersandSpec(s.source, old(s.pos))
  {
    var t := s.source[s.pos..];
    var m := RepeatBounds(t);
    if m.None? {
      return Err(MatchMissing);
    }
    s.Jump(|s.source|);
    var ok := s.ExpectEof();
    var (f0, f1, d0, d1) := m.value;
    r := Ok(RepeatCommand(t[f0..f1], t[d0..d1]));
  }

  /** The flags and the count of `&&` are exactly the flag letters and the digits written,
      every flag kept and in order. */
  lemma DoubleAmpersandRoundTrip(src: string, p: nat, flags: seq<char>, count: string)
    requires p <= |src| && src[p..] == flags + count
    requires forall k :: 0 <= k < |flags| ==> flags[k] in RepeatFlags
    requires forall k :: 0 <= k < |count| ==> IsDigit(count[k])
    ensures DoubleAmpersandSpec(src, p) == Ok(RepeatCommand(flags, count))
  {
    var t := src[p..];
    var n := |flags|;
    assert RepeatBounds(t) == Some((0, n, n, |t|)) && t[0..n] == flags && t[n..|t|] == count by {
      RepeatBoundsOf(t, n, flags, count);
    }
  }

  /** Where the flags and the count lie in flags + count. */
  lemma RepeatBoundsOf(t: string, n: nat, flags: seq<char>, count: string)
    requires t == flags + count && n == |flags|
    requires forall k :: 0 <= k < |flags| ==> flags[k] in RepeatFlags
    requires forall k :: 0 <= k < |count| ==> IsDigit(count[k])
    ensures RepeatBounds(t) == Some((0, n, n, |t|)) && t[0..n] == flags && t[n..|t|] == count
  {
    RepeatClasses(t, n, flags, count);
    RunEndUnique(t, 0, Whitespace, 0);
    RunEndUnique(t, 0, RepeatFlags, n);
    RunEndUnique(t, n, Whitespace, n);
    RunEndUnique(t, n, Digits, |t|);
    RunEndUnique(t, |t|, Whitespace, |t|);
  }

  /** No character of flags + count is whitespace, and those of the count are digits and no
      flags. */
  lemma RepeatClasses(t: string, n: nat, flags: seq<char>, count: string)
    requires t == flags + count && n == |flags|
    requires forall k :: 0 <= k < |flags| ==> flags[k] in RepeatFlags
    requires forall k :: 0 <= k < |count| ==> IsDigit(count[k])
    ensures forall k :: 0 <= k < n ==> t[k] in RepeatFlags
    ensures forall k :: 0 <= k < |t| ==> t[k] !in Whitespace && (k >= n ==> t[k] in Digits && t[k] !in RepeatFlags)
  {
    assert forall k :: 0 <= k < n ==> t[k] == flags[k];
    assert forall k :: n <= k < |t| ==> t[k] == count[k - n];
    forall k | 0 <= k < |t| ensures t[k] !in Whitespace && (k >= n ==> t[k] in Digits && t[k] !in RepeatFlags) {
      if k >= n {
        assert IsDigit(count[k - n]);
        DigitsAreDigits(t[k]);
      }
    }
  }

  // ---------------------------------------------------------------------------------
  // _ex_route_help, _ex_route_let, _ex_route_set, _ex_route_setlocal, _ex_route_shell_out

  function HelpSpec(src: string, p: nat): TokenCommand
    requires p <= |src|
  {
    var (bang, subject) := HelpMatch(src[p..]);
    Command("help").(forced := bang, params := Subject(subject))
  }

  /** `_ex_route_help`: an optional bang and an optional subject; its pattern matches every
      line, so it never fails. */
  method Help(s: Scanner) returns (cmd: TokenCommand)
    requires s.Valid() && s.start == s.pos
    modifies s
    ensures s.Valid()
    ensures cmd == HelpSpec(s.source, old(s.pos))
  {
    var m := HelpMatch(s.source[s.pos..]);
    s.Jump(|s.source|);
    cmd := Command("help").(forced := m.0, params := Subject(m.1));
  }

  /** The subject of help is the text after the optional bang and whitespace, kept as
      written to the end of the line; there is none when that text is empty. */
  lemma HelpSubject(src: string, p: nat, i: nat)
    requires p <= |src| && p <= i <= |src|
    requires p < |src| && src[p] == '!' ==> p < i
    requires forall k :: p <= k < i ==> IsSpace(src[k]) || (k == p && src[k] == '!')
    requires i < |src| ==> !IsSpace(src[i])
    ensures HelpSpec(src, p).forced <==> p < |src| && src[p] == '!'
    ensures HelpSpec(src, p).params == Subject(if i < |src| then Some(src[i..]) else None)
  {
    var t := src[p..];
    var b := if t != [] && t[0] == '!' then 1 else 0;
    assert forall k :: b <= k < i - p ==> IsSpace(t[k]);
    RunEndUnique(t, b, Whitespace, i - p);
    assert t[i - p..] == src[i..];
  }

  function LetSpec(src: string, p: nat): Result<TokenCommand>
    requires p <= |src|
  {
    match LetSplit(src[p..])
    case None => Err(Fixed(UndefinedVariable))
    case Some((name, value)) => Ok(Command("let").(params := Assignment(name, value)))
  }

  /** `_ex_route_let`: `name = value`, or "E121: Undefined variable". */
  method Let(s: Scanner) returns (r: Result<TokenCommand>)
    requires s.Valid() && s.start == s.pos
    modifies s
    ensures s.Valid()
    ensures r == LetSpec(s.source, old(s.pos))
  {
    var m := LetSplit(s.source[s.pos..]);
    if m.None? {
      return Err(Fixed(UndefinedVariable));
    }
    s.Jump(|s.source|);
    r := Ok(Command("let").(params := Assignment(m.value.0, m.value.1)));
  }

  /** Without `=` there is nothing to assign: let fails with "E121: Undefined variable". */
  lemma LetNeedsEquals(src: string, p: nat)
    requires p <= |src|
    requires forall k :: p <= k < |src| ==> src[k] != '='
    ensures LetSpec(src, p) == Err(Fixed(UndefinedVariable))
  {
  }

  function SetSpec(src: string, p: nat, name: string): Result<TokenCommand>
    requires p <= |src|
  {
    match SetSplit(src[SkipSpaces(src, p)..])
    case None => Err(Expected(Match))
    case Some((option, value)) => Ok(Command(name).(params := OptionValue(option, value)))
  }

  /** `_ex_route_set` and `_ex_route_setlocal`, which differ only in the name: spaces, then
      an option with an optional `:value` or `=value`. */
  method Set(s: Scanner, name: string) returns (r: Result<TokenCommand>)
    requires s.Valid() && s.start == s.pos
    modifies s
    ensures s.Valid()
    ensures r == SetSpec(s.source, old(s.pos), name)
  {
    s.Skip(' ');
    s.Ignore();
    var m := SetSplit(s.source[s.pos..]);
    if m.None? {
      return Err(Expected(Match));
    }
    s.Jump(|s.source|);
    r := Ok(Command(name).(params := OptionValue(m.value.0, m.value.1)));
  }

  function ShellOutSpec(src: string, p: nat): Result<TokenCommand>
    requires p <= |src|
  {
    if p == |src| then Err(Expected(Match))
    else Ok(TokenCommand("!", Some("shell_out"), false, true, false, ShellCommand(src[p..])))
  }

  /** `_ex_route_shell_out`: the whole rest of the line is the shell command. */
  method ShellOut(s: Scanner) returns (r: Result<TokenCommand>)
    requires s.Valid() && s.start == s.pos
    modifies s
    ensures s.Valid()
    ensures r == ShellOutSpec(s.source, old(s.pos))
  {
    if s.pos == |s.source| {
      return Err(Expected(Match));
    }
    var cmd := s.source[s.pos..];
    s.Jump(|s.source|);
    r := Ok(TokenCommand("!", Some("shell_out"), false, true, false, ShellCommand(cmd)));
  }

  /** A shell command line is accepted exactly when something follows the `!`, and the
      command it carries, put back after the name, gives the whole line again. */
  lemma ShellOutWhole(src: string, p: nat)
    requires p <= |src|
    ensures ShellOutSpec(src, p).Ok? <==> p < |src|
    ensures ShellOutSpec(src, p).Ok? ==>
              ShellOutSpec(src, p).value.params.ShellCommand? && src[..p] + ShellOutSpec(src, p).value.params.cmd == src
  {
    if p < |src| {
      assert src[..p] + src[p..] == src;
    }
  }

  // ---------------------------------------------------------------------------------
  // _ex_route_sort, _ex_route_split, _ex_route_vsplit

  function SortSpec(src: string, p: nat): TokenCommand
    requires p <= |src|
  {
    var (cmd, q) := LiteralRoute(src, p, "sort", false, true);
    match SortMatch(src[q..])
    case None => cmd
    case Some((options, _)) => cmd.(params := SortOptions(options))
  }

  /** `_ex_route_sort`: the `i`/`u` options, if any. */
  method Sort(s: Scanner) returns (cmd: TokenCommand)
    requires s.Valid() && s.start == s.pos
    modifies s
    ensures s.Valid()
    ensures cmd == SortSpec(s.source, old(s.pos))
  {
    cmd := Literal(s, "sort", false, true);
    var m := SortMatch(s.source[s.pos..]);
    if m.Some? {
      s.Jump(s.pos + m.value.1);
      cmd := cmd.(params := SortOptions(m.value.0));
    }
  }

  /** Options after the name, after any whitespace, are kept as written; the text after
      them is left unread. */
  lemma SortOptionsGiven(src: string, p: nat, ws: string, opts: string, rest: string)
    requires p <= |src| && src[p..] == ws + opts + rest
    requires AllSpace(ws)
    requires opts != [] && forall k :: 0 <= k < |opts| ==> opts[k] in SortFlags
    requires rest != [] ==> rest[0] !in SortFlags
    ensures SortSpec(src, p) == Command("sort").(addressable := true, params := SortOptions(opts))
  {
    var t := src[p..];
    var w := |ws|;
    var e := w + |opts|;
    assert t[..w] == ws && t[w..e] == opts;
    assert e < |t| ==> t[e] == rest[0];
    assert SpacesIn(t, 0, w) by {
      forall k | 0 <= k < w ensures IsSpace(t[k]) {
        assert t[k] == ws[k];
      }
    }
    assert forall k :: w <= k < e ==> t[k] == opts[k - w];
    SortMatchOf(t, w, e);
  }

  /** Without `i` or `u` after the whitespace, sort has no options. */
  lemma SortWithoutOptions(src: string, p: nat, w: nat)
    requires p <= w <= |src| && SpacesIn(src, p, w)
    requires w < |src| ==> !IsSpace(src[w]) && src[w] !in SortFlags
    ensures SortSpec(src, p) == Command("sort").(addressable := true)
  {
    var t := src[p..];
    RunEndUnique(t, 0, Whitespace, w - p);
    RunEndUnique(t, w - p, SortFlags, w - p);
  }

  function SplitSpec(src: string, p: nat, name: string): TokenCommand
    requires p <= |src|
  {
    match SplitFileMatch(src[p..])
    case None => Command(name)
    case Some(file) => Command(name).(params := SplitFile(file))
  }

  /** `_ex_route_split` and `_ex_route_vsplit`, which differ only in the name: a file name
      after at least one whitespace character. */
  method Split(s: Scanner, name: string) returns (cmd: TokenCommand)
    requires s.Valid() && s.start == s.pos
    modifies s
    ensures s.Valid()
    ensures cmd == SplitSpec(s.source, old(s.pos), name)
  {
    cmd := Literal(s, name, false, false);
    var m := SplitFileMatch(s.source[s.pos..]);
    if m.Some? {
      s.Jump(|s.source|);
      cmd := cmd.(params := SplitFile(m.value));
    }
  }

  /** A file name after whitespace is kept whole, to the end of the line. */
  lemma SplitFileGiven(src: string, p: nat, name: string, ws: string, file: string)
    requires p <= |src| && src[p..] == ws + file
    requires ws != [] && AllSpace(ws)
    requires file != [] && !IsSpace(file[0])
    ensures SplitSpec(src, p, name) == Command(name).(params := SplitFile(file))
  {
    var t := src[p..];
    var w := |ws|;
    assert t[w..] == file && t[w] == file[0];
    assert SpacesIn(t, 0, w) by {
      forall k | 0 <= k < w ensures IsSpace(t[k]) {
        assert t[k] == ws[k];
      }
    }
    SplitFileMatchOf(t, w);
  }

  /** Without whitespace right after the name, split has no file name. */
  lemma SplitWithoutSpace(src: string, p: nat, name: string)
    requires p <= |src|
    requires p < |src| ==> !IsSpace(src[p])
    ensures SplitSpec(src, p, name) == Command(name)
  {
    RunEndUnique(src[p..], 0, Whitespace, 0);
  }

  // ---------------------------------------------------------------------------------
  // _ex_route_read

  function ReadSpec(src: string, p: nat): Result<TokenCommand>
    requires p <= |src|
  {
    var i := SkipSpaces(src, p);
    var cmd := Command("read");
    if i == |src| then Ok(cmd)
    else if src[i] == '+' then Err(NotImplemented)
    else if src[i] == '!' then
      if i + 1 == |src| then Err(MatchMissing) else Ok(cmd.(params := ShellCommand(src[i + 1..])))
    else Ok(cmd.(params := ReadFile(src[i..])))
  }

  /** Whatever follows the name, a read that parses is named read. */
  lemma ReadNamed(src: string, p: nat)
    requires p <= |src|
    ensures ReadSpec(src, p).Ok? ==> ReadSpec(src, p).value.name == "read"
  {
  }

  /** The corrected reading of `_ex_route_read`: with nothing after the name there is no
      file name (see ExFindings for the code as written, which backs up over the EOF
      sentinel into the name). `+cmd` is not implemented; `!cmd` reads a shell command. */
  method Read(s: Scanner) returns (r: Result<TokenCommand>)
    requires s.Valid() && s.start == s.pos
    modifies s
    ensures s.Valid()
    ensures r == ReadSpec(s.source, old(s.pos))
  {
    var cmd := Command("read");
    s.Skip(' ');
    s.Ignore();
    var c := s.Consume();
    if c == Ch('+') {
      return Err(NotImplemented);
    } else if c == Ch('!') {
      if s.pos == |s.source| {
        return Err(MatchMissing);
      }
      cmd := cmd.(params := ShellCommand(s.source[s.pos..]));
      s.Jump(|s.source|);
    } else if c != EOF {
      s.Backup();
      cmd := cmd.(params := ReadFile(s.source[s.pos..]));
      s.Jump(|s.source|);
    }
    var ok := s.ExpectEof();
    r := Ok(cmd);
  }

  /** `read +...`, after any spaces, is reported as not implemented. */
  lemma ReadPlusNotImplemented(src: string, p: nat, i: nat)
    requires p <= i < |src| && src[i] == '+'
    requires forall k :: p <= k < i ==> src[k] == ' '
    ensures ReadSpec(src, p) == Err(NotImplemented)
  {
    RunEndUnique(src, p, {' '}, i);
  }

  /** With only spaces after the name, read has no parameters: no file name and no command. */
  lemma ReadNothing(src: string, p: nat)
    requires p <= |src|
    requires forall k :: p <= k < |src| ==> src[k] == ' '
    ensures ReadSpec(src, p) == Ok(Command("read"))
  {
    RunEndUnique(src, p, {' '}, |src|);
  }

  /** After the spaces, `!` reads the rest of the line as a shell command, which must not be
      empty; any other character starts a file name that runs to the end of the line. */
  lemma ReadGiven(src: string, p: nat, i: nat)
    requires p <= i < |src| && src[i] != ' ' && src[i] != '+'
    requires forall k :: p <= k < i ==> src[k] == ' '
    ensures src[i] == '!' && i + 1 == |src| ==> ReadSpec(src, p) == Err(MatchMissing)
    ensures src[i] == '!' && i + 1 < |src| ==> ReadSpec(src, p) == Ok(Command("read").(params := ShellCommand(src[i + 1..])))
    ensures src[i] != '!' ==> ReadSpec(src, p) == Ok(Command("read").(params := ReadFile(src[i..])))
  {
    RunEndUnique(src, p, {' '}, i);
  }
}
