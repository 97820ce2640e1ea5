/** The entry point: a command line, with any range already taken off, is routed by its name
    through the ordered table, and the grammar the route names parses the rest of the line on
    the same scanner. */
module ExInterpreter {
  import opened ExText
  import opened ExTokens
  import opened ExScanner
  import opened ExRoutes
  import ExSimpleRoutes
  import ExSubstitute
  import ExWrite
  import ExGlobal
  import ExEdit
  import ExPrint
  import ExPatterns

  /** What the grammar g makes of the line read from p on. */
  function GrammarSpec(g: Grammar, src: string, p: nat): Result<TokenCommand>
    requires p <= |src|
  {
    match g
    case Literal(name, forcable, addressable) => Ok(ExSimpleRoutes.LiteralRoute(src, p, name, forcable, addressable).0)
    case MapCmd(name) => Ok(ExSimpleRoutes.MapRouteSpec(src, p, name))
    case UnmapCmd(name) => ExSimpleRoutes.UnmapRouteSpec(src, p, name)
    case ShellOut => ExSimpleRoutes.ShellOutSpec(src, p)
    case DoubleAmpersand => ExSimpleRoutes.DoubleAmpersandSpec(src, p)
    case Cd => ExSimpleRoutes.CdSpec(src, p)
    case Copy => ExSimpleRoutes.CopySpec(src, p)
    case Delete => ExSimpleRoutes.RegisterRouteSpec(src, p, "delete")
    case Yank => ExSimpleRoutes.RegisterRouteSpec(src, p, "yank")
    case Edit => ExEdit.EditSpec(src, p)
    case Global => ExGlobal.GlobalSpec(src, p)
    case Help => Ok(ExSimpleRoutes.HelpSpec(src, p))
    case Let => ExSimpleRoutes.LetSpec(src, p)
    case Move => Ok(ExSimpleRoutes.MoveSpec(src, p))
    case Print => ExPrint.PrintSpec(src, p)
    case Read => ExSimpleRoutes.ReadSpec(src, p)
    case SetCmd(name) => ExSimpleRoutes.SetSpec(src, p, name)
    case Sort => Ok(ExSimpleRoutes.SortSpec(src, p))
    case SplitCmd(name) => Ok(ExSimpleRoutes.SplitSpec(src, p, name))
    case Substitute => ExSubstitute.SubstituteSpec(src, p)
    case Write => ExWrite.WriteSpec(src, p)
  }

  /** Calls the grammar g on the scanner, whose cursor is just past the command name. */
  method RunGrammar(s: Scanner, g: Grammar) returns (r: Result<TokenCommand>)
    requires s.Valid() && s.start == s.pos
    modifies s
    ensures s.Valid()
    ensures r == GrammarSpec(g, s.source, old(s.pos))
  {
    match g {
      case Literal(name, forcable, addressable) =>
        var cmd := ExSimpleRoutes.Literal(s, name, forcable, addressable);
        r := Ok(cmd);
      case MapCmd(name) =>
        var cmd := ExSimpleRoutes.MapRoute(s, name);
        r := Ok(cmd);
      case UnmapCmd(name) => r := ExSimpleRoutes.UnmapRoute(s, name);
      case ShellOut => r := ExSimpleRoutes.ShellOut(s);
      case DoubleAmpersand => r := ExSimpleRoutes.DoubleAmpersand(s);
      case Cd => r := ExSimpleRoutes.Cd(s);
      case Copy => r := ExSimpleRoutes.Copy(s);
      case Delete => r := ExSimpleRoutes.RegisterRoute(s, "delete");
      case Yank => r := ExSimpleRoutes.RegisterRoute(s, "yank");
      case Edit => r := ExEdit.Edit(s);
      case Global => r := ExGlobal.Global(s);
      case Help =>
        var cmd := ExSimpleRoutes.Help(s);
        r := Ok(cmd);
      case Let => r := ExSimpleRoutes.Let(s);
      case Move =>
        var cmd := ExSimpleRoutes.Move(s);
        r := Ok(cmd);
      case Print => r := ExPrint.Print(s);
      case Read => r := ExSimpleRoutes.Read(s);
      case SetCmd(name) => r := ExSimpleRoutes.Set(s, name);
      case Sort =>
        var cmd := ExSimpleRoutes.Sort(s);
        r := Ok(cmd);
      case SplitCmd(name) =>
        var cmd := ExSimpleRoutes.Split(s, name);
        r := Ok(cmd);
      case Substitute => r := ExSubstitute.Substitute(s);
      case Write => r := ExWrite.Write(s);
    }
  }

  /** What parsing the line gives: an unknown command when no route matches its start,
      otherwise what the first matching route's grammar makes of the rest. */
  function ParseSpec(line: string): Result<TokenCommand>
  {
    match Select(line)
    case None => Err(UnknownCommand)
    case Some((n, g)) => GrammarSpec(g, line, n)
  }

  /** Parses one command line on a fresh scanner: the name is matched and dropped from the
      pending slice, and the grammar runs from there. */
  method Parse(line: string) returns (r: Result<TokenCommand>)
    ensures r == ParseSpec(line)
  {
    var s := new Scanner(line);
    var route := Select(line);
    if route.None? {
      return Err(UnknownCommand);
    }
    var (n, g) := route.value;
    s.Jump(n);
    s.Ignore();
    r := RunGrammar(s, g);
  }

  // ---------------------------------------------------------------------------------
  // Properties of whole command lines

  /** A line that selects grammar g with a name of n characters is parsed by g from n on. */
  lemma Routed(line: string, n: nat, g: Grammar)
    requires Select(line) == Some((n, g))
    ensures n <= |line| && ParseSpec(line) == GrammarSpec(g, line, n)
  {
  }

  /** A line routed to one of the grammars below, with a name of n characters, is parsed by
      that grammar's specification from n on. Each is split in two so that the route table
      and the grammar are never unfolded together. */
  lemma SubstituteParsed(line: string, n: nat)
    requires Select(line) == Some((n, Substitute))
    ensures n <= |line| && ParseSpec(line) == ExSubstitute.SubstituteSpec(line, n)
  {
    Routed(line, n, Substitute);
    SubstituteGrammar(line, n);
  }

  lemma SubstituteGrammar(src: string, p: nat)
    requires p <= |src|
    ensures GrammarSpec(Substitute, src, p) == ExSubstitute.SubstituteSpec(src, p)
  {
  }

  lemma GlobalParsed(line: string, n: nat)
    requires Select(line) == Some((n, Global))
    ensures n <= |line| && ParseSpec(line) == ExGlobal.GlobalSpec(line, n)
  {
    Routed(line, n, Global);
    GlobalGrammar(line, n);
  }

  lemma GlobalGrammar(src: string, p: nat)
    requires p <= |src|
    ensures GrammarSpec(Global, src, p) == ExGlobal.GlobalSpec(src, p)
  {
  }

  lemma WriteParsed(line: string, n: nat)
    requires Select(line) == Some((n, Write))
    ensures n <= |line| && ParseSpec(line) == ExWrite.WriteSpec(line, n)
  {
    Routed(line, n, Write);
    WriteGrammar(line, n);
  }

  lemma WriteGrammar(src: string, p: nat)
    requires p <= |src|
    ensures GrammarSpec(Write, src, p) == ExWrite.WriteSpec(src, p)
  {
  }

  lemma ReadParsed(line: string, n: nat)
    requires Select(line) == Some((n, Read))
    ensures n <= |line| && ParseSpec(line) == ExSimpleRoutes.ReadSpec(line, n)
  {
    Routed(line, n, Read);
    ReadGrammar(line, n);
  }

  lemma ReadGrammar(src: string, p: nat)
    requires p <= |src|
    ensures GrammarSpec(Read, src, p) == ExSimpleRoutes.ReadSpec(src, p)
  {
  }

  lemma EditParsed(line: string, n: nat)
    requires Select(line) == Some((n, Edit))
    ensures n <= |line| && ParseSpec(line) == ExEdit.EditSpec(line, n)
  {
    Routed(line, n, Edit);
    EditGrammar(line, n);
  }

  lemma EditGrammar(src: string, p: nat)
    requires p <= |src|
    ensures GrammarSpec(Edit, src, p) == ExEdit.EditSpec(src, p)
  {
  }

  lemma DeleteParsed(line: string, n: nat)
    requires Select(line) == Some((n, Delete))
    ensures n <= |line| && ParseSpec(line) == ExSimpleRoutes.RegisterRouteSpec(line, n, "delete")
  {
    Routed(line, n, Delete);
    DeleteGrammar(line, n);
  }

  lemma DeleteGrammar(src: string, p: nat)
    requires p <= |src|
    ensures GrammarSpec(Delete, src, p) == ExSimpleRoutes.RegisterRouteSpec(src, p, "delete")
  {
  }

  lemma YankParsed(line: string, n: nat)
    requires Select(line) == Some((n, Yank))
    ensures n <= |line| && ParseSpec(line) == ExSimpleRoutes.RegisterRouteSpec(line, n, "yank")
  {
    Routed(line, n, Yank);
    YankGrammar(line, n);
  }

  lemma YankGrammar(src: string, p: nat)
    requires p <= |src|
    ensures GrammarSpec(Yank, src, p) == ExSimpleRoutes.RegisterRouteSpec(src, p, "yank")
  {
  }

  lemma CdParsed(line: string, n: nat)
    requires Select(line) == Some((n, Cd))
    ensures n <= |line| && ParseSpec(line) == ExSimpleRoutes.CdSpec(line, n)
  {
    Routed(line, n, Cd);
    CdGrammar(line, n);
  }

  lemma CdGrammar(src: string, p: nat)
    requires p <= |src|
    ensures GrammarSpec(Cd, src, p) == ExSimpleRoutes.CdSpec(src, p)
  {
  }

  /** A line starting with `qa` parses as qall, never as quit. */
  lemma ParseQall(line: string)
    requires At(line, 0, "qa")
    ensures ParseSpec(line).Ok? && ParseSpec(line).value.name == "qall"
  {
    QallBeforeQuit(line);
  }

  /** Any other line starting with `q` parses as quit, forced when a bang follows the name. */
  lemma ParseQuit(line: string)
    requires line != [] && line[0] == 'q' && !At(line, 0, "qa")
    ensures var n := if At(line, 1, "uit") then 4 else 1;
      ParseSpec(line) == Ok(Command("quit").(forced := n < |line| && line[n] == '!'))
  {
    QuitRoute(line);
  }

  /** A line starting with `reg` parses as registers, never as read. */
  lemma ParseRegisters(line: string)
    requires At(line, 0, "reg")
    ensures ParseSpec(line).Ok? && ParseSpec(line).value.name == "registers"
  {
    RegistersBeforeRead(line);
  }

  /** Any other line starting with `r` goes to the read grammar. */
  lemma ParseRead(line: string)
    requires line != [] && line[0] == 'r' && !At(line, 0, "reg")
    ensures ParseSpec(line).Ok? ==> ParseSpec(line).value.name == "read"
  {
    var n := if At(line, 1, "ead") then 4 else 1;
    assert Select(line) == Some((n, Read)) by {
      ReadRoute(line);
    }
    assert ParseSpec(line) == ExSimpleRoutes.ReadSpec(line, n) by {
      ReadParsed(line, n);
    }
    ExSimpleRoutes.ReadNamed(line, n);
  }

  /** `d` or `delete`, then only spaces: the unnamed register `"` and no count. */
  lemma ParseDeleteDefault(name: string, spaces: string)
    requires name == "d" || name == "delete"
    requires forall k :: 0 <= k < |spaces| ==> spaces[k] == ' '
    ensures ParseSpec(name + spaces) == Ok(Command("delete").(addressable := true, params := Register('"', None)))
  {
    var line := name + spaces;
    assert line[0] == 'd';
    DeleteRoute(line);
    assert At(line, 1, "elete") <==> name == "delete" by {
      if name == "d" && |line| >= 6 {
        assert line[1..6][0] == line[1] == spaces[0];
      }
      if name == "delete" {
        assert line[1..6] == "elete";
      }
    }
    DeleteParsed(line, |name|);
    ExSimpleRoutes.RegisterDefault(line, |name|, "delete");
  }

  /** `d`, a register, whitespace and a count: not implemented, rather than parsed with the
      count dropped. */
  lemma ParseDeleteCount(register: char, gap: string, count: string, trail: string)
    requires ExPatterns.IsRegisterName(register) && register != ' '
    requires gap != [] && AllSpace(gap)
    requires count != [] && forall k :: 0 <= k < |count| ==> IsDigit(count[k])
    requires AllSpace(trail)
    ensures ParseSpec("d" + " " + [register] + gap + count + trail) == Err(NotImplemented)
  {
    var line := "d" + " " + [register] + gap + count + trail;
    assert line[0] == 'd' && line[1] == ' ';
    DeleteRoute(line);
    NotAt(line, 1, "elete", 0);
    DeleteParsed(line, 1);
    ExSimpleRoutes.RegisterCountNotImplemented("d", "delete", " ", register, gap, count, trail);
  }

  /** `y` alone: the unnamed register `"` and no count. */
  lemma ParseYankDefault()
    ensures ParseSpec("y") == Ok(Command("yank").(addressable := true, params := Register('"', None)))
  {
    YankRoute("y");
    YankParsed("y", 1);
    ExSimpleRoutes.RegisterDefault("y", 1, "yank");
  }

  /** `y`, a register, whitespace and a count: not implemented. */
  lemma ParseYankCount(register: char, gap: string, count: string, trail: string)
    requires ExPatterns.IsRegisterName(register) && register != ' '
    requires gap != [] && AllSpace(gap)
    requires count != [] && forall k :: 0 <= k < |count| ==> IsDigit(count[k])
    requires AllSpace(trail)
    ensures ParseSpec("y" + " " + [register] + gap + count + trail) == Err(NotImplemented)
  {
    var line := "y" + " " + [register] + gap + count + trail;
    assert line[0] == 'y' && line[1] == ' ';
    YankRoute(line);
    NotAt(line, 1, "ank", 0);
    YankParsed(line, 1);
    ExSimpleRoutes.RegisterCountNotImplemented("y", "yank", " ", register, gap, count, trail);
  }

  /** `s` alone is a substitute command without parameters. */
  lemma ParseSubstituteBare()
    ensures ParseSpec("s") == Ok(Command("substitute").(addressable := true))
  {
    SubstituteShortName("s");
    SubstituteParsed("s", 1);
  }

  /** `s`, a delimiter the route accepts, a pattern, the delimiter and a replacement with no
      closing delimiter: the end of the line closes the replacement, with count 1 and no
      flags. */
  lemma ParseSubstituteUnclosed(d: char, pattern: string, replacement: string)
    requires d in SubstituteFollowers && d !in pattern && d !in replacement
    ensures ParseSpec("s" + [d] + pattern + [d] + replacement)
      == Ok(Command("substitute").(addressable := true, params := ExTokens.Substitution(pattern, replacement, 1, [])))
  {
    var line := "s" + [d] + pattern + [d] + replacement;
    assert line[0] == 's' && line[1] == d;
    SubstituteShortName(line);
    SubstituteParsed(line, 1);
    ExSubstitute.SubstituteUnclosed("s", d, pattern, replacement);
  }

  /** `s`, then a substitution written out in full, parses back to its parts; `&` is
      accepted only as the first flag. */
  lemma ParseSubstitute(d: char, pattern: string, replacement: string, flags: seq<char>, digits: string)
    requires d in SubstituteFollowers && d !in pattern && d !in replacement
    requires forall k :: 0 <= k < |flags| ==> flags[k] in ExSubstitute.SubstituteFlags
    requires forall k :: 0 <= k < |digits| ==> IsDigit(digits[k])
    ensures var line := "s" + [d] + pattern + [d] + replacement + [d] + ExSubstitute.FlagsAndCount(flags, digits);
      ParseSpec(line) ==
        if '&' in flags && flags[0] != '&' then Err(Value("bad command: " + line))
        else Ok(Command("substitute").(addressable := true, params := ExTokens.Substitution(pattern, replacement,
          ExSubstitute.CountValue(if digits == [] then None else Some(digits)), flags)))
  {
    var line := "s" + [d] + pattern + [d] + replacement + [d] + ExSubstitute.FlagsAndCount(flags, digits);
    assert line[0] == 's' && line[1] == d;
    SubstituteShortName(line);
    SubstituteParsed(line, 1);
    ExSubstitute.SubstituteRoundTrip("s", d, pattern, replacement, flags, digits);
  }

  /** `g`, an optional bang, a separator, a pattern, the separator and a command parse back to
      the pattern and the stripped command. */
  lemma ParseGlobal(bang: bool, sep: char, pattern: string, cmd: string)
    requires sep !in pattern
    requires bang || (sep in ExGlobal.GlobalSeparators && sep != '!')
    ensures ParseSpec("g" + (if bang then "!" else "") + [sep] + pattern + [sep] + cmd)
      == Ok(Command("global").(addressable := true, forced := bang,
        params := GlobalArgs(pattern, if Strip(cmd) == [] then None else Some(Strip(cmd)))))
  {
    var line := "g" + (if bang then "!" else "") + [sep] + pattern + [sep] + cmd;
    assert Select(line) == Some((1, Global)) by {
      assert line[0] == 'g' && line[1] == if bang then '!' else sep;
      assert line[1] != 'l' by {
        if !bang {
          assert sep != 'l';
        }
      }
      GlobalRoute(line);
      NotAt(line, 1, "lobal", 0);
    }
    assert ParseSpec(line) == ExGlobal.GlobalSpec(line, 1) by {
      GlobalParsed(line, 1);
    }
    ExGlobal.GlobalRoundTrip("g", bang, sep, pattern, cmd);
  }

  /** `g` followed by a character outside the separators is refused, naming that character. */
  lemma ParseGlobalBadSeparator(c: char, rest: string)
    requires c !in ExGlobal.GlobalSeparators && c != 'l'
    ensures ParseSpec("g" + [c] + rest) == Err(Value("bad separator: " + [c]))
  {
    var line := "g" + [c] + rest;
    assert line[1] == c;
    assert Select(line) == Some((1, Global)) by {
      assert line[0] == 'g';
      GlobalRoute(line);
      NotAt(line, 1, "lobal", 0);
    }
    assert ParseSpec(line) == ExGlobal.GlobalSpec(line, 1) by {
      GlobalParsed(line, 1);
    }
    ExGlobal.GlobalBadSeparator(line, 1);
  }

  /** `w`, an optional bang, `>>` and a file name: an append to that file, stripped. */
  lemma ParseWriteAppend(bang: bool, file: string)
    ensures ParseSpec("w" + (if bang then "!" else "") + ">>" + file)
      == Ok(Command("write").(addressable := true, forced := bang,
        params := ExWrite.NoWriteArgs.(append := true, writeFile := Strip(file))))
  {
    var b: string := if bang then "!" else "";
    var line := "w" + b + ">>" + file;
    assert Select(line) == Some((1, Write)) by {
      assert line[0] == 'w';
      assert Holds(WriteOpening, line, 1) by {
        if bang {
          assert line[1..2] == "!" && line[2..4] == ">>";
        } else {
          assert line[1..3] == ">>";
        }
      }
      WriteShortRoute(line);
    }
    assert ParseSpec(line) == ExWrite.WriteSpec(line, 1) by {
      WriteParsed(line, 1);
    }
    ExWrite.WriteAppendUnspaced("w", bang, file);
  }

  /** `cd`, an optional bang, spaces and `-`: not implemented, whatever follows. */
  lemma ParseCdDash(bang: string, spaces: string, rest: string)
    requires bang == "" || bang == "!"
    requires forall k :: 0 <= k < |spaces| ==> spaces[k] == ' '
    ensures ParseSpec("cd" + bang + spaces + "-" + rest) == Err(NotImplemented)
  {
    var line := "cd" + bang + spaces + "-" + rest;
    assert line[0..2] == "cd";
    CdRoute(line);
    CdParsed(line, 2);
    ExSimpleRoutes.CdDashNotImplemented("cd", bang, spaces, rest);
  }

  /** `e`, an optional bang, spaces, then `+` or `#`: not implemented. */
  lemma ParseEditNotImplemented(bang: string, spaces: string, c: char, rest: string)
    requires bang == "" || bang == "!"
    requires forall k :: 0 <= k < |spaces| ==> spaces[k] == ' '
    requires c == '+' || c == '#'
    ensures ParseSpec("e" + bang + spaces + [c] + rest) == Err(NotImplemented)
  {
    var line := "e" + bang + spaces + [c] + rest;
    var j := 1 + |bang| + |spaces|;
    assert line[1] != 'x' && line[1] != 'd';
    assert Select(line) == Some((1, Edit)) by {
      assert line[0] == 'e';
      NotAt(line, 0, "exi", 1);
      EditRoute(line);
      NotAt(line, 1, "dit", 0);
    }
    assert ParseSpec(line) == ExEdit.EditSpec(line, 1) by {
      EditParsed(line, 1);
    }
    assert line[j] == c;
    assert forall k :: 1 + |bang| <= k < j ==> line[k] == spaces[k - 1 - |bang|];
    ExEdit.EditNotImplemented(line, 1, j);
  }

  /** `r`, spaces, then `+`: not implemented. */
  lemma ParseReadPlus(spaces: string, rest: string)
    requires forall k :: 0 <= k < |spaces| ==> spaces[k] == ' '
    ensures ParseSpec("r" + spaces + "+" + rest) == Err(NotImplemented)
  {
    var line := "r" + spaces + "+" + rest;
    var i := 1 + |spaces|;
    assert line[0] == 'r' && line[i] == '+';
    assert forall k :: 1 <= k < i ==> line[k] == spaces[k - 1];
    ReadPlusAt(line, i);
  }

  /** The same, on a line given by its characters: `r` at 0, `+` at i, spaces between. */
  lemma ReadPlusAt(line: string, i: nat)
    requires 0 < i < |line| && line[0] == 'r' && line[i] == '+'
    requires forall k :: 1 <= k < i ==> line[k] == ' '
    ensures ParseSpec(line) == Err(NotImplemented)
  {
    assert Select(line) == Some((1, Read)) by {
      assert line[1] == ' ' || line[1] == '+';
      NotAt(line, 0, "reg", 1);
      ReadRoute(line);
      NotAt(line, 1, "ead", 0);
    }
    assert ParseSpec(line) == ExSimpleRoutes.ReadSpec(line, 1) by {
      ReadParsed(line, 1);
    }
    ExSimpleRoutes.ReadPlusNotImplemented(line, 1, i);
  }
}
