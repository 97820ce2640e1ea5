/** `_ex_route_write`: an optional bang, then `++opt` clauses, a `>>file` clause, a `!cmd`
    clause or a file name. */
module ExWrite {
  import opened ExText
  import opened ExTokens
  import opened ExScanner

  /** The option names `++` accepts, listed out. PlusPlusNamesFromPattern shows that they
      are the strings the alternation of PlusPlusPattern matches. */
  const PlusPlusNames: set<string> := {
    "ff", "fformat", "filef", "fileformat",
    "enc", "encoding", "fileenc", "fileencoding",
    "bin", "binary", "nobin", "nobinary",
    "bad", "edit"}

  /** The strings `(?:s)?` matches. */
  function Optional(s: string): set<string>
  {
    {"", s}
  }

  /** The strings a pattern matching xs followed by one matching ys matches. */
  function Concat(xs: set<string>, ys: set<string>): set<string>
  {
    set x, y | x in xs && y in ys :: x + y
  }

  /** `f(?:ile)?f(?:ormat)?|(?:file)?enc(?:oding)?|(?:no)?bin(?:ary)?|bad|edit`, built
      piece by piece. The lookahead after it asks for whitespace or the end of the line, so
      the option name is the whole word and must be one of these strings. */
  const PlusPlusPattern: set<string> :=
    Concat(Concat(Concat({"f"}, Optional("ile")), {"f"}), Optional("ormat"))
    + Concat(Concat(Optional("file"), {"enc"}), Optional("oding"))
    + Concat(Concat(Optional("no"), {"bin"}), Optional("ary"))
    + {"bad", "edit"}

  lemma ConcatOne(a: string, c: string, d: string, ac: string, ad: string)
    requires ac == a + c && ad == a + d
    ensures Concat({a}, {c, d}) == {ac, ad}
  {
    assert ac in Concat({a}, {c, d});
    assert ad in Concat({a}, {c, d});
  }

  lemma ConcatTwo(a: string, b: string, c: string, ac: string, bc: string)
    requires ac == a + c && bc == b + c
    ensures Concat({a, b}, {c}) == {ac, bc}
  {
    assert ac in Concat({a, b}, {c});
    assert bc in Concat({a, b}, {c});
  }

  lemma ConcatTwoTwo(a: string, b: string, d: string, ad: string, bd: string)
    requires ad == a + d && bd == b + d
    ensures Concat({a, b}, {"", d}) == {a, ad, b, bd}
  {
    assert a == a + "" && b == b + "";
    assert a in Concat({a, b}, {"", d});
    assert ad in Concat({a, b}, {"", d});
    assert b in Concat({a, b}, {"", d});
    assert bd in Concat({a, b}, {"", d});
  }

  /** The names `f(?:ile)?f(?:ormat)?` matches. */
  lemma FileFormatNames()
    ensures Concat(Concat(Concat({"f"}, Optional("ile")), {"f"}), Optional("ormat"))
      == {"ff", "fformat", "filef", "fileformat"}
  {
    ConcatOne("f", "", "ile", "f", "file");
    ConcatTwo("f", "file", "f", "ff", "filef");
    ConcatTwoTwo("ff", "filef", "ormat", "fformat", "fileformat");
  }

  /** The names `(?:file)?enc(?:oding)?` matches. */
  lemma EncodingNames()
    ensures Concat(Concat(Optional("file"), {"enc"}), Optional("oding"))
      == {"enc", "encoding", "fileenc", "fileencoding"}
  {
    ConcatTwo("", "file", "enc", "enc", "fileenc");
    ConcatTwoTwo("enc", "fileenc", "oding", "encoding", "fileencoding");
  }

  /** The names `(?:no)?bin(?:ary)?` matches. */
  lemma BinaryNames()
    ensures Concat(Concat(Optional("no"), {"bin"}), Optional("ary"))
      == {"bin", "binary", "nobin", "nobinary"}
  {
    ConcatTwo("", "no", "bin", "bin", "nobin");
    ConcatTwoTwo("bin", "nobin", "ary", "binary", "nobinary");
  }

  /** A name is listed exactly when the option pattern matches it. */
  lemma PlusPlusNamesFromPattern(name: string)
    ensures name in PlusPlusNames <==> name in PlusPlusPattern
  {
    assert PlusPlusPattern == {"ff", "fformat", "filef", "fileformat"}
      + {"enc", "encoding", "fileenc", "fileencoding"}
      + {"bin", "binary", "nobin", "nobinary"} + {"bad", "edit"} by {
      FileFormatNames();
      EncodingNames();
      BinaryNames();
    }
  }


  /** The translation table for option names: four short forms have a long one; every other
      accepted name is kept as written. */
  function Translate(name: string): string
  {
    if name == "ff" then "fileformat"
    else if name == "bin" then "binary"
    else if name == "enc" then "fileencoding"
    else if name == "nobin" then "nobinary"
    else name
  }

  /** The parameters before any clause: every key at its default. */
  const NoWriteArgs: Params := WriteArgs("", "", false, "")

  /** The command with the line read from p on. Nothing after the name gives the defaults;
      otherwise a `!` right after the name forces the write, and the clauses follow the
      spaces. */
  function WriteSpec(src: string, p: nat): Result<TokenCommand>
    requires p <= |src|
  {
    if p == |src| then Ok(Command("write").(addressable := true, params := NoWriteArgs))
    else
      var bang := src[p] == '!';
      match WriteClauses(src, SkipSpaces(src, if bang then p + 1 else p), NoWriteArgs)
      case Err(e) => Err(e)
      case Ok(w) => Ok(Command("write").(addressable := true, forced := bang, params := w))
  }

  /** The clauses from k on, over the parameters w gathered so far. A `++` clause takes the
      word after it, which must be an accepted option name, and the clauses go on after it;
      `>>`, `!` and a file name each take the rest of the line; spaces are skipped. */
  function WriteClauses(src: string, k: nat, w: Params): (r: Result<Params>)
    requires k <= |src| && w.WriteArgs?
    ensures r.Ok? ==> r.value.WriteArgs?
    decreases |src| - k
  {
    if k == |src| then Ok(w)
    else if src[k] == '+' then
      if k + 1 == |src| || src[k + 1] != '+' then Err(Expected(Char('+')))
      else
        var e := WordEnd(src, k + 2);
        if src[k + 2..e] in PlusPlusNames then WriteClauses(src, e, w.(plusPlus := Translate(src[k + 2..e])))
        else Err(Fixed(InvalidArgument))
    else if src[k] == ' ' then WriteClauses(src, k + 1, w)
    else LastClauseSpec(src, k, w)
  }

  /** A clause that takes the rest of the line, from k on: `>>` and a file name, `!` and a
      command, or a file name. */
  function LastClauseSpec(src: string, k: nat, w: Params): (r: Result<Params>)
    requires k < |src| && w.WriteArgs?
    ensures r.Ok? ==> r.value.WriteArgs?
  {
    if src[k] == '>' then
      if k + 1 == |src| || src[k + 1] != '>' then Err(Expected(Char('>')))
      else Ok(w.(append := true, writeFile := Strip(src[k + 2..])))
    else if src[k] == '!' then Ok(w.(writeCmd := src[k + 1..]))
    else Ok(w.(writeFile := Strip(src[k..])))
  }

  method Write(s: Scanner) returns (r: Result<TokenCommand>)
    requires s.Valid() && s.start == s.pos
    modifies s
    ensures s.Valid()
    ensures r == WriteSpec(s.source, old(s.pos))
  {
    var bang := s.Consume();
    if bang == EOF {
      return Ok(Command("write").(addressable := true, params := NoWriteArgs));
    }
    var forced := bang == Ch('!');
    if !forced {
      s.Backup();
    }
    s.Skip(' ');
    s.Ignore();
    var w := WriteLoop(s);
    match w
    case Err(e) => r := Err(e);
    case Ok(args) => r := Ok(Command("write").(addressable := true, forced := forced, params := args));
  }

  /** The loop over the clauses. */
  method WriteLoop(s: Scanner) returns (r: Result<Params>)
    requires s.Valid() && s.start == s.pos
    modifies s
    ensures s.Valid()
    ensures r == WriteClauses(s.source, old(s.pos), NoWriteArgs)
  {
    var w := NoWriteArgs;
    while true
      invariant s.Valid() && old(s.pos) <= s.pos && w.WriteArgs?
      invariant forall k :: s.start <= k < s.pos ==> s.source[k] == ' '
      invariant WriteClauses(s.source, old(s.pos), NoWriteArgs) == WriteClauses(s.source, s.pos, w)
      decreases |s.source| - s.pos
    {
      var c := s.Consume();
      if c == EOF {
        break;
      }
      if c == Ch('+') {
        var next := PlusPlusClause(s, w);
        if next.Err? {
          return next;
        }
        w := next.value;
      } else if c != Ch(' ') {
        var last := LastClause(s, c.c, w);
        if last.Err? {
          return last;
        }
        w := last.value;
      }
    }
    r := Ok(w);
  }

  /** A `++` clause, its first `+` just consumed: the option name up to the whitespace,
      translated, and the cursor after it. */
  method PlusPlusClause(s: Scanner, w: Params) returns (r: Result<Params>)
    requires s.Valid() && 0 < s.pos && s.source[s.pos - 1] == '+' && w.WriteArgs?
    modifies s
    ensures s.Valid() && old(s.pos) <= s.pos
    ensures r.Err? ==> r == WriteClauses(s.source, old(s.pos) - 1, w)
    ensures r.Ok? ==> (s.start == s.pos && r.value.WriteArgs?
      && WriteClauses(s.source, old(s.pos) - 1, w) == WriteClauses(s.source, s.pos, r.value))
  {
    ghost var k := s.pos - 1;
    var ok := s.Expect('+');
    if !ok {
      assert k + 1 == |s.source| || s.source[k + 1] != '+';
      assert WriteClauses(s.source, k, w) == Err(Expected(Char('+')));
      assert k == old(s.pos) - 1;
      return Err(Expected(Char('+')));
    }
    s.Ignore();
    var e := WordEnd(s.source, s.pos);
    var name := s.source[s.pos..e];
    if name !in PlusPlusNames {
      return Err(Fixed(InvalidArgument));
    }
    s.Jump(e);
    s.Ignore();
    r := Ok(w.(plusPlus := Translate(name)));
  }

  /** A clause that takes the rest of the line, its first character just consumed: `>>`
      and a file name, `!` and a command, or a file name. The pending slice holds only spaces
      before that character. */
  method LastClause(s: Scanner, c: char, w: Params) returns (r: Result<Params>)
    requires s.Valid() && s.start < s.pos && w.WriteArgs?
    requires c == s.source[s.pos - 1] && c != '+' && c != ' '
    requires forall k :: s.start <= k < s.pos - 1 ==> s.source[k] == ' '
    modifies s
    ensures s.Valid()
    ensures r == LastClauseSpec(s.source, old(s.pos) - 1, w)
    ensures r.Ok? ==> (s.start == s.pos == |s.source| && r.value.WriteArgs?)
  {
    ghost var k := s.pos - 1;
    if c == '>' {
      var ok := s.Expect('>');
      if !ok {
        return Err(Expected(Char('>')));
      }
      s.Ignore();
      s.Jump(|s.source|);
      var t := s.Emit();
      assert t == s.source[k + 2..];
      r := Ok(w.(append := true, writeFile := Strip(t)));
    } else if c == '!' {
      s.Ignore();
      s.Jump(|s.source|);
      var t := s.Emit();
      assert t == s.source[k + 1..];
      r := Ok(w.(writeCmd := t));
    } else {
      ghost var st := s.start;
      s.Jump(|s.source|);
      assert s.start == st && s.pos == |s.source|;
      var t := s.Emit();
      assert t == s.source[st..];
      StripAfterBlanks(s.source, st, k);
      s.Skip(' ');
      s.Ignore();
      r := Ok(w.(writeFile := Strip(t)));
    }
  }

  /** Spaces before a file name do not change the stripped name. */
  lemma StripAfterBlanks(src: string, st: nat, k: nat)
    requires st <= k <= |src| && forall i :: st <= i < k ==> src[i] == ' '
    ensures Strip(src[st..]) == Strip(src[k..])
  {
    var t := src[st..];
    var d := k - st;
    assert t[d..] == src[k..];
    assert SpacesIn(t, 0, d) by {
      forall i | 0 <= i < d
        ensures IsSpace(t[i])
      {
        assert t[i] == src[st + i];
      }
    }
    StripDropsLeading(t, d);
  }


  /** An option name as the parameters keep it: none, or the long form of a name. */
  predicate KeptOption(o: string)
  {
    o == "" || (o in PlusPlusNames && Translate(o) == o)
  }

  /** Translating an accepted name gives an accepted name that translates to itself: the
      table only ever lengthens a short form, and only once. */
  lemma TranslateKept(name: string)
    requires name in PlusPlusNames
    ensures Translate(name) in PlusPlusNames && KeptOption(Translate(name))
    ensures Translate(name) != name <==> name in {"ff", "bin", "enc", "nobin"}
  {
  }

  /** The accepted names are words: no whitespace, which would end them early. */
  lemma OptionNameIsWord(name: string)
    requires name in PlusPlusNames
    ensures name != [] && forall k :: 0 <= k < |name| ==> !IsSpace(name[k]) && name[k] != ' '
  {
  }

  /** Whatever the clauses, the option the parameters end with is none or a long form,
      when it started that way. */
  lemma {:induction false} WriteClausesKeepOption(src: string, k: nat, w: Params)
    requires k <= |src| && w.WriteArgs? && KeptOption(w.plusPlus)
    ensures WriteClauses(src, k, w).Ok? ==> KeptOption(WriteClauses(src, k, w).value.plusPlus)
    decreases |src| - k
  {
    if k < |src| {
      if src[k] == '+' && k + 1 < |src| && src[k + 1] == '+' {
        var e := WordEnd(src, k + 2);
        if src[k + 2..e] in PlusPlusNames {
          TranslateKept(src[k + 2..e]);
          WriteClausesKeepOption(src, e, w.(plusPlus := Translate(src[k + 2..e])));
        }
      } else if src[k] == ' ' {
        WriteClausesKeepOption(src, k + 1, w);
      }
    }
  }

  /** A `++` clause with an accepted name sets the option to the name's long form, and the
      clauses after it go on from the end of the name: a later `++` overrides an earlier
      one. */
  lemma WritePlusPlusThen(src: string, k: nat, e: nat, w: Params, name: string)
    requires w.WriteArgs? && name in PlusPlusNames
    requires e == k + 2 + |name| && e <= |src| && src[k..e] == "++" + name
    requires e < |src| ==> IsSpace(src[e])
    ensures WriteClauses(src, k, w) == WriteClauses(src, e, w.(plusPlus := Translate(name)))
  {
    OptionNameIsWord(name);
    PlusPlusAt(src, k, k + 2, e, name);
  }

  /** A `++` clause whose word is not an accepted name is an invalid argument, E474; this is
      what `++enc=utf8` meets, since the name must end at whitespace or the end of the line. */
  lemma WritePlusPlusRefused(src: string, k: nat, e: nat, w: Params, word: string)
    requires w.WriteArgs? && word !in PlusPlusNames
    requires forall j :: 0 <= j < |word| ==> !IsSpace(word[j])
    requires e == k + 2 + |word| && e <= |src| && src[k..e] == "++" + word
    requires e < |src| ==> IsSpace(src[e])
    ensures WriteClauses(src, k, w) == Err(Fixed(InvalidArgument))
  {
    PlusPlusAt(src, k, k + 2, e, word);
  }

  /** Where `++` and the word after it sit. */
  lemma PlusPlusAt(src: string, k: nat, g: nat, e: nat, word: string)
    requires forall j :: 0 <= j < |word| ==> !IsSpace(word[j])
    requires g == k + 2 && e == g + |word| && e <= |src| && src[k..e] == "++" + word
    requires e < |src| ==> IsSpace(src[e])
    ensures src[k] == '+' && src[k + 1] == '+' && src[g..e] == word && WordEnd(src, g) == e
  {
    assert src[k] == src[k..e][0] && src[k + 1] == src[k..e][1];
    assert src[g..e] == src[k..e][2..] == word;
    assert forall j :: g <= j < e ==> src[j] == src[g..e][j - g];
    WordEndUnique(src, g, e);
  }

  /** `write ++enc=utf8` is refused with E474. */
  lemma WriteEncodingValueRefused()
    ensures WriteSpec("write ++enc=utf8", 5) == Err(Fixed(InvalidArgument))
  {
    var src := "write ++enc=utf8";
    var word := "enc=utf8";
    assert src[5] == ' ' && src[6] == '+';
    RunEndUnique(src, 5, {' '}, 6);
    assert word !in PlusPlusNames;
    assert src[6..16] == "++" + word;
    assert forall j :: 0 <= j < |word| ==> !IsSpace(word[j]);
    WritePlusPlusRefused(src, 6, 16, NoWriteArgs, word);
  }

  /** The bang, when there is one, is the character right after the name: it and only it
      makes the write forced. */
  lemma WriteForced(src: string, p: nat)
    requires p <= |src|
    ensures WriteSpec(src, p).Ok? ==> (WriteSpec(src, p).value.name == "write"
      && WriteSpec(src, p).value.addressable
      && (WriteSpec(src, p).value.forced <==> p < |src| && src[p] == '!'))
  {
  }

  /** The spaces after an optional bang are skipped to the first clause. */
  lemma SkipToClause(head: string, bang: bool, spaces: string, rest: string, j: nat)
    requires forall k :: 0 <= k < |spaces| ==> spaces[k] == ' '
    requires rest != [] && rest[0] != ' '
    requires bang || spaces != [] || rest[0] != '!'
    requires j == |head| + (if bang then 1 else 0) + |spaces|
    ensures var src := head + (if bang then "!" else "") + spaces + rest;
      var p := |head|;
      p < |src| && j < |src| && (src[p] == '!' <==> bang)
      && SkipSpaces(src, if bang then p + 1 else p) == j && src[j..] == rest
  {
    var b: string := if bang then "!" else "";
    var src := head + b + spaces + rest;
    var i := |head| + |b|;
    assert forall k :: i <= k < j ==> src[k] == spaces[k - i];
    assert src[j] == rest[0];
    RunEndUnique(src, i, {' '}, j);
    assert src[j..] == rest;
  }

  /** `>>` and a file name append to that file, stripped. */
  lemma WriteAppend(head: string, bang: bool, spaces: string, file: string)
    requires forall k :: 0 <= k < |spaces| ==> spaces[k] == ' '
    ensures WriteSpec(head + (if bang then "!" else "") + spaces + ">>" + file, |head|)
      == Ok(Command("write").(addressable := true, forced := bang,
        params := NoWriteArgs.(append := true, writeFile := Strip(file))))
  {
    var src := head + (if bang then "!" else "") + spaces + ">>" + file;
    assert src == head + (if bang then "!" else "") + spaces + (">>" + file);
    var j := |head| + (if bang then 1 else 0) + |spaces|;
    SkipToClause(head, bang, spaces, ">>" + file, j);
    var f := j + 2;
    assert src[j] == src[j..][0] && src[j + 1] == src[j..][1];
    assert src[f..] == src[j..][2..] == file;
  }

  /** The same with no spaces before `>>`. */
  lemma WriteAppendUnspaced(head: string, bang: bool, file: string)
    ensures WriteSpec(head + (if bang then "!" else "") + ">>" + file, |head|)
      == Ok(Command("write").(addressable := true, forced := bang,
        params := NoWriteArgs.(append := true, writeFile := Strip(file))))
  {
    var b: string := if bang then "!" else "";
    assert head + b + ">>" + file == head + b + "" + ">>" + file by {
      assert head + b + "" == head + b;
    }
    WriteAppend(head, bang, "", file);
  }

  /** `!` and a command, after the bang or at least one space, write to that command, which
      is kept as written. */
  lemma WriteShellCommand(head: string, bang: bool, spaces: string, cmd: string)
    requires forall k :: 0 <= k < |spaces| ==> spaces[k] == ' '
    requires bang || spaces != []
    ensures WriteSpec(head + (if bang then "!" else "") + spaces + "!" + cmd, |head|)
      == Ok(Command("write").(addressable := true, forced := bang,
        params := NoWriteArgs.(writeCmd := cmd)))
  {
    var src := head + (if bang then "!" else "") + spaces + "!" + cmd;
    assert src == head + (if bang then "!" else "") + spaces + ("!" + cmd);
    var j := |head| + (if bang then 1 else 0) + |spaces|;
    SkipToClause(head, bang, spaces, "!" + cmd, j);
    var f := j + 1;
    assert src[j] == src[j..][0];
    assert src[f..] == src[j..][1..] == cmd;
  }

  /** Any other first character starts a file name, which runs to the end of the line and
      is stripped. */
  lemma WriteFileName(head: string, bang: bool, spaces: string, file: string)
    requires forall k :: 0 <= k < |spaces| ==> spaces[k] == ' '
    requires file != [] && file[0] !in {' ', '+', '>', '!'}
    ensures WriteSpec(head + (if bang then "!" else "") + spaces + file, |head|)
      == Ok(Command("write").(addressable := true, forced := bang,
        params := NoWriteArgs.(writeFile := Strip(file))))
  {
    SkipToClause(head, bang, spaces, file, |head| + (if bang then 1 else 0) + |spaces|);
  }
}
