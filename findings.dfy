/** Three grammar functions of nv/ex_routes.py whose code, read as written, does something its
    authors evidently did not mean. Each is modelled here as written, next to an input that
    shows the difference from the corrected reading the rest of the model uses (ExEdit.EditSpec,
    ExSimpleRoutes.ReadSpec, ExSimpleRoutes.DoubleAmpersandSpec). */
module ExFindings {
  import opened ExText
  import opened ExTokens
  import opened ExScanner
  import opened ExPatterns
  import ExEdit
  import ExSimpleRoutes

  // ---------------------------------------------------------------------------------
  // _ex_route_edit: the bang stays in the file name

  /** `_ex_route_edit` as written: after a bang the pending slice is not dropped, so the
      `emit` that takes the file name starts at the bang, and `strip` does not remove it. */
  function EditAsWritten(src: string, p: nat): (r: Result<TokenCommand>)
    requires p <= |src|
    ensures r.Ok? ==> r.value.params.EditFile?
    ensures r.Ok? && p < |src| && src[p] == '!' && r.value.params.editFile.Some? ==>
      r.value.params.editFile.value != [] && r.value.params.editFile.value[0] == '!'
  {
    if p == |src| then Ok(Command("edit").(params := EditFile(None)))
    else
      var bang := src[p] == '!';
      var j := SkipSpaces(src, if bang then p + 1 else p);
      if j == |src| then Ok(Command("edit").(forced := bang, params := EditFile(None)))
      else if src[j] == '+' || src[j] == '#' then Err(NotImplemented)
      else
        var cmd := Command("edit").(forced := bang, params := EditFile(Some(Strip(src[p..]))));
        if bang then StripLead(src[p..]); Ok(cmd) else Ok(cmd)
  }

  /** `e! foo` names the file `! foo` as written, and `foo` once the bang is left out. */
  lemma EditBangInFileName()
    ensures EditAsWritten("e! foo", 1) == Ok(Command("edit").(forced := true, params := EditFile(Some("! foo"))))
    ensures ExEdit.EditSpec("e! foo", 1) == Ok(Command("edit").(forced := true, params := EditFile(Some("foo"))))
  {
    var src := "e! foo";
    RunEndUnique(src, 2, {' '}, 3);
    StripBetween(src[1..], 0, 5);
    assert src[1..][0..5] == "! foo";
    StripBetween(src[2..], 1, 4);
    assert src[2..][1..4] == "foo";
  }

  /** Without a bang the two readings agree: the finding is only about the bang. */
  lemma EditAgreesWithoutBang(src: string, p: nat)
    requires p < |src| && src[p] != '!'
    ensures EditAsWritten(src, p) == ExEdit.EditSpec(src, p)
  {
  }

  // ---------------------------------------------------------------------------------
  // _ex_route_read: nothing after the name reads the name's last letter as a file

  /** `_ex_route_read` as written: when only spaces follow the name, `consume` returns EOF
      without moving, `backup` steps back onto the last character of the line, and `.+$`
      takes that character as the file name. The name routed to read is never empty, so
      the line is not. */
  function ReadAsWritten(src: string, p: nat): (r: Result<TokenCommand>)
    requires 0 < p <= |src|
    ensures SkipSpaces(src, p) == |src| ==> r == Ok(Command("read").(params := ReadFile([src[|src| - 1]])))
  {
    var i := SkipSpaces(src, p);
    var cmd := Command("read");
    if i == |src| then
      assert src[|src| - 1..] == [src[|src| - 1]];
      Ok(cmd.(params := ReadFile(src[|src| - 1..])))
    else if src[i] == '+' then Err(NotImplemented)
    else if src[i] == '!' then
      if i + 1 == |src| then Err(MatchMissing) else Ok(cmd.(params := ShellCommand(src[i + 1..])))
    else Ok(cmd.(params := ReadFile(src[i..])))
  }

  /** `:read` reads a file named `d` as written, and no file once the EOF is handled. */
  lemma ReadEmptyTail()
    ensures ReadAsWritten("read", 4) == Ok(Command("read").(params := ReadFile("d")))
    ensures ExSimpleRoutes.ReadSpec("read", 4) == Ok(Command("read"))
  {
    RunEndUnique("read", 4, {' '}, 4);
  }

  /** When anything but spaces follows the name, the two readings agree. */
  lemma ReadAgreesWithTail(src: string, p: nat)
    requires 0 < p <= |src| && SkipSpaces(src, p) < |src|
    ensures ReadAsWritten(src, p) == ExSimpleRoutes.ReadSpec(src, p)
  {
  }

  // ---------------------------------------------------------------------------------
  // _ex_route_double_ampersand: a repeated group keeps only its last flag

  /** `_ex_route_double_ampersand` as written: `([cgr])*` is a repeated capturing group, so
      `m.group(1)` holds only the last flag of the run and `list` of it has one element. */
  function DoubleAmpersandAsWritten(src: string, p: nat): (r: Result<TokenCommand>)
    requires p <= |src|
    ensures r.Ok? ==> r.value.params.Repeat? && |r.value.params.repeatFlags| <= 1
  {
    var t := src[p..];
    match RepeatBounds(t)
    case None => Err(MatchMissing)
    case Some((f0, f1, d0, d1)) =>
      Ok(ExSimpleRoutes.RepeatCommand(if f0 < f1 then [t[f1 - 1]] else [], t[d0..d1]))
  }

  /** `&&cg` carries the flags `g` as written, and `c`, `g` once every flag is kept. */
  lemma DoubleAmpersandLastFlag()
    ensures DoubleAmpersandAsWritten("&&cg", 2) == Ok(ExSimpleRoutes.RepeatCommand(['g'], ""))
    ensures ExSimpleRoutes.DoubleAmpersandSpec("&&cg", 2) == Ok(ExSimpleRoutes.RepeatCommand(['c', 'g'], ""))
  {
    var src := "&&cg";
    assert src[2..] == ['c', 'g'] + "";
    ExSimpleRoutes.DoubleAmpersandRoundTrip(src, 2, ['c', 'g'], "");
    var t := src[2..];
    assert RepeatBounds(t) == Some((0, 2, 2, 2));
  }
}
