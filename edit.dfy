/** `_ex_route_edit`: an optional bang and an optional file name; `+cmd` and `#` are not
    implemented. */
module ExEdit {
  import opened ExText
  import opened ExTokens
  import opened ExScanner

  /** The corrected reading: the file name is the rest of the line after the bang and the
      spaces, stripped. ExFindings has the code as written, which keeps the bang in it. */
  function EditSpec(src: string, p: nat): Result<TokenCommand>
    requires p <= |src|
  {
    if p == |src| then Ok(Command("edit").(params := EditFile(None)))
    else
      var bang := src[p] == '!';
      EditBodySpec(src, bang, if bang then p + 1 else p)
  }

  /** What follows the bang, from i on. */
  function EditBodySpec(src: string, bang: bool, i: nat): Result<TokenCommand>
    requires i <= |src|
  {
    var j := SkipSpaces(src, i);
    if j == |src| then Ok(Command("edit").(forced := bang, params := EditFile(None)))
    else if src[j] == '+' || src[j] == '#' then Err(NotImplemented)
    else Ok(Command("edit").(forced := bang, params := EditFile(Some(Strip(src[i..])))))
  }

  method Edit(s: Scanner) returns (r: Result<TokenCommand>)
    requires s.Valid() && s.start == s.pos
    modifies s
    ensures s.Valid()
    ensures r == EditSpec(s.source, old(s.pos))
  {
    var c := s.Consume();
    if c == EOF {
      return Ok(Command("edit").(params := EditFile(None)));
    }
    var bang := c == Ch('!');
    if !bang {
      s.Backup();
    } else {
      s.Ignore();
    }
    r := EditBody(s, bang);
  }

  /** The loop over what follows the bang. */
  method EditBody(s: Scanner, bang: bool) returns (r: Result<TokenCommand>)
    requires s.Valid() && s.start == s.pos
    modifies s
    ensures s.Valid()
    ensures r == EditBodySpec(s.source, bang, old(s.pos))
  {
    ghost var i := s.pos;
    ghost var j := SkipSpaces(s.source, i);
    var file: Option<string> := None;
    while true
      invariant s.Valid() && i <= s.pos
      invariant file.None? ==> s.start == i && forall k :: i <= k < s.pos ==> s.source[k] == ' '
      invariant file.Some? ==> (s.pos == |s.source| && file.value == Strip(s.source[i..])
        && j < |s.source| && s.source[j] != '+' && s.source[j] != '#')
      decreases |s.source| - s.pos
    {
      var c := s.Consume();
      if c == EOF {
        if file.None? {
          RunEndUnique(s.source, i, {' '}, |s.source|);
        }
        return Ok(Command("edit").(forced := bang, params := EditFile(file)));
      }
      if c == Ch('+') || c == Ch('#') {
        RunEndUnique(s.source, i, {' '}, s.pos - 1);
        return Err(NotImplemented);
      }
      if c != Ch(' ') {
        RunEndUnique(s.source, i, {' '}, s.pos - 1);
        assert j == s.pos - 1;
        s.Jump(|s.source|);
        var t := s.Emit();
        assert t == s.source[i..];
        file := Some(Strip(t));
        s.Skip(' ');
        s.Ignore();
      }
    }
  }

  /** `edit +cmd` and `edit #`, after any spaces and with or without a bang, are reported
      as not implemented. */
  lemma EditNotImplemented(src: string, p: nat, j: nat)
    requires p <= j < |src| && (src[j] == '+' || src[j] == '#')
    requires forall k :: p <= k < j ==> src[k] == ' ' || (k == p && src[k] == '!')
    ensures EditSpec(src, p) == Err(NotImplemented)
  {
    var i := if src[p] == '!' then p + 1 else p;
    RunEndUnique(src, i, {' '}, j);
  }

  /** A bang, spaces and a file name give a forced edit of that file, stripped, with the
      bang left out of it. */
  lemma EditForcedFile(head: string, spaces: string, file: string)
    requires forall k :: 0 <= k < |spaces| ==> spaces[k] == ' '
    requires file != [] && file[0] != ' ' && file[0] != '+' && file[0] != '#'
    ensures EditSpec(head + "!" + spaces + file, |head|)
      == Ok(Command("edit").(forced := true, params := EditFile(Some(Strip(spaces + file)))))
  {
    var src := head + "!" + spaces + file;
    var i := |head| + 1;
    var j := i + |spaces|;
    assert src[|head|] == '!';
    assert forall k :: i <= k < j ==> src[k] == spaces[k - i];
    assert src[j] == file[0];
    RunEndUnique(src, i, {' '}, j);
    assert src[i..] == spaces + file;
  }
}
