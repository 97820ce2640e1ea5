/** The scanner the grammar functions share: a cursor over one command line with a
    pending-slice mark. Reading past the end yields the EOF sentinel instead of failing. */
module ExScanner {
  import opened ExText

  /** What `consume` returns: a character, or the EOF sentinel, which is never a character. */
  datatype Symbol = Ch(c: char) | EOF

  /** The symbol `consume` would return with the cursor at i. */
  function SymbolAt(s: string, i: nat): Symbol
  {
    if i < |s| then Ch(s[i]) else EOF
  }

  /** Where `skip(' ')` leaves a cursor that was at i. */
  function SkipSpaces(s: string, i: nat): (j: nat)
    requires i <= |s|
    ensures i <= j <= |s|
  {
    RunEnd(s, i, {' '})
  }

  class Scanner {
    /** The command line; never changes during a parse. */
    const source: string
    /** Where the pending slice begins. */
    var start: nat
    /** The cursor. */
    var pos: nat

    ghost predicate Valid()
      reads this
    {
      start <= pos <= |source|
    }

    constructor (text: string)
      ensures Valid()
      ensures source == text && start == 0 && pos == 0
    {
      source := text;
      start := 0;
      pos := 0;
    }

    /** `consume`: the symbol under the cursor; the cursor moves on unless it is at the end. */
    method Consume() returns (c: Symbol)
      requires Valid()
      modifies this
      ensures Valid() && start == old(start)
      ensures c == SymbolAt(source, old(pos))
      ensures pos == if old(pos) < |source| then old(pos) + 1 else old(pos)
    {
      if pos < |source| {
        c := Ch(source[pos]);
        pos := pos + 1;
      } else {
        c := EOF;
      }
    }

    /** `backup`: step the cursor back one character; never past the pending slice. */
    method Backup()
      requires Valid() && start < pos
      modifies this
      ensures Valid() && start == old(start) && pos == old(pos) - 1
    {
      pos := pos - 1;
    }

    /** `ignore`: drop the pending slice. */
    method Ignore()
      requires Valid()
      modifies this
      ensures Valid() && pos == old(pos) && start == pos
    {
      start := pos;
    }

    /** `emit`: hand out the pending slice and start a new one at the cursor. */
    method Emit() returns (t: string)
      requires Valid()
      modifies this
      ensures Valid() && pos == old(pos) && start == pos
      ensures t == source[old(start)..old(pos)]
    {
      t := source[start..pos];
      start := pos;
    }

    /** `skip(ch)`: consume characters while they equal ch, and give back the first one
        that does not. */
    method Skip(ch: char)
      requires Valid()
      modifies this
      ensures Valid() && start == old(start)
      ensures pos == RunEnd(source, old(pos), {ch})
    {
      var c: Symbol;
      while true
        invariant Valid() && start == old(start) && old(pos) <= pos
        invariant forall k :: old(pos) <= k < pos ==> source[k] == ch
        decreases |source| - pos
      {
        c := Consume();
        if c == EOF || c != Ch(ch) {
          break;
        }
      }
      if c != EOF {
        Backup();
      }
      RunEndUnique(source, old(pos), {ch}, pos);
    }

    /** `peek(ch)`: whether ch is under the cursor, without moving. */
    method Peek(ch: char) returns (b: bool)
      requires Valid()
      ensures b <==> pos < |source| && source[pos] == ch
    {
      b := pos < |source| && source[pos] == ch;
    }

    /** A successful `match`: the cursor moves to the end of the match. */
    method Jump(e: nat)
      requires Valid() && pos <= e <= |source|
      modifies this
      ensures Valid() && start == old(start) && pos == e
    {
      pos := e;
    }

    /** `expect(ch)`: consume one symbol; it must be ch. */
    method Expect(ch: char) returns (ok: bool)
      requires Valid()
      modifies this
      ensures Valid() && start == old(start)
      ensures ok <==> SymbolAt(source, old(pos)) == Ch(ch)
      ensures pos == if old(pos) < |source| then old(pos) + 1 else old(pos)
    {
      var c := Consume();
      ok := c == Ch(ch);
    }

    /** `expect_eof`: the cursor must be at the end. */
    method ExpectEof() returns (ok: bool)
      requires Valid()
      modifies this
      ensures Valid() && start == old(start) && pos == old(pos)
      ensures ok <==> pos == |source|
    {
      var c := Consume();
      ok := c == EOF;
      if !ok {
        Backup();
      }
    }

    /** `state.start += 1`, as substitute does to leave its delimiter out of a slice. The
        requires is what keeps the invariant start <= pos. */
    method ShiftStart()
      requires Valid() && start < pos
      modifies this
      ensures Valid() && pos == old(pos) && start == old(start) + 1
    {
      start := start + 1;
    }

    /** `backup` right after a `consume` that returned EOF, with the pending slice empty:
        the cursor steps back one character and the mark follows it, so that start <= pos
        holds. Used only where the next step is an `expect_match` and an `ignore`, which do
        not read the mark. */
    method Retreat()
      requires Valid() && 0 < pos
      modifies this
      ensures Valid() && pos == old(pos) - 1 && start == pos
    {
      pos := pos - 1;
      start := pos;
    }
  }
}
