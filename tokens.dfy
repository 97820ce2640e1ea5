/** What the grammar functions produce: a command token, or a failure. */
module ExTokens {

  datatype Option<+T> = None | Some(value: T)

  /** What a scanner expectation (`expect`, `expect_eof`, `expect_match` without an
      error factory) was waiting for when it failed. The scanner's own wording of the
      message is not part of this model. */
  datatype Expectation = Char(c: char) | EndOfInput | Match

  /** The ways a grammar function fails.
      - NotImplemented: `NotImplementedError('parameter not implemented')`, a form the
        editor accepts that this implementation does not support;
      - Value: a `ValueError` raised by the grammar with its own message;
      - Fixed: the error an `expect_match` error factory builds, with its fixed text;
      - Expected: a scanner expectation that failed;
      - MatchMissing: the grammar reads the groups of a `match` that failed (Python raises
        an AttributeError on `None`);
      - UnknownCommand: no route's name pattern matches the command line. */
  datatype Failure =
    | NotImplemented
    | Value(message: string)
    | Fixed(message: string)
    | Expected(what: Expectation)
    | MatchMissing
    | UnknownCommand

  datatype Result<+T> = Ok(value: T) | Err(error: Failure)

  const NotImplementedMessage: string := "parameter not implemented"
  const InvalidArgument: string := "E474: Invalid argument"
  const UndefinedVariable: string := "E121: Undefined variable"

  /** The parameters of a command, one variant per shape of the `params` dictionary the
      grammar functions fill in. An absent key is `None` or a variant without it. */
  datatype Params =
    | NoParams
    | MapKeys(lhs: string, rhs: string)  // the *noremap commands
    | UnmapKey(lhs: string)  // the *unmap commands
    | Path(path: string)  // cd
    | Address(address: string)  // copy, move
    | Register(register: char, registerCount: Option<string>)  // delete, yank
    | Repeat(repeatFlags: seq<char>, repeatCount: string)  // &&
    | EditFile(editFile: Option<string>)  // edit
    | GlobalArgs(globalPattern: string, globalCmd: Option<string>)  // global
    | Subject(subject: Option<string>)  // help
    | Assignment(name: string, value: string)  // let
    | PrintArgs(printCount: Option<string>, printFlags: Option<seq<char>>)  // print
    | ShellCommand(cmd: string)  // !, read !cmd
    | ReadFile(readFile: string)  // read file
    | OptionValue(option: string, optionValue: Option<string>)  // set, setlocal
    | SortOptions(options: string)  // sort
    | SplitFile(file: string)  // split, vsplit
    | Substitution(pattern: string, replacement: string, count: nat, flags: seq<char>)
    | WriteArgs(plusPlus: string, writeFile: string, append: bool, writeCmd: string)

  /** TokenCommand: the canonical command name, an optional alias target, the bang, the
      two per-command capabilities and the parameters. */
  datatype TokenCommand = TokenCommand(
    name: string,
    target: Option<string>,
    forced: bool,
    addressable: bool,
    cooperatesWithGlobal: bool,
    params: Params)

  /** `TokenCommand(name)`: a command with every keyword argument at its default. */
  function Command(name: string): TokenCommand
  {
    TokenCommand(name, None, false, false, false, NoParams)
  }
}
