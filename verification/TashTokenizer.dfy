/** The command lines of TASH, as a pure tokenizer over the untouched text of the line. */
module TashTokenizer {

  const LF := '\n'
  const QUOTE := '"'
  const BACKSLASH := '\\'
  const TOKEN_MAX := 32

  datatype Mode = Void | Word | Quote

  /** The arguments of one command, whether another command follows, and its text. */
  datatype Command = Command(args: seq<string>, more: bool, rest: string)

  predicate EndsCommand(c: char) {
    c == LF || c == ';'
  }

  predicate EndsInBackslash(tok: string) {
    tok != "" && tok[|tok| - 1] == BACKSLASH
  }

  /** A quote after a trailing backslash is literal and replaces the backslash. */
  function Escape(tok: string): string
    requires tok != ""
  {
    tok[..|tok| - 1] + [QUOTE]
  }

  function Argc(mode: Mode, args: seq<string>): nat {
    |args| + if mode == Void then 0 else 1
  }

  /** The end of the line; an unclosed quotation discards the command. */
  function Finish(mode: Mode, args: seq<string>, tok: string): Command {
    match mode
    case Void => Command(args, false, "")
    case Word => Command(args + [tok], false, "")
    case Quote => Command([], false, "")
  }

  /** What one character does to the scan. */
  datatype Move = Go(mode: Mode, args: seq<string>, tok: string) | End(args: seq<string>) | Comment

  function MoveOn(mode: Mode, args: seq<string>, tok: string, c: char): Move {
    match mode
    case Void =>
      if c == ' ' then Go(Void, args, "")
      else if c == '#' then Comment
      else if c == QUOTE then Go(Quote, args, "")
      else if EndsCommand(c) then End(args)
      else Go(Word, args, [c])
    case Quote =>
      if c != QUOTE then Go(Quote, args, tok + [c])
      else if EndsInBackslash(tok) then Go(Quote, args, Escape(tok))
      else Go(Word, args, tok)
    case Word =>
      if c == ' ' then Go(Void, args + [tok], "")
      else if c == QUOTE then if EndsInBackslash(tok) then Go(Word, args, Escape(tok)) else Go(Quote, args, tok)
      else if EndsCommand(c) then End(args + [tok])
      else Go(Word, args, tok + [c])
  }

  /** Scan `rest` with finished arguments `args` and, outside `Void`, the current token `tok`.
      The 31st token is not scanned: it runs to the end of the line as it is. */
  function Scan(mode: Mode, args: seq<string>, tok: string, rest: string): (c: Command)
    ensures c.more ==> |c.rest| < |rest|
    decreases |rest|
  {
    if rest == "" then Finish(mode, args, tok)
    else if Argc(mode, args) >= TOKEN_MAX - 1 then Finish(mode, args, tok + rest)
    else
      match MoveOn(mode, args, tok, rest[0])
      case Go(m, a, t) => Scan(m, a, t, rest[1..])
      case End(a) => Command(a, true, rest[1..])
      case Comment => Command(args, false, "")
  }

  /** The argument lists a line runs, in order. */
  function Commands(line: string): seq<seq<string>>
    decreases |line|
  {
    var c := Scan(Void, [], "", line);
    (if c.args == [] then [] else [c.args]) + (if c.more then Commands(c.rest) else [])
  }
}
