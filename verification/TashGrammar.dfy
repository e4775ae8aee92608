/** What a command line means, stated on the structure of the line instead of its scan: tokens of bare
    and quoted pieces, spaces, separators, and how the line ends.
 */
module TashGrammar {
  import opened Basics
  import opened TashComments
  import opened TashQuoting
  import opened TashTokenizer
  import opened TashWords

  datatype Piece = Bare(text: string) | InQuotes(text: string)

  datatype Item = Space | Separator(c: char) | Token(pieces: seq<Piece>)

  /** The end of a line: nothing more, a comment, a quotation that is not closed, or a token too many,
      which may start with a quotation mark. */
  datatype Tail =
    | Nothing
    | Remark(text: string)
    | Unclosed(text: string)
    | TooMany(text: string)
    | QuotedTooMany(text: string)

  // ----- the text of a line -----

  function PieceText(p: Piece): string {
    match p
    case Bare(t) => Escaped(t)
    case InQuotes(t) => ['"'] + (Escaped(t) + ['"'])
  }

  function TokenText(ps: seq<Piece>): string {
    if ps == [] then "" else PieceText(ps[0]) + TokenText(ps[1..])
  }

  function ItemText(item: Item): string {
    match item
    case Space => " "
    case Separator(c) => [c]
    case Token(ps) => TokenText(ps)
  }

  function TailText(tail: Tail): string {
    match tail
    case Nothing => ""
    case Remark(t) => ['#'] + t
    case Unclosed(t) => ['"'] + Escaped(t)
    case TooMany(t) => t
    case QuotedTooMany(t) => ['"'] + t
  }

  function LineText(items: seq<Item>, tail: Tail): string {
    if items == [] then TailText(tail) else ItemText(items[0]) + LineText(items[1..], tail)
  }

  // ----- its meaning -----

  function TokenValue(ps: seq<Piece>): string {
    if ps == [] then "" else ps[0].text + TokenValue(ps[1..])
  }

  /** The argument lists run from here on, when the current command has `args` so far. */
  function Meaning(args: seq<string>, items: seq<Item>, tail: Tail): seq<seq<string>>
    decreases |items|
  {
    if items == [] then
      match tail
      case Unclosed(_) | QuotedTooMany(_) => []
      case TooMany(t) => [args + [t]]
      case _ => RunOne(args)
    else
      match items[0]
      case Space => Meaning(args, items[1..], tail)
      case Separator(_) => RunOne(args) + Meaning([], items[1..], tail)
      case Token(ps) => Meaning(args + [TokenValue(ps)], items[1..], tail)
  }

  // ----- well-formed lines -----

  predicate Breaks(c: char) {
    c == ' ' || c == ';' || c == '\n'
  }

  predicate EndsBackslash(s: string) {
    s != "" && s[|s| - 1] == '\\'
  }

  /** Bare text has no space and no separator; a quotation mark must not come right behind a
      backslash, or it would be taken literally. */
  predicate PiecesOk(before: string, ps: seq<Piece>)
    decreases |ps|
  {
    ps == [] ||
    ((match ps[0]
      case Bare(t) => forall i :: 0 <= i < |t| ==> !Breaks(t[i])
      case InQuotes(t) => !EndsBackslash(before) && !EndsBackslash(before + t))
     && PiecesOk(before + ps[0].text, ps[1..]))
  }

  predicate TokenOk(ps: seq<Piece>) {
    ps != [] && (ps[0].Bare? ==> ps[0].text != "" && ps[0].text[0] != '#') && PiecesOk("", ps)
  }

  predicate StartsPlain(t: string) {
    t != "" && !Breaks(t[0]) && t[0] != '#' && t[0] != '"'
  }

  /** Tokens do not touch, at most 30 of them make a command, and only then can there be one too many. */
  predicate LineOk(n: nat, items: seq<Item>, tail: Tail)
    decreases |items|
  {
    && n <= ARGS_MAX
    && if items == [] then
         (tail.TooMany? ==> n == ARGS_MAX && StartsPlain(tail.text)) && (tail.QuotedTooMany? ==> n == ARGS_MAX)
       else
         match items[0]
         case Space => LineOk(n, items[1..], tail)
         case Separator(c) => (c == ';' || c == '\n') && LineOk(0, items[1..], tail)
         case Token(ps) =>
           && TokenOk(ps) && LineOk(n + 1, items[1..], tail)
           && (if |items| > 1 then !items[1].Token? else tail.Nothing?)
  }

  // ----- scanning one token -----

  lemma ScanWordChar(args: seq<string>, tok: string, c: char, r: string)
    requires |args| < ARGS_MAX && !Breaks(c)
    ensures Scan(Word, args, tok, [c] + r) ==
      if c != '"' then Scan(Word, args, tok + [c], r)
      else if EndsBackslash(tok) then Scan(Word, args, tok[..|tok| - 1] + ['"'], r)
      else Scan(Quote, args, tok, r)
  {
    assert ([c] + r)[1..] == r;
  }

  lemma ScanBareChar(args: seq<string>, tok: string, t: string, r: string)
    requires |args| < ARGS_MAX && t != "" && !Breaks(t[0])
    ensures Scan(Word, args, tok, Escaped(t) + r) == Scan(Word, args, tok + [t[0]], Escaped(t[1..]) + r)
  {
    var rest := Escaped(t[1..]) + r;
    EscapedFront(t, r);
    if t[0] == '"' {
      ScanWordChar(args, tok, '\\', ['"'] + rest);
      ScanWordChar(args, tok + ['\\'], '"', rest);
      assert (tok + ['\\'])[..|tok|] == tok;
    } else {
      ScanWordChar(args, tok, t[0], rest);
    }
  }

  lemma {:induction false} ScanBare(args: seq<string>, tok: string, t: string, r: string)
    requires |args| < ARGS_MAX && forall i :: 0 <= i < |t| ==> !Breaks(t[i])
    ensures Scan(Word, args, tok, Escaped(t) + r) == Scan(Word, args, tok + t, r)
    decreases |t|
  {
    if t == "" {
      Regroup(tok, "", "");
      assert Escaped(t) + r == r;
    } else {
      ScanBareChar(args, tok, t, r);
      ScanBare(args, tok + [t[0]], t[1..], r);
      Regroup(tok, [t[0]], t[1..]);
      assert [t[0]] + t[1..] == t;
    }
  }

  lemma ScanPiece(args: seq<string>, tok: string, p: Piece, r: string)
    requires |args| < ARGS_MAX && PiecesOk(tok, [p])
    ensures Scan(Word, args, tok, PieceText(p) + r) == Scan(Word, args, tok + p.text, r)
  {
    match p
    case Bare(t) => ScanBare(args, tok, t, r);
    case InQuotes(t) =>
      Regroup(Escaped(t), ['"'], r);
      Regroup(['"'], Escaped(t) + ['"'], r);
      ScanWordChar(args, tok, '"', Escaped(t) + (['"'] + r));
      ScanEscaped(args, tok, t, ['"'] + r);
      ScanClosingQuote(args, tok + t, r);
  }

  lemma {:induction false} ScanPieces(args: seq<string>, tok: string, ps: seq<Piece>, r: string)
    requires |args| < ARGS_MAX && PiecesOk(tok, ps)
    ensures Scan(Word, args, tok, TokenText(ps) + r) == Scan(Word, args, tok + TokenValue(ps), r)
    decreases |ps|
  {
    if ps == [] {
      assert TokenText(ps) + r == r && tok + TokenValue(ps) == tok;
    } else {
      Regroup(PieceText(ps[0]), TokenText(ps[1..]), r);
      ScanPiece(args, tok, ps[0], TokenText(ps[1..]) + r);
      ScanPieces(args, tok + ps[0].text, ps[1..], r);
      Regroup(tok, ps[0].text, TokenValue(ps[1..]));
    }
  }

  /** A token that starts here is scanned as a word with nothing in it yet. */
  lemma ScanStart(args: seq<string>, text: string)
    requires |args| < ARGS_MAX && text != "" && !Breaks(text[0]) && text[0] != '#'
    ensures Scan(Void, args, "", text) == Scan(Word, args, "", text)
  {
    assert "" + [text[0]] == [text[0]];
  }

  lemma TokenFront(ps: seq<Piece>)
    requires TokenOk(ps)
    ensures var t := TokenText(ps); t != "" && !Breaks(t[0]) && t[0] != '#'
  {
    var first := PieceText(ps[0]);
    assert first != "" && TokenText(ps)[0] == first[0];
  }

  /** At the end of a token it does not matter whether the token is open or already an argument. */
  lemma CommandsAfterToken(args: seq<string>, tok: string, r: string)
    requires |args| < ARGS_MAX && (r == "" || Breaks(r[0]))
    ensures CommandsFrom(Word, args, tok, r) == CommandsFrom(Void, args + [tok], "", r)
  {
    if r != "" {
      CommandsMoveOn(Word, args, tok, r);
      CommandsMoveOn(Void, args + [tok], "", r);
    }
  }

  lemma CommandsOfToken(args: seq<string>, ps: seq<Piece>, r: string)
    requires |args| < ARGS_MAX && TokenOk(ps) && (r == "" || Breaks(r[0]))
    ensures CommandsFrom(Void, args, "", TokenText(ps) + r) == CommandsFrom(Void, args + [TokenValue(ps)], "", r)
  {
    ScanToken(args, ps, r);
    SameCommands(Void, args, "", TokenText(ps) + r, Word, args, TokenValue(ps), r);
    CommandsAfterToken(args, TokenValue(ps), r);
  }

  lemma ScanToken(args: seq<string>, ps: seq<Piece>, r: string)
    requires |args| < ARGS_MAX && TokenOk(ps)
    ensures Scan(Void, args, "", TokenText(ps) + r) == Scan(Word, args, TokenValue(ps), r)
  {
    TokenFront(ps);
    ScanStart(args, TokenText(ps) + r);
    ScanPieces(args, "", ps, r);
    assert "" + TokenValue(ps) == TokenValue(ps);
  }

  lemma SameCommands(mode: Mode, args: seq<string>, tok: string, rest: string,
                     mode': Mode, args': seq<string>, tok': string, rest': string)
    requires Scan(mode, args, tok, rest) == Scan(mode', args', tok', rest')
    ensures CommandsFrom(mode, args, tok, rest) == CommandsFrom(mode', args', tok', rest')
  {
  }

  // ----- whole lines -----

  lemma {:induction false} ScanUnclosed(args: seq<string>, tok: string, t: string)
    requires |args| < ARGS_MAX
    ensures Scan(Quote, args, tok, Escaped(t)).args == [] && !Scan(Quote, args, tok, Escaped(t)).more
    decreases |t|
  {
    if t != "" {
      ScanEscapedChar(args, tok, t, "");
      assert Escaped(t) + "" == Escaped(t) && Escaped(t[1..]) + "" == Escaped(t[1..]);
      ScanUnclosed(args, tok + [t[0]], t[1..]);
    }
  }

  lemma CommandsUnclosed(args: seq<string>, t: string)
    requires |args| <= ARGS_MAX
    ensures CommandsFrom(Quote, args, "", Escaped(t)) == []
  {
    if |args| == ARGS_MAX {
      CommandsAtLimit(Quote, args, "", Escaped(t));
    } else {
      ScanUnclosed(args, "", t);
    }
  }

  lemma CommandsTooMany(args: seq<string>, t: string)
    requires |args| == ARGS_MAX && StartsPlain(t)
    ensures CommandsFrom(Void, args, "", t) == [args + [t]]
  {
    CommandsMoveOn(Void, args, "", t);
    CommandsAtLimit(Word, args, [t[0]], t[1..]);
    assert [t[0]] + t[1..] == t;
  }

  /** A quotation mark, or a hash, where a token could start. */
  lemma CommandsAtMark(args: seq<string>, x: char, t: string)
    requires |args| <= ARGS_MAX
    ensures x == '"' ==> CommandsFrom(Void, args, "", [x] + t) == CommandsFrom(Quote, args, "", t)
    ensures x == '#' ==> CommandsFrom(Void, args, "", [x] + t) == RunOne(args)
  {
    assert ([x] + t)[1..] == t;
    CommandsMoveOn(Void, args, "", [x] + t);
  }

  lemma CommandsOfTail(args: seq<string>, tail: Tail)
    requires LineOk(|args|, [], tail)
    ensures CommandsFrom(Void, args, "", TailText(tail)) == Meaning(args, [], tail)
  {
    match tail
    case Nothing =>
    case Remark(t) => CommandsAtMark(args, '#', t);
    case Unclosed(t) =>
      CommandsAtMark(args, '"', Escaped(t));
      CommandsUnclosed(args, t);
    case TooMany(t) => CommandsTooMany(args, t);
    case QuotedTooMany(t) =>
      CommandsAtMark(args, '"', t);
      CommandsAtLimit(Quote, args, "", t);
  }

  /** A space between tokens is skipped, a separator there ends the command. */
  lemma CommandsAtGap(args: seq<string>, x: char, rest: string)
    requires |args| <= ARGS_MAX
    ensures x == ' ' ==> CommandsFrom(Void, args, "", [x] + rest) == CommandsFrom(Void, args, "", rest)
    ensures x == ';' || x == '\n' ==> CommandsFrom(Void, args, "", [x] + rest) == RunOne(args) + Commands(rest)
  {
    assert ([x] + rest)[1..] == rest;
    CommandsMoveOn(Void, args, "", [x] + rest);
  }

  lemma BreakFollows(n: nat, items: seq<Item>, tail: Tail)
    requires items != [] && LineOk(n, items, tail) && items[0].Token?
    ensures var rest := LineText(items[1..], tail); rest == "" || Breaks(rest[0])
  {
    if |items| > 1 {
      assert LineText(items[1..], tail) == ItemText(items[1]) + LineText(items[1..][1..], tail);
    }
  }

  lemma {:induction false} LineFrom(args: seq<string>, items: seq<Item>, tail: Tail)
    requires LineOk(|args|, items, tail)
    ensures CommandsFrom(Void, args, "", LineText(items, tail)) == Meaning(args, items, tail)
    decreases |items|
  {
    if items == [] {
      CommandsOfTail(args, tail);
    } else {
      var rest := LineText(items[1..], tail);
      match items[0]
      case Space =>
        CommandsAtGap(args, ' ', rest);
        LineFrom(args, items[1..], tail);
      case Separator(c) =>
        CommandsAtGap(args, c, rest);
        LineFrom([], items[1..], tail);
      case Token(ps) =>
        BreakFollows(|args|, items, tail);
        CommandsOfToken(args, ps, rest);
        LineFrom(args + [TokenValue(ps)], items[1..], tail);
    }
  }

  /** A line runs what its structure says: spaces separate tokens, a semicolon or a line feed ends a
      command wherever it stands, pieces of a token are joined, a comment is dropped, a command with an
      unclosed quotation is dropped, and a token too many is the rest of the line. */
  lemma LineMeans(items: seq<Item>, tail: Tail)
    requires LineOk(0, items, tail)
    ensures Commands(LineText(items, tail)) == Meaning([], items, tail)
  {
    LineFrom([], items, tail);
  }

  /** A space or a separator at the start of a line changes nothing. */
  lemma LeadingGap(x: char, rest: string)
    requires x == ' ' || x == ';' || x == '\n'
    ensures Commands([x] + rest) == Commands(rest)
  {
    CommandsAtGap([], x, rest);
  }

  function Spaces(n: nat): string {
    if n == 0 then "" else [' '] + Spaces(n - 1)
  }

  lemma {:induction false} CommandsSkipSpaces(args: seq<string>, n: nat, rest: string)
    requires |args| <= ARGS_MAX
    ensures CommandsFrom(Void, args, "", Spaces(n) + rest) == CommandsFrom(Void, args, "", rest)
    decreases n
  {
    if n == 0 {
      assert Spaces(n) + rest == rest;
    } else {
      Regroup([' '], Spaces(n - 1), rest);
      CommandsAtGap(args, ' ', Spaces(n - 1) + rest);
      CommandsSkipSpaces(args, n - 1, rest);
    }
  }

  /** Words, any number of spaces and a separator: one command with these words, then the rest of the
      line, whatever that is. */
  lemma WordsThenSeparator(words: seq<string>, n: nat, x: char, rest: string)
    requires 1 <= |words| <= ARGS_MAX && AllPlain(words) && (x == ';' || x == '\n')
    ensures Commands(Join(words) + (Spaces(n) + ([x] + rest))) == [words] + Commands(rest)
  {
    var gap := Spaces(n) + ([x] + rest);
    CommandsOfWords([], words, gap);
    assert [] + words == words;
    CommandsSkipSpaces(words, n, [x] + rest);
    CommandsAtGap(words, x, rest);
  }

  lemma CommandsOfWords(args: seq<string>, words: seq<string>, r: string)
    requires words != [] && AllPlain(words) && |args| + |words| <= ARGS_MAX && r != "" && Breaks(r[0])
    ensures CommandsFrom(Void, args, "", Join(words) + r) == CommandsFrom(Void, args + words, "", r)
  {
    var k := |words| - 1;
    var first, last := words[..k], words[k];
    SplitLast(words);
    ScanOfWords(args, first, last, r);
    SameCommands(Void, args, "", Join(words) + r, Word, args + first, last, r);
    CommandsAfterToken(args + first, last, r);
    Regroup(args, first, [last]);
  }

  lemma ScanOfWords(args: seq<string>, first: seq<string>, last: string, r: string)
    requires AllPlain(first) && Plain(last) && |args| + |first| < ARGS_MAX
    ensures Scan(Void, args, "", Join(first + [last]) + r) == Scan(Word, args + first, last, r)
  {
    ScanToLast(args, first, last, r);
    ScanPlainWord(args + first, last, r);
  }

  lemma ScanToLast(args: seq<string>, first: seq<string>, last: string, r: string)
    requires AllPlain(first) && |args| + |first| <= ARGS_MAX
    ensures Scan(Void, args, "", Join(first + [last]) + r) == Scan(Void, args + first, "", last + r)
  {
    if first == [] {
      assert first + [last] == [last] && args + first == args;
    } else {
      JoinSplit(first, [last]);
      Regroup([' '], last, r);
      Regroup(Join(first), [' '] + last, r);
      ScanWords(args, first, last + r);
    }
  }
}
