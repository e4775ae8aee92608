/** `tash_execute_cmdline`: the same tokens, found by editing the line in place. */
module TashScanner {
  import opened Basics
  import opened TashTokenizer

  /** The C string that starts at `p`. */
  function CString(s: seq<char>, p: nat): string
    decreases |s| - p
  {
    if p >= |s| || s[p] == NUL then "" else [s[p]] + CString(s, p + 1)
  }

  lemma {:induction false} CStringIs(s: seq<char>, p: nat, t: string)
    requires p + |t| < |s| && s[p..p + |t|] == t && NUL !in t && s[p + |t|] == NUL
    ensures CString(s, p) == t
    decreases |t|
  {
    if t != "" {
      assert s[p] == t[0];
      assert s[p + 1..p + |t|] == t[1..];
      CStringIs(s, p + 1, t[1..]);
    }
  }

  /** `text` is stored at `p` with its terminator. */
  predicate StoredAt(s: seq<char>, p: nat, text: string) {
    p + |text| < |s| && s[p..p + |text|] == text && NUL !in text && s[p + |text|] == NUL
  }

  /** Every finished argument is stored, terminator included, below `low`. */
  predicate ArgsStored(s: seq<char>, argv: seq<nat>, args: seq<string>, low: nat) {
    |args| <= |argv| && forall k :: 0 <= k < |args| ==> StoredAt(s, argv[k], args[k]) && argv[k] + |args[k]| < low
  }

  /** The current token lies between its start and the cursor. */
  predicate TokenOpen(s: seq<char>, start: nat, buff: nat, tok: string) {
    && start <= buff <= |s| && s[start..buff] == tok && NUL !in tok
    && (tok == "" ==> 1 <= start <= |s| && s[start - 1] == QUOTE)
  }

  predicate RestIs(s: seq<char>, buff: nat, end: nat, rest: string) {
    buff <= end < |s| && s[end] == NUL && s[buff..end] == rest && NUL !in rest
  }

  lemma ArgsKept(s: seq<char>, s': seq<char>, argv: seq<nat>, args: seq<string>, low: nat, argv': seq<nat>, low': nat)
    requires ArgsStored(s, argv, args, low) && |s| == |s'| && low <= |s| && low <= low'
    requires s[..low] == s'[..low] && argv <= argv'
    ensures ArgsStored(s', argv', args, low')
  {
    forall k | 0 <= k < |args| ensures StoredAt(s', argv'[k], args[k]) {
      var p, t := argv[k], args[k];
      assert s'[..low][p..p + |t|] == s[..low][p..p + |t|];
      assert s'[..low][p + |t|] == s[..low][p + |t|];
    }
  }

  /** The string without the character at `pos`; its terminator was at `end`. */
  function Removed(s: seq<char>, pos: nat, end: nat): (r: seq<char>)
    requires pos < end < |s|
    ensures |r| == |s|
    ensures r[..pos] == s[..pos] && r[pos..end] == s[pos + 1..end + 1] && r[end..] == s[end..]
  {
    s[..pos] + s[pos + 1..end + 1] + s[end..]
  }

  /** Removing the character at `p` pulls every later one back by a place. */
  lemma RemovedAt(s: seq<char>, p: nat, end: nat)
    requires p < end < |s|
    ensures var r := Removed(s, p, end);
      && (forall i :: 0 <= i < p ==> r[i] == s[i])
      && (forall i :: p <= i < end ==> r[i] == s[i + 1])
      && (forall i :: end <= i < |s| ==> r[i] == s[i])
  {
    var r := Removed(s, p, end);
    forall i | 0 <= i < p ensures r[i] == s[i] { assert r[..p][i] == s[..p][i]; }
    forall i | p <= i < end ensures r[i] == s[i + 1] { assert r[p..end][i - p] == s[p + 1..end + 1][i - p]; }
    forall i | end <= i < |s| ensures r[i] == s[i] { assert r[end..][i - end] == s[end..][i - end]; }
  }

  /** `tash_remove_char`: delete one character, moving the rest of the string and its terminator. */
  method RemoveChar(line: array<char>, pos: nat, ghost end: nat)
    requires pos < end < line.Length && line[end] == NUL
    requires forall i :: pos < i < end ==> line[i] != NUL
    modifies line
    ensures line[..] == Removed(old(line[..]), pos, end)
  {
    ghost var s := line[..];
    var remaining := 0;
    while line[pos + 1 + remaining] != NUL
      invariant pos + 1 + remaining <= end && line[..] == s
      decreases end - remaining
    {
      remaining := remaining + 1;
    }
    assert pos + 1 + remaining == end;
    remaining := remaining + 1;
    var i := 0;
    while i < remaining
      invariant i <= remaining
      invariant forall j :: 0 <= j < pos ==> line[j] == s[j]
      invariant forall j :: pos <= j < pos + i ==> line[j] == s[j + 1]
      invariant forall j :: pos + i <= j < line.Length ==> line[j] == s[j]
    {
      line[pos + i] := line[pos + 1 + i];
      i := i + 1;
    }
    RemovedAt(s, pos, end);
    forall j | 0 <= j < line.Length ensures line[j] == Removed(s, pos, end)[j] {
    }
  }

  // ----- one turn of the scanning loop -----

  /** The scanner's locals. */
  datatype Cursor = Cursor(buff: nat, state: Mode, argv: seq<nat>, isNextCmd: bool)

  /** What the locals stand for in the tokenizer, and where the string now ends. */
  datatype Reading = Reading(args: seq<string>, tok: string, rest: string, end: nat)

  predicate Consistent(s: seq<char>, c: Cursor, g: Reading) {
    && RestIs(s, c.buff, g.end, g.rest)
    && if c.isNextCmd || c.state == Void then
         c.state != Quote && |c.argv| == |g.args| && ArgsStored(s, c.argv, g.args, c.buff)
       else
         && |c.argv| == |g.args| + 1
         && TokenOpen(s, c.argv[|g.args|], c.buff, g.tok)
         && ArgsStored(s, c.argv, g.args, c.argv[|g.args|])
  }

  /** The command the tokenizer makes of this point of the scan. */
  function Outcome(c: Cursor, g: Reading): Command {
    if c.isNextCmd then Command(g.args, true, g.rest) else Scan(c.state, g.args, g.tok, g.rest)
  }

  predicate MayScan(s: seq<char>, c: Cursor, g: Reading) {
    Consistent(s, c, g) && !c.isNextCmd && g.rest != "" && |c.argv| < TOKEN_MAX - 1
  }

  /** The locals follow one move of the tokenizer. */
  predicate Follows(c: Cursor, g: Reading, c': Cursor, g': Reading)
    requires g.rest != ""
  {
    && g'.rest == g.rest[1..]
    && match MoveOn(c.state, g.args, g.tok, g.rest[0])
       case Go(m, a, t) => !c'.isNextCmd && c'.state == m && g'.args == a && g'.tok == t
       case End(a) => c'.isNextCmd && g'.args == a
       case Comment => false
  }

  lemma FollowsKeepsOutcome(s: seq<char>, c: Cursor, g: Reading, c': Cursor, g': Reading)
    requires MayScan(s, c, g) && Follows(c, g, c', g')
    ensures Outcome(c', g') == Outcome(c, g)
  {
  }

  method ScanVoid(line: array<char>, c: Cursor, ghost g: Reading) returns (c': Cursor, ghost g': Reading)
    requires MayScan(line[..], c, g) && c.state == Void
    modifies line
    ensures Consistent(line[..], c', g') && Outcome(c', g') == Outcome(c, g) && |g'.rest| < |g.rest|
    ensures g'.end <= g.end && line[g.end..] == old(line[g.end..])
    ensures line[..c.buff] == old(line[..c.buff])
  {
    var b := c.buff;
    ghost var s := line[..];
    assert line[b] == g.rest[0];
    assert s[b + 1..g.end] == g.rest[1..];
    if line[b] == ' ' {
      c', g' := c.(buff := b + 1), g.(tok := "", rest := g.rest[1..]);
    } else if line[b] == '#' {
      line[b] := NUL;
      line[b + 1] := NUL;
      c', g' := c.(buff := b + 1), g.(rest := "", end := b + 1);
      ArgsKept(s, line[..], c.argv, g.args, b, c.argv, b + 1);
    } else if line[b] == QUOTE {
      c' := c.(buff := b + 1, state := Quote, argv := c.argv + [b + 1]);
      g' := g.(tok := "", rest := g.rest[1..]);
      ArgsKept(s, s, c.argv, g.args, b, c'.argv, b + 1);
    } else if EndsCommand(line[b]) {
      line[b] := NUL;
      c', g' := c.(buff := b + 1, isNextCmd := true), g.(rest := g.rest[1..]);
      ArgsKept(s, line[..], c.argv, g.args, b, c.argv, b + 1);
    } else {
      c' := c.(buff := b + 1, state := Word, argv := c.argv + [b]);
      g' := g.(tok := [line[b]], rest := g.rest[1..]);
      ArgsKept(s, s, c.argv, g.args, b, c'.argv, b);
    }
  }

  /** Removing the character before the cursor, or the one under it, edits only what lies between
      the start of the current token and the end of the string. */
  method ScanQuote(line: array<char>, c: Cursor, ghost g: Reading) returns (c': Cursor, ghost g': Reading)
    requires MayScan(line[..], c, g) && c.state == Quote
    modifies line
    ensures Consistent(line[..], c', g') && Outcome(c', g') == Outcome(c, g) && |g'.rest| < |g.rest|
    ensures c'.argv == c.argv && line[..c.argv[|g.args|]] == old(line[..c.argv[|g.args|]])
    ensures g'.end <= g.end && line[g.end..] == old(line[g.end..])
  {
    var b := c.buff;
    assert line[b] == g.rest[0];
    assert line[..][b + 1..g.end] == g.rest[1..];
    if line[b] == QUOTE {
      c', g' := TakeQuote(line, c, g);
    } else {
      c', g' := c.(buff := b + 1), g.(tok := g.tok + [line[b]], rest := g.rest[1..]);
    }
    FollowsKeepsOutcome(old(line[..]), c, g, c', g');
  }

  lemma TokenEscaped(s: seq<char>, start: nat, b: nat, end: nat, tok: string)
    requires TokenOpen(s, start, b, tok) && tok != "" && b < end < |s| && s[b] == QUOTE
    ensures TokenOpen(Removed(s, b - 1, end), start, b, Escape(tok))
  {
    RemovedAt(s, b - 1, end);
    assert Removed(s, b - 1, end)[start..b] == Escape(tok);
  }

  lemma RestPulledBack(s: seq<char>, p: nat, b: nat, end: nat, rest: string)
    requires RestIs(s, b, end, rest) && rest != "" && p <= b <= p + 1
    ensures RestIs(Removed(s, p, end), b, end - 1, rest[1..])
  {
    RemovedAt(s, p, end);
    assert Removed(s, p, end)[b..end - 1] == s[b + 1..end] == rest[1..];
  }

  lemma BackslashRemoved(s: seq<char>, c: Cursor, g: Reading)
    requires MayScan(s, c, g) && c.state != Void && s[c.buff] == QUOTE && c.buff > 0 && s[c.buff - 1] == BACKSLASH
    ensures EndsInBackslash(g.tok)
    ensures Consistent(Removed(s, c.buff - 1, g.end), c, Reading(g.args, Escape(g.tok), g.rest[1..], g.end - 1))
  {
    var b, start, end := c.buff, c.argv[|g.args|], g.end;
    assert g.tok != "" && g.tok[|g.tok| - 1] == s[b - 1];
    TokenEscaped(s, start, b, end, g.tok);
    RestPulledBack(s, b - 1, b, end, g.rest);
    var r := Removed(s, b - 1, end);
    assert r[..start] == r[..b - 1][..start] == s[..start];
    ArgsKept(s, r, c.argv, g.args, start, c.argv, start);
  }

  lemma QuoteRemoved(s: seq<char>, c: Cursor, g: Reading)
    requires MayScan(s, c, g) && c.state != Void && s[c.buff] == QUOTE
    ensures Consistent(Removed(s, c.buff, g.end), c, Reading(g.args, g.tok, g.rest[1..], g.end - 1))
  {
    var b, start, end := c.buff, c.argv[|g.args|], g.end;
    var r := Removed(s, b, end);
    RemovedAt(s, b, end);
    assert r[start..b] == s[start..b];
    RestPulledBack(s, b, b, end, g.rest);
    ArgsKept(s, r, c.argv, g.args, start, c.argv, start);
  }

  /** The cursor is on a quote and the current token ends in a backslash. */
  method DropBackslash(line: array<char>, c: Cursor, ghost g: Reading) returns (ghost g': Reading)
    requires MayScan(line[..], c, g) && c.state != Void && line[c.buff] == QUOTE
    requires line[c.buff - 1] == BACKSLASH
    modifies line
    ensures EndsInBackslash(g.tok)
    ensures g' == Reading(g.args, Escape(g.tok), g.rest[1..], g.end - 1) && Consistent(line[..], c, g')
    ensures line[..c.argv[|g.args|]] == old(line[..c.argv[|g.args|]])
    ensures line[g.end..] == old(line[g.end..])
  {
    BackslashRemoved(line[..], c, g);
    RemoveChar(line, c.buff - 1, g.end);
    g' := Reading(g.args, Escape(g.tok), g.rest[1..], g.end - 1);
  }

  /** The cursor is on a quote that opens or closes a quotation. */
  method DropQuote(line: array<char>, c: Cursor, ghost g: Reading) returns (ghost g': Reading)
    requires MayScan(line[..], c, g) && c.state != Void && line[c.buff] == QUOTE
    modifies line
    ensures g' == Reading(g.args, g.tok, g.rest[1..], g.end - 1) && Consistent(line[..], c, g')
    ensures line[..c.argv[|g.args|]] == old(line[..c.argv[|g.args|]])
    ensures line[g.end..] == old(line[g.end..])
  {
    QuoteRemoved(line[..], c, g);
    RemoveChar(line, c.buff, g.end);
    g' := Reading(g.args, g.tok, g.rest[1..], g.end - 1);
  }

  /** A quote after a backslash is literal; any other opens or closes a quotation. */
  method TakeQuote(line: array<char>, c: Cursor, ghost g: Reading) returns (c': Cursor, ghost g': Reading)
    requires MayScan(line[..], c, g) && c.state != Void && line[c.buff] == QUOTE
    modifies line
    ensures Consistent(line[..], c', g') && Follows(c, g, c', g') && g'.end == g.end - 1
    ensures c'.argv == c.argv && line[..c.argv[|g.args|]] == old(line[..c.argv[|g.args|]])
    ensures line[g.end..] == old(line[g.end..])
  {
    if line[c.buff - 1] == BACKSLASH {
      g' := DropBackslash(line, c, g);
      c' := c;
    } else {
      g' := DropQuote(line, c, g);
      c' := c.(state := if c.state == Word then Quote else Word);
    }
  }

  method ScanWord(line: array<char>, c: Cursor, ghost g: Reading) returns (c': Cursor, ghost g': Reading)
    requires MayScan(line[..], c, g) && c.state == Word
    modifies line
    ensures Consistent(line[..], c', g') && Outcome(c', g') == Outcome(c, g) && |g'.rest| < |g.rest|
    ensures c'.argv == c.argv && line[..c.argv[|g.args|]] == old(line[..c.argv[|g.args|]])
    ensures g'.end <= g.end && line[g.end..] == old(line[g.end..])
  {
    var b := c.buff;
    assert line[b] == g.rest[0];
    assert line[..][b + 1..g.end] == g.rest[1..];
    if line[b] == ' ' {
      g' := CloseToken(line, c, g);
      c' := c.(buff := b + 1, state := Void);
    } else if line[b] == QUOTE {
      c', g' := TakeQuote(line, c, g);
    } else if EndsCommand(line[b]) {
      g' := CloseToken(line, c, g);
      c' := c.(buff := b + 1, isNextCmd := true);
    } else {
      c', g' := c.(buff := b + 1), g.(tok := g.tok + [line[b]], rest := g.rest[1..]);
    }
    FollowsKeepsOutcome(old(line[..]), c, g, c', g');
  }

  /** Terminate the current token under the cursor. */
  method CloseToken(line: array<char>, c: Cursor, ghost g: Reading) returns (ghost g': Reading)
    requires MayScan(line[..], c, g) && c.state == Word
    modifies line
    ensures g' == Reading(g.args + [g.tok], "", g.rest[1..], g.end)
    ensures RestIs(line[..], c.buff + 1, g'.end, g'.rest) && ArgsStored(line[..], c.argv, g'.args, c.buff + 1)
    ensures line[..c.argv[|g.args|]] == old(line[..c.argv[|g.args|]])
    ensures line[g.end..] == old(line[g.end..])
  {
    ghost var s, b, start := line[..], c.buff, c.argv[|g.args|];
    assert s[b + 1..g.end] == g.rest[1..];
    line[c.buff] := NUL;
    g' := Reading(g.args + [g.tok], "", g.rest[1..], g.end);
    assert line[..start] == s[..start];
    ArgsKept(s, line[..], c.argv, g.args, start, c.argv, b + 1);
    assert line[..][start..start + |g.tok|] == g.tok;
    assert StoredAt(line[..], start, g.tok);
  }

  method ScanChar(line: array<char>, c: Cursor, ghost g: Reading) returns (c': Cursor, ghost g': Reading)
    requires MayScan(line[..], c, g)
    modifies line
    ensures Consistent(line[..], c', g') && Outcome(c', g') == Outcome(c, g) && |g'.rest| < |g.rest|
    ensures g'.end <= g.end && line[g.end..] == old(line[g.end..])
  {
    match c.state
    case Void => c', g' := ScanVoid(line, c, g);
    case Quote => c', g' := ScanQuote(line, c, g);
    case Word => c', g' := ScanWord(line, c, g);
  }

  // ----- commands -----

  /** The strings the argument vector points to. */
  function Strings(s: seq<char>, argv: seq<nat>): (r: seq<string>)
    ensures |r| == |argv| && forall k :: 0 <= k < |argv| ==> r[k] == CString(s, argv[k])
  {
    seq(|argv|, k requires 0 <= k < |argv| => CString(s, argv[k]))
  }

  lemma StringsAreArgs(s: seq<char>, argv: seq<nat>, args: seq<string>, low: nat)
    requires ArgsStored(s, argv, args, low)
    ensures Strings(s, argv)[..|args|] == args
  {
    forall k | 0 <= k < |args| ensures CString(s, argv[k]) == args[k] {
      CStringIs(s, argv[k], args[k]);
    }
  }

  /** An unterminated token runs to the end of the line. */
  lemma OpenTokenString(s: seq<char>, c: Cursor, g: Reading)
    requires Consistent(s, c, g) && !c.isNextCmd && c.state == Word
    ensures Strings(s, c.argv) == g.args + [g.tok + g.rest]
  {
    var start := c.argv[|g.args|];
    StringsAreArgs(s, c.argv, g.args, start);
    assert s[start..g.end] == g.tok + g.rest;
    CStringIs(s, start, g.tok + g.rest);
    var r := Strings(s, c.argv);
    assert r == r[..|g.args|] + [r[|g.args|]];
  }

  /** At the end of a command the vector points to the tokenizer's arguments. */
  lemma StringsAtEnd(s: seq<char>, c: Cursor, g: Reading)
    requires Consistent(s, c, g) && !MayScan(s, c, g)
    ensures Outcome(c, g).more == c.isNextCmd
    ensures c.isNextCmd ==> Outcome(c, g).rest == g.rest
    ensures Outcome(c, g).args == if c.state == Quote then [] else Strings(s, c.argv)
  {
    if c.isNextCmd || c.state == Void {
      StringsAreArgs(s, c.argv, g.args, c.buff);
      assert Strings(s, c.argv)[..|g.args|] == Strings(s, c.argv);
    } else if c.state == Word {
      OpenTokenString(s, c, g);
      assert g.rest == "" ==> g.tok + g.rest == g.tok;
    }
  }

  /** The `for` loop: scan one command. */
  method ScanCommand(line: array<char>, buff: nat, ghost rest: string, ghost end: nat)
    returns (c: Cursor, ghost g: Reading)
    requires RestIs(line[..], buff, end, rest)
    modifies line
    ensures Consistent(line[..], c, g) && !MayScan(line[..], c, g)
    ensures Outcome(c, g) == Scan(Void, [], "", rest)
    ensures g.end <= end && line[end..] == old(line[end..])
  {
    c, g := Cursor(buff, Void, [], false), Reading([], "", rest, end);
    while line[c.buff] != NUL && |c.argv| < TOKEN_MAX - 1 && !c.isNextCmd
      invariant Consistent(line[..], c, g)
      invariant Outcome(c, g) == Scan(Void, [], "", rest)
      invariant g.end <= end && line[end..] == old(line[end..])
      decreases |g.rest|
    {
      ghost var e := g.end;
      c, g := ScanChar(line, c, g);
      assert line[end..] == line[e..][end - e..];
    }
  }

  /** `tash_execute_cmdline`: `ran` lists the argument vectors handed to `tash_execute_cmd`. */
  method ExecuteCmdline(line: array<char>, ghost end: nat) returns (ran: seq<seq<string>>)
    requires end < line.Length && RestIs(line[..], 0, end, line[..end])
    modifies line
    ensures ran == Commands(old(line[..end]))
    ensures line[end..] == old(line[end..])
  {
    ran := [];
    ghost var text := line[..end];
    var buff: nat, isNextCmd := 0, true;
    ghost var rest: string, e: nat := text, end;
    while isNextCmd
      invariant RestIs(line[..], buff, e, rest) && e <= end && line[end..] == old(line[end..])
      invariant isNextCmd ==> ran + Commands(rest) == Commands(text)
      invariant !isNextCmd ==> ran == Commands(text)
      decreases isNextCmd, |rest|
    {
      ghost var before := e;
      var cursor;
      ghost var g;
      cursor, g := ScanCommand(line, buff, rest, e);
      StringsAtEnd(line[..], cursor, g);
      assert line[end..] == line[before..][end - before..];
      var argv := cursor.argv;
      if cursor.state == Quote {
        argv := [];
      }
      var now := [];
      if |argv| > 0 {
        now := [Strings(line[..], argv)];
      }
      Regroup(ran, now, if cursor.isNextCmd then Commands(g.rest) else []);
      ran := ran + now;
      buff, isNextCmd, rest, e := cursor.buff, cursor.isNextCmd, g.rest, g.end;
    }
  }
}
