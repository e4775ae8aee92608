/** Which argument lists a command line can express by quoting every argument. */
module TashQuoting {
  import opened Basics
  import opened TashTokenizer
  import opened TashWords

  /** Each quote of the argument with a backslash before it. */
  function Escaped(arg: string): string {
    if arg == "" then ""
    else (if arg[0] == QUOTE then [BACKSLASH, QUOTE] else [arg[0]]) + Escaped(arg[1..])
  }

  function Quoted(arg: string): string {
    [QUOTE] + Escaped(arg) + [QUOTE]
  }

  /** All arguments quoted, separated by spaces. */
  function Render(args: seq<string>): string {
    if args == [] then ""
    else if |args| == 1 then Quoted(args[0])
    else Quoted(args[0]) + [' '] + Render(args[1..])
  }

  /** Commands separated by semicolons. */
  function RenderAll(cmds: seq<seq<string>>): string {
    if cmds == [] then ""
    else if |cmds| == 1 then Render(cmds[0])
    else Render(cmds[0]) + [';'] + RenderAll(cmds[1..])
  }

  predicate Expressible(args: seq<string>) {
    1 <= |args| <= ARGS_MAX && forall a :: a in args ==> !EndsInBackslash(a)
  }

  // ----- one argument -----

  /** The text of an argument up to its closing quote adds exactly the argument to the token. */
  lemma {:induction false} ScanEscaped(args: seq<string>, tok: string, arg: string, after: string)
    requires |args| < ARGS_MAX && after != ""
    ensures Scan(Quote, args, tok, Escaped(arg) + after) == Scan(Quote, args, tok + arg, after)
    decreases |arg|
  {
    if arg == "" {
      assert Escaped(arg) + after == after && tok + arg == tok;
    } else {
      ScanEscapedChar(args, tok, arg, after);
      ScanEscaped(args, tok + [arg[0]], arg[1..], after);
      assert tok + [arg[0]] + arg[1..] == tok + arg;
    }
  }

  lemma EscapedFront(t: string, r: string)
    requires t != ""
    ensures t[0] == QUOTE ==> Escaped(t) + r == [BACKSLASH] + ([QUOTE] + (Escaped(t[1..]) + r))
    ensures t[0] != QUOTE ==> Escaped(t) + r == [t[0]] + (Escaped(t[1..]) + r)
  {
    var rest := Escaped(t[1..]);
    if t[0] == QUOTE {
      Regroup([BACKSLASH, QUOTE], rest, r);
      Regroup([BACKSLASH], [QUOTE], rest + r);
      assert [BACKSLASH] + [QUOTE] == [BACKSLASH, QUOTE];
    } else {
      Regroup([t[0]], rest, r);
    }
  }

  lemma ScanEscapedChar(args: seq<string>, tok: string, arg: string, after: string)
    requires |args| < ARGS_MAX && arg != ""
    ensures Scan(Quote, args, tok, Escaped(arg) + after) == Scan(Quote, args, tok + [arg[0]], Escaped(arg[1..]) + after)
  {
    var text := Escaped(arg[1..]) + after;
    EscapedFront(arg, after);
    if arg[0] == QUOTE {
      ScanChar(args, tok, BACKSLASH, [QUOTE] + text);
      ScanLiteralQuote(args, tok, text);
    } else {
      ScanChar(args, tok, arg[0], text);
    }
  }

  lemma ScanChar(args: seq<string>, tok: string, c: char, r: string)
    requires |args| < ARGS_MAX && c != QUOTE
    ensures Scan(Quote, args, tok, [c] + r) == Scan(Quote, args, tok + [c], r)
  {
    assert ([c] + r)[1..] == r;
  }

  lemma ScanLiteralQuote(args: seq<string>, tok: string, r: string)
    requires |args| < ARGS_MAX
    ensures Scan(Quote, args, tok + [BACKSLASH], [QUOTE] + r) == Scan(Quote, args, tok + [QUOTE], r)
  {
    assert ([QUOTE] + r)[1..] == r;
    assert Escape(tok + [BACKSLASH]) == tok + [QUOTE];
  }

  lemma ScanOpeningQuote(args: seq<string>, r: string)
    requires |args| <= ARGS_MAX
    ensures Scan(Void, args, "", [QUOTE] + r) == Scan(Quote, args, "", r)
  {
    assert ([QUOTE] + r)[1..] == r;
  }

  lemma ScanClosingQuote(args: seq<string>, tok: string, r: string)
    requires |args| < ARGS_MAX
    ensures Scan(Quote, args, tok, [QUOTE] + r) ==
      if EndsInBackslash(tok) then Scan(Quote, args, Escape(tok), r) else Scan(Word, args, tok, r)
  {
    assert ([QUOTE] + r)[1..] == r;
  }

  lemma ScanQuoted(args: seq<string>, arg: string, after: string)
    requires |args| < ARGS_MAX
    ensures Scan(Void, args, "", Quoted(arg) + after) ==
      if EndsInBackslash(arg) then Scan(Quote, args, Escape(arg), after) else Scan(Word, args, arg, after)
  {
    var text := Escaped(arg) + ([QUOTE] + after);
    assert Quoted(arg) + after == [QUOTE] + text;
    ScanOpeningQuote(args, text);
    ScanEscaped(args, "", arg, [QUOTE] + after);
    assert "" + arg == arg;
    ScanClosingQuote(args, arg, after);
  }

  // ----- one command -----

  lemma ScanLastArg(args: seq<string>, a: string, after: string)
    requires |args| < ARGS_MAX && !EndsInBackslash(a) && (after != "" ==> after[0] == ';')
    ensures Scan(Void, args, "", Quoted(a) + after) ==
      Command(args + [a], after != "", if after == "" then "" else after[1..])
  {
    ScanQuoted(args, a, after);
  }

  lemma ScanFirstArg(args: seq<string>, a: string, rest: string)
    requires |args| < ARGS_MAX && !EndsInBackslash(a)
    ensures Scan(Void, args, "", Quoted(a) + ([' '] + rest)) == Scan(Void, args + [a], "", rest)
  {
    ScanQuoted(args, a, [' '] + rest);
    ScanSpace(args, a, rest);
  }

  lemma Shift(args: seq<string>, more: seq<string>)
    requires more != []
    ensures args + [more[0]] + more[1..] == args + more
  {
  }

  /** What follows the first of several arguments. */
  lemma RenderFront(more: seq<string>, after: string)
    requires |more| > 1
    ensures Render(more) + after == Quoted(more[0]) + ([' '] + (Render(more[1..]) + after))
  {
    Regroup(Quoted(more[0]), [' '], Render(more[1..]));
    Regroup([' '], Render(more[1..]), after);
    Regroup(Quoted(more[0]), [' '] + Render(more[1..]), after);
  }

  lemma {:induction false} ScanRender(args: seq<string>, more: seq<string>, after: string)
    requires more != [] && |args| + |more| <= ARGS_MAX
    requires forall a :: a in more ==> !EndsInBackslash(a)
    requires after != "" ==> after[0] == ';'
    ensures Scan(Void, args, "", Render(more) + after) ==
      Command(args + more, after != "", if after == "" then "" else after[1..])
    decreases |more|
  {
    var a := more[0];
    if |more| == 1 {
      ScanLastArg(args, a, after);
      assert args + [a] == args + more;
    } else {
      var rest := Render(more[1..]) + after;
      RenderFront(more, after);
      ScanFirstArg(args, a, rest);
      ScanRender(args + [a], more[1..], after);
      Shift(args, more);
    }
  }

  lemma CommandsOfRender(c: seq<string>, after: string)
    requires Expressible(c) && (after != "" ==> after[0] == ';')
    ensures Commands(Render(c) + after) == [c] + (if after == "" then [] else Commands(after[1..]))
  {
    ScanRender([], c, after);
    assert [] + c == c;
  }

  /** Any list of commands with up to 30 arguments each, none ending in a backslash, comes back
      unchanged from the line that quotes them. */
  lemma {:induction false} RenderRoundTrip(cmds: seq<seq<string>>)
    requires forall c :: c in cmds ==> Expressible(c)
    ensures Commands(RenderAll(cmds)) == cmds
    decreases |cmds|
  {
    if |cmds| == 1 {
      Regroup(Render(cmds[0]), "", "");
      CommandsOfRender(cmds[0], "");
    } else if cmds != [] {
      var rest := RenderAll(cmds[1..]);
      Regroup(Render(cmds[0]), [';'], rest);
      CommandsOfRender(cmds[0], [';'] + rest);
      assert ([';'] + rest)[1..] == rest;
      RenderRoundTrip(cmds[1..]);
    }
  }

  // ----- the limits are exact -----

  /** Whatever follows, finished arguments stay, and so does a part of the current token that does
      not end in a backslash. */
  lemma {:induction false} ScanKeepsPrefix(mode: Mode, args: seq<string>, tok: string, rest: string, pre: string)
    requires mode != Void && pre <= tok && !EndsInBackslash(pre)
    ensures var c := Scan(mode, args, tok, rest);
      if c.args == [] then !c.more else |args| < |c.args| && args <= c.args && pre <= c.args[|args|]
    decreases |rest|
  {
    if rest != "" && Argc(mode, args) < TOKEN_MAX - 1 {
      var c, r := rest[0], rest[1..];
      if c == QUOTE {
        if EndsInBackslash(tok) {
          assert pre <= Escape(tok);
          ScanKeepsPrefix(mode, args, Escape(tok), r, pre);
        } else {
          ScanKeepsPrefix(if mode == Word then Quote else Word, args, tok, r, pre);
        }
      } else if mode == Quote || !(c == ' ' || EndsCommand(c)) {
        ScanKeepsPrefix(mode, args, tok + [c], r, pre);
      } else if c == ' ' {
        ScanKeepsArgs(args + [tok], r);
      }
    }
  }

  lemma {:induction false} ScanKeepsArgs(args: seq<string>, rest: string)
    requires args != []
    ensures var c := Scan(Void, args, "", rest); if c.args == [] then !c.more else args <= c.args
    decreases |rest|
  {
    if rest != "" && Argc(Void, args) < TOKEN_MAX - 1 {
      var c, r := rest[0], rest[1..];
      if c == ' ' {
        ScanKeepsArgs(args, r);
      } else if c == QUOTE {
        ScanKeepsPrefix(Quote, args, "", r, "");
      } else if c != '#' && !EndsCommand(c) {
        ScanKeepsPrefix(Word, args, [c], r, "");
      }
    }
  }

  lemma ScanTokenTooMany(args: seq<string>, more: seq<string>)
    requires |args| == ARGS_MAX && more != []
    ensures Scan(Void, args, "", Render(more)) == Command([], false, "")
  {
    var text := Render(more);
    assert text[0] == QUOTE && |text| >= 2;
    assert Scan(Quote, args, "", text[1..]) == Finish(Quote, args, "" + text[1..]);
  }

  lemma {:induction false} ScanRenderFails(args: seq<string>, more: seq<string>)
    requires more != [] && |args| <= ARGS_MAX
    requires |args| + |more| > ARGS_MAX || exists a :: a in more && EndsInBackslash(a)
    ensures var c := Scan(Void, args, "", Render(more));
      c.args != args + more && (c.args == [] ==> !c.more)
    decreases |more|
  {
    var a := more[0];
    if |args| == ARGS_MAX {
      ScanTokenTooMany(args, more);
    } else {
      var after := if |more| == 1 then "" else [' '] + Render(more[1..]);
      Regroup(Quoted(a), if |more| == 1 then "" else [' '], if |more| == 1 then "" else Render(more[1..]));
      assert Render(more) == Quoted(a) + after;
      if EndsInBackslash(a) {
        ScanQuoted(args, a, after);
        ScanKeepsPrefix(Quote, args, Escape(a), after, Escape(a));
        assert Escape(a)[|a| - 1] == QUOTE && (args + more)[|args|] == a;
      } else {
        ScanFirstArg(args, a, Render(more[1..]));
        ScanRenderFails(args + [a], more[1..]);
        Shift(args, more);
      }
    }
  }

  /** Quoting expresses an argument list exactly when it has 1 to 30 arguments, none of which ends
      in a backslash. */
  lemma RoundTripIff(args: seq<string>)
    ensures Commands(Render(args)) == [args] <==> Expressible(args)
  {
    if args != [] {
      if Expressible(args) {
        RenderRoundTrip([args]);
      } else {
        ScanRenderFails([], args);
        assert [] + args == args;
        var c, cs := Scan(Void, [], "", Render(args)), Commands(Render(args));
        assert if c.args == [] then cs == [] else |cs| > 0 && cs[0] == c.args;
      }
    }
  }
}
