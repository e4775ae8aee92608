/** Which hashes start a comment, on lines with quotations, separators and several commands. */
module TashComments {
  import opened TashTokenizer

  /** An empty command runs nothing. */
  function RunOne(args: seq<string>): seq<seq<string>> {
    if args == [] then [] else [args]
  }

  /** What a line still runs when the scan has got as far as `rest`. */
  function CommandsFrom(mode: Mode, args: seq<string>, tok: string, rest: string): seq<seq<string>> {
    var c := Scan(mode, args, tok, rest);
    RunOne(c.args) + (if c.more then Commands(c.rest) else [])
  }

  lemma CommandsMoveOn(mode: Mode, args: seq<string>, tok: string, rest: string)
    requires rest != "" && Argc(mode, args) < TOKEN_MAX - 1
    ensures CommandsFrom(mode, args, tok, rest) ==
      match MoveOn(mode, args, tok, rest[0])
      case Go(m, a, t) => CommandsFrom(m, a, t, rest[1..])
      case End(a) => RunOne(a) + CommandsFrom(Void, [], "", rest[1..])
      case Comment => RunOne(args)
  {
  }

  lemma CommandsAtLimit(mode: Mode, args: seq<string>, tok: string, rest: string)
    requires Argc(mode, args) >= TOKEN_MAX - 1
    ensures CommandsFrom(mode, args, tok, rest) ==
      match mode
      case Void => RunOne(args)
      case Quote => []
      case Word => [args + [tok + rest]]
  {
    assert tok + "" == tok;
  }

  /** After `rest` a hash is dead text: the scan is then at the start of a token, behind an earlier
      comment, or in a quotation beyond the limit on tokens. */
  predicate HashIsDead(mode: Mode, args: seq<string>, tok: string, rest: string)
    decreases |rest|
  {
    if Argc(mode, args) >= TOKEN_MAX - 1 then mode != Word
    else if rest == "" then mode == Void
    else
      match MoveOn(mode, args, tok, rest[0])
      case Go(m, a, t) => HashIsDead(m, a, t, rest[1..])
      case End(a) => HashIsDead(Void, [], "", rest[1..])
      case Comment => true
  }

  lemma SplitFront(s: string, more: string)
    requires s != ""
    ensures (s + more)[0] == s[0] && (s + more)[1..] == s[1..] + more
  {
  }

  lemma {:induction false} DeadHash(mode: Mode, args: seq<string>, tok: string, rest: string, more: string)
    requires HashIsDead(mode, args, tok, rest) && more != "" && more[0] == '#'
    ensures CommandsFrom(mode, args, tok, rest + more) == CommandsFrom(mode, args, tok, rest)
    decreases |rest|
  {
    if Argc(mode, args) >= TOKEN_MAX - 1 {
      CommandsAtLimit(mode, args, tok, rest);
      CommandsAtLimit(mode, args, tok, rest + more);
    } else if rest == "" {
      assert rest + more == more;
      CommandsMoveOn(mode, args, tok, more);
    } else {
      SplitFront(rest, more);
      CommandsMoveOn(mode, args, tok, rest);
      CommandsMoveOn(mode, args, tok, rest + more);
      match MoveOn(mode, args, tok, rest[0])
      case Go(m, a, t) => DeadHash(m, a, t, rest[1..], more);
      case End(a) => DeadHash(Void, [], "", rest[1..], more);
      case Comment =>
    }
  }

  /** A hash and a quotation mark. */
  const HASH_QUOTE := ['#', QUOTE]

  lemma LiveAtEnd(mode: Mode, args: seq<string>, tok: string)
    requires mode != Void && Argc(mode, args) < TOKEN_MAX - 1
    ensures CommandsFrom(mode, args, tok, HASH_QUOTE) != CommandsFrom(mode, args, tok, "")
  {
    assert HASH_QUOTE[1..] == [QUOTE] && [QUOTE][1..] == "";
    CommandsMoveOn(mode, args, tok, HASH_QUOTE);
    CommandsMoveOn(mode, args, tok + ['#'], [QUOTE]);
  }

  lemma StillDiffers<T>(front: seq<T>, a: seq<T>, b: seq<T>)
    requires a != b
    ensures front + a != front + b
  {
    assert (front + a)[|front|..] == a && (front + b)[|front|..] == b;
  }

  lemma {:induction false} LiveHash(mode: Mode, args: seq<string>, tok: string, rest: string)
    requires !HashIsDead(mode, args, tok, rest)
    ensures CommandsFrom(mode, args, tok, rest + HASH_QUOTE) != CommandsFrom(mode, args, tok, rest)
    decreases |rest|
  {
    if Argc(mode, args) >= TOKEN_MAX - 1 {
      CommandsAtLimit(mode, args, tok, rest);
      CommandsAtLimit(mode, args, tok, rest + HASH_QUOTE);
      assert |tok + (rest + HASH_QUOTE)| != |tok + rest|;
      StillDiffers(args, [tok + (rest + HASH_QUOTE)], [tok + rest]);
    } else if rest == "" {
      assert rest + HASH_QUOTE == HASH_QUOTE;
      LiveAtEnd(mode, args, tok);
    } else {
      SplitFront(rest, HASH_QUOTE);
      CommandsMoveOn(mode, args, tok, rest);
      CommandsMoveOn(mode, args, tok, rest + HASH_QUOTE);
      match MoveOn(mode, args, tok, rest[0])
      case Go(m, a, t) => LiveHash(m, a, t, rest[1..]);
      case End(a) =>
        var r := rest[1..];
        LiveHash(Void, [], "", r);
        StillDiffers(RunOne(a), CommandsFrom(Void, [], "", r + HASH_QUOTE), CommandsFrom(Void, [], "", r));
    }
  }

  /** Whatever follows a hash at the end of `prefix`, the line runs what `prefix` alone runs. */
  ghost predicate StartsComment(prefix: string) {
    forall text: string :: Commands(prefix + (['#'] + text)) == Commands(prefix)
  }

  /** A hash starts a comment exactly where the scan of everything before it leaves it dead. */
  lemma StartsCommentIff(prefix: string)
    ensures StartsComment(prefix) <==> HashIsDead(Void, [], "", prefix)
  {
    if HashIsDead(Void, [], "", prefix) {
      forall text: string ensures Commands(prefix + (['#'] + text)) == Commands(prefix) {
        DeadHash(Void, [], "", prefix, ['#'] + text);
      }
    } else {
      LiveHash(Void, [], "", prefix);
      assert ['#'] + [QUOTE] == HASH_QUOTE;
      assert Commands(prefix + (['#'] + [QUOTE])) != Commands(prefix);
    }
  }
}
