/** Command lines of plain, unquoted words, and the limit on their number. */
module TashWords {
  import opened Basics
  import opened TashTokenizer

  const ARGS_MAX := TOKEN_MAX - 2

  /** Nothing in the word is special to the scanner; a backslash only matters before a quote. */
  predicate Plain(w: string) {
    w != "" && w[0] != '#' && forall i :: 0 <= i < |w| ==> w[i] != ' ' && w[i] != QUOTE && !EndsCommand(w[i])
  }

  predicate AllPlain(words: seq<string>) {
    forall i :: 0 <= i < |words| ==> Plain(words[i])
  }

  function Join(words: seq<string>): string {
    if words == [] then ""
    else if |words| == 1 then words[0]
    else words[0] + ([' '] + Join(words[1..]))
  }

  lemma {:induction false} JoinSplit(a: seq<string>, b: seq<string>)
    requires a != [] && b != []
    ensures Join(a + b) == Join(a) + ([' '] + Join(b))
    decreases |a|
  {
    assert (a + b)[1..] == a[1..] + b;
    if |a| > 1 {
      JoinSplit(a[1..], b);
      Regroup([' '], Join(a[1..]), [' '] + Join(b));
      Regroup(a[0], [' '] + Join(a[1..]), [' '] + Join(b));
    } else {
      assert a[1..] + b == b;
    }
  }

  // ----- one word -----

  lemma ScanPlainChar(args: seq<string>, tok: string, c: char, r: string)
    requires |args| < ARGS_MAX && c != ' ' && c != QUOTE && !EndsCommand(c)
    ensures Scan(Word, args, tok, [c] + r) == Scan(Word, args, tok + [c], r)
  {
    assert ([c] + r)[1..] == r;
  }

  lemma {:induction false} ScanPlainTail(args: seq<string>, tok: string, w: string, after: string)
    requires |args| < ARGS_MAX
    requires forall i :: 0 <= i < |w| ==> w[i] != ' ' && w[i] != QUOTE && !EndsCommand(w[i])
    ensures Scan(Word, args, tok, w + after) == Scan(Word, args, tok + w, after)
    decreases |w|
  {
    if w == "" {
      assert w + after == after && tok + w == tok;
    } else {
      assert w + after == [w[0]] + (w[1..] + after);
      ScanPlainChar(args, tok, w[0], w[1..] + after);
      ScanPlainTail(args, tok + [w[0]], w[1..], after);
      assert tok + [w[0]] + w[1..] == tok + w;
    }
  }

  lemma ScanPlainWord(args: seq<string>, w: string, after: string)
    requires |args| < ARGS_MAX && Plain(w)
    ensures Scan(Void, args, "", w + after) == Scan(Word, args, w, after)
  {
    assert (w + after)[1..] == w[1..] + after;
    ScanPlainTail(args, [w[0]], w[1..], after);
    assert [w[0]] + w[1..] == w;
  }

  // ----- a line -----

  lemma {:induction false} ScanWords(args: seq<string>, words: seq<string>, after: string)
    requires words != [] && AllPlain(words) && |args| + |words| <= ARGS_MAX
    ensures Scan(Void, args, "", Join(words) + ([' '] + after)) == Scan(Void, args + words, "", after)
    decreases |words|
  {
    var w := words[0];
    if |words| == 1 {
      ScanPlainWord(args, w, [' '] + after);
      ScanSpace(args, w, after);
      assert args + [w] == args + words;
    } else {
      var rest := Join(words[1..]) + ([' '] + after);
      Regroup([' '], Join(words[1..]), [' '] + after);
      Regroup(w, [' '] + Join(words[1..]), [' '] + after);
      ScanPlainWord(args, w, [' '] + rest);
      ScanSpace(args, w, rest);
      ScanWords(args + [w], words[1..], after);
      assert args + [w] + words[1..] == args + words;
    }
  }

  lemma ScanSpace(args: seq<string>, tok: string, r: string)
    requires |args| < ARGS_MAX
    ensures Scan(Word, args, tok, [' '] + r) == Scan(Void, args + [tok], "", r)
  {
    assert ([' '] + r)[1..] == r;
  }

  lemma ScanLastWord(args: seq<string>, w: string)
    requires |args| < ARGS_MAX && Plain(w)
    ensures Scan(Void, args, "", w) == Command(args + [w], false, "")
  {
    ScanPlainWord(args, w, "");
    assert w + "" == w;
  }

  /** The 31st token runs to the end of the line. */
  lemma ScanOverlong(args: seq<string>, text: string)
    requires |args| == ARGS_MAX && text != "" && Plain([text[0]])
    ensures Scan(Void, args, "", text) == Command(args + [text], false, "")
  {
    assert [text[0]] + text[1..] == text;
    if |text| == 1 {
      assert text == [text[0]];
    }
  }

  lemma JoinFront(words: seq<string>)
    requires words != [] && AllPlain(words)
    ensures Join(words) != "" && Plain([Join(words)[0]])
  {
    assert Join(words)[0] == words[0][0];
  }

  /** What the arguments of a line of plain words are: the words, up to 31 of them; of a longer line
      the last argument is everything from the 31st word on. */
  function ArgsOf(words: seq<string>): seq<string> {
    if |words| <= ARGS_MAX + 1 then words else words[..ARGS_MAX] + [Join(words[ARGS_MAX..])]
  }

  /** All words but the last are scanned as they are; the last is at least started. */
  lemma ScanUpTo(words: seq<string>, k: nat)
    requires AllPlain(words) && k < |words| && k <= ARGS_MAX
    ensures Scan(Void, [], "", Join(words)) == Scan(Void, words[..k], "", Join(words[k..]))
  {
    var a, b := words[..k], words[k..];
    assert words == a + b && [] + a == a;
    if k > 0 {
      JoinSplit(a, b);
      ScanWords([], a, Join(b));
    }
  }

  lemma ScanLine(words: seq<string>)
    requires words != [] && AllPlain(words)
    ensures Scan(Void, [], "", Join(words)) == Command(ArgsOf(words), false, "")
  {
    var k := if |words| <= ARGS_MAX then |words| - 1 else ARGS_MAX;
    ScanUpTo(words, k);
    if k < ARGS_MAX {
      ScanLastWord(words[..k], words[k]);
    } else {
      JoinFront(words[k..]);
      ScanOverlong(words[..k], Join(words[k..]));
    }
    if |words| == k + 1 { assert words[..k] + [words[k]] == words; }
  }

  /** A line of plain words runs one command with exactly these arguments. */
  lemma PlainLine(words: seq<string>)
    requires words != [] && AllPlain(words)
    ensures Commands(Join(words)) == [ArgsOf(words)]
  {
    ScanLine(words);
  }

  /** Text after a hash that starts a token is ignored, separators and quotes included. */
  lemma PlainLineWithComment(words: seq<string>, text: string)
    requires 1 <= |words| <= ARGS_MAX && AllPlain(words)
    ensures Commands(Join(words) + ([' '] + (['#'] + text))) == [words]
  {
    ScanWords([], words, ['#'] + text);
    assert [] + words == words;
    assert Scan(Void, words, "", ['#'] + text) == Finish(Void, words, "");
  }
}
