/** Command names and the string comparisons of the C library that the registry relies on. */
module CommandNames {

  const NAME_MAX := 15

  /** A C string: bytes other than the terminator. */
  predicate IsCString(s: string) {
    forall i :: 0 <= i < |s| ==> 0 < s[i] as int < 256
  }

  predicate IsAscii(s: string) {
    forall i :: 0 <= i < |s| ==> 0 < s[i] as int < 128
  }

  /** The byte a C string shows at its front, terminator included. */
  function Front(s: string): int {
    if s == "" then 0 else s[0] as int
  }

  /** Conversion to `signed char`. */
  function Int8(x: int): int {
    (x + 128) % 256 - 128
  }

  /** `strcmp`, whose result is kept in a `signed char`. */
  function Strcmp(a: string, b: string): int
    requires IsCString(a) && IsCString(b)
    decreases |a|
  {
    var result := Int8(Front(a) - Front(b));
    if result != 0 || a == "" || b == "" then result else Strcmp(a[1..], b[1..])
  }

  /** `strncmp`. */
  function Strncmp(a: string, b: string, n: nat): int
    requires IsCString(a) && IsCString(b)
    decreases n
  {
    if n == 0 then 0
    else
      var result := Front(a) - Front(b);
      if result != 0 || a == "" || b == "" then result else Strncmp(a[1..], b[1..], n - 1)
  }

  function Take(s: string, n: nat): (r: string)
    ensures r <= s && |r| == if |s| <= n then |s| else n
  {
    if |s| <= n then s else s[..n]
  }

  /** What is stored and compared of a name. */
  function Key(s: string): string {
    Take(s, NAME_MAX)
  }

  lemma TakeFront(s: string, n: nat)
    requires n > 0 && s != ""
    ensures Take(s, n)[1..] == Take(s[1..], n - 1) && Take(s, n) == [s[0]] + Take(s[1..], n - 1)
  {
  }

  /** `strncmp` finds no difference exactly when the first `n` bytes agree. */
  lemma {:induction false} StrncmpZero(a: string, b: string, n: nat)
    requires IsCString(a) && IsCString(b)
    ensures Strncmp(a, b, n) == 0 <==> Take(a, n) == Take(b, n)
    decreases n
  {
    if n > 0 && a != "" && b != "" {
      StrncmpZero(a[1..], b[1..], n - 1);
      TakeFront(a, n);
      TakeFront(b, n);
    }
  }

  // ----- what the comparison says -----

  /** Byte `k` of a name, with its terminator. */
  function ByteAt(s: string, k: nat): int {
    if k < |s| then s[k] as int else 0
  }

  /** The names agree before `k` and differ there, the terminator included. */
  predicate DifferAt(a: string, b: string, k: nat) {
    && k <= |a| && k <= |b| && a[..k] == b[..k] && ByteAt(a, k) != ByteAt(b, k)
  }

  /** What is kept of a difference of two bytes: itself, or itself off by 256. */
  lemma Int8Is(x: int)
    requires -256 < x < 256
    ensures Int8(x) == if x < -128 then x + 256 else if x > 127 then x - 256 else x
  {
  }

  /** The comparison is decided by the first byte that differs, and by the difference as a `signed
      char`. */
  lemma {:induction false} StrcmpIs(a: string, b: string, k: nat)
    requires IsCString(a) && IsCString(b) && DifferAt(a, b, k)
    ensures var d := ByteAt(a, k) - ByteAt(b, k);
      Strcmp(a, b) == if d < -128 then d + 256 else if d > 127 then d - 256 else d
    decreases k
  {
    Int8Is(Front(a) - Front(b));
    if k > 0 {
      assert a[0] == a[..k][0] == b[..k][0] == b[0];
      assert a[1..][..k - 1] == a[..k][1..] && b[1..][..k - 1] == b[..k][1..];
      StrcmpIs(a[1..], b[1..], k - 1);
    }
  }

  /** Different names differ somewhere first. */
  lemma {:induction false} FirstDifference(a: string, b: string) returns (k: nat)
    requires IsCString(a) && IsCString(b) && a != b
    ensures DifferAt(a, b, k)
    decreases |a|
  {
    if a == "" || b == "" || a[0] != b[0] {
      k := 0;
    } else {
      assert a == [a[0]] + a[1..] && b == [b[0]] + b[1..];
      var j := FirstDifference(a[1..], b[1..]);
      k := j + 1;
      assert a[..k] == [a[0]] + a[1..][..j] && b[..k] == [b[0]] + b[1..][..j];
    }
  }

  /** The names agree before `k`, and there the first has the smaller byte. */
  predicate SmallerAt(a: string, b: string, k: nat) {
    k < |a| && k < |b| && a[..k] == b[..k] && a[k] < b[k]
  }

  /** The order of a dictionary: a name comes before its extensions, and before a name with a larger
      byte at the first difference. */
  ghost predicate Before(a: string, b: string) {
    (a != b && a <= b) || exists k: nat :: SmallerAt(a, b, k)
  }

  lemma AgreeBefore(a: string, b: string, k: nat, j: nat)
    requires DifferAt(a, b, k) && j < k
    ensures ByteAt(a, j) == ByteAt(b, j)
  {
    assert a[j] == a[..k][j] == b[..k][j] == b[j];
  }

  lemma OneDifference(a: string, b: string, k: nat, j: nat)
    requires DifferAt(a, b, k) && DifferAt(a, b, j)
    ensures j == k
  {
    if j < k { AgreeBefore(a, b, k, j); }
    if k < j { AgreeBefore(a, b, j, k); }
  }

  lemma PrefixDiffers(a: string, b: string, k: nat)
    requires DifferAt(a, b, k) && a <= b
    ensures k == |a|
  {
    assert b[..|a|] == a;
  }

  lemma BeforeIs(a: string, b: string, k: nat)
    requires IsCString(a) && IsCString(b) && DifferAt(a, b, k)
    ensures Before(a, b) <==> ByteAt(a, k) < ByteAt(b, k)
  {
    if a <= b { PrefixDiffers(a, b, k); }
    if j: nat :| SmallerAt(a, b, j) { OneDifference(a, b, k, j); }
    if ByteAt(a, k) < ByteAt(b, k) {
      if k == |a| {
        assert a[..k] == a;
      } else {
        assert SmallerAt(a, b, k);
      }
    }
  }

  /** On 7-bit names `strcmp` is the dictionary order. */
  lemma AsciiOrder(a: string, b: string)
    requires IsCString(a) && IsCString(b) && IsAscii(a) && IsAscii(b)
    ensures Strcmp(a, b) < 0 <==> Before(a, b)
  {
    if a == b {
      StrcmpDistinct(a, b);
    } else {
      var k := FirstDifference(a, b);
      StrcmpIs(a, b, k);
      BeforeIs(a, b, k);
    }
  }

  // ----- the order on names -----

  predicate Leq(a: string, b: string)
    requires IsCString(a) && IsCString(b)
  {
    !(Strcmp(b, a) < 0)
  }

  /** Not each of two names is below the other. */
  predicate OneWay(a: string, b: string)
    requires IsCString(a) && IsCString(b)
  {
    Strcmp(a, b) < 0 ==> Leq(a, b)
  }

  predicate Chains(a: string, b: string, c: string)
    requires IsCString(a) && IsCString(b) && IsCString(c)
  {
    Leq(a, b) && Leq(b, c) ==> Leq(a, c)
  }

  lemma AsciiOneWay(a: string, b: string)
    requires IsCString(a) && IsCString(b) && IsAscii(a) && IsAscii(b)
    ensures OneWay(a, b)
  {
    StrcmpSame(a);
    if a != b {
      var k := FirstDifference(a, b);
      StrcmpIs(a, b, k);
      StrcmpIs(b, a, k);
    }
  }

  lemma {:induction false} AsciiChains(a: string, b: string, c: string)
    requires IsCString(a) && IsCString(b) && IsCString(c) && IsAscii(a) && IsAscii(b) && IsAscii(c)
    ensures Chains(a, b, c)
    decreases |a|
  {
    if a != "" && b != "" && c != "" && a[0] == b[0] == c[0] {
      AsciiChains(a[1..], b[1..], c[1..]);
    }
  }

  lemma {:induction false} StrcmpSame(a: string)
    requires IsCString(a)
    ensures Strcmp(a, a) == 0
    decreases |a|
  {
    if a != "" { StrcmpSame(a[1..]); }
  }

  /** Different names compare differently, and not both as greater. */
  lemma StrcmpDistinct(a: string, b: string)
    requires IsCString(a) && IsCString(b)
    ensures Strcmp(a, b) == 0 <==> a == b
    ensures Strcmp(a, b) > 0 ==> Strcmp(b, a) < 0
  {
    StrcmpSame(a);
    if a != b {
      var k := FirstDifference(a, b);
      StrcmpIs(a, b, k);
      StrcmpIs(b, a, k);
    }
  }
}
