/** The command registry of TASH: an array that is searched, appended to and sorted in place. */
module CommandTable {
  import opened Basics
  import opened CommandNames

  datatype Cmd = Cmd(name: string, cb: nat, execType: int)

  datatype Entry = Entry(cb: nat, execType: int)

  predicate WellNamed(s: seq<Cmd>) {
    forall i :: 0 <= i < |s| ==> IsCString(s[i].name) && |s[i].name| <= NAME_MAX
  }

  predicate Distinct(s: seq<Cmd>) {
    forall i, j :: 0 <= i < j < |s| ==> s[i].name != s[j].name
  }

  predicate AllAscii(s: seq<Cmd>) {
    forall i :: 0 <= i < |s| ==> IsAscii(s[i].name)
  }

  /** Each element is in order with the one `gap` places before it, up to index `n`. */
  predicate GapSorted(s: seq<Cmd>, gap: nat, n: nat)
    requires WellNamed(s)
  {
    forall k :: gap <= k < n && k < |s| ==> Leq(s[k - gap].name, s[k].name)
  }

  predicate Sorted(s: seq<Cmd>)
    requires WellNamed(s)
  {
    forall i, j :: 0 <= i < j < |s| ==> Leq(s[i].name, s[j].name)
  }

  predicate OrderedAt(s: seq<Cmd>, i: nat, j: nat, k: nat)
    requires WellNamed(s) && i < |s| && j < |s| && k < |s|
  {
    OneWay(s[i].name, s[j].name) && Chains(s[i].name, s[j].name, s[k].name)
  }

  /** `strcmp` orders the names of the table: no two are each below the other, and the order is
      transitive on them. */
  ghost predicate TotalOn(s: seq<Cmd>)
    requires WellNamed(s)
  {
    forall i: nat, j: nat, k: nat :: i < |s| && j < |s| && k < |s| ==> OrderedAt(s, i, j, k)
  }

  lemma {:induction false} NeighboursSort(s: seq<Cmd>, i: nat, j: nat)
    requires WellNamed(s) && TotalOn(s) && GapSorted(s, 1, |s|) && i < j < |s|
    ensures Leq(s[i].name, s[j].name)
    decreases j
  {
    assert Leq(s[j - 1].name, s[j].name);
    if i < j - 1 {
      NeighboursSort(s, i, j - 1);
      assert OrderedAt(s, i, j - 1, j);
    }
  }

  /** In a sorted table of distinct names, the order of two names is the order of their places. */
  lemma SortedPlaces(s: seq<Cmd>, i: nat, j: nat)
    requires WellNamed(s) && Distinct(s) && Sorted(s) && i < |s| && j < |s|
    ensures Leq(s[i].name, s[j].name) <==> i <= j
    ensures Strcmp(s[i].name, s[j].name) < 0 ==> i < j
  {
    StrcmpDistinct(s[i].name, s[j].name);
    StrcmpDistinct(s[j].name, s[i].name);
    if j < i { assert Leq(s[j].name, s[i].name) && s[j].name != s[i].name; }
    if i < j { assert Leq(s[i].name, s[j].name) && s[i].name != s[j].name; }
  }

  /** Only names that `strcmp` orders can be sorted. */
  lemma SortedIsTotal(s: seq<Cmd>)
    requires WellNamed(s) && Distinct(s) && Sorted(s)
    ensures TotalOn(s)
  {
    forall i: nat, j: nat, k: nat | i < |s| && j < |s| && k < |s| ensures OrderedAt(s, i, j, k) {
      SortedPlaces(s, i, j);
      SortedPlaces(s, j, k);
      SortedPlaces(s, i, k);
    }
  }

  lemma AsciiIsTotal(s: seq<Cmd>)
    requires WellNamed(s) && AllAscii(s)
    ensures TotalOn(s)
  {
    forall i: nat, j: nat, k: nat | i < |s| && j < |s| && k < |s| ensures OrderedAt(s, i, j, k) {
      AsciiOneWay(s[i].name, s[j].name);
      AsciiChains(s[i].name, s[j].name, s[k].name);
    }
  }

  /** No name comes before one that stands in front of it. */
  ghost predicate InDictionaryOrder(s: seq<Cmd>) {
    forall i, j :: 0 <= i < j < |s| ==> !Before(s[j].name, s[i].name)
  }

  /** For 7-bit names sorted means dictionary order. */
  lemma SortedIsDictionary(s: seq<Cmd>)
    requires WellNamed(s) && AllAscii(s)
    ensures Sorted(s) <==> InDictionaryOrder(s)
  {
    forall i, j | 0 <= i < j < |s| ensures Leq(s[i].name, s[j].name) <==> !Before(s[j].name, s[i].name) {
      AsciiOrder(s[j].name, s[i].name);
    }
  }

  // ----- the registry as a map -----

  function Entries(s: seq<Cmd>): map<string, Entry>
    decreases |s|
  {
    if s == [] then map[]
    else
      var c := s[|s| - 1];
      Entries(s[..|s| - 1])[c.name := Entry(c.cb, c.execType)]
  }

  lemma {:induction false} EntriesAt(s: seq<Cmd>, i: nat)
    requires Distinct(s) && i < |s|
    ensures s[i].name in Entries(s) && Entries(s)[s[i].name] == Entry(s[i].cb, s[i].execType)
    decreases |s|
  {
    if i < |s| - 1 { EntriesAt(s[..|s| - 1], i); }
  }

  lemma {:induction false} EntriesFrom(s: seq<Cmd>, name: string) returns (i: nat)
    requires name in Entries(s)
    ensures i < |s| && s[i].name == name
    decreases |s|
  {
    i := |s| - 1;
    if s[i].name != name { i := EntriesFrom(s[..i], name); }
  }

  lemma {:induction false} EntriesCount(s: seq<Cmd>)
    requires Distinct(s)
    ensures |Entries(s)| == |s|
    decreases |s|
  {
    if s != [] {
      var most, c := s[..|s| - 1], s[|s| - 1];
      EntriesCount(most);
      if c.name in Entries(most) {
        var i := EntriesFrom(most, c.name);
      }
      assert Entries(s).Keys == Entries(most).Keys + {c.name};
    }
  }

  // ----- permutations -----

  predicate Permutes(s: seq<Cmd>, t: seq<Cmd>) {
    multiset(s) == multiset(t)
  }

  lemma PermutesTrans(a: seq<Cmd>, b: seq<Cmd>, c: seq<Cmd>)
    requires Permutes(a, b) && Permutes(b, c)
    ensures Permutes(a, c)
  {
  }

  lemma PermutedElement(s: seq<Cmd>, t: seq<Cmd>, i: nat) returns (j: nat)
    requires Permutes(s, t) && i < |s|
    ensures j < |t| && t[j] == s[i]
  {
    assert s[i] in multiset(s);
    assert s[i] in multiset(t);
    assert s[i] in t;
    j :| 0 <= j < |t| && t[j] == s[i];
  }

  lemma PermutesKeepsNames(s: seq<Cmd>, t: seq<Cmd>)
    requires Permutes(s, t)
    ensures WellNamed(s) ==> WellNamed(t)
  {
    forall i | 0 <= i < |t| ensures t[i] in s {
      var j := PermutedElement(t, s, i);
    }
  }

  lemma PermutesKeepsAscii(s: seq<Cmd>, t: seq<Cmd>)
    requires Permutes(s, t) && AllAscii(s)
    ensures AllAscii(t)
  {
    forall i | 0 <= i < |t| ensures IsAscii(t[i].name) {
      var j := PermutedElement(t, s, i);
    }
  }

  lemma PermutesKeepsTotal(s: seq<Cmd>, t: seq<Cmd>)
    requires Permutes(s, t) && WellNamed(s) && WellNamed(t) && TotalOn(s)
    ensures TotalOn(t)
  {
    forall i: nat, j: nat, k: nat | i < |t| && j < |t| && k < |t| ensures OrderedAt(t, i, j, k) {
      var a := PermutedElement(t, s, i);
      var b := PermutedElement(t, s, j);
      var c := PermutedElement(t, s, k);
      assert OrderedAt(s, a, b, c);
    }
  }

  lemma SingleOccurrence(s: seq<Cmd>, i: nat, j: nat)
    requires i < j < |s| && s[i] == s[j]
    ensures multiset(s)[s[i]] >= 2
  {
    assert s == s[..j] + [s[j]] + s[j + 1..];
    assert multiset(s) == multiset(s[..j]) + multiset{s[j]} + multiset(s[j + 1..]);
    assert s[..j][i] in multiset(s[..j]);
  }

  lemma {:induction false} DistinctOnce(s: seq<Cmd>, c: Cmd)
    requires Distinct(s)
    ensures multiset(s)[c] <= 1
    decreases |s|
  {
    if s != [] {
      var k := |s| - 1;
      assert s == s[..k] + [s[k]];
      DistinctOnce(s[..k], c);
      assert s[k] == c ==> c !in s[..k];
    }
  }

  lemma PermutesKeepsDistinct(s: seq<Cmd>, t: seq<Cmd>)
    requires Permutes(s, t) && Distinct(s)
    ensures Distinct(t)
  {
    forall i, j | 0 <= i < j < |t| ensures t[i].name != t[j].name {
      if t[i] == t[j] {
        SingleOccurrence(t, i, j);
        DistinctOnce(s, t[i]);
      } else {
        var a := PermutedElement(t, s, i);
        var b := PermutedElement(t, s, j);
        if a < b { assert s[a].name != s[b].name; } else { assert s[b].name != s[a].name; }
      }
    }
  }

  lemma EntriesIncluded(s: seq<Cmd>, t: seq<Cmd>, name: string)
    requires Permutes(s, t) && Distinct(s) && Distinct(t) && name in Entries(s)
    ensures name in Entries(t) && Entries(t)[name] == Entries(s)[name]
  {
    var i := EntriesFrom(s, name);
    var j := PermutedElement(s, t, i);
    EntriesAt(s, i);
    EntriesAt(t, j);
  }

  /** Reordering commands with distinct names does not change what any name stands for. */
  lemma PermutesKeepsEntries(s: seq<Cmd>, t: seq<Cmd>)
    requires Permutes(s, t) && Distinct(s)
    ensures Distinct(t) && Entries(t) == Entries(s)
  {
    PermutesKeepsDistinct(s, t);
    forall n | n in Entries(s) ensures n in Entries(t) && Entries(t)[n] == Entries(s)[n] { EntriesIncluded(s, t, n); }
    forall n | n in Entries(t) ensures n in Entries(s) { EntriesIncluded(t, s, n); }
  }

  // ----- insertion with a gap -----

  function Swap(s: seq<Cmd>, i: nat, j: nat): (r: seq<Cmd>)
    requires i < |s| && j < |s|
    ensures |r| == |s|
  {
    s[i := s[j]][j := s[i]]
  }

  lemma SwapPermutes(s: seq<Cmd>, i: nat, j: nat)
    requires i < j < |s|
    ensures Permutes(Swap(s, i, j), s)
  {
    var t := Swap(s, i, j);
    var a, b, c := s[..i], s[i + 1..j], s[j + 1..];
    FivePieces(a, s[i], b, s[j], c, s);
    FivePieces(a, s[j], b, s[i], c, t);
  }

  lemma FivePieces(a: seq<Cmd>, x: Cmd, b: seq<Cmd>, y: Cmd, c: seq<Cmd>, whole: seq<Cmd>)
    requires whole == a + [x] + b + [y] + c
    ensures multiset(whole) == multiset(a) + multiset(b) + multiset(c) + multiset{x} + multiset{y}
  {
    assert multiset(a + [x] + b + [y] + c) == multiset(a + [x] + b + [y]) + multiset(c);
    assert multiset(a + [x] + b + [y]) == multiset(a + [x] + b) + multiset([y]);
    assert multiset(a + [x] + b) == multiset(a + [x]) + multiset(b);
    assert multiset(a + [x]) == multiset(a) + multiset([x]);
    assert multiset([x]) == multiset{x} && multiset([y]) == multiset{y};
  }

  /** In order up to index `i`, except that the element at `j` is still on its way down. */
  predicate SortedBut(s: seq<Cmd>, gap: nat, i: nat, j: nat)
    requires WellNamed(s)
  {
    && (forall k :: gap <= k <= i && k < |s| && k != j ==> Leq(s[k - gap].name, s[k].name))
    && (gap <= j && j + gap <= i < |s| ==> Leq(s[j - gap].name, s[j + gap].name))
  }

  lemma SwapDown(s: seq<Cmd>, gap: nat, i: nat, j: nat)
    requires WellNamed(s) && TotalOn(s) && 0 < gap <= j <= i < |s| && SortedBut(s, gap, i, j)
    requires Strcmp(s[j].name, s[j - gap].name) < 0
    ensures WellNamed(Swap(s, j - gap, j)) && SortedBut(Swap(s, j - gap, j), gap, i, j - gap)
  {
    var t := Swap(s, j - gap, j);
    assert OrderedAt(s, j, j - gap, j);
    forall k | gap <= k <= i && k != j - gap ensures Leq(t[k - gap].name, t[k].name) {
    }
  }

  /** The element at `j` moved down in steps of `gap` until it is in order. */
  function Sift(s: seq<Cmd>, gap: nat, j: nat): (r: seq<Cmd>)
    requires WellNamed(s) && 0 < gap && j < |s|
    ensures |r| == |s|
    decreases j
  {
    if j >= gap && Strcmp(s[j].name, s[j - gap].name) < 0 then Sift(Swap(s, j - gap, j), gap, j - gap) else s
  }

  lemma SiftDown(s: seq<Cmd>, gap: nat, j: nat)
    requires WellNamed(s) && 0 < gap <= j < |s| && Strcmp(s[j].name, s[j - gap].name) < 0
    ensures var t := Swap(s, j - gap, j);
      && |t| == |s| && t[j - gap] == s[j] && t[j] == s[j - gap]
      && (forall k :: 0 <= k < |s| && k != j && k != j - gap ==> t[k] == s[k])
      && WellNamed(t) && Sift(t, gap, j - gap) == Sift(s, gap, j)
  {
  }

  lemma SiftOnce(s: seq<Cmd>, gap: nat, j: nat) returns (t: seq<Cmd>)
    requires WellNamed(s) && 0 < gap <= j < |s| && Strcmp(s[j].name, s[j - gap].name) < 0
    ensures |t| == |s| && WellNamed(t) && Permutes(t, s) && Sift(t, gap, j - gap) == Sift(s, gap, j)
  {
    t := Swap(s, j - gap, j);
    SwapPermutes(s, j - gap, j);
    SiftDown(s, gap, j);
  }

  lemma {:induction false} SiftShuffles(s: seq<Cmd>, gap: nat, j: nat)
    requires WellNamed(s) && 0 < gap && j < |s|
    ensures Permutes(Sift(s, gap, j), s)
    decreases j
  {
    if j >= gap && Strcmp(s[j].name, s[j - gap].name) < 0 {
      var t := SiftOnce(s, gap, j);
      SiftShuffles(t, gap, j - gap);
      PermutesTrans(Sift(t, gap, j - gap), t, s);
    }
  }

  lemma SiftPermutes(s: seq<Cmd>, gap: nat, j: nat)
    requires WellNamed(s) && 0 < gap && j < |s|
    ensures Permutes(Sift(s, gap, j), s) && WellNamed(Sift(s, gap, j))
  {
    SiftShuffles(s, gap, j);
    PermutesKeepsNames(s, Sift(s, gap, j));
  }

  lemma InPlace(s: seq<Cmd>, gap: nat, i: nat, j: nat)
    requires WellNamed(s) && 0 < gap && j <= i < |s| && SortedBut(s, gap, i, j)
    requires j >= gap ==> Leq(s[j - gap].name, s[j].name)
    ensures GapSorted(s, gap, i + 1)
  {
  }

  lemma SwapStep(s: seq<Cmd>, gap: nat, i: nat, j: nat)
    requires WellNamed(s) && TotalOn(s) && 0 < gap <= j <= i < |s| && SortedBut(s, gap, i, j)
    requires Strcmp(s[j].name, s[j - gap].name) < 0
    ensures var t := Swap(s, j - gap, j); WellNamed(t) && TotalOn(t) && SortedBut(t, gap, i, j - gap)
  {
    SwapDown(s, gap, i, j);
    SwapPermutes(s, j - gap, j);
    PermutesKeepsTotal(s, Swap(s, j - gap, j));
  }

  lemma {:induction false} SiftSorts(s: seq<Cmd>, gap: nat, i: nat, j: nat)
    requires WellNamed(s) && TotalOn(s) && 0 < gap && j <= i < |s| && SortedBut(s, gap, i, j)
    ensures WellNamed(Sift(s, gap, j)) && GapSorted(Sift(s, gap, j), gap, i + 1)
    decreases j
  {
    if j >= gap && Strcmp(s[j].name, s[j - gap].name) < 0 {
      SwapStep(s, gap, i, j);
      SiftSorts(Swap(s, j - gap, j), gap, i, j - gap);
    } else {
      InPlace(s, gap, i, j);
    }
  }

  /** One pass: every element from index `i` on is sifted. */
  function Pass(s: seq<Cmd>, gap: nat, i: nat): (r: seq<Cmd>)
    requires WellNamed(s) && 0 < gap
    ensures |r| == |s|
    decreases |s| - i
  {
    if i >= |s| then s else SiftPermutes(s, gap, i); Pass(Sift(s, gap, i), gap, i + 1)
  }

  lemma {:induction false} PassPermutes(s: seq<Cmd>, gap: nat, i: nat)
    requires WellNamed(s) && 0 < gap
    ensures Permutes(Pass(s, gap, i), s) && WellNamed(Pass(s, gap, i))
    decreases |s| - i
  {
    if i < |s| {
      SiftPermutes(s, gap, i);
      PassPermutes(Sift(s, gap, i), gap, i + 1);
      PermutesTrans(Pass(s, gap, i), Sift(s, gap, i), s);
    }
  }

  lemma {:induction false} PassSorts(s: seq<Cmd>, gap: nat, i: nat)
    requires WellNamed(s) && TotalOn(s) && 0 < gap <= i && GapSorted(s, gap, i)
    ensures WellNamed(Pass(s, gap, i)) && GapSorted(Pass(s, gap, i), gap, |s|)
    decreases |s| - i
  {
    if i < |s| {
      SiftPermutes(s, gap, i);
      PermutesKeepsTotal(s, Sift(s, gap, i));
      SiftSorts(s, gap, i, i);
      PassSorts(Sift(s, gap, i), gap, i + 1);
    }
  }

  // ----- the table -----

  class Table {
    const cmd: array<Cmd>
    var count: nat
    var isSortedList: bool

    ghost predicate Valid()
      reads this, cmd
    {
      && count <= cmd.Length
      && WellNamed(cmd[..count])
      && Distinct(cmd[..count])
      && (isSortedList && TotalOn(cmd[..count]) ==> Sorted(cmd[..count]))
    }

    ghost function View(): map<string, Entry>
      requires count <= cmd.Length
      reads this, cmd
    {
      Entries(cmd[..count])
    }

    constructor (maxCommands: nat, blank: Cmd)
      ensures Valid() && View() == map[] && count == 0 && cmd.Length == maxCommands && fresh(cmd)
    {
      cmd := new Cmd[maxCommands](_ => blank);
      count, isSortedList := 0, false;
    }

    /** The search loop shared by installing and executing. */
    method Find(str: string) returns (idx: nat)
      requires Valid() && IsCString(str)
      ensures idx <= count
      ensures idx < count ==> cmd[idx].name == Key(str)
      ensures idx < count <==> Key(str) in View()
      ensures idx < count ==> View()[Key(str)] == Entry(cmd[idx].cb, cmd[idx].execType)
    {
      ghost var s := cmd[..count];
      idx := 0;
      while idx < count
        invariant idx <= count
        invariant forall i :: 0 <= i < idx ==> s[i].name != Key(str)
      {
        StrncmpZero(str, cmd[idx].name, NAME_MAX);
        assert s[idx] == cmd[idx];
        if Strncmp(str, cmd[idx].name, NAME_MAX) == 0 {
          EntriesAt(s, idx);
          return;
        }
        idx := idx + 1;
      }
      if Key(str) in Entries(s) {
        ghost var i := EntriesFrom(s, Key(str));
      }
    }

    /** The lookup of `tash_execute_cmd`: what the name stands for, if it is registered. */
    method Lookup(str: string) returns (r: Option<Entry>)
      requires Valid() && IsCString(str)
      ensures r == if Key(str) in View() then Some(View()[Key(str)]) else None
    {
      var idx := Find(str);
      r := if idx < count then Some(Entry(cmd[idx].cb, cmd[idx].execType)) else None;
    }

    /** `tash_cmd_install`. */
    method Install(str: string, cb: nat, execType: int) returns (ret: int)
      requires Valid() && IsCString(str)
      modifies this, cmd
      ensures Valid() && |View()| == count
      ensures ret == if |old(View())| == cmd.Length then -1 else if Key(str) in old(View()) then -2 else 0
      ensures View() == if ret == 0 then old(View())[Key(str) := Entry(cb, execType)] else old(View())
    {
      EntriesCount(cmd[..count]);
      if cmd.Length == count {
        return -1;
      }
      var idx := Find(str);
      if idx < count {
        return -2;
      }
      ghost var s := cmd[..count];
      forall i | 0 <= i < |s| ensures s[i].name != Key(str) {
        EntriesAt(s, i);
      }
      cmd[count] := Cmd(Key(str), cb, execType);
      count := count + 1;
      isSortedList := false;
      assert cmd[..count] == s + [Cmd(Key(str), cb, execType)];
      assert cmd[..count][..|s|] == s;
      EntriesCount(cmd[..count]);
      return 0;
    }

    /** The body of the `i` loop in `tash_sort_cmds`: shift larger elements up in steps of `gap`,
        then put the saved element into the hole. */
    method InsertOne(i: nat, gap: nat)
      requires 0 < gap <= i < count <= cmd.Length && WellNamed(cmd[..count])
      modifies cmd
      ensures cmd[..count] == Sift(old(cmd[..count]), gap, i) && cmd[count..] == old(cmd[count..])
    {
      ghost var v := cmd[..count];
      var temp := cmd[i];
      assert temp == v[i] && v[i := temp] == v;
      var j: nat := i;
      while j >= gap && Strcmp(temp.name, cmd[j - gap].name) < 0
        invariant j <= i && |v| == count && v[j] == temp && WellNamed(v)
        invariant forall k :: 0 <= k < count && k != j ==> cmd[k] == v[k]
        invariant Sift(v, gap, j) == Sift(old(cmd[..count]), gap, i)
        invariant cmd[count..] == old(cmd[count..])
      {
        SiftDown(v, gap, j);
        v := Swap(v, j - gap, j);
        cmd[j] := cmd[j - gap];
        j := j - gap;
      }
      cmd[j] := temp;
      assert cmd[..count] == v;
    }

    /** The `i` loop of `tash_sort_cmds`. */
    method GapPass(gap: nat)
      requires 0 < gap && count <= cmd.Length && WellNamed(cmd[..count])
      modifies cmd
      ensures cmd[..count] == Pass(old(cmd[..count]), gap, gap) && cmd[count..] == old(cmd[count..])
    {
      var i := gap;
      while i < count
        invariant gap <= i && WellNamed(cmd[..count])
        invariant Pass(cmd[..count], gap, i) == Pass(old(cmd[..count]), gap, gap)
        invariant cmd[count..] == old(cmd[count..])
      {
        SiftPermutes(cmd[..count], gap, i);
        InsertOne(i, gap);
        i := i + 1;
      }
    }

    /** `tash_sort_cmds`: passes with a shrinking gap; the last one has gap 1.  A table of distinct
        names comes out sorted exactly when `strcmp` orders its names. */
    method SortCmds()
      requires count <= cmd.Length && WellNamed(cmd[..count])
      modifies cmd
      ensures Permutes(cmd[..count], old(cmd[..count])) && WellNamed(cmd[..count])
      ensures TotalOn(old(cmd[..count])) ==> Sorted(cmd[..count])
      ensures Distinct(old(cmd[..count])) ==> (Sorted(cmd[..count]) <==> TotalOn(old(cmd[..count])))
      ensures AllAscii(old(cmd[..count])) ==> InDictionaryOrder(cmd[..count])
      ensures cmd[count..] == old(cmd[count..])
    {
      ghost var s0 := cmd[..count];
      ghost var total := TotalOn(s0);
      RunPasses(total);
      if total {
        forall i, j | 0 <= i < j < count ensures Leq(cmd[..count][i].name, cmd[..count][j].name) {
          NeighboursSort(cmd[..count], i, j);
        }
      }
      if Distinct(s0) && Sorted(cmd[..count]) {
        PermutesKeepsDistinct(s0, cmd[..count]);
        SortedIsTotal(cmd[..count]);
        PermutesKeepsTotal(cmd[..count], s0);
      }
      if AllAscii(s0) {
        AsciiIsTotal(s0);
        PermutesKeepsAscii(s0, cmd[..count]);
        SortedIsDictionary(cmd[..count]);
      }
    }

    /** The `gap` loop of `tash_sort_cmds`. */
    method RunPasses(ghost total: bool)
      requires count <= cmd.Length && WellNamed(cmd[..count]) && (total ==> TotalOn(cmd[..count]))
      modifies cmd
      ensures Permutes(cmd[..count], old(cmd[..count])) && WellNamed(cmd[..count])
      ensures total ==> TotalOn(cmd[..count]) && GapSorted(cmd[..count], 1, count)
      ensures cmd[count..] == old(cmd[count..])
    {
      var gap := count;
      while gap > 1
        invariant Permutes(cmd[..count], old(cmd[..count])) && WellNamed(cmd[..count])
        invariant total ==> TotalOn(cmd[..count])
        invariant gap == 0 ==> count == 0
        invariant total && gap == 1 ==> GapSorted(cmd[..count], 1, count)
        invariant cmd[count..] == old(cmd[count..])
      {
        gap := if gap * 5 / 11 > 1 then gap * 5 / 11 else 1;
        ghost var s := cmd[..count];
        PassPermutes(s, gap, gap);
        if total {
          PermutesKeepsTotal(s, Pass(s, gap, gap));
          PassSorts(s, gap, gap);
        }
        GapPass(gap);
      }
    }

    /** The sorting half of `tash_help`: afterwards the table is sorted, if its names can be, and no
        name changed its meaning. */
    method SortForHelp()
      requires Valid()
      modifies this`isSortedList, cmd
      ensures Valid() && isSortedList && count == old(count)
      ensures View() == old(View())
      ensures Sorted(cmd[..count]) <==> TotalOn(cmd[..count])
      ensures AllAscii(cmd[..count]) ==> InDictionaryOrder(cmd[..count])
    {
      if !isSortedList {
        ghost var s := cmd[..count];
        SortCmds();
        PermutesKeepsEntries(s, cmd[..count]);
        if TotalOn(cmd[..count]) { PermutesKeepsTotal(cmd[..count], s); }
        isSortedList := true;
      }
      if Sorted(cmd[..count]) { SortedIsTotal(cmd[..count]); }
      if AllAscii(cmd[..count]) {
        AsciiIsTotal(cmd[..count]);
        SortedIsDictionary(cmd[..count]);
      }
    }
  }

  // ----- tables that cannot be sorted -----

  /** Commands with these one-byte names. */
  function Named(bytes: seq<char>): seq<Cmd> {
    seq(|bytes|, i requires 0 <= i < |bytes| => Cmd([bytes[i]], i, 0))
  }

  lemma NotTotalNeverSorted(s: seq<Cmd>, t: seq<Cmd>)
    requires WellNamed(s) && Distinct(s) && !TotalOn(s) && Permutes(s, t)
    ensures WellNamed(t) && !Sorted(t)
  {
    PermutesKeepsNames(s, t);
    PermutesKeepsDistinct(s, t);
    if Sorted(t) {
      SortedIsTotal(t);
      PermutesKeepsTotal(t, s);
    }
  }

  /** The narrow result of `strcmp` wraps: names 0x81 and 0x01 are each below the other, so a table
      of the two is in order in neither arrangement. */
  lemma MutualPairCannotBeSorted(t: seq<Cmd>)
    requires Permutes(Named([0x81 as char, 0x01 as char]), t)
    ensures WellNamed(t) && !Sorted(t)
  {
    var s := Named([0x81 as char, 0x01 as char]);
    assert WellNamed(s) && Distinct(s);
    assert !OrderedAt(s, 0, 1, 1);
    NotTotalNeverSorted(s, t);
  }

  /** Of the names 0x01, 0x64 and 0xc8 no two are each below the other, but each is below the next
      around a cycle. */
  lemma CycleCannotBeSorted(t: seq<Cmd>)
    requires Permutes(Named([0x01 as char, 0x64 as char, 0xc8 as char]), t)
    ensures WellNamed(t) && !Sorted(t)
    ensures forall i, j :: 0 <= i < |t| && 0 <= j < |t| ==> OneWay(t[i].name, t[j].name)
  {
    var s := Named([0x01 as char, 0x64 as char, 0xc8 as char]);
    assert WellNamed(s) && Distinct(s);
    assert !OrderedAt(s, 0, 1, 2);
    NotTotalNeverSorted(s, t);
    forall i, j | 0 <= i < |t| && 0 <= j < |t| ensures OneWay(t[i].name, t[j].name) {
      var a := PermutedElement(t, s, i);
      var b := PermutedElement(t, s, j);
      OneWayInCycle(s[a].name[0], s[b].name[0]);
      assert s[a].name == [s[a].name[0]] && s[b].name == [s[b].name[0]];
    }
  }

  lemma OneWayInCycle(x: char, y: char)
    requires x in [0x01 as char, 0x64 as char, 0xc8 as char] && y in [0x01 as char, 0x64 as char, 0xc8 as char]
    ensures OneWay([x], [y])
  {
  }

  /** Bytes above 7 bits are no obstacle by themselves. */
  lemma WideNamesCanBeSorted()
    ensures var s := Named([0x85 as char, 0x90 as char]); WellNamed(s) && Sorted(s) && TotalOn(s)
  {
    var s := Named([0x85 as char, 0x90 as char]);
    assert WellNamed(s) && Distinct(s) && Sorted(s);
    SortedIsTotal(s);
  }

  /** Whatever is installed and however often the table is sorted, a registered name keeps its meaning. */
  method AnyRun(table: Table, steps: nat)
    requires table.Valid()
    modifies table, table.cmd
    ensures table.Valid()
    ensures forall n :: n in old(table.View()) ==> n in table.View() && table.View()[n] == old(table.View())[n]
  {
    for i := 0 to steps
      invariant table.Valid()
      invariant forall n :: n in old(table.View()) ==> n in table.View() && table.View()[n] == old(table.View())[n]
    {
      var install: bool := *;
      if install {
        var str: string, cb: nat, execType: int :| IsCString(str);
        var _ := table.Install(str, cb, execType);
      } else {
        table.SortForHelp();
      }
    }
  }
}
