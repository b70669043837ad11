/** Listing a directory into a fixed-size buffer. */
module Listing {
  import opened Bytes
  import opened Entries
  import opened Disk
  import opened Table
  import opened Paths
  import opened Names
  import PathCalls

  const NEWLINE: byte := 10

  type Items = seq<seq<byte>>

  predicate IsChild(e: Entry, dir: u64) { e.id != 0 && e.parent == dir }

  /** What one child contributes: its name, a '/' after a directory, and a newline. */
  function Item(e: Entry): seq<byte> {
    CString(e.name) + (if e.kind == DIRECTORY then [SLASH] else []) + [NEWLINE]
  }

  /** The live children of a directory from slot `k` on, in table order. */
  function Children(t: seq<Entry>, dir: u64, k: nat := 0): (s: Items)
    requires k <= |t|
    ensures forall i :: i in s ==> i != []
    decreases |t| - k
  {
    if k == |t| then []
    else (if IsChild(t[k], dir) then [Item(t[k])] else []) + Children(t, dir, k + 1)
  }

  function Concat(items: Items): seq<byte> {
    if items == [] then [] else items[0] + Concat(items[1..])
  }

  /** How many items fit, one after the other, below `max` with room for a NUL. */
  function FitCount(items: Items, out: nat, max: nat): (m: nat)
    ensures m <= |items|
    decreases |items|
  {
    if items == [] || out + |items[0]| + 1 > max then 0
    else 1 + FitCount(items[1..], out + |items[0]|, max)
  }

  lemma {:induction false} ConcatGrows(items: Items, i: nat, j: nat)
    requires i <= j <= |items|
    ensures |Concat(items[..i])| <= |Concat(items[..j])|
  {
    if i > 0 {
      assert items[..i][1..] == items[1..][..i - 1] && items[..j][1..] == items[1..][..j - 1];
      ConcatGrows(items[1..], i - 1, j - 1);
    }
  }

  /** The items listed are the longest run from the first on that fits below `max`. */
  lemma {:induction false} FitIsLongest(items: Items, out: nat, max: nat, j: nat)
    requires out < max && j <= |items| && forall i :: i in items ==> i != []
    ensures j <= FitCount(items, out, max) <==> out + |Concat(items[..j])| < max
    decreases |items|
  {
    if j > 0 {
      assert items[..j][0] == items[0] && items[..j][1..] == items[1..][..j - 1];
      if out + |items[0]| + 1 <= max {
        assert forall i :: i in items[1..] ==> i in items;
        FitIsLongest(items[1..], out + |items[0]|, max, j - 1);
      }
    }
  }

  /** What the buffer holds after a listing, before its NUL: a trailing newline is dropped only when
      everything fitted. */
  function ListingText(items: Items, max: nat): seq<byte> {
    var m := FitCount(items, 0, max);
    var text := Concat(items[..m]);
    if m == |items| && text != [] && text[|text| - 1] == NEWLINE then text[..|text| - 1] else text
  }

  /** The text still to come from slot `k` on. */
  ghost function Rest(t: seq<Entry>, dir: u64, k: nat, out: nat, max: nat): seq<byte>
    requires k <= |t|
  {
    var items := Children(t, dir, k);
    Concat(items[..FitCount(items, out, max)])
  }

  lemma RestStep(t: seq<Entry>, dir: u64, k: nat, out: nat, max: nat)
    requires k < |t|
    ensures !IsChild(t[k], dir) ==> Rest(t, dir, k, out, max) == Rest(t, dir, k + 1, out, max)
    ensures IsChild(t[k], dir) && out + |Item(t[k])| + 1 > max ==> Rest(t, dir, k, out, max) == []
    ensures IsChild(t[k], dir) && out + |Item(t[k])| + 1 <= max ==>
      Rest(t, dir, k, out, max) == Item(t[k]) + Rest(t, dir, k + 1, out + |Item(t[k])|, max)
    ensures AllFit(t, dir, k, out, max) ==
      if !IsChild(t[k], dir) then AllFit(t, dir, k + 1, out, max)
      else out + |Item(t[k])| + 1 <= max && AllFit(t, dir, k + 1, out + |Item(t[k])|, max)
  {
    var items, rest := Children(t, dir, k), Children(t, dir, k + 1);
    if IsChild(t[k], dir) {
      assert items == [Item(t[k])] + rest && items[1..] == rest;
      var m := FitCount(items, out, max);
      if m > 0 {
        assert items[..m][0] == Item(t[k]) && items[..m][1..] == rest[..m - 1];
      }
    } else {
      assert items == rest;
    }
  }

  ghost predicate AllFit(t: seq<Entry>, dir: u64, k: nat, out: nat, max: nat)
    requires k <= |t|
  {
    FitCount(Children(t, dir, k), out, max) == |Children(t, dir, k)|
  }

  // ---------------------------------------------------------------- reading a listing back

  /** The lines of a text: what its newlines separate or end. */
  function Lines(text: seq<byte>): (ls: Items)
    decreases |text|
  {
    if text == [] then []
    else
      var n := LineEnd(text);
      [text[..n]] + Lines(text[if n < |text| then n + 1 else n..])
  }

  function LineEnd(text: seq<byte>): (n: nat)
    requires text != []
    ensures n <= |text| && (n == |text| ==> n > 0) && NEWLINE !in text[..n] && (n < |text| ==> text[n] == NEWLINE)
  {
    if text[0] == NEWLINE then 0
    else if |text| == 1 then 1
    else 1 + LineEnd(text[1..])
  }

  lemma LineEndIs(text: seq<byte>, n: nat)
    requires text != [] && n <= |text| && NEWLINE !in text[..n] && (n < |text| ==> text[n] == NEWLINE)
    ensures LineEnd(text) == n
  {
  }

  /** A line and what follows it. */
  lemma FirstLine(line: seq<byte>, rest: seq<byte>)
    requires NEWLINE !in line
    ensures Lines(line + [NEWLINE] + rest) == [line] + Lines(rest)
    ensures line != [] ==> Lines(line) == [line]
  {
    var text := line + [NEWLINE] + rest;
    assert text[..|line|] == line;
    LineEndIs(text, |line|);
    assert text[|line| + 1..] == rest;
    if line != [] {
      assert line[..|line|] == line;
      LineEndIs(line, |line|);
    }
  }

  /** Every item is a line without newlines inside. */
  predicate AreLines(items: Items) {
    forall i :: 0 <= i < |items| ==> items[i] != [] && items[i][|items[i]| - 1] == NEWLINE && NEWLINE !in items[i][..|items[i]| - 1]
  }

  function Bare(items: Items): (ls: Items)
    requires AreLines(items)
    ensures |ls| == |items| && forall i :: 0 <= i < |ls| ==> ls[i] == items[i][..|items[i]| - 1]
  {
    seq(|items|, i requires 0 <= i < |items| => items[i][..|items[i]| - 1])
  }

  /** Items one after the other are read back as lines. */
  lemma {:induction false} LinesOfItems(items: Items)
    requires AreLines(items)
    ensures Lines(Concat(items)) == Bare(items)
  {
    if items != [] {
      LinesOfItems(items[1..]);
      FirstItem(items);
    }
  }

  lemma FirstItem(items: Items)
    requires AreLines(items) && items != []
    ensures var (line, rest) := (items[0][..|items[0]| - 1], items[1..]);
      && Concat(items) == line + [NEWLINE] + Concat(rest) && Bare(items) == [line] + Bare(rest)
      && Lines(Concat(items)) == [line] + Lines(Concat(rest))
  {
    BareStep(items);
    hide Bare, Lines, AreLines;
    var line := items[0][..|items[0]| - 1];
    FirstLine(line, Concat(items[1..]));
  }

  lemma BareStep(items: Items)
    requires AreLines(items) && items != []
    ensures items[0] == items[0][..|items[0]| - 1] + [NEWLINE] && NEWLINE !in items[0][..|items[0]| - 1]
    ensures AreLines(items[1..]) && Bare(items) == [items[0][..|items[0]| - 1]] + Bare(items[1..])
  {
    var a, b := Bare(items), [items[0][..|items[0]| - 1]] + Bare(items[1..]);
    forall i | 0 <= i < |items|
      ensures a[i] == b[i]
    {
    }
  }

  /** Also when the last newline is gone, unless the last line is empty. */
  lemma {:induction false} LinesWithoutLast(items: Items)
    requires AreLines(items) && items != [] && |items[|items| - 1]| > 1
    ensures Concat(items) != [] && Lines(Concat(items)[..|Concat(items)| - 1]) == Bare(items)
  {
    hide Lines, Bare;
    FirstItem(items);
    var line, rest := items[0][..|items[0]| - 1], items[1..];
    if rest == [] {
      assert Concat(rest) == [] && Bare(rest) == [];
      assert Concat(items)[..|Concat(items)| - 1] == line;
      FirstLine(line, []);
    } else {
      hide Concat;
      LinesWithoutLast(rest);
      var cut := Concat(rest)[..|Concat(rest)| - 1];
      assert Concat(items)[..|Concat(items)| - 1] == line + [NEWLINE] + cut;
      FirstLine(line, cut);
    }
  }

  lemma {:induction false} EndsInNewline(items: Items)
    requires AreLines(items) && items != []
    ensures Concat(items) != [] && Concat(items)[|Concat(items)| - 1] == NEWLINE
  {
    if |items| > 1 {
      EndsInNewline(items[1..]);
    } else {
      assert Concat(items[1..]) == [];
    }
  }

  /** The lines of a listing are the items that fit, each without its newline. */
  lemma ListingLines(items: Items, max: nat)
    requires AreLines(items) && forall i :: 0 <= i < |items| ==> |items[i]| > 1
    ensures Lines(ListingText(items, max)) == Bare(items[..FitCount(items, 0, max)])
  {
    hide Lines, Bare, FitCount;
    var shown := items[..FitCount(items, 0, max)];
    assert AreLines(shown);
    LinesOfItems(shown);
    if shown != [] {
      EndsInNewline(shown);
      LinesWithoutLast(shown);
    }
  }

  /** Its last character is a newline exactly when items were left out. */
  lemma ListingEnd(items: Items, max: nat)
    requires AreLines(items) && (forall i :: 0 <= i < |items| ==> |items[i]| > 1) && ListingText(items, max) != []
    ensures var text := ListingText(items, max);
      text[|text| - 1] == NEWLINE <==> FitCount(items, 0, max) < |items|
  {
    var m := FitCount(items, 0, max);
    var shown := items[..m];
    assert AreLines(shown);
    if m > 0 {
      EndsInNewline(shown);
      LastTwo(shown);
    }
  }

  /** The character before the last newline is not one. */
  lemma {:induction false} LastTwo(items: Items)
    requires AreLines(items) && items != [] && |items[|items| - 1]| > 1
    ensures |Concat(items)| > 1 && Concat(items)[|Concat(items)| - 2] != NEWLINE
  {
    if |items| > 1 {
      LastTwo(items[1..]);
    } else {
      assert Concat(items[1..]) == [] && Concat(items) == items[0];
      assert items[0][..|items[0]| - 1][|items[0]| - 2] == items[0][|items[0]| - 2];
    }
  }

  // ---------------------------------------------------------------- the children listed

  /** `ks` are the slots from `k` on that hold the live children of `dir`, in order. */
  ghost predicate ChildSlots(t: seq<Entry>, dir: u64, k: nat, ks: seq<nat>) {
    && (forall i, j :: 0 <= i < j < |ks| ==> ks[i] < ks[j])
    && (forall i :: 0 <= i < |ks| ==> k <= ks[i] < |t|)
    && (forall j {:trigger t[j]} :: k <= j < |t| ==> (j in ks <==> t[j].id != 0 && t[j].parent == dir))
  }

  lemma {:induction false} ChildrenAre(t: seq<Entry>, dir: u64, k: nat) returns (ks: seq<nat>)
    requires k <= |t|
    ensures ChildSlots(t, dir, k, ks) && |Children(t, dir, k)| == |ks|
    ensures forall i :: 0 <= i < |ks| ==> Children(t, dir, k)[i] == Item(t[ks[i]])
    decreases |t| - k
  {
    if k == |t| {
      ks := [];
    } else {
      var rest := ChildrenAre(t, dir, k + 1);
      ChildMore(t, dir, k, rest);
      ks := if IsChild(t[k], dir) then [k] + rest else rest;
      hide ChildSlots, Item, IsChild, NameOfEntry;
      assert Children(t, dir, k) == (if IsChild(t[k], dir) then [Item(t[k])] else []) + Children(t, dir, k + 1);
      forall i | 0 <= i < |ks|
        ensures Children(t, dir, k)[i] == Item(t[ks[i]])
      {
        if IsChild(t[k], dir) && i > 0 {
          assert ks[i] == rest[i - 1] && Children(t, dir, k)[i] == Children(t, dir, k + 1)[i - 1];
        }
      }
    }
  }

  lemma ChildMore(t: seq<Entry>, dir: u64, k: nat, rest: seq<nat>)
    requires k < |t| && ChildSlots(t, dir, k + 1, rest)
    ensures ChildSlots(t, dir, k, if IsChild(t[k], dir) then [k] + rest else rest)
  {
    var ks := if IsChild(t[k], dir) then [k] + rest else rest;
    forall j | k <= j < |t|
      ensures j in ks <==> t[j].id != 0 && t[j].parent == dir
    {
      if j == k { assert k !in rest; }
      if IsChild(t[k], dir) { assert j in ks <==> j == k || j in rest; }
    }
  }

  /** What a line says of an entry: its name, and a '/' behind it exactly for a directory. */
  predicate Shows(line: seq<byte>, e: Entry) {
    && (e.kind == DIRECTORY ==> line == NameOfEntry(e) + [SLASH])
    && (e.kind != DIRECTORY ==> line == NameOfEntry(e))
  }

  lemma ItemLine(e: Entry)
    requires IsWord(NameOfEntry(e)) && NEWLINE !in NameOfEntry(e)
    ensures var i := Item(e);
      |i| > 1 && i[|i| - 1] == NEWLINE && NEWLINE !in i[..|i| - 1] && Shows(i[..|i| - 1], e)
      && (SLASH in i[..|i| - 1] <==> e.kind == DIRECTORY)
  {
    var i := Item(e);
    assert i[..|i| - 1] == NameOfEntry(e) + if e.kind == DIRECTORY then [SLASH] else [];
  }

  /** Every name is a word without a newline in it. */
  ghost predicate Listable(t: seq<Entry>) {
    WellNamed(t) && forall k :: 0 <= k < |t| && t[k].id != 0 ==> NEWLINE !in NameOfEntry(t[k])
  }

  lemma ItemsShow(t: seq<Entry>, dir: u64) returns (ks: seq<nat>)
    requires Listable(t)
    ensures ChildSlots(t, dir, 0, ks) && |Children(t, dir)| == |ks| && AreLines(Children(t, dir))
    ensures forall i :: 0 <= i < |ks| ==> |Children(t, dir)[i]| > 1
    ensures forall i :: 0 <= i < |ks| ==>
      var line := Bare(Children(t, dir))[i]; Shows(line, t[ks[i]]) && (SLASH in line <==> t[ks[i]].kind == DIRECTORY)
  {
    ks := ChildrenAre(t, dir, 0);
    var items := Children(t, dir);
    hide Children, Item, Shows;
    forall i | 0 <= i < |items|
      ensures |items[i]| > 1 && items[i][|items[i]| - 1] == NEWLINE && NEWLINE !in items[i][..|items[i]| - 1]
      ensures Shows(items[i][..|items[i]| - 1], t[ks[i]])
      ensures SLASH in items[i][..|items[i]| - 1] <==> t[ks[i]].kind == DIRECTORY
    {
      assert ks[i] in ks;
      ItemLine(t[ks[i]]);
    }
  }

  /** A listing read line by line gives the live children of the directory, in the order of their slots: all of them
      exactly when the text of all fits, and otherwise the first ones. */
  lemma ListedChildren(t: seq<Entry>, dir: u64, max: nat) returns (ks: seq<nat>)
    requires max > 0 && Listable(t)
    ensures ChildSlots(t, dir, 0, ks)
    ensures var ls := Lines(ListingText(Children(t, dir), max));
      && |ls| <= |ks|
      && (|ls| == |ks| <==> |Concat(Children(t, dir))| < max)
      && forall i :: 0 <= i < |ls| ==> Shows(ls[i], t[ks[i]]) && (SLASH in ls[i] <==> t[ks[i]].kind == DIRECTORY)
  {
    hide Shows, ListingText, Concat, Children, Listable, Lines, FitCount, ChildSlots, Bare, AreLines;
    ks := ItemsShow(t, dir);
    var items := Children(t, dir);
    ListingLines(items, max);
    FitIsLongest(items, 0, max, |items|);
    assert items[..|items|] == items;
    ShownFirst(items, FitCount(items, 0, max));
  }

  lemma ShownFirst(items: Items, m: nat)
    requires AreLines(items) && m <= |items|
    ensures AreLines(items[..m]) && forall i :: 0 <= i < m ==> Bare(items[..m])[i] == Bare(items)[i]
  {
  }

  // ---------------------------------------------------------------- fs_ls_dir

  /** `name_len`: the characters before the NUL, at most 24. */
  method NameLength(name: Name) returns (n: nat)
    ensures n == |CString(name)|
  {
    n := 0;
    while n < 24 && name[n] != 0
      invariant n <= 24 && 0 !in name[..n]
    {
      assert name[..n + 1] == name[..n] + [name[n]];
      n := n + 1;
    }
    CStringIs(name, n);
  }

  method PutItem(buffer: array<byte>, out0: nat, e: Entry, nameLen: nat) returns (out: nat)
    requires nameLen == |CString(e.name)| && out0 + |Item(e)| <= buffer.Length
    modifies buffer
    ensures out == out0 + |Item(e)|
    ensures forall j :: 0 <= j < buffer.Length ==>
      buffer[j] == if out0 <= j < out then Item(e)[j - out0] else old(buffer[j])
  {
    ghost var item := Item(e);
    out := out0;
    for k := 0 to nameLen
      invariant out == out0 + k
      invariant forall j :: 0 <= j < buffer.Length ==>
        buffer[j] == if out0 <= j < out then item[j - out0] else old(buffer[j])
    {
      buffer[out] := e.name[k];
      out := out + 1;
    }
    if e.kind == DIRECTORY {
      buffer[out] := SLASH;
      out := out + 1;
    }
    buffer[out] := NEWLINE;
    out := out + 1;
  }

  /** Before slot `k`: what has been listed, and that nothing from `out` on was written. */
  ghost predicate Listed(t: seq<Entry>, dir: u64, k: nat, now: seq<byte>, was: seq<byte>, out: nat, max: nat)
    requires k <= |t|
  {
    && out < max <= |now| == |was|
    && Rest(t, dir, 0, 0, max) == now[..out] + Rest(t, dir, k, out, max)
    && AllFit(t, dir, 0, 0, max) == AllFit(t, dir, k, out, max)
    && forall j :: out <= j < |was| ==> now[j] == was[j]
  }

  lemma Appended(before: seq<byte>, item: seq<byte>, now: seq<byte>, out0: nat, out: nat)
    requires out == out0 + |item| <= |now| == |before|
    requires forall j :: 0 <= j < |now| ==> now[j] == if out0 <= j < out then item[j - out0] else before[j]
    ensures now[..out] == before[..out0] + item
  {
  }

  lemma ListedItem(t: seq<Entry>, dir: u64, k: nat, before: seq<byte>, now: seq<byte>, was: seq<byte>,
                   out0: nat, out: nat, max: nat)
    requires k < |t| && IsChild(t[k], dir) && Listed(t, dir, k, before, was, out0, max)
    requires out == out0 + |Item(t[k])| && out + 1 <= max && |now| == |before|
    requires forall j :: 0 <= j < |now| ==>
      now[j] == if out0 <= j < out then Item(t[k])[j - out0] else before[j]
    ensures Listed(t, dir, k + 1, now, was, out, max)
  {
    hide Rest, AllFit, Item, Children, IsChild;
    RestStep(t, dir, k, out0, max);
    var item, rest := Item(t[k]), Rest(t, dir, k + 1, out, max);
    Appended(before, item, now, out0, out);
    assert before[..out0] + (item + rest) == (before[..out0] + item) + rest;
  }

  lemma ListedStart(t: seq<Entry>, dir: u64, was: seq<byte>, max: nat)
    requires 0 < max <= |was|
    ensures Listed(t, dir, 0, was, was, 0, max)
  {
    assert Rest(t, dir, 0, 0, max) == was[..0] + Rest(t, dir, 0, 0, max);
  }

  lemma ListedSkip(t: seq<Entry>, dir: u64, k: nat, now: seq<byte>, was: seq<byte>, out: nat, max: nat)
    requires k < |t| && !IsChild(t[k], dir) && Listed(t, dir, k, now, was, out, max)
    ensures Listed(t, dir, k + 1, now, was, out, max)
  {
    RestStep(t, dir, k, out, max);
  }

  lemma ListedAll(t: seq<Entry>, dir: u64, now: seq<byte>, was: seq<byte>, out: nat, max: nat)
    requires Listed(t, dir, |t|, now, was, out, max)
    ensures out < max <= |now| == |was| && now[..out] == Rest(t, dir, 0, 0, max) && AllFit(t, dir, 0, 0, max)
    ensures forall j :: out <= j < |was| ==> now[j] == was[j]
  {
    assert Children(t, dir, |t|) == [];
  }

  lemma ListedPart(t: seq<Entry>, dir: u64, k: nat, now: seq<byte>, was: seq<byte>, out: nat, max: nat)
    requires k < |t| && IsChild(t[k], dir) && Listed(t, dir, k, now, was, out, max)
    requires out + |Item(t[k])| + 1 > max
    ensures now[..out] == Rest(t, dir, 0, 0, max) && !AllFit(t, dir, 0, 0, max)
  {
    RestStep(t, dir, k, out, max);
  }

  /** One slot of the scan; `all` is false when its item does not fit. */
  method ListSlot(buffer: array<byte>, out0: nat, max: nat, dir: u64, e: Entry,
                  ghost t: seq<Entry>, ghost k: nat, ghost was: seq<byte>) returns (out: nat, all: bool)
    requires k < |t| && e == t[k] && Listed(t, dir, k, buffer[..], was, out0, max)
    modifies buffer
    ensures all ==> Listed(t, dir, k + 1, buffer[..], was, out, max)
    ensures !all ==> out < max && buffer[..out] == Rest(t, dir, 0, 0, max) && !AllFit(t, dir, 0, 0, max)
    ensures !all ==> forall j :: out <= j < buffer.Length ==> buffer[j] == was[j]
    ensures |was| == buffer.Length
  {
    hide Rest, AllFit;
    out, all := out0, true;
    if e.id == 0 || e.parent != dir {
      ListedSkip(t, dir, k, buffer[..], was, out, max);
    } else {
      var nameLen := NameLength(e.name);
      var need := nameLen + 1 + (if e.kind == DIRECTORY then 1 else 0) + 1;
      if out + need > max {
        ListedPart(t, dir, k, buffer[..], was, out, max);
        return out, false;
      }
      ghost var before := buffer[..];
      out := PutItem(buffer, out, e, nameLen);
      ListedItem(t, dir, k, before, buffer[..], was, out0, out, max);
    }
  }

  /** The scan over the table; `all` is false when it stopped at an item that did not fit. */
  method ListChildren(v: Volume, buffer: array<byte>, max: nat, dir: u64, ghost t: seq<Entry>) returns (out: nat, all: bool)
    requires HasTable(v, t) && 0 < max <= buffer.Length
    modifies buffer
    ensures out < max && buffer[..out] == Rest(t, dir, 0, 0, max) && all == AllFit(t, dir, 0, 0, max)
    ensures forall j :: out <= j < buffer.Length ==> buffer[j] == old(buffer[j])
  {
    hide Rest, AllFit, Listed;
    ghost var was := buffer[..];
    out := 0;
    var buf := new byte[512];
    ListedStart(t, dir, was, max);
    for i := 0 to TABLE_SECTORS
      invariant fresh(buf) && HasTable(v, t) && Listed(t, dir, 8 * i, buffer[..], was, out, max)
    {
      var stat := v.AtaRead(v.startTable + i, buf);
      for slot := 0 to 8
        invariant HasTable(v, t) && buf[..] == v.lba[v.startTable + i]
        invariant Listed(t, dir, 8 * i + slot, buffer[..], was, out, max)
      {
        var e := CopyEntry(v, buf, i, slot, t);
        out, all := ListSlot(buffer, out, max, dir, e, t, 8 * i + slot, was);
        if !all { return out, false; }
      }
    }
    ListedAll(t, dir, buffer[..], was, out, max);
    return out, true;
  }

  /** `fs_ls_dir`'s directory: "." is the current one, "/" the root, anything else is looked up. */
  function ListedDir(t: seq<Entry>, path: seq<byte>, cur: u64): (d: Option<u64>)
    requires IdsOk(t)
  {
    var d := if path == [DOT] then cur else if path == [SLASH] then 0 else PathToId(t, path, cur);
    if d == 0 then Some(0)
    else if d == NOT_FOUND then None
    else
      match SlotWith(t, d)
      case None => None
      case Some(k) => if t[k].kind == DIRECTORY then Some(d) else None
  }

  /** A directory can be listed exactly when its path means the root or a live directory. */
  lemma ListedDirIs(t: seq<Entry>, path: seq<byte>, cur: u64)
    requires IdsOk(t)
    ensures var d := PathToId(t, path, cur);
      ListedDir(t, path, cur) ==
        if d == 0 || exists k :: 0 <= k < |t| && t[k].id == d && t[k].kind == DIRECTORY then Some(d) else None
  {
    if path == [SLASH] {
      assert path[1..] == [] && Split(path) == [];
      assert PathToId(t, path, cur) == 0;
    }
    var d := PathToId(t, path, cur);
    if k :| 0 <= k < |t| && t[k].id == d != 0 {
      SlotIs(t, k);
    }
  }

  method ChooseDir(v: Volume, path: seq<byte>, cur: u64, ghost t: seq<Entry>) returns (found: bool, dir: u64)
    requires HasTable(v, t) && IdsOk(t) && 0 !in path
    ensures found <==> ListedDir(t, path, cur).Some?
    ensures found ==> ListedDir(t, path, cur) == Some(dir)
  {
    hide HasTable, IdsOk;
    found, dir := false, 0;
    if path == [DOT] {
      dir := cur;
    } else if path == [SLASH] {
      dir := 0;
    } else {
      dir := PathCalls.FsPathToId(v, path, cur, t);
      if dir == NOT_FOUND { return; }
    }
    if dir != 0 {
      var stat, e, sector, slot := FindEntryById(v, dir, t);
      if stat != 0 || e.kind != DIRECTORY { return; }
    }
    found := true;
  }

  /** The text of a listing is what the scan wrote, without the last newline if everything fitted. */
  lemma TextIs(t: seq<Entry>, dir: u64, max: nat, text: seq<byte>)
    requires text == Rest(t, dir, 0, 0, max)
    ensures ListingText(Children(t, dir), max) ==
      if AllFit(t, dir, 0, 0, max) && text != [] && text[|text| - 1] == NEWLINE then text[..|text| - 1] else text
  {
    hide Children, FitCount, Concat;
  }

  /** The scan, the newline dropped at the end, and the NUL. */
  method ListInto(v: Volume, buffer: array<byte>, max: nat, dir: u64, ghost t: seq<Entry>)
    requires HasTable(v, t) && 0 < max <= buffer.Length
    modifies buffer
    ensures var text := ListingText(Children(t, dir), max);
      |text| < max && buffer[..|text|] == text && buffer[|text|] == 0
    ensures forall j :: max <= j < buffer.Length ==> buffer[j] == old(buffer[j])
  {
    hide Rest, AllFit, Children, ListingText, HasTable;
    var out, all := ListChildren(v, buffer, max, dir, t);
    TextIs(t, dir, max, buffer[..out]);
    if all && out > 0 && buffer[out - 1] == NEWLINE {
      out := out - 1;
    }
    assert buffer[..out] == ListingText(Children(t, dir), max);
    buffer[out] := 0;
  }

  /** The children's names that fit, in table order, NUL-terminated; the buffer's other bytes are left
      alone, and those from `maxSize` on above all. */
  method FsLsDir(v: Volume, path: seq<byte>, buffer: array<byte>, maxSize: nat, cur: u64, ghost t: seq<Entry>) returns (r: int)
    requires HasTable(v, t) && IdsOk(t) && 0 !in path && maxSize <= buffer.Length
    modifies buffer
    ensures r == 0 <==> maxSize > 0 && ListedDir(t, path, cur).Some?
    ensures r == 0 ==>
      var text := ListingText(Children(t, ListedDir(t, path, cur).value), maxSize);
      |text| < maxSize && buffer[..|text|] == text && buffer[|text|] == 0
    ensures r != 0 && maxSize > 0 ==> buffer[0] == 0
    ensures forall j :: maxSize <= j < buffer.Length ==> buffer[j] == old(buffer[j])
  {
    hide HasTable, IdsOk, ListedDir, ListingText, Children;
    if maxSize == 0 { return 1; }
    buffer[0] := 0;
    var found, dir := ChooseDir(v, path, cur, t);
    if !found { return 1; }
    ListInto(v, buffer, maxSize, dir, t);
    return 0;
  }
}
