/** Looking paths up and printing them on the mounted volume, with the scratch buffers the kernel
    keeps as globals. */
module PathCalls {
  import opened Bytes
  import opened Entries
  import opened Disk
  import opened Table
  import opened Paths
  import opened PathBuffers
  import opened Names
  import opened PathNames

  /** The global scratch area: one row per path component on the way to the root. */
  class Scratch {
    const rows: array2<byte>        // id_to_path_path[512][32]
    const absRes: array<byte>       // path_to_abs_path_res[1024]
    const resolveRes: array<byte>   // path_resolve_path_res[1024]
    var point: nat                  // id_to_path_point
    var firstOne: bool              // id_to_path_first_one

    ghost predicate Sized() {
      rows.Length0 == 512 && rows.Length1 == 32 && absRes.Length == 1024 && resolveRes.Length == 1024
      && absRes != resolveRes
    }

    /** Between calls nothing is collected and no print is under way. */
    ghost predicate Idle()
      reads this
    {
      Sized() && point == 0 && !firstOne
    }

    constructor ()
      ensures Idle() && fresh(rows) && fresh(absRes) && fresh(resolveRes)
    {
      rows := new byte[512, 32];
      absRes := new byte[1024];
      resolveRes := new byte[1024];
      point, firstOne := 0, false;
    }
  }

  // ---------------------------------------------------------------- id_to_path

  /** Row `r` holds the C string `w`. */
  ghost predicate RowIs(rows: array2<byte>, r: nat, w: seq<byte>)
    reads rows
  {
    r < rows.Length0 && |w| < rows.Length1
    && (forall j :: 0 <= j < |w| ==> rows[r, j] == w[j]) && rows[r, |w|] == 0
  }

  /** The word for row `r` when `ws` is collected from row `base` on, last word first. */
  ghost function WordFor(ws: Words, base: nat, r: nat): seq<byte>
    requires base <= r < base + |ws|
  {
    ws[|ws| - 1 - (r - base)]
  }

  ghost predicate RowsAre(rows: array2<byte>, base: nat, ws: Words)
    reads rows
  {
    base + |ws| <= rows.Length0
    && forall r: nat :: base <= r < base + |ws| ==> RowIs(rows, r, WordFor(ws, base, r))
  }

  ghost predicate ZeroRows(rows: array2<byte>, base: nat)
    reads rows
  {
    forall r, j :: base <= r < rows.Length0 && 0 <= j < rows.Length1 ==> rows[r, j] == 0
  }

  ghost predicate Named(t: seq<Entry>) {
    forall k :: 0 <= k < |t| ==> |NameOfEntry(t[k])| <= 23
  }

  method ZeroAll(rows: array2<byte>)
    modifies rows
    ensures ZeroRows(rows, 0)
  {
    for i := 0 to rows.Length0
      invariant forall r, j :: 0 <= r < i && 0 <= j < rows.Length1 ==> rows[r, j] == 0
    {
      for i2 := 0 to rows.Length1
        invariant forall r, j :: 0 <= r < i && 0 <= j < rows.Length1 ==> rows[r, j] == 0
        invariant forall j :: 0 <= j < i2 ==> rows[i, j] == 0
      {
        rows[i, i2] := 0;
      }
    }
  }

  /** Copying a name into a row, with its NUL for every component but the first of the path. */
  method CopyName(rows: array2<byte>, r: nat, name: Name, nested: bool)
    requires r < rows.Length0 && rows.Length1 == 32 && ZeroRows(rows, r) && |CString(name)| <= 23
    modifies rows
    ensures RowIs(rows, r, CString(name)) && ZeroRows(rows, r + 1)
    ensures forall q, j :: 0 <= q < r && 0 <= j < 32 ==> rows[q, j] == old(rows[q, j])
  {
    ghost var w := CString(name);
    forall j | 0 <= j < |w|
      ensures name[j] == w[j] != 0
    {
      assert w[j] in w;
    }
    var len := 0;
    while name[len] != 0
      invariant len <= |w|
      decreases |w| - len
    {
      len := len + 1;
    }
    if nested { len := len + 1; }
    for i := 0 to len
      invariant forall q, j :: 0 <= q < rows.Length0 && q != r && 0 <= j < 32 ==> rows[q, j] == old(rows[q, j])
      invariant forall j :: 0 <= j < 32 ==> rows[r, j] == if j < i then name[j] else 0
    {
      rows[r, i] := name[i];
    }
  }

  /** The first entry with this id; id 0 finds a free slot. */
  method FirstEntry(v: Volume, id: u64, ghost t: seq<Entry>) returns (found: bool, e: Entry)
    requires HasTable(v, t)
    ensures found <==> SlotWith(t, id).Some?
    ensures found ==> e == t[SlotWith(t, id).value]
  {
    e := FreeSlot();
    var buf := new byte[512];
    for i := 0 to TABLE_SECTORS
      invariant HasTable(v, t)
      invariant forall k :: 0 <= k < 8 * i ==> t[k].id != id
    {
      var stat := v.AtaRead(v.startTable + i, buf);
      for slot := 0 to 8
        invariant HasTable(v, t) && buf[..] == v.lba[v.startTable + i]
        invariant forall k :: 0 <= k < 8 * i + slot ==> t[k].id != id
      {
        e := CopyEntry(v, buf, i, slot, t);
        if e.id == id {
          FirstWith(t, id, 8 * i + slot);
          return true, e;
        }
      }
    }
    return false, e;
  }

  /** The part of `id_to_path` that a nested call performs: collecting the names up to the root. */
  method Collect(v: Volume, s: Scratch, id: u64, ghost t: seq<Entry>)
    requires HasTable(v, t) && IdsOk(t) && Named(t) && s.Sized()
    requires ZeroRows(s.rows, s.point) && s.point + |NamesTo(t, id)| <= 512
    modifies s`point, s`firstOne, s.rows
    ensures s.point == old(s.point) + |NamesTo(t, id)|
    ensures RowsAre(s.rows, old(s.point), NamesTo(t, id)) && ZeroRows(s.rows, s.point)
    ensures forall q, j :: 0 <= q < old(s.point) && 0 <= j < 32 ==> s.rows[q, j] == old(s.rows[q, j])
    decreases id
  {
    hide RowIs, CString;
    var found, e := FirstEntry(v, id, t);
    if !found { return; }
    ghost var base, w, ws := s.point, NameOfEntry(e), NamesTo(t, id);
    CopyName(s.rows, s.point, e.name, e.parent != 0);
    s.point := s.point + 1;
    if e.parent == 0 {
      s.firstOne := false;
      assert ws == [w];
    } else {
      label Copied:
      ghost var up := NamesTo(t, e.parent);
      assert ws == up + [w];
      Collect(v, s, e.parent, t);
      assert forall j :: 0 <= j < 32 ==> s.rows[base, j] == old@Copied(s.rows[base, j]);
      RowsUnder(s.rows, base, up, w);
    }
  }

  /** A row for the last name, and those for the names before it behind. */
  lemma RowsUnder(rows: array2<byte>, base: nat, up: Words, w: seq<byte>)
    requires base < rows.Length0 && RowIs(rows, base, w) && RowsAre(rows, base + 1, up)
    ensures RowsAre(rows, base, up + [w])
  {
    var ws := up + [w];
    forall r: nat | base <= r < base + |ws|
      ensures RowIs(rows, r, WordFor(ws, base, r))
    {
      if r == base {
        assert WordFor(ws, base, r) == w;
      } else {
        assert WordFor(ws, base, r) == WordFor(up, base + 1, r);
      }
    }
  }

  /** Before word `i` of `ws`: the buffer holds `goal` up to `pos`, and what it held before from there on. */
  ghost predicate Printing(goal: seq<byte>, ws: Words, now: seq<byte>, was: seq<byte>, pos: nat, i: nat) {
    && i <= |ws| && |now| == |was| && 1 <= pos <= |goal| < |now|
    && goal[pos..] == Join(ws[i..]) && goal[..pos] == now[..pos]
    && forall j :: pos <= j < |now| ==> now[j] == was[j]
  }

  /** Copying row `r` to the buffer. */
  method PrintRow(rows: array2<byte>, r: nat, buffer: array<byte>, pos0: nat, ghost w: seq<byte>) returns (pos: nat)
    requires RowIs(rows, r, w) && 0 !in w && pos0 + |w| <= buffer.Length
    modifies buffer
    ensures pos == pos0 + |w|
    ensures forall j :: 0 <= j < buffer.Length ==> buffer[j] == if pos0 <= j < pos then w[j - pos0] else old(buffer[j])
  {
    forall j | 0 <= j < |w|
      ensures rows[r, j] == w[j] != 0
    {
      assert w[j] in w;
    }
    var len := 0;
    while rows[r, len] != 0
      invariant len <= |w|
      decreases |w| - len
    {
      len := len + 1;
    }
    pos := pos0;
    for i2 := 0 to len
      invariant pos == pos0 + i2
      invariant forall j :: 0 <= j < buffer.Length ==> buffer[j] == if pos0 <= j < pos then w[j - pos0] else old(buffer[j])
    {
      buffer[pos] := rows[r, i2];
      pos := pos + 1;
    }
  }

  method PrintWord(rows: array2<byte>, r: nat, buffer: array<byte>, pos0: nat, last: bool, ghost i: nat,
                   ghost goal: seq<byte>, ghost ws: Words, ghost was: seq<byte>) returns (pos: nat)
    requires i < |ws| && RowIs(rows, r, ws[i]) && 0 !in ws[i] && (last <==> i + 1 == |ws|)
    requires Printing(goal, ws, buffer[..], was, pos0, i)
    modifies buffer
    ensures Printing(goal, ws, buffer[..], was, pos, i + 1)
  {
    JoinAt(ws, i, goal, pos0);
    pos := PrintRow(rows, r, buffer, pos0, ws[i]);
    assert goal[..pos] == goal[..pos0] + ws[i];
    if !last {
      buffer[pos] := SLASH;
      assert goal[..pos + 1] == goal[..pos] + [SLASH];
      pos := pos + 1;
    } else {
      assert ws[i + 1..] == [];
    }
  }

  /** Writing "/" and the collected names, from the last row to the first. */
  method PrintRows(s: Scratch, buffer: array<byte>, ghost ws: Words)
    requires s.Sized() && s.point == |ws| && RowsAre(s.rows, 0, ws) && forall w :: w in ws ==> 0 !in w
    requires 1 + |Join(ws)| < buffer.Length
    modifies buffer
    ensures var goal := [SLASH] + Join(ws);
      buffer[..] == goal + [0] + old(buffer[|goal| + 1..])
  {
    ghost var was, goal := buffer[..], [SLASH] + Join(ws);
    var pos := 1;
    buffer[0] := SLASH;
    assert ws[0..] == ws && goal[1..] == Join(ws);
    var i := s.point;
    while i > 0
      invariant i <= |ws| && Printing(goal, ws, buffer[..], was, pos, |ws| - i)
    {
      ghost var k := |ws| - i;
      assert WordFor(ws, 0, i - 1) == ws[k] && ws[k] in ws;
      pos := PrintWord(s.rows, i - 1, buffer, pos, i == 1, k, goal, ws, was);
      i := i - 1;
    }
    assert ws[|ws|..] == [];
    buffer[pos] := 0;
    assert goal[..pos] == goal;
  }

  /** A printed path of at most 1022 characters has at most 511 components. */
  lemma {:induction false} FewWords(ws: Words)
    requires forall w :: w in ws ==> w != []
    ensures Size(ws) >= 2 * |ws|
  {
    if ws != [] {
      assert ws[0] in ws;
      assert forall w :: w in ws[1..] ==> w in ws;
      FewWords(ws[1..]);
    }
  }

  lemma {:induction false} NamesNoNul(t: seq<Entry>, id: u64)
    requires IdsOk(t)
    ensures forall w :: w in NamesTo(t, id) ==> 0 !in w
    decreases id
  {
    match SlotWith(t, id)
    case None =>
    case Some(k) => if t[k].parent != 0 { NamesNoNul(t, t[k].parent); }
  }

  /** `id_to_path`, called from outside: the globals it recurses through are left as they were found. */
  method IdToPath(v: Volume, s: Scratch, id: u64, buffer: array<byte>, ghost t: seq<Entry>)
    requires HasTable(v, t) && IdsOk(t) && Named(t) && s.Idle()
    requires |NamesTo(t, id)| <= 512 && |PathOf(t, id)| < buffer.Length
    modifies s`point, s`firstOne, s.rows, buffer
    ensures s.Idle()
    ensures buffer[..] == PathOf(t, id) + [0] + old(buffer[|PathOf(t, id)| + 1..])
  {
    s.firstOne := true;
    ZeroAll(s.rows);
    Collect(v, s, id, t);
    s.firstOne := false;
    NamesNoNul(t, id);
    PrintRows(s, buffer, NamesTo(t, id));
    s.point := 0;
  }

  /** What the scratch area and a path buffer have room for. */
  ghost predicate Printable(t: seq<Entry>, id: u64)
    requires IdsOk(t)
  {
    |NamesTo(t, id)| <= 512 && |PathOf(t, id)| <= 1022
  }

  /** With non-empty names, a path that fits its buffer also fits the scratch rows. */
  lemma ShortPathsPrint(t: seq<Entry>, id: u64)
    requires IdsOk(t) && WellNamed(t) && 0 < id && |PathOf(t, id)| <= 1022
    ensures Printable(t, id)
  {
    NamesAreWords(t, id);
    FewWords(NamesTo(t, id));
    JoinSize(NamesTo(t, id));
  }

  lemma {:induction false} NamesAreWords(t: seq<Entry>, id: u64)
    requires IdsOk(t) && WellNamed(t) && 0 < id
    ensures AreWords(NamesTo(t, id))
    decreases id
  {
    match SlotWith(t, id)
    case None =>
    case Some(k) => if t[k].parent != 0 { NamesAreWords(t, t[k].parent); }
  }

  // ---------------------------------------------------------------- path_to_id

  /** `path_buf`: the string cut at 1023 characters, with a NUL. */
  method CopyString(path: seq<byte>, buf: array<byte>) returns (n: nat)
    requires buf.Length == 1024
    modifies buf
    ensures n < 1024 && buf[..n] == Truncated(path) && buf[n] == 0
  {
    n := 0;
    while n < |path| && n < 1023
      invariant n <= |path| && n <= 1023 && buf[..n] == path[..n]
    {
      buf[n] := path[n];
      n := n + 1;
    }
    buf[n] := 0;
  }

  lemma WordString(argv: seq<byte>, a: nat, w: seq<byte>)
    requires WordAt(argv, a, w) && 0 !in w
    ensures CString(argv[a..]) == w
  {
    assert argv[a..][..|w|] == w;
    CStringIs(argv[a..], |w|);
  }

  /** `path_to_id`: the words of the path are looked up one below the other. */
  method FsPathToId(v: Volume, path: seq<byte>, cur: u64, ghost t: seq<Entry>) returns (id: u64)
    requires HasTable(v, t) && 0 !in path
    ensures id == PathToId(t, path, cur)
  {
    if |path| == 1 && path[0] == DOT {
      assert path == [DOT];
      return cur;
    }
    var argv, argvs, idx := PathWords(path);
    SplitNoNul(Truncated(path));
    id := if |path| > 0 && path[0] == SLASH then 0 else cur;
    id := WalkWords(v, argv, argvs, idx, id, Split(Truncated(path)), t);
  }

  /** The words of a path string, in place in a copy of it. */
  method PathWords(path: seq<byte>) returns (argv: array<byte>, argvs: array<nat>, idx: nat)
    requires 0 !in path
    ensures idx == |Split(Truncated(path))| <= argvs.Length
    ensures forall k :: 0 <= k < idx ==> WordAt(argv[..], argvs[k], Split(Truncated(path))[k])
  {
    var buf := new byte[1024];
    var n := CopyString(path, buf);
    n := DropTrailing(buf, n);
    var argc;
    argv, argc := CutAtSlashes(buf, n);
    argvs, idx := FindWords(argv, argc, n, buf[..n]);
  }

  method WalkWords(v: Volume, argv: array<byte>, argvs: array<nat>, idx: nat, from: u64,
                   ghost ws: Words, ghost t: seq<Entry>) returns (id: u64)
    requires HasTable(v, t) && idx == |ws| <= argvs.Length && forall w :: w in ws ==> 0 !in w
    requires forall k :: 0 <= k < idx ==> WordAt(argv[..], argvs[k], ws[k])
    ensures id == Walk(t, ws, from)
  {
    id := from;
    assert ws[0..] == ws;
    for i := 0 to idx
      invariant Walk(t, ws[i..], id) == Walk(t, ws, from)
    {
      assert ws[i] in ws && ws[i..][0] == ws[i] && ws[i..][1..] == ws[i + 1..];
      WordString(argv[..], argvs[i], ws[i]);
      id := NameAndParentIdToId(v, CString(argv[argvs[i]..]), id, t);
    }
  }

  // ---------------------------------------------------------------- path_to_abs

  /** `path_to_abs`: an absolute path is returned itself, a relative one in the static buffer. */
  method FsPathToAbs(v: Volume, s: Scratch, path: seq<byte>, cur: u64, ghost t: seq<Entry>) returns (p: seq<byte>)
    requires HasTable(v, t) && IdsOk(t) && Named(t) && s.Idle() && 0 !in path
    requires !IsAbsolute(path) ==> Printable(t, cur)
    modifies s`point, s`firstOne, s.rows, s.absRes
    ensures s.Idle() && p == PathToAbs(t, path, cur) && 0 !in p
  {
    ClearBuffer(s.absRes);
    if |path| > 0 && path[0] == SLASH {
      return path;
    }
    IdToPath(v, s, cur, s.absRes, t);
    p := AppendPath(s.absRes, path, PathOf(t, cur), t, cur);
  }

  lemma PathNoNul(t: seq<Entry>, id: u64)
    requires IdsOk(t)
    ensures 0 !in PathOf(t, id)
  {
    NamesNoNul(t, id);
    JoinNoNul(NamesTo(t, id));
  }

  /** Finding the NUL behind the string `base`. */
  method FindEnd(res: array<byte>, ghost base: seq<byte>) returns (point: nat)
    requires |base| < res.Length && res[..|base|] == base && res[|base|] == 0 && 0 !in base
    ensures point == |base|
  {
    forall j | 0 <= j < |base|
      ensures res[j] != 0
    {
      assert res[..|base|][j] in base;
    }
    point := 0;
    while res[point] != 0
      invariant point <= |base|
      decreases |base| - point
    {
      point := point + 1;
    }
  }

  /** Appending `path` behind the string `base`, cut at 1023 characters. */
  method AppendAt(res: array<byte>, path: seq<byte>, point: nat, ghost base: seq<byte>) returns (p: seq<byte>)
    requires res.Length == 1024 && point == |base| <= 1023 && res[..point] == base && 0 !in base && 0 !in path
    modifies res
    ensures p == Truncated(base + path) && 0 !in p
  {
    var i := 0;
    while i < |path| && point + i < 1023
      invariant i <= |path| && point + i <= 1023 && res[..point + i] == base + path[..i]
    {
      res[point + i] := path[i];
      assert path[..i + 1] == path[..i] + [path[i]];
      i := i + 1;
    }
    res[point + i] := 0;
    assert res[..point + i] == Truncated(base + path);
    CStringIs(res[..], point + i);
    p := CString(res[..]);
  }

  method AppendPath(res: array<byte>, path: seq<byte>, ghost base: seq<byte>, ghost t: seq<Entry>, ghost cur: u64) returns (p: seq<byte>)
    requires res.Length == 1024 && 0 !in path && IdsOk(t) && base == PathOf(t, cur) && |base| <= 1022
    requires !IsAbsolute(path) && res[..|base|] == base && res[|base|] == 0
    modifies res
    ensures p == PathToAbs(t, path, cur) && 0 !in p
  {
    PathNoNul(t, cur);
    var point := FindEnd(res, base);
    ghost var base' := if base[|base| - 1] == SLASH then base else base + [SLASH];
    if point == 0 || res[point - 1] != SLASH {
      res[point] := SLASH;
      point := point + 1;
    }
    assert res[..point] == base';
    p := AppendAt(res, path, point, base');
  }

  /** A directory's printed path with a '/' at its end. */
  function Base(t: seq<Entry>, cur: u64): (b: seq<byte>)
    requires IdsOk(t)
    ensures b != []
  {
    var p := PathOf(t, cur);
    if p[|p| - 1] == SLASH then p else p + [SLASH]
  }

  /** The string `b` over and over, 1023 characters long. */
  ghost predicate Repeats(p: seq<byte>, b: seq<byte>) {
    |b| <= |p| == 1023 && p[..|b|] == b && forall j :: |b| <= j < 1023 ==> p[j] == p[j - |b|]
  }

  /** `path_to_abs` called on its own static result, as when its result is passed on to a call that takes a
      path: the buffer is cleared before it is read, so the path given is lost. What comes back is the
      directory's path, copied over and over because the copy reads what it has just written. */
  method FsPathToAbsOwn(v: Volume, s: Scratch, cur: u64, ghost t: seq<Entry>) returns (p: seq<byte>)
    requires HasTable(v, t) && IdsOk(t) && Named(t) && s.Idle() && Printable(t, cur)
    modifies s`point, s`firstOne, s.rows, s.absRes
    ensures s.Idle() && Repeats(p, Base(t, cur)) && p == s.absRes[..1023] && s.absRes[1023] == 0
  {
    ClearBuffer(s.absRes);
    assert s.absRes[0] != SLASH;
    IdToPath(v, s, cur, s.absRes, t);
    PathNoNul(t, cur);
    var point := FindEnd(s.absRes, PathOf(t, cur));
    if point == 0 || s.absRes[point - 1] != SLASH {
      s.absRes[point] := SLASH;
      point := point + 1;
    }
    assert s.absRes[..point] == Base(t, cur);
    p := CopyOntoItself(s.absRes, point, Base(t, cur));
  }

  method CopyOntoItself(res: array<byte>, point: nat, ghost b: seq<byte>) returns (p: seq<byte>)
    requires res.Length == 1024 && 0 < point == |b| <= 1023 && res[..point] == b && 0 !in b
    modifies res
    ensures Repeats(p, b) && p == res[..1023] && res[1023] == 0
  {
    forall j | 0 <= j < point
      ensures res[j] == b[j] != 0
    {
      assert b[j] in b;
    }
    var i := 0;
    while res[i] != 0 && point + i < 1023
      invariant point + i <= 1023
      invariant forall j :: 0 <= j < point + i ==> res[j] != 0
      invariant forall j :: 0 <= j < point ==> res[j] == b[j]
      invariant forall j :: point <= j < point + i ==> res[j] == res[j - point]
      decreases 1023 - i
    {
      res[point + i] := res[i];
      i := i + 1;
    }
    res[point + i] := 0;
    p := res[..1023];
    assert p[..|b|] == b;
  }

  // ---------------------------------------------------------------- path_to_name and fpath_to_path

  method FindLastSlash(p: seq<byte>) returns (l: int)
    ensures l == LastSlash(p)
  {
    l := -1;
    for i := 0 to |p|
      invariant -1 <= l < i && (l >= 0 ==> p[l] == SLASH) && forall j :: l < j < i ==> p[j] != SLASH
    {
      if p[i] == SLASH {
        l := i;
      }
    }
    if l >= 0 { LastSlashIs(p, l); } else { assert LastSlash(p) == -1; }
  }

  /** `path_to_name` copies the last name into a 24-byte static buffer. */
  method PathToName(path: seq<byte>) returns (name: Name)
    requires 0 !in path && |LastName(path)| <= 23
    ensures name == NameField(LastName(path))
  {
    var iout := FindLastSlash(path);
    name := CopyLast(path, iout + 1);
  }

  method CopyLast(path: seq<byte>, start: nat) returns (name: Name)
    requires start <= |path| <= start + 23
    ensures name == NameField(path[start..])
  {
    var buf := new byte[24];
    ClearBuffer(buf);
    for i := 0 to |path| - start
      invariant forall j :: 0 <= j < 24 ==> buf[j] == if j < i then path[start + j] else 0
    {
      buf[i] := path[start + i];
    }
    NameFieldIs(path[start..], buf[..]);
    name := buf[..];
  }

  lemma NameFieldIs(c: seq<byte>, n: Name)
    requires |c| <= 23 && forall j :: 0 <= j < 24 ==> n[j] == if j < |c| then c[j] else 0
    ensures n == NameField(c)
  {
  }

  /** `fpath_to_path`: trailing slashes are stripped, then what precedes the last name is looked up. */
  method FPathToPath(v: Volume, path: seq<byte>, cur: u64, ghost t: seq<Entry>) returns (id: u64)
    requires HasTable(v, t) && 0 !in path
    ensures id == ParentOf(t, path, cur)
  {
    var buf := new byte[1024];
    var len: nat := CopyString(path, buf);
    while len > 1 && buf[len - 1] == SLASH
      invariant 0 <= len < 1024 && StripSlashes(buf[..len]) == StripSlashes(Truncated(path)) && 0 !in buf[..len]
    {
      len := len - 1;
      assert buf[..len + 1][..len] == buf[..len];
      buf[len] := 0;
    }
    assert StripSlashes(buf[..len]) == buf[..len];
    var last := FindLastSlash(buf[..len]);
    if last < 0 { return cur; }
    if last == 0 { return 0; }
    assert buf[..len][..last] == buf[..last];
    id := FsPathToId(v, buf[..last], cur, t);
  }

  /** The id a path stands for: `path_to_id(path_to_abs(path))`. */
  method Resolve(v: Volume, s: Scratch, path: seq<byte>, cur: u64, ghost t: seq<Entry>) returns (id: u64)
    requires HasTable(v, t) && IdsOk(t) && Named(t) && s.Idle() && 0 !in path
    requires !IsAbsolute(path) ==> Printable(t, cur)
    modifies s`point, s`firstOne, s.rows, s.absRes
    ensures s.Idle() && id == IdOf(t, path, cur)
  {
    var p := FsPathToAbs(v, s, path, cur, t);
    id := FsPathToId(v, p, cur, t);
  }
}
