/** The character loops of path_resolve and path_to_id, on fixed-size buffers. */
module PathBuffers {
  import opened Bytes
  import opened Entries
  import opened Paths

  lemma {:induction false} CStringShort(s: seq<byte>)
    requires 0 in s
    ensures |CString(s)| < |s|
  {
    if s[0] != 0 {
      CStringShort(s[1..]);
    }
  }

  /** `path_buf`: the path up to its NUL, cut at 1023 characters. */
  method CopyPath(path: array<byte>, buf: array<byte>) returns (n: nat)
    requires 0 in path[..] && buf.Length == 1024 && buf != path
    modifies buf
    ensures n < 1024 && buf[..n] == Truncated(CString(path[..])) && buf[n] == 0
  {
    ghost var p := CString(path[..]);
    n := 0;
    CStringShort(path[..]);
    while path[n] != 0 && n < 1023
      invariant n <= |p| && n <= 1023 && path[..] == old(path[..]) && buf[..n] == p[..n]
      decreases |p| - n
    {
      buf[n] := path[n];
      n := n + 1;
    }
    buf[n] := 0;
  }

  lemma {:induction false} SplitTrailing(p: seq<byte>)
    ensures Split(p + [SLASH]) == Split(p)
    decreases |p|
  {
    var q := p + [SLASH];
    if p == [] {
      assert q[1..] == [];
    } else if p[0] == SLASH {
      assert q[1..] == p[1..] + [SLASH];
      SplitTrailing(p[1..]);
    } else {
      var n := WordEnd(p);
      WordEndIs(q, n);
      assert q[..n] == p[..n] && q[n..] == p[n..] + [SLASH];
      SplitTrailing(p[n..]);
    }
  }

  /** One trailing '/' is dropped, which leaves the words as they were. */
  method DropTrailing(buf: array<byte>, n0: nat) returns (n: nat)
    requires n0 < buf.Length && buf[n0] == 0
    modifies buf
    ensures n <= n0 && buf[..n] == old(buf[..n]) && buf[n] == 0
    ensures Split(buf[..n]) == Split(old(buf[..n0]))
  {
    n := n0;
    if n > 1 && buf[n - 1] == SLASH {
      SplitTrailing(buf[..n - 1]);
      assert buf[..n] == buf[..n - 1] + [SLASH];
      buf[n - 1] := 0;
      n := n - 1;
    }
  }

  function Slashes(p: seq<byte>): nat {
    if p == [] then 0 else Slashes(p[..|p| - 1]) + if p[|p| - 1] == SLASH then 1 else 0
  }

  lemma {:induction false} SlashesGrow(p: seq<byte>, i: nat)
    requires i <= |p|
    ensures Slashes(p[..i]) <= Slashes(p)
  {
    if i < |p| {
      SlashesGrow(p[..|p| - 1], i);
      assert p[..|p| - 1][..i] == p[..i];
    } else {
      assert p[..i] == p;
    }
  }

  lemma SlashesStep(p: seq<byte>, i: nat)
    requires i < |p|
    ensures Slashes(p[..i + 1]) == Slashes(p[..i]) + if p[i] == SLASH then 1 else 0
  {
    assert p[..i + 1][..i] == p[..i];
  }

  /** `argv`: the path with its '/' turned into NULs, and the number of pieces that makes. */
  method CutAtSlashes(buf: array<byte>, n: nat) returns (argv: array<byte>, argc: nat)
    requires n < buf.Length && buf[n] == 0
    ensures fresh(argv) && argv.Length == n + 1 && argc == Slashes(buf[..n]) + 1
    ensures forall i :: 0 <= i <= n ==> argv[i] == if buf[i] == SLASH then 0 else buf[i]
  {
    argv := new byte[n + 1];
    argc := 1;
    for i := 0 to n + 1
      invariant argc == Slashes(buf[..if i <= n then i else n]) + 1
      invariant forall j :: 0 <= j < i ==> argv[j] == if buf[j] == SLASH then 0 else buf[j]
      invariant buf[..] == old(buf[..])
    {
      if i < n { assert buf[..i + 1][..i] == buf[..i]; }
      if buf[i] == SLASH {
        argv[i] := 0;
        argc := argc + 1;
      } else {
        argv[i] := buf[i];
      }
    }
  }

  /** The word `w` starts at index `a` of `argv` and ends in a NUL. */
  ghost predicate WordAt(argv: seq<byte>, a: nat, w: seq<byte>) {
    a + |w| < |argv| && argv[a..a + |w|] == w && argv[a + |w|] == 0
  }

  /** `argv` is the path `p` with its slashes and its end turned into NULs. */
  ghost predicate CutUp(p: seq<byte>, argv: seq<byte>) {
    0 !in p && |argv| == |p| + 1
    && forall j :: 0 <= j <= |p| ==> argv[j] == if j == |p| || p[j] == SLASH then 0 else p[j]
  }

  /** `done` words have been found, and the rest of the path starts at `a`. */
  ghost predicate Scanned(p: seq<byte>, argv: seq<byte>, starts: seq<nat>, done: nat, a: nat) {
    && done <= |starts| && a <= |p| && done <= |Split(p)|
    && Split(p[a..]) == Split(p)[done..]
    && forall k :: 0 <= k < done ==> WordAt(argv, starts[k], Split(p)[k])
  }

  /** The scan before character `i`: between words, or inside the word that starts at `starts[idx - 1]`. */
  ghost predicate Scanning(p: seq<byte>, argv: seq<byte>, starts: seq<nat>, idx: nat, newWord: bool, i: nat) {
    && idx <= |starts|
    && (newWord ==> Scanned(p, argv, starts, idx, if i <= |p| then i else |p|))
    && (!newWord ==> idx > 0 && starts[idx - 1] < i <= |p|)
    && (!newWord ==> Scanned(p, argv, starts, idx - 1, starts[idx - 1]))
    && (!newWord ==> forall j :: starts[idx - 1] <= j < i ==> p[j] != SLASH)
    && (i <= |p| ==> idx <= Slashes(p[..i]) + if newWord then 0 else 1)
  }

  lemma ScanNul(p: seq<byte>, argv: seq<byte>, starts: seq<nat>, idx: nat, newWord: bool, i: nat)
    requires CutUp(p, argv) && Scanning(p, argv, starts, idx, newWord, i) && i <= |p| && argv[i] == 0
    ensures Scanning(p, argv, starts, idx, true, i + 1)
  {
    assert i < |p| ==> p[i] == SLASH by { assert i < |p| ==> p[i] in p; }
    if i < |p| {
      assert p[i..][1..] == p[i + 1..];
      SlashesStep(p, i);
    }
    if !newWord {
      ScanWord(p, argv, starts, idx - 1, starts[idx - 1], i);
    }
  }

  lemma ScanWord(p: seq<byte>, argv: seq<byte>, starts: seq<nat>, done: nat, a: nat, i: nat)
    requires CutUp(p, argv) && Scanned(p, argv, starts, done, a) && done < |starts| && starts[done] == a
    requires a < i <= |p| && (forall j :: a <= j < i ==> p[j] != SLASH) && (i < |p| ==> p[i] == SLASH)
    ensures Scanned(p, argv, starts, done + 1, i)
  {
    WordCut(p, argv, a, i);
    SplitAt(p, a, i);
    hide Split, WordAt, CutUp;
    assert Split(p)[done] == Split(p)[done..][0];
    assert Split(p)[done + 1..] == Split(p)[done..][1..];
  }

  lemma WordCut(p: seq<byte>, argv: seq<byte>, a: nat, i: nat)
    requires CutUp(p, argv) && a < i <= |p| && (forall j :: a <= j < i ==> p[j] != SLASH) && (i < |p| ==> p[i] == SLASH)
    ensures WordAt(argv, a, p[a..i])
  {
    assert argv[a..i] == p[a..i];
  }

  lemma SplitAt(p: seq<byte>, a: nat, i: nat)
    requires a < i <= |p| && (forall j :: a <= j < i ==> p[j] != SLASH) && (i < |p| ==> p[i] == SLASH)
    ensures Split(p[a..]) == [p[a..i]] + Split(p[i..])
  {
    var q := p[a..];
    WordEndIs(q, i - a);
    assert q[i - a..] == p[i..] && q[..i - a] == p[a..i];
  }

  lemma ScanOn(p: seq<byte>, argv: seq<byte>, starts: seq<nat>, idx: nat, newWord: bool, i: nat)
    requires CutUp(p, argv) && Scanning(p, argv, starts, idx, newWord, i) && i < |p| && argv[i] != 0
    ensures !newWord ==> Scanning(p, argv, starts, idx, false, i + 1)
    ensures newWord && idx < |starts| ==> Scanning(p, argv, starts[idx := i], idx + 1, false, i + 1)
  {
    SlashesStep(p, i);
  }

  /** One step of the scan; room is left for every word that can still start. */
  method ScanChar(argv: array<byte>, argvs: array<nat>, idx0: nat, newWord0: bool, i: nat, ghost p: seq<byte>)
      returns (idx: nat, newWord: bool)
    requires CutUp(p, argv[..]) && i <= |p| && argvs.Length == Slashes(p) + 1
    requires Scanning(p, argv[..], argvs[..], idx0, newWord0, i)
    modifies argvs
    ensures Scanning(p, argv[..], argvs[..], idx, newWord, i + 1)
    ensures i == |p| ==> newWord
  {
    if argv[i] == 0 {
      ScanNul(p, argv[..], argvs[..], idx0, newWord0, i);
      return idx0, true;
    }
    ScanOn(p, argv[..], argvs[..], idx0, newWord0, i);
    if newWord0 {
      SlashesGrow(p, i);
      ghost var starts := argvs[..];
      argvs[idx0] := i;
      assert argvs[..] == starts[idx0 := i];
      return idx0 + 1, false;
    }
    return idx0, false;
  }

  /** `argvs`: the index of the first character of every word. */
  method FindWords(argv: array<byte>, argc: nat, len: nat, ghost p: seq<byte>) returns (argvs: array<nat>, idx: nat)
    requires |p| == len && argv.Length == len + 1 && argc == Slashes(p) + 1 && CutUp(p, argv[..])
    ensures fresh(argvs) && argvs.Length == argc && idx == |Split(p)| <= argc
    ensures forall k :: 0 <= k < idx ==> WordAt(argv[..], argvs[k], Split(p)[k])
  {
    argvs := new nat[argc];
    idx := 0;
    var newWord := true;
    assert p[0..] == p && Slashes(p[..0]) == 0;
    for i := 0 to len + 1
      invariant Scanning(p, argv[..], argvs[..], idx, newWord, i)
      invariant i > len ==> newWord
    {
      idx, newWord := ScanChar(argv, argvs, idx, newWord, i, p);
    }
    assert p[|p|..] == [];
  }

  // ---------------------------------------------------------------- path_resolve

  /** The character at an index of a word, as the tests on `argvs[i][0]`, `[1]`, `[2]` see it. */
  lemma WordChars(argv: seq<byte>, a: nat, w: seq<byte>)
    requires WordAt(argv, a, w) && IsWord(w) && 0 !in w
    ensures a + 1 < |argv| && (argv[a] == DOT && argv[a + 1] == 0 <==> w == [DOT])
    ensures argv[a] == DOT && argv[a + 1] == DOT ==> a + 2 < |argv|
    ensures argv[a] == DOT && argv[a + 1] == DOT && argv[a + 2] == 0 <==> w == [DOT, DOT]
  {
    forall k | 0 <= k < |w|
      ensures argv[a + k] == w[k] && w[k] != 0
    {
      assert argv[a..a + |w|][k] == w[k];
      assert w[k] in w;
    }
  }

  /** The stack of words: `stack[k]` is where word `ws[k]` starts. */
  ghost predicate Stacked(argv: seq<byte>, stack: seq<nat>, count: nat, ws: Words) {
    count <= |stack| && |ws| == count && forall k :: 0 <= k < count ==> WordAt(argv, stack[k], ws[k])
  }

  lemma FollowOne(ws: Words, i: nat, at: Words)
    requires i < |ws|
    ensures Follow(ws[i..], at) == Follow(ws[i + 1..], Moved(ws[i], at))
  {
    assert ws[i..][1..] == ws[i + 1..];
  }

  lemma FollowNone(ws: Words, at: Words)
    ensures Follow(ws[|ws|..], at) == at
  {
  }

  method FoldDots(argv: array<byte>, argvs: array<nat>, idx: nat, stack: array<nat>, ghost ws: Words) returns (count: nat)
    requires idx == |ws| <= argvs.Length && stack.Length == argvs.Length && stack != argvs
    requires AreWords(ws) && forall w :: w in ws ==> 0 !in w
    requires forall k :: 0 <= k < idx ==> WordAt(argv[..], argvs[k], ws[k])
    modifies stack
    ensures Stacked(argv[..], stack[..], count, Follow(ws, []))
  {
    hide WordAt, Follow, IsWord;
    count := 0;
    ghost var at: Words := [];
    assert ws[0..] == ws;
    for i := 0 to idx
      invariant Stacked(argv[..], stack[..], count, at) && count <= i
      invariant Follow(ws, []) == Follow(ws[i..], at)
      invariant forall k :: 0 <= k < idx ==> WordAt(argv[..], argvs[k], ws[k])
    {
      var a := argvs[i];
      assert ws[i] in ws;
      WordChars(argv[..], a, ws[i]);
      FollowOne(ws, i, at);
      if argv[a] == DOT && argv[a + 1] == 0 {
        continue;
      }
      if argv[a] == DOT && argv[a + 1] == DOT && argv[a + 2] == 0 {
        at := Moved(ws[i], at);
        if count > 0 {
          count := count - 1;
        }
        continue;
      }
      stack[count] := a;
      count := count + 1;
      at := Moved(ws[i], at);
    }
    FollowNone(ws, at);
  }

  /** What of a joined path comes at position `pos`, where word `i` starts. */
  lemma JoinAt(ws: Words, i: nat, goal: seq<byte>, pos: nat)
    requires i < |ws| && pos <= |goal| && goal[pos..] == Join(ws[i..])
    ensures var end := pos + |ws[i]|;
      && end <= |goal| && goal[pos..end] == ws[i]
      && (i + 1 == |ws| ==> end == |goal| && Join(ws[i + 1..]) == [])
      && (i + 1 < |ws| ==> end < |goal| && goal[end] == SLASH && goal[end + 1..] == Join(ws[i + 1..]))
  {
    var tail := goal[pos..];
    assert ws[i..][0] == ws[i] && ws[i..][1..] == ws[i + 1..];
    assert goal[pos..pos + |ws[i]|] == tail[..|ws[i]|];
    if i + 1 < |ws| {
      assert tail == ws[i] + [SLASH] + Join(ws[i + 1..]);
      assert goal[pos + |ws[i]|] == tail[|ws[i]|];
      assert goal[pos + |ws[i]| + 1..] == tail[|ws[i]| + 1..];
    }
  }

  method ClearBuffer(res: array<byte>)
    modifies res
    ensures forall j :: 0 <= j < res.Length ==> res[j] == 0
  {
    for i := 0 to res.Length
      invariant forall j :: 0 <= j < i ==> res[j] == 0
    {
      res[i] := 0;
    }
  }

  /** Before word `i`: the buffer holds `goal` up to `pos`, and zeros behind. */
  ghost predicate Joining(goal: seq<byte>, ws: Words, res: seq<byte>, pos: nat, i: nat) {
    i <= |ws| && 1 <= pos <= |goal| < |res| && goal[pos..] == Join(ws[i..])
    && goal[..pos] == res[..pos] && forall j :: pos <= j < |res| ==> res[j] == 0
  }

  method JoinWord(argv: array<byte>, stack: array<nat>, count: nat, res: array<byte>, pos0: nat, i: nat,
                  ghost goal: seq<byte>, ghost ws: Words) returns (pos: nat)
    requires Stacked(argv[..], stack[..], count, ws) && (forall w :: w in ws ==> 0 !in w) && res != argv
    requires i < count && Joining(goal, ws, res[..], pos0, i)
    modifies res
    ensures Joining(goal, ws, res[..], pos, i + 1)
  {
    JoinAt(ws, i, goal, pos0);
    pos := CopyWord(argv, stack[i], res, pos0, goal, ws[i]);
    if i < count - 1 {
      res[pos] := SLASH;
      assert goal[..pos + 1] == goal[..pos] + [SLASH];
      pos := pos + 1;
    } else {
      assert ws[i + 1..] == [];
    }
  }

  /** Writing "/" and the stacked words, separated by '/', into the result buffer. */
  method WriteJoined(argv: array<byte>, stack: array<nat>, count: nat, res: array<byte>, ghost ws: Words) returns (pos: nat)
    requires Stacked(argv[..], stack[..], count, ws) && (forall w :: w in ws ==> 0 !in w)
    requires 1 + |Join(ws)| < res.Length == 1024 && res != argv
    modifies res
    ensures pos == 1 + |Join(ws)| && res[..pos] == [SLASH] + Join(ws)
    ensures forall i :: pos <= i < 1024 ==> res[i] == 0
  {
    ClearBuffer(res);
    ghost var goal := [SLASH] + Join(ws);
    pos := 1;
    res[0] := SLASH;
    assert ws[0..] == ws && goal[1..] == Join(ws);
    for i := 0 to count
      invariant Stacked(argv[..], stack[..], count, ws)
      invariant Joining(goal, ws, res[..], pos, i)
    {
      pos := JoinWord(argv, stack, count, res, pos, i, goal, ws);
    }
    assert ws[count..] == [];
    assert pos == |goal| && goal[..pos] == goal;
    res[pos] := 0;
  }

  method CopyWord(argv: array<byte>, a: nat, res: array<byte>, pos0: nat, ghost goal: seq<byte>, ghost w: seq<byte>) returns (pos: nat)
    requires WordAt(argv[..], a, w) && 0 !in w && res != argv
    requires pos0 + |w| <= |goal| < res.Length && goal[pos0..pos0 + |w|] == w && goal[..pos0] == res[..pos0]
    modifies res
    ensures pos == pos0 + |w| && goal[..pos] == res[..pos]
    ensures forall j :: pos <= j < res.Length ==> res[j] == old(res[j])
  {
    forall k | 0 <= k < |w|
      ensures argv[a + k] == w[k] == goal[pos0 + k] && w[k] != 0
    {
      assert argv[..][a..a + |w|][k] == w[k] && w[k] in w;
      assert goal[pos0..pos0 + |w|][k] == w[k];
    }
    var len := 0;
    while argv[a + len] != 0
      invariant len <= |w|
      decreases |w| - len
    {
      len := len + 1;
    }
    pos := pos0;
    for i2 := 0 to len
      invariant pos == pos0 + i2 && goal[..pos] == res[..pos]
      invariant forall j :: pos <= j < res.Length ==> res[j] == old(res[j])
    {
      res[pos] := argv[a + i2];
      pos := pos + 1;
    }
  }

  /** `path_resolve`. The input may be the result buffer itself: it is copied before that is written. */
  method PathResolve(path: array<byte>, res: array<byte>)
    requires 0 in path[..] && |Resolve(CString(path[..]))| < 1024 && res.Length == 1024
    modifies res
    ensures var r := Resolve(old(CString(path[..]))); |r| < 1024 && res[..|r|] == r && res[|r|] == 0
    ensures CString(res[..]) == Resolve(old(CString(path[..])))
  {
    hide Split, Follow, Join, AreWords, Canonical, WordAt;
    ghost var p := CString(path[..]);
    var buf := new byte[1024];
    ClearBuffer(buf);
    var n := CopyPath(path, buf);
    ghost var was := buf[..n];
    assert 0 !in was;
    n := DropTrailing(buf, n);
    ghost var q := buf[..n];
    assert q == was[..n];
    var argv, argc := CutAtSlashes(buf, n);
    var argvs, idx := FindWords(argv, argc, n, q);
    var stack, idx2 := FindWords(argv, argc, n, q);
    ghost var ws := Split(q);
    SplitWords(q);
    SplitNoNul(q);
    var count := FoldDots(argv, argvs, idx, stack, ws);
    ResolveCanonical(p);
    FollowNoNul(ws, []);
    var pos := WriteJoined(argv, stack, count, res, Follow(ws, []));
    ResolveNoNul(p);
    CStringIs(res[..], pos);
  }
}
