/** Paths on values: splitting at '/', resolving "." and "..", and joining again. */
module Paths {
  import opened Bytes

  const SLASH: byte := 47
  const DOT: byte := 46

  type Words = seq<seq<byte>>

  /** The length of the word a path starts with. */
  function WordEnd(p: seq<byte>): (n: nat)
    ensures n <= |p|
    ensures forall i :: 0 <= i < n ==> p[i] != SLASH
    ensures n < |p| ==> p[n] == SLASH
  {
    if p == [] || p[0] == SLASH then 0 else 1 + WordEnd(p[1..])
  }

  /** The maximal runs of characters other than '/'. */
  function Split(p: seq<byte>): Words
    decreases |p|
  {
    if p == [] then []
    else if p[0] == SLASH then Split(p[1..])
    else [p[..WordEnd(p)]] + Split(p[WordEnd(p)..])
  }

  function Join(ws: Words): seq<byte> {
    if ws == [] then [] else if |ws| == 1 then ws[0] else ws[0] + [SLASH] + Join(ws[1..])
  }

  /** One step from a position in the tree: "." stays, ".." goes up (and stays at the root), any
      other word goes down. */
  function Moved(w: seq<byte>, at: Words): Words {
    if w == [DOT] then at
    else if w == [DOT, DOT] then (if at == [] then [] else at[..|at| - 1])
    else at + [w]
  }

  function Follow(ws: Words, at: Words): Words
    decreases |ws|
  {
    if ws == [] then at else Follow(ws[1..], Moved(ws[0], at))
  }

  function Truncated(p: seq<byte>): seq<byte> {
    if |p| <= 1023 then p else p[..1023]
  }

  /** The absolute path that `path_resolve` returns. */
  function Resolve(p: seq<byte>): seq<byte> {
    [SLASH] + Join(Follow(Split(Truncated(p)), []))
  }

  // ---------------------------------------------------------------- words and joins

  predicate IsWord(w: seq<byte>) {
    w != [] && SLASH !in w
  }

  ghost predicate AreWords(ws: Words) {
    forall w :: w in ws ==> IsWord(w)
  }

  predicate IsDots(w: seq<byte>) {
    w == [DOT] || w == [DOT, DOT]
  }

  ghost predicate AreNames(ws: Words) {
    forall w :: w in ws ==> IsWord(w) && !IsDots(w)
  }

  lemma {:induction false} WordEndIs(p: seq<byte>, n: nat)
    requires n <= |p| && (forall i :: 0 <= i < n ==> p[i] != SLASH) && (n < |p| ==> p[n] == SLASH)
    ensures WordEnd(p) == n
  {
    if n > 0 {
      WordEndIs(p[1..], n - 1);
    }
  }

  lemma {:induction false} SplitWords(p: seq<byte>)
    ensures AreWords(Split(p))
    decreases |p|
  {
    if p != [] {
      if p[0] == SLASH {
        SplitWords(p[1..]);
      } else {
        var n := WordEnd(p);
        SplitWords(p[n..]);
        assert p[..n][0] == p[0];
      }
    }
  }

  /** A path that starts with a whole word splits into that word and the rest. */
  lemma SplitHead(w: seq<byte>, rest: seq<byte>)
    requires IsWord(w) && (rest != [] ==> rest[0] == SLASH)
    ensures Split(w + rest) == [w] + Split(rest)
  {
    var p := w + rest;
    forall i | 0 <= i < |w|
      ensures p[i] != SLASH
    {
      assert p[i] in w;
    }
    WordEndIs(p, |w|);
    assert p[..|w|] == w && p[|w|..] == rest;
  }

  lemma {:induction false} SplitJoin(ws: Words)
    requires AreWords(ws)
    ensures Split(Join(ws)) == ws
  {
    if |ws| == 1 {
      SplitHead(ws[0], []);
      assert ws[0] + [] == ws[0];
    } else if |ws| > 1 {
      SplitJoin(ws[1..]);
      var rest := [SLASH] + Join(ws[1..]);
      assert rest[1..] == Join(ws[1..]);
      SplitHead(ws[0], rest);
      assert Join(ws) == ws[0] + rest;
    }
  }

  /** Splitting undoes joining, with or without a leading '/'. */
  lemma SplitAbsolute(ws: Words)
    requires AreWords(ws)
    ensures Split([SLASH] + Join(ws)) == ws
  {
    SplitJoin(ws);
    assert ([SLASH] + Join(ws))[1..] == Join(ws);
  }

  lemma SplitSlash(r: seq<byte>)
    ensures Split([SLASH] + r) == Split(r)
  {
    assert ([SLASH] + r)[1..] == r;
  }

  lemma {:induction false} SplitAfterJoin(ws: Words, r: seq<byte>)
    requires AreWords(ws) && ws != []
    ensures Split(Join(ws) + [SLASH] + r) == ws + Split(r)
  {
    hide Split;
    var rest := if |ws| == 1 then [SLASH] + r else [SLASH] + (Join(ws[1..]) + [SLASH] + r);
    assert IsWord(ws[0]);
    SplitHead(ws[0], rest);
    assert Join(ws) + [SLASH] + r == ws[0] + rest;
    if |ws| == 1 {
      SplitSlash(r);
    } else {
      SplitAfterJoin(ws[1..], r);
      SplitSlash(Join(ws[1..]) + [SLASH] + r);
    }
  }

  lemma {:induction false} FollowNames(ws: Words, at: Words)
    requires AreWords(ws) && AreNames(at)
    ensures AreNames(Follow(ws, at))
    decreases |ws|
  {
    if ws != [] {
      assert IsWord(ws[0]);
      FollowNames(ws[1..], Moved(ws[0], at));
    }
  }

  lemma {:induction false} FollowPlain(ws: Words, at: Words)
    requires AreNames(ws)
    ensures Follow(ws, at) == at + ws
    decreases |ws|
  {
    if ws == [] {
      assert at + ws == at;
    } else {
      assert ws[0] in ws;
      FollowPlain(ws[1..], at + [ws[0]]);
      assert at + [ws[0]] + ws[1..] == at + ws;
    }
  }

  // ---------------------------------------------------------------- lengths

  /** The total length of words with one separator each. */
  function Size(ws: Words): nat {
    if ws == [] then 0 else |ws[0]| + 1 + Size(ws[1..])
  }

  lemma {:induction false} JoinSize(ws: Words)
    ensures ws != [] ==> |Join(ws)| + 1 == Size(ws)
  {
    if |ws| > 1 {
      JoinSize(ws[1..]);
    } else if |ws| == 1 {
      assert Size(ws[1..]) == 0;
    }
  }

  lemma {:induction false} SizeAppend(a: Words, b: Words)
    ensures Size(a + b) == Size(a) + Size(b)
  {
    if a == [] {
      assert a + b == b;
    } else {
      SizeAppend(a[1..], b);
      assert (a + b)[1..] == a[1..] + b;
    }
  }

  lemma {:induction false} SplitSize(p: seq<byte>)
    ensures Size(Split(p)) <= |p| + 1
    ensures p != [] && p[0] == SLASH ==> Size(Split(p)) <= |p|
    decreases |p|
  {
    if p != [] {
      if p[0] == SLASH {
        SplitSize(p[1..]);
      } else {
        var n := WordEnd(p);
        SplitSize(p[n..]);
        assert Split(p)[1..] == Split(p[n..]);
      }
    }
  }

  lemma {:induction false} FollowSize(ws: Words, at: Words)
    ensures Size(Follow(ws, at)) <= Size(at) + Size(ws)
    decreases |ws|
  {
    if ws != [] {
      FollowSize(ws[1..], Moved(ws[0], at));
      MovedSize(ws[0], at);
    }
  }

  lemma MovedSize(w: seq<byte>, at: Words)
    ensures Size(Moved(w, at)) <= Size(at) + |w| + 1
  {
    SizeAppend(at, [w]);
    assert Size([w]) == |w| + 1;
    if at != [] {
      SizeAppend(at[..|at| - 1], [at[|at| - 1]]);
      assert at == at[..|at| - 1] + [at[|at| - 1]];
    }
  }

  // ---------------------------------------------------------------- what resolving guarantees

  ghost predicate Canonical(p: seq<byte>, ws: Words) {
    AreNames(ws) && p == [SLASH] + Join(ws)
  }

  /** The result is absolute, has no empty, "." or ".." component, and with its NUL fits a
      1024-byte buffer whenever the input is at most 1022 bytes long. */
  lemma ResolveCanonical(p: seq<byte>)
    ensures Canonical(Resolve(p), Follow(Split(Truncated(p)), []))
    ensures |Resolve(p)| <= |p| + 1
    ensures p != [] && p[0] == SLASH ==> |Resolve(p)| <= |p|
  {
    var q := Truncated(p);
    SplitWords(q);
    FollowNames(Split(q), []);
    SplitSize(q);
    FollowSize(Split(q), []);
    JoinSize(Follow(Split(q), []));
  }

  /** Resolving leaves a path alone exactly when it is canonical (and short enough to be read whole). */
  lemma ResolveFixed(p: seq<byte>)
    requires |p| <= 1023
    ensures Resolve(p) == p <==> exists ws :: Canonical(p, ws)
  {
    if Resolve(p) == p {
      ResolveCanonical(p);
    }
    if ws :| Canonical(p, ws) {
      SplitAbsolute(ws);
      FollowPlain(ws, []);
      assert [] + ws == ws;
    }
  }

  /** Resolving twice is resolving once. */
  lemma ResolveTwice(p: seq<byte>)
    requires |p| <= 1022
    ensures Resolve(Resolve(p)) == Resolve(p)
  {
    ResolveCanonical(p);
    ResolveFixed(Resolve(p));
  }

  /** A relative path resolved after its base is the words of the one followed from the other. */
  lemma {:induction false} FollowAppend(a: Words, b: Words, at: Words)
    ensures Follow(a + b, at) == Follow(b, Follow(a, at))
    decreases |a|
  {
    if a == [] {
      assert a + b == b;
    } else {
      assert (a + b)[1..] == a[1..] + b;
      FollowAppend(a[1..], b, Moved(a[0], at));
    }
  }

  // ---------------------------------------------------------------- "." and ".."

  /** The absolute path with these components. */
  function PathFrom(ws: Words): seq<byte> { [SLASH] + Join(ws) }

  lemma ResolveWords(ws: Words)
    requires AreWords(ws) && |PathFrom(ws)| <= 1023
    ensures Resolve(PathFrom(ws)) == PathFrom(Follow(ws, []))
  {
    SplitAbsolute(ws);
  }

  /** Only the components count: a relative path is taken from the root, and slashes may be repeated. */
  lemma ResolveSplit(p: seq<byte>)
    requires |p| <= 1023 && |PathFrom(Split(p))| <= 1023
    ensures Resolve(p) == Resolve(PathFrom(Split(p)))
  {
    SplitWords(p);
    ResolveWords(Split(p));
  }

  /** A name and the ".." behind it cancel, wherever they are in a path. */
  lemma DotDotCancels(a: Words, w: seq<byte>, b: Words)
    requires AreWords(a) && AreNames([w]) && AreWords(b)
    requires |PathFrom(a + [w, [DOT, DOT]] + b)| <= 1023 && |PathFrom(a + b)| <= 1023
    ensures Resolve(PathFrom(a + [w, [DOT, DOT]] + b)) == Resolve(PathFrom(a + b))
  {
    var up, at := [w, [DOT, DOT]], Follow(a, []);
    assert w in [w];
    FollowAppend(a + up, b, []);
    FollowAppend(a, up, []);
    FollowAppend(a, b, []);
    assert up[1..] == [[DOT, DOT]] && [[DOT, DOT]][1..] == [];
    assert Follow(up, at) == Follow([[DOT, DOT]], at + [w]) == Follow([], at);
    ResolveWords(a + up + b);
    ResolveWords(a + b);
  }

  /** At the root ".." stays. */
  lemma DotDotAtRoot(b: Words)
    requires AreWords(b) && |PathFrom([[DOT, DOT]] + b)| <= 1023 && |PathFrom(b)| <= 1023
    ensures Resolve(PathFrom([[DOT, DOT]] + b)) == Resolve(PathFrom(b))
  {
    assert ([[DOT, DOT]] + b)[1..] == b;
    ResolveWords([[DOT, DOT]] + b);
    ResolveWords(b);
  }

  /** A "." can be left out anywhere. */
  lemma DotDropped(a: Words, b: Words)
    requires AreWords(a) && AreWords(b) && |PathFrom(a + [[DOT]] + b)| <= 1023 && |PathFrom(a + b)| <= 1023
    ensures Resolve(PathFrom(a + [[DOT]] + b)) == Resolve(PathFrom(a + b))
  {
    FollowAppend(a + [[DOT]], b, []);
    FollowAppend(a, [[DOT]], []);
    FollowAppend(a, b, []);
    assert [[DOT]][1..] == [];
    assert Follow([[DOT]], Follow(a, [])) == Follow([], Follow(a, []));
    ResolveWords(a + [[DOT]] + b);
    ResolveWords(a + b);
  }

  // ---------------------------------------------------------------- no NUL appears

  lemma {:induction false} SplitNoNul(p: seq<byte>)
    requires 0 !in p
    ensures forall w :: w in Split(p) ==> 0 !in w
    decreases |p|
  {
    if p != [] {
      if p[0] == SLASH {
        SplitNoNul(p[1..]);
      } else {
        SplitNoNul(p[WordEnd(p)..]);
      }
    }
  }

  lemma {:induction false} FollowNoNul(ws: Words, at: Words)
    requires forall w :: w in ws || w in at ==> 0 !in w
    ensures forall w :: w in Follow(ws, at) ==> 0 !in w
    decreases |ws|
  {
    if ws != [] {
      FollowNoNul(ws[1..], Moved(ws[0], at));
    }
  }

  lemma {:induction false} JoinNoNul(ws: Words)
    requires forall w :: w in ws ==> 0 !in w
    ensures 0 !in Join(ws)
  {
    if |ws| > 1 {
      JoinNoNul(ws[1..]);
    }
  }

  lemma ResolveNoNul(p: seq<byte>)
    requires 0 !in p
    ensures 0 !in Resolve(p)
  {
    SplitNoNul(Truncated(p));
    FollowNoNul(Split(Truncated(p)), []);
    JoinNoNul(Follow(Split(Truncated(p)), []));
  }
}
