/** The parts of a path: its last name, the directory it is in, and its absolute form. */
module PathNames {
  import opened Bytes
  import opened Entries
  import Table
  import opened Paths
  import opened Names

  function LastSlash(p: seq<byte>): (l: int)
    ensures -1 <= l < |p|
    ensures l >= 0 ==> p[l] == SLASH
    ensures forall i :: l < i < |p| ==> p[i] != SLASH
  {
    if p == [] then -1
    else if p[|p| - 1] == SLASH then |p| - 1
    else LastSlash(p[..|p| - 1])
  }

  lemma LastSlashFound(p: seq<byte>)
    requires IsAbsolute(p)
    ensures LastSlash(p) >= 0
  {
  }

  /** `path_to_name`: what follows the last '/'. */
  function LastName(p: seq<byte>): seq<byte> {
    p[LastSlash(p) + 1..]
  }

  function StripSlashes(p: seq<byte>): (q: seq<byte>)
    ensures q <= p && (p != [] ==> q != [])
  {
    if |p| > 1 && p[|p| - 1] == SLASH then StripSlashes(p[..|p| - 1]) else p
  }

  /** `fpath_to_path`: the id of the directory that the path's last name is in. */
  function ParentOf(t: seq<Entry>, p: seq<byte>, cur: u64): u64 {
    var q := StripSlashes(Truncated(p));
    var l := LastSlash(q);
    if l < 0 then cur else if l == 0 then 0 else PathToId(t, q[..l], cur)
  }

  /** `path_to_abs`: a relative path is appended to its directory's path, cut at 1023 characters. */
  function PathToAbs(t: seq<Entry>, p: seq<byte>, cur: u64): seq<byte>
    requires IdsOk(t)
  {
    if IsAbsolute(p) then p
    else
      var base := PathOf(t, cur);
      Truncated((if base[|base| - 1] == SLASH then base else base + [SLASH]) + p)
  }

  /** The id a path stands for when it is used from directory `cur`. */
  function IdOf(t: seq<Entry>, p: seq<byte>, cur: u64): u64
    requires IdsOk(t)
  {
    PathToId(t, PathToAbs(t, p, cur), cur)
  }

  lemma SameId(t: seq<Entry>, t': seq<Entry>, p: seq<byte>, cur: u64)
    requires SameTree(t, t') && IdsOk(t) && IdsOk(t')
    ensures IdOf(t', p, cur) == IdOf(t, p, cur)
  {
    SameNames(t, t', cur);
    var a := PathToAbs(t, p, cur);
    SameWalk(t, t', Split(Truncated(a)), if IsAbsolute(a) then 0 else cur);
  }

  // ---------------------------------------------------------------- canonical paths

  lemma {:induction false} JoinLast(ws: Words, w: seq<byte>)
    ensures Join(ws + [w]) == if ws == [] then w else Join(ws) + [SLASH] + w
  {
    if ws == [] {
      assert ws + [w] == [w];
    } else {
      assert (ws + [w])[1..] == ws[1..] + [w] && (ws + [w])[0] == ws[0];
      JoinLast(ws[1..], w);
      if |ws| > 1 {
        assert Join(ws + [w]) == ws[0] + [SLASH] + (Join(ws[1..]) + [SLASH] + w);
      }
    }
  }

  lemma LastSlashIs(p: seq<byte>, l: int)
    requires 0 <= l < |p| && p[l] == SLASH && forall i :: l < i < |p| ==> p[i] != SLASH
    ensures LastSlash(p) == l
  {
  }

  /** The last '/' of a canonical path separates its last word from the path of its directory. */
  lemma CanonicalParts(ws: Words, w: seq<byte>)
    requires AreWords(ws) && IsWord(w)
    ensures var p := PathFrom(ws + [w]);
      && LastName(p) == w
      && StripSlashes(p) == p
      && LastSlash(p) == (if ws == [] then 0 else |PathFrom(ws)|)
      && p[..LastSlash(p)] == if ws == [] then [] else PathFrom(ws)
  {
    JoinLast(ws, w);
    var p := PathFrom(ws + [w]);
    var l := if ws == [] then 0 else |PathFrom(ws)|;
    assert p == p[..l] + [SLASH] + w;
    forall i | l < i < |p|
      ensures p[i] != SLASH
    {
      assert p[i] == w[i - l - 1] && w[i - l - 1] in w;
    }
    LastSlashIs(p, l);
  }

  /** A path that ends in '/' names nothing, in the directory of the path without it. */
  lemma TrailingSlash(t: seq<Entry>, ws: Words, w: seq<byte>, cur: u64)
    requires AreWords(ws) && IsWord(w) && |PathFrom(ws + [w])| <= 1022
    ensures LastName(PathFrom(ws + [w]) + [SLASH]) == []
    ensures ParentOf(t, PathFrom(ws + [w]) + [SLASH], cur) == Walk(t, ws, 0)
  {
    CanonicalParts(ws, w);
    CanonicalParent(t, ws, w, cur);
    var p := PathFrom(ws + [w]);
    LastSlashIs(p + [SLASH], |p|);
    assert (p + [SLASH])[..|p|] == p;
    assert StripSlashes(p + [SLASH]) == StripSlashes(p);
  }

  lemma CanonicalParent(t: seq<Entry>, ws: Words, w: seq<byte>, cur: u64)
    requires AreWords(ws) && IsWord(w) && |PathFrom(ws + [w])| <= 1023
    ensures ParentOf(t, PathFrom(ws + [w]), cur) == Walk(t, ws, 0)
  {
    CanonicalParts(ws, w);
    if ws != [] {
      SplitAbsolute(ws);
    }
  }

  /** The parent that a creation resolves is below every new id. */
  lemma {:induction false} WalkBound(t: seq<Entry>, ws: Words, from: u64, bound: u64)
    requires forall k :: 0 <= k < |t| ==> t[k].id <= bound
    ensures from <= bound || from == NOT_FOUND ==> Walk(t, ws, from) <= bound || Walk(t, ws, from) == NOT_FOUND
    decreases |ws|
  {
    if ws != [] {
      WalkBound(t, ws[1..], Table.Lookup(t, ws[0], from), bound);
    }
  }

  lemma ParentBound(t: seq<Entry>, p: seq<byte>, cur: u64, bound: u64)
    requires (forall k :: 0 <= k < |t| ==> t[k].id <= bound) && cur <= bound
    ensures ParentOf(t, p, cur) <= bound || ParentOf(t, p, cur) == NOT_FOUND
  {
    var q := StripSlashes(Truncated(p));
    var l := LastSlash(q);
    if l > 0 {
      WalkBound(t, Split(Truncated(q[..l])), if IsAbsolute(q[..l]) then 0 else cur, bound);
    }
  }
}
