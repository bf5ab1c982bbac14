/** Path strings (src/fs.c, parse_path, Path and the character loop of seek_directory). */
module Paths {
  import opened Memory
  import Pieces

  const SLASH: byte := 47

  /** The slash-separated pieces of `s`, the first of which continues `curr`. */
  function PiecesFrom(s: seq<byte>, curr: seq<byte>): (ps: seq<seq<byte>>)
    ensures ps != []
  {
    if s == [] then [curr]
    else if s[0] == SLASH then [curr] + PiecesFrom(s[1..], [])
    else PiecesFrom(s[1..], curr + [s[0]])
  }

  function DropEmptyLast(ps: seq<seq<byte>>): seq<seq<byte>>
    requires ps != []
  {
    if ps[|ps| - 1] == [] then ps[..|ps| - 1] else ps
  }

  /** The names a directory path goes through; a trailing slash adds none.  `s` is the
      path after its leading slash. */
  function Components(s: seq<byte>): seq<seq<byte>> {
    DropEmptyLast(PiecesFrom(s, []))
  }

  /** The names of an absolute path, the last of which is the file's. */
  function FullPath(path: seq<byte>): (p: seq<seq<byte>>)
    requires path != [] && path[0] == SLASH
    ensures p != []
  {
    PiecesFrom(path[1..], [])
  }

  lemma {:induction false} PiecesWithoutSlash(s: seq<byte>, curr: seq<byte>)
    requires SLASH !in s
    ensures PiecesFrom(s, curr) == [curr + s]
    decreases |s|
  {
    if s == [] {
      assert curr + s == curr;
    } else {
      PiecesWithoutSlash(s[1..], curr + [s[0]]);
      assert curr + [s[0]] + s[1..] == curr + s;
    }
  }

  lemma {:induction false} PiecesThenFile(a: seq<byte>, curr: seq<byte>, file: seq<byte>)
    requires SLASH !in file
    ensures PiecesFrom(a + [SLASH] + file, curr) == PiecesFrom(a, curr) + [file]
    decreases |a|
  {
    var s := a + [SLASH] + file;
    if a == [] {
      assert s[1..] == file;
      PiecesWithoutSlash(file, []);
      assert [] + file == file;
    } else {
      assert s[1..] == a[1..] + [SLASH] + file;
      if a[0] == SLASH {
        PiecesThenFile(a[1..], [], file);
        assert [curr] + (PiecesFrom(a[1..], []) + [file]) == [curr] + PiecesFrom(a[1..], []) + [file];
      } else {
        PiecesThenFile(a[1..], curr + [a[0]], file);
      }
    }
  }

  /** A trailing slash ends the last piece and is dropped. */
  lemma ComponentsOfDirectory(s: seq<byte>)
    ensures Components(s + [SLASH]) == PiecesFrom(s, [])
  {
    PiecesThenFile(s, [], []);
    assert s + [SLASH] + [] == s + [SLASH];
    assert (PiecesFrom(s, []) + [[]])[..|PiecesFrom(s, [])|] == PiecesFrom(s, []);
  }

  lemma {:induction false} LastPiece(s: seq<byte>, curr: seq<byte>)
    requires s != [] && s[|s| - 1] != SLASH
    ensures var ps := PiecesFrom(s, curr); ps[|ps| - 1] != []
    decreases |s|
  {
    if |s| == 1 {
      assert PiecesFrom(s, curr) == PiecesFrom([], curr + [s[0]]);
    } else if s[0] == SLASH {
      LastPiece(s[1..], []);
    } else {
      LastPiece(s[1..], curr + [s[0]]);
    }
  }

  /** A directory path with and without one trailing slash has the same components. */
  lemma TrailingSlash(s: seq<byte>)
    requires s != [] && s[|s| - 1] != SLASH
    ensures Components(s + [SLASH]) == Components(s)
  {
    ComponentsOfDirectory(s);
    LastPiece(s, []);
  }

  lemma {:induction false} PiecesAreSplit(s: seq<byte>, curr: seq<byte>)
    ensures PiecesFrom(s, curr) == Pieces.SplitFrom(s, SLASH, false, false, curr)
    ensures forall q: bool ::
              Pieces.SplitFrom(s, SLASH, false, q, curr) == Pieces.SplitFrom(s, SLASH, false, false, curr)
    decreases |s|
  {
    if s != [] {
      PiecesAreSplit(s[1..], []);
      PiecesAreSplit(s[1..], curr + [s[0]]);
    }
  }

  lemma {:induction false} PiecesHaveNoSlash(s: seq<byte>, curr: seq<byte>)
    requires SLASH !in curr
    ensures forall k :: 0 <= k < |PiecesFrom(s, curr)| ==> SLASH !in PiecesFrom(s, curr)[k]
    decreases |s|
  {
    if s != [] {
      if s[0] == SLASH {
        PiecesHaveNoSlash(s[1..], []);
      } else {
        PiecesHaveNoSlash(s[1..], curr + [s[0]]);
      }
    }
  }

  /** The names of an absolute path, joined with slashes, are the path, and none has a slash:
      so empty names between two slashes count. */
  lemma FullPathLaw(path: seq<byte>)
    requires path != [] && path[0] == SLASH
    ensures [SLASH] + Pieces.Join(FullPath(path), SLASH) == path
    ensures forall k :: 0 <= k < |FullPath(path)| ==> SLASH !in FullPath(path)[k]
  {
    hide PiecesFrom;
    PiecesAreSplit(path[1..], []);
    Pieces.JoinSplitFrom(path[1..], SLASH, false, false, []);
    PiecesHaveNoSlash(path[1..], []);
  }

  /** A directory path has the same names, but for one last empty one. */
  lemma ComponentsLaw(path: seq<byte>)
    requires path != [] && path[0] == SLASH
    ensures var names, full := Components(path[1..]), FullPath(path);
            if path[|path| - 1] == SLASH then names + [[]] == full else names == full
  {
    hide PiecesFrom;
    var s := path[1..];
    if s == [] {
      NoComponents();
    } else if s[|s| - 1] == SLASH {
      var init := s[..|s| - 1];
      assert init + [SLASH] == s;
      ComponentsOfDirectory(init);
      assert init + [SLASH] + [] == s;
      PiecesThenFile(init, [], []);
    } else {
      LastPiece(s, []);
    }
  }

  lemma NoComponents()
    ensures Components([]) == [] && PiecesFrom([], []) == [[]] && [] + PiecesFrom([], []) == [[]]
  {
  }

  /** Cutting an absolute path at its last slash: the directory part has the components
      of the whole path but the last, which is the file name. */
  lemma CutAtLastSlash(path: seq<byte>, last: nat)
    requires path != [] && path[0] == SLASH
    requires last < |path| && path[last] == SLASH && SLASH !in path[last + 1..]
    ensures FullPath(path) == Components(path[..last + 1][1..]) + [path[last + 1..]]
  {
    var file := path[last + 1..];
    if last == 0 {
      assert path[..1][1..] == [];
      PiecesWithoutSlash(path[1..], []);
      assert [] + path[1..] == path[1..];
    } else {
      var a := path[1..last];
      assert path[1..] == a + [SLASH] + file;
      assert path[..last + 1][1..] == a + [SLASH];
      PiecesThenFile(a, [], file);
      ComponentsOfDirectory(a);
    }
  }

  /** parse_path and Path: the directory part ends with the last slash. */
  method ParsePath(path: seq<byte>) returns (dirPath: seq<byte>, filename: seq<byte>)
    requires path != [] && path[0] == SLASH
    ensures dirPath + filename == path
    ensures dirPath != [] && dirPath[0] == SLASH
    ensures FullPath(path) == Components(dirPath[1..]) + [filename]
  {
    var i, lastSlash := 0, 0;
    while i < |path|
      invariant i <= |path| && lastSlash < |path| && path[lastSlash] == SLASH
      invariant i == 0 ==> lastSlash == 0
      invariant i > 0 ==> lastSlash < i && SLASH !in path[lastSlash + 1..i]
    {
      if path[i] == SLASH {
        lastSlash := i;
      }
      i := i + 1;
    }
    assert path[lastSlash + 1..i] == path[lastSlash + 1..];
    CutAtLastSlash(path, lastSlash);
    return path[..lastSlash + 1], path[lastSlash + 1..];
  }
}
