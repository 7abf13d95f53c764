/** Cutting a sequence at its newlines, as `str::lines`, `BufRead::lines` and `read_line` do. */
module Lines {

  /** `p` in front of the first piece, or as the only one. */
  function JoinFirst<T>(p: seq<T>, pieces: seq<seq<T>>): seq<seq<T>> {
    if pieces == [] then [p] else [p + pieces[0]] + pieces[1..]
  }

  /** The pieces of `s`, each ending just after a newline except possibly the last. */
  function Chunks<T(==)>(s: seq<T>, nl: T): (pieces: seq<seq<T>>)
    ensures s != [] <==> pieces != []
  {
    if s == [] then []
    else if s[0] == nl then [[nl]] + Chunks(s[1..], nl)
    else JoinFirst([s[0]], Chunks(s[1..], nl))
  }

  function Flatten<T>(pieces: seq<seq<T>>): seq<T> {
    if pieces == [] then [] else pieces[0] + Flatten(pieces[1..])
  }

  /** A piece without its line ending, which is a newline or a carriage return and a newline. */
  function StripEnding<T(==)>(piece: seq<T>, nl: T, cr: T): seq<T> {
    if piece == [] || piece[|piece| - 1] != nl then piece
    else if |piece| > 1 && piece[|piece| - 2] == cr then piece[..|piece| - 2]
    else piece[..|piece| - 1]
  }

  /** The last `n` elements, or all of them. */
  function LastN<T>(s: seq<T>, n: nat): seq<T> {
    if |s| <= n then s else s[|s| - n..]
  }

  function Count<T(==)>(s: seq<T>, x: T): nat {
    if s == [] then 0 else (if s[0] == x then 1 else 0) + Count(s[1..], x)
  }

  function Map<T, U>(s: seq<T>, f: T -> U): (r: seq<U>)
    ensures |r| == |s| && forall i :: 0 <= i < |s| ==> r[i] == f(s[i])
  {
    seq(|s|, i requires 0 <= i < |s| => f(s[i]))
  }

  lemma {:induction false} FlattenChunks<T>(s: seq<T>, nl: T)
    ensures Flatten(Chunks(s, nl)) == s
  {
    if s != [] {
      FlattenChunks(s[1..], nl);
      var rest := Chunks(s[1..], nl);
      if s[0] == nl || rest == [] {
        assert ([[s[0]]] + rest)[1..] == rest;
      } else {
        assert ([[s[0]] + rest[0]] + rest[1..])[1..] == rest[1..];
        assert [s[0]] + rest[0] + Flatten(rest[1..]) == [s[0]] + Flatten(rest);
      }
    }
  }

  lemma {:induction false} FlattenAppend<T>(chunks: seq<seq<T>>, chunk: seq<T>)
    ensures Flatten(chunks + [chunk]) == Flatten(chunks) + chunk
  {
    if chunks == [] {
      assert Flatten([chunk]) == chunk + Flatten([chunk][1..]) == chunk;
    } else {
      assert (chunks + [chunk])[1..] == chunks[1..] + [chunk];
      FlattenAppend(chunks[1..], chunk);
    }
  }

  lemma {:induction false} FlattenConcat<T>(a: seq<seq<T>>, b: seq<seq<T>>)
    ensures Flatten(a + b) == Flatten(a) + Flatten(b)
  {
    if a == [] {
      assert a + b == b;
    } else {
      assert (a + b)[1..] == a[1..] + b;
      FlattenConcat(a[1..], b);
    }
  }

  /** Pieces are not empty, and a newline stands only at the end of a piece. */
  lemma {:induction false} PieceShape<T>(s: seq<T>, nl: T, k: nat)
    requires k < |Chunks(s, nl)|
    ensures var p := Chunks(s, nl)[k];
            && p != [] && nl !in p[..|p| - 1]
            && (k < |Chunks(s, nl)| - 1 ==> p[|p| - 1] == nl)
  {
    var rest := Chunks(s[1..], nl);
    if s[0] == nl || rest == [] {
      if k > 0 {
        PieceShape(s[1..], nl, k - 1);
      }
    } else if k > 0 {
      PieceShape(s[1..], nl, k);
    } else {
      PieceShape(s[1..], nl, 0);
      var p := [s[0]] + rest[0];
      assert p[..|p| - 1] == [s[0]] + rest[0][..|rest[0]| - 1];
    }
  }

  /** Cutting where a newline has just passed splits the pieces in two. */
  lemma {:induction false} ChunksSplit<T>(a: seq<T>, b: seq<T>, nl: T)
    requires a == [] || a[|a| - 1] == nl
    ensures Chunks(a + b, nl) == Chunks(a, nl) + Chunks(b, nl)
  {
    if a == [] {
      assert a + b == b;
    } else {
      assert (a + b)[1..] == a[1..] + b;
      ChunksSplit(a[1..], b, nl);
      var rest, tail := Chunks(a[1..], nl), Chunks(b, nl);
      if a[0] == nl {
        assert [[a[0]]] + (rest + tail) == [[a[0]]] + rest + tail;
      } else {
        assert |a| > 1;
        assert [[a[0]] + (rest + tail)[0]] + (rest + tail)[1..] == [[a[0]] + rest[0]] + rest[1..] + tail;
      }
    }
  }

  /** There is one piece, and one more for every newline before the last position. */
  lemma {:induction false} ChunkCount<T>(s: seq<T>, nl: T)
    requires s != []
    ensures |Chunks(s, nl)| == 1 + Count(s[..|s| - 1], nl)
  {
    if |s| > 1 {
      ChunkCount(s[1..], nl);
      assert s[..|s| - 1] == [s[0]] + s[1..][..|s[1..]| - 1];
    }
  }

  lemma {:induction false} CountConcat<T>(a: seq<T>, b: seq<T>, x: T)
    ensures Count(a + b, x) == Count(a, x) + Count(b, x)
  {
    if a == [] {
      assert a + b == b;
    } else {
      assert (a + b)[1..] == a[1..] + b;
      CountConcat(a[1..], b, x);
    }
  }

  lemma MapBack<T, U>(s: seq<T>, f: T -> U)
    requires s != []
    ensures Map(s, f) == Map(s[..|s| - 1], f) + [f(s[|s| - 1])]
  {
  }

  lemma MapLastN<T, U>(s: seq<T>, n: nat, f: T -> U)
    ensures Map(LastN(s, n), f) == LastN(Map(s, f), n)
  {
  }

  /** The first piece is a prefix, and what follows it is cut by itself. */
  lemma FirstPiece<T>(s: seq<T>, nl: T)
    requires s != []
    ensures var p := Chunks(s, nl)[0];
            p <= s && Chunks(s, nl) == [p] + Chunks(s[|p|..], nl)
  {
    var pieces := Chunks(s, nl);
    var p := pieces[0];
    FlattenChunks(s, nl);
    PieceShape(s, nl, 0);
    assert s == p + Flatten(pieces[1..]);
    if |pieces| == 1 {
      assert Flatten(pieces[1..]) == [];
    } else {
      OnePiece(p, nl);
      ChunksSplit(p, s[|p|..], nl);
      assert s == p + s[|p|..];
    }
  }

  lemma {:induction false} OnePiece<T>(p: seq<T>, nl: T)
    requires p != [] && nl !in p[..|p| - 1]
    ensures Chunks(p, nl) == [p]
  {
    if |p| == 1 {
      assert p == [p[0]];
    } else {
      assert p[..|p| - 1] == [p[0]] + p[1..][..|p[1..]| - 1];
      OnePiece(p[1..], nl);
      assert [p[0]] + p[1..] == p;
    }
  }

  /** The text of the last pieces is cut into those pieces again. */
  lemma {:induction false} ChunksOfSuffix<T>(s: seq<T>, nl: T, k: nat)
    requires k <= |Chunks(s, nl)|
    ensures Chunks(Flatten(Chunks(s, nl)[k..]), nl) == Chunks(s, nl)[k..]
    decreases k
  {
    if k == 0 {
      assert Chunks(s, nl)[0..] == Chunks(s, nl);
      FlattenChunks(s, nl);
    } else {
      FirstPiece(s, nl);
      var p := Chunks(s, nl)[0];
      assert Chunks(s, nl)[k..] == Chunks(s[|p|..], nl)[k - 1..];
      ChunksOfSuffix(s[|p|..], nl, k - 1);
    }
  }

  lemma ChunksOfLastN<T>(s: seq<T>, nl: T, n: nat)
    ensures Chunks(Flatten(LastN(Chunks(s, nl), n)), nl) == LastN(Chunks(s, nl), n)
  {
    var pieces := Chunks(s, nl);
    ChunksOfSuffix(s, nl, if |pieces| <= n then 0 else |pieces| - n);
    assert pieces[0..] == pieces;
  }

  lemma NewlineFirst<T>(s: seq<T>, nl: T)
    ensures Chunks([nl] + s, nl) == [[nl]] + Chunks(s, nl)
  {
    assert ([nl] + s)[1..] == s;
  }

  lemma MapFront<T, U>(x: T, s: seq<T>, f: T -> U)
    ensures Map([x] + s, f) == [f(x)] + Map(s, f)
  {
  }

  lemma JoinFirstTwice<T>(p: seq<T>, q: seq<T>, pieces: seq<seq<T>>)
    ensures JoinFirst(p, JoinFirst(q, pieces)) == JoinFirst(p + q, pieces)
  {
    if pieces != [] {
      assert p + (q + pieces[0]) == (p + q) + pieces[0];
    }
  }

  /** Text without a newline joins the piece that follows it. */
  lemma {:induction false} PrependPlain<T>(p: seq<T>, s: seq<T>, nl: T)
    requires p != [] && nl !in p
    ensures Chunks(p + s, nl) == JoinFirst(p, Chunks(s, nl))
  {
    var x, rest := p[0], p[1..];
    assert p == [x] + rest && (p + s)[1..] == rest + s;
    if rest == [] {
      assert p == [x] && rest + s == s;
    } else {
      PrependPlain(rest, s, nl);
      JoinFirstTwice([x], rest, Chunks(s, nl));
    }
  }
}
