// Reading the flat view command by command: one read call never crosses a command boundary,
// and repeated calls return the whole view.
module FlatReads {
  import opened Bytes

  /** What one read of at most `count` bytes at position p returns. */
  function Piece(cmds: seq<seq<byte>>, p: nat, count: nat): seq<byte>
    decreases |cmds|
  {
    if cmds == [] then []
    else if p < |cmds[0]| then cmds[0][p..p + Min(count, |cmds[0]| - p)]
    else Piece(cmds[1..], p - |cmds[0]|, count)
  }

  /** The piece is the slice of the flat view at p, empty only at the end or for a zero count. */
  lemma {:induction false} PieceIsSlice(cmds: seq<seq<byte>>, p: nat, count: nat)
    ensures var flat, piece := Concat(cmds), Piece(cmds, p, count);
            && |piece| <= count
            && (piece == [] <==> p >= |flat| || count == 0)
            && (p <= |flat| ==> p + |piece| <= |flat| && piece == flat[p..p + |piece|])
    decreases |cmds|
  {
    if cmds != [] && p >= |cmds[0]| {
      PieceIsSlice(cmds[1..], p - |cmds[0]|, count);
    }
  }

  lemma {:induction false} OffsetShift(cmds: seq<seq<byte>>, k: nat)
    requires 0 < k <= |cmds|
    ensures Offset(cmds, k) == |cmds[0]| + Offset(cmds[1..], k - 1)
  {
    if k > 1 {
      OffsetShift(cmds, k - 1);
    }
  }

  /** Inside command k the piece ends at the command's end at the latest. */
  lemma {:induction false} PieceStaysInCommand(cmds: seq<seq<byte>>, k: nat, off: nat, count: nat)
    requires k < |cmds| && off < |cmds[k]|
    ensures Piece(cmds, Offset(cmds, k) + off, count) == cmds[k][off..off + Min(count, |cmds[k]| - off)]
    decreases |cmds|
  {
    if k > 0 {
      OffsetShift(cmds, k);
      PieceStaysInCommand(cmds[1..], k - 1, off, count);
    }
  }

  /** The pieces that successive reads return, each starting where the one before ended. */
  function Pieces(cmds: seq<seq<byte>>, p: nat, counts: seq<nat>): seq<seq<byte>>
    decreases |counts|
  {
    if counts == [] then []
    else
      var piece := Piece(cmds, p, counts[0]);
      [piece] + Pieces(cmds, p + |piece|, counts[1..])
  }

  /** Any positive counts deliver the view in order, and enough of them deliver all of it;
      every read before the end strictly shortens what is left. */
  lemma {:induction false} ReadLoopDeliversView(cmds: seq<seq<byte>>, p: nat, counts: seq<nat>)
    requires p <= |Concat(cmds)|
    requires forall i :: 0 <= i < |counts| ==> counts[i] > 0
    ensures var flat, got := Concat(cmds), Concat(Pieces(cmds, p, counts));
            && p + |got| <= |flat| && got == flat[p..p + |got|]
            && (|counts| >= |flat| - p ==> got == flat[p..])
            && |got| >= Min(|counts|, |flat| - p)
    decreases |counts|
  {
    hide Piece, Concat, Pieces;
    PiecesUnrolled(cmds, p, counts);
    if counts != [] {
      var piece := Piece(cmds, p, counts[0]);
      PieceIsSlice(cmds, p, counts[0]);
      ReadLoopDeliversView(cmds, p + |piece|, counts[1..]);
      SliceThenSlice(Concat(cmds), p, |piece|, |Concat(Pieces(cmds, p + |piece|, counts[1..]))|);
    }
  }

  lemma PiecesUnrolled(cmds: seq<seq<byte>>, p: nat, counts: seq<nat>)
    ensures var got := Concat(Pieces(cmds, p, counts));
            if counts == [] then got == []
            else
              var piece := Piece(cmds, p, counts[0]);
              got == piece + Concat(Pieces(cmds, p + |piece|, counts[1..]))
  {
    hide Piece;
    if counts != [] {
      var piece := Piece(cmds, p, counts[0]);
      assert Pieces(cmds, p, counts)[1..] == Pieces(cmds, p + |piece|, counts[1..]);
    }
  }

  lemma SliceThenSlice(s: seq<byte>, p: nat, a: nat, b: nat)
    requires p + a + b <= |s|
    ensures s[p..p + a] + s[p + a..p + a + b] == s[p..p + a + b]
  {
  }
}
