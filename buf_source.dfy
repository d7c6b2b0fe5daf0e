/** The readable source that `put` pulls from: the three capabilities of the
    `bytes` crate's `Buf` that `put` uses (`has_remaining`/`remaining`,
    `chunk`, `advance`), over data held as a sequence of contiguous,
    non-empty chunks. A byte slice `&[u8]` is the one-chunk case. */
module BufSource {
  import opened Primitives

  /** The bytes of all chunks, in order. */
  function Flatten(pieces: seq<seq<u8>>): (r: seq<u8>)
  {
    if pieces == [] then [] else pieces[0] + Flatten(pieces[1..])
  }

  /** Dropping `k` bytes that lie inside the first chunk drops them from the
      flattened data. */
  lemma FlattenDropInFirst(pieces: seq<seq<u8>>, k: nat)
    requires pieces != [] && k <= |pieces[0]|
    ensures Flatten([pieces[0][k..]] + pieces[1..]) == Flatten(pieces)[k..]
  {
  }

  /** Dropping whole chunks from the front drops exactly their bytes. */
  lemma {:induction false} FlattenDropChunks(pieces: seq<seq<u8>>, j: nat)
    requires j <= |pieces|
    ensures |Flatten(pieces[..j])| <= |Flatten(pieces)|
    ensures Flatten(pieces[j..]) == Flatten(pieces)[|Flatten(pieces[..j])|..]
  {
    if j > 0 {
      FlattenDropChunks(pieces[1..], j - 1);
      assert pieces[1..][j - 1..] == pieces[j..];
      assert pieces[..j][1..] == pieces[1..][..j - 1];
      assert pieces[..j][0] == pieces[0];
    } else {
      assert pieces[..0] == [];
      assert pieces[0..] == pieces;
    }
  }

  class ChunkedSource {
    /** The data not yet consumed, as the chunks `chunk` will hand out. */
    var pieces: seq<seq<u8>>

    /** A `Buf` never hands out an empty chunk while data remains. */
    ghost predicate Valid()
      reads this
    {
      forall i :: 0 <= i < |pieces| ==> |pieces[i]| > 0
    }

    /** All remaining bytes, in order. */
    function Bytes(): seq<u8>
      reads this
    {
      Flatten(pieces)
    }

    constructor (pieces: seq<seq<u8>>)
      requires forall i :: 0 <= i < |pieces| ==> |pieces[i]| > 0
      ensures Valid() && this.pieces == pieces
    {
      this.pieces := pieces;
    }

    /** `Buf::remaining`. */
    function Remaining(): (r: nat)
      reads this
      ensures r == |Bytes()|
    {
      |Flatten(pieces)|
    }

    /** `Buf::has_remaining`. */
    function HasRemaining(): (r: bool)
      reads this
      requires Valid()
      ensures r <==> Bytes() != []
    {
      pieces != []
    }

    /** `Buf::chunk`: a prefix of the remaining bytes, non-empty exactly when
        some bytes remain. */
    function Chunk(): (c: seq<u8>)
      reads this
      requires Valid()
      ensures |c| <= |Bytes()| && c == Bytes()[..|c|]
      ensures |c| > 0 <==> Bytes() != []
    {
      if pieces == [] then [] else pieces[0]
    }

    /** `Buf::advance`: consumes `cnt` bytes from the front. */
    method Advance(cnt: nat)
      requires Valid() && cnt <= Remaining()
      modifies this
      ensures Valid()
      ensures Bytes() == old(Bytes())[cnt..]
    {
      var ps, left: nat, j := pieces, cnt, 0;
      while j < |ps| && |ps[j]| <= left
        invariant j <= |ps|
        invariant |Flatten(ps[..j])| + left == cnt
        decreases |ps| - j
      {
        assert ps[..j + 1] == ps[..j] + [ps[j]];
        FlattenConcat(ps[..j], [ps[j]]);
        assert Flatten([ps[j]]) == ps[j] by {
          assert [ps[j]][1..] == [];
        }
        left := left - |ps[j]|;
        j := j + 1;
      }
      FlattenDropChunks(ps, j);
      var rest := ps[j..];
      if left > 0 {
        // some bytes remain, so the loop stopped inside a chunk
        assert ps[..|ps|] == ps;
        FlattenDropInFirst(rest, left);
        pieces := [rest[0][left..]] + rest[1..];
      } else {
        pieces := rest;
      }
    }
  }

  lemma {:induction false} FlattenConcat(a: seq<seq<u8>>, b: seq<seq<u8>>)
    ensures Flatten(a + b) == Flatten(a) + Flatten(b)
  {
    if a != [] {
      FlattenConcat(a[1..], b);
      assert (a + b)[1..] == a[1..] + b;
    } else {
      assert a + b == b;
    }
  }
}
