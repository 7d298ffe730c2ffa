/** Where the pieces of a block and its restart points lie, whatever the pieces hold. */
module BlockLayout {
  import opened Options
  import opened Bytes
  import opened Sequences
  import opened BlockFormat

  // --- opening -----------------------------------------------------------------------------------------------

  function ReadPoints(data: Bytes, from: nat, n: nat): (points: seq<nat>)
    requires from + 4 * n <= |data|
    ensures |points| == n && forall i :: 0 <= i < n ==>
      points[i] == FromLittleEndian(data[from + 4 * i..from + 4 * i + 4])
  {
    seq(n, i requires 0 <= i < n => FromLittleEndian(data[from + 4 * i..from + 4 * i + 4]))
  }

  /** None for a block that is too short, fails its checksum, or claims more restart points than it has room for. */
  function Open(hash: Hash, data: Bytes): Option<Reader> {
    if |data| < FOOTER_SIZE then None
    else
      var footer := |data| - FOOTER_SIZE;
      var n := FromLittleEndian(data[footer..footer + 4]);
      if hash(data[..|data| - 8]) != FromLittleEndian(data[footer + 4..]) then None
      else if footer - n * 4 < 0 then None
      else Some(Reader(data, ReadPoints(data, footer - n * 4, n)))
  }

  /**
    A block is opened exactly when its last eight bytes are the checksum of all the others and it has room for
    the restart points it claims: any other checksum is refused.
  */
  lemma OpensExactly(hash: Hash, data: Bytes)
    ensures Open(hash, data).Some? <==>
      && |data| >= FOOTER_SIZE && data == data[..|data| - 8] + LittleEndian(hash(data[..|data| - 8]), 8)
      && FOOTER_SIZE + 4 * FromLittleEndian(data[|data| - 12..|data| - 8]) <= |data|
  {
    if |data| >= FOOTER_SIZE {
      var body, check := data[..|data| - 8], data[|data| - 8..];
      Widths();
      FromLittleEndianRoundTrip(check);
      LittleEndianRoundTrip(hash(body), 8);
      assert data == body + check && |check| == 8;
      if data == body + LittleEndian(hash(body), 8) {
        assert data[|data| - 8..] == LittleEndian(hash(body), 8);
      }
    }
  }

  function ReaderOf(hash: Hash, pieces: seq<Bytes>): Reader {
    Reader(Block(hash, pieces), Restarts(pieces, |pieces|))
  }

  ghost predicate Solid(pieces: seq<Bytes>) {
    forall i :: 0 <= i < |pieces| ==> pieces[i] != []
  }

  lemma {:induction false} RestartBytesAt(points: seq<nat>, i: nat)
    requires i < |points|
    ensures RestartBytes(points)[4 * i..4 * i + 4] == LittleEndian(points[i], 4)
  {
    var n := |points| - 1;
    if i < n {
      RestartBytesAt(points[..n], i);
    }
  }

  lemma OffsetStep(pieces: seq<Bytes>, n: nat)
    requires n < |pieces|
    ensures Concat(pieces[..n + 1]) == Concat(pieces[..n]) + pieces[n]
    ensures Offset(pieces, n + 1) == Offset(pieces, n) + |pieces[n]|
  {
    assert pieces[..n + 1] == pieces[..n] + [pieces[n]];
    ConcatSnoc(pieces[..n], pieces[n]);
  }

  lemma {:induction false} RestartsBelow(pieces: seq<Bytes>, n: nat)
    requires n <= |pieces| && Solid(pieces)
    ensures |Restarts(pieces, n)| <= n
    ensures forall i :: 0 <= i < |Restarts(pieces, n)| ==> Restarts(pieces, n)[i] < Offset(pieces, n)
  {
    if n > 0 {
      RestartsBelow(pieces, n - 1);
      OffsetStep(pieces, n - 1);
    }
  }

  lemma FooterParts(pieces: seq<Bytes>, hash: Hash)
    ensures var block, footer := Block(hash, pieces), |Concat(pieces)| + 4 * |Restarts(pieces, |pieces|)|;
      && |block| == footer + FOOTER_SIZE
      && block[..|block| - 8] == Body(pieces)
      && block[footer + 4..] == LittleEndian(hash(Body(pieces)), 8)
      && block[footer..footer + 4] == LittleEndian(|Restarts(pieces, |pieces|)|, 4)
      && block[|Concat(pieces)|..footer] == RestartBytes(Restarts(pieces, |pieces|))
  {
  }

  lemma PointReads(data: Bytes, from: nat, table: Bytes, at: nat, point: nat)
    requires from + |table| <= |data| && data[from..from + |table|] == table && at + 4 <= |table|
    requires point < TWO_32 && table[at..at + 4] == LittleEndian(point, 4)
    ensures FromLittleEndian(data[from + at..from + at + 4]) == point
  {
    var here := data[from + at..from + at + 4];
    forall k | 0 <= k < 4 ensures here[k] == table[at..at + 4][k] {
      assert data[from..from + |table|][at + k] == data[from + at + k];
    }
    assert here == table[at..at + 4];
    Width4(point);
  }

  ghost predicate HoldsPoint(table: Bytes, points: seq<nat>, i: nat) {
    i < |points| && |table| == 4 * |points| && table[4 * i..4 * i + 4] == LittleEndian(points[i], 4)
  }

  lemma PointsRead(data: Bytes, from: nat, table: Bytes, points: seq<nat>)
    requires from + |table| <= |data| && data[from..from + |table|] == table && |table| == 4 * |points|
    requires forall i :: 0 <= i < |points| ==> points[i] < TWO_32 && HoldsPoint(table, points, i)
    ensures ReadPoints(data, from, |points|) == points
  {
    forall i | 0 <= i < |points| ensures ReadPoints(data, from, |points|)[i] == points[i] {
      assert HoldsPoint(table, points, i);
      PointReads(data, from, table, 4 * i, points[i]);
    }
  }

  lemma FooterSlices(data: Bytes, table: Bytes, count: Bytes, check: Bytes, block: Bytes)
    requires block == data + table + count + check && |count| == 4 && |check| == 8
    ensures var footer := |data| + |table|;
      && |block| == footer + FOOTER_SIZE && block[..|block| - 8] == data + table + count
      && block[footer..footer + 4] == count && block[footer + 4..] == check && block[|data|..footer] == table
  {
  }

  /** A block made of any data, a table of points, their number and the checksum opens to those points. */
  lemma PartsOpen(hash: Hash, data: Bytes, table: Bytes, points: seq<nat>, count: Bytes, check: Bytes, block: Bytes)
    requires block == data + table + count + check && |count| == 4 && |check| == 8
    requires FromLittleEndian(count) == |points| && FromLittleEndian(check) == hash(data + table + count)
    requires |table| == 4 * |points|
    requires forall i :: 0 <= i < |points| ==> points[i] < TWO_32 && HoldsPoint(table, points, i)
    ensures Open(hash, block) == Some(Reader(block, points))
  {
    FooterSlices(data, table, count, check, block);
    PointsRead(block, |data|, table, points);
  }

  /** Opening a written block finds exactly the restart points of its pieces. */
  lemma BlockOpens(hash: Hash, pieces: seq<Bytes>)
    requires |Block(hash, pieces)| < TWO_32 && Solid(pieces)
    ensures Open(hash, Block(hash, pieces)) == Some(ReaderOf(hash, pieces))
  {
    var points := Restarts(pieces, |pieces|);
    RestartsBelow(pieces, |pieces|);
    assert pieces[..|pieces|] == pieces;
    forall i | 0 <= i < |points| ensures HoldsPoint(RestartBytes(points), points, i) {
      RestartBytesAt(points, i);
    }
    Widths();
    Width4(|points|);
    LittleEndianRoundTrip(hash(Body(pieces)), 8);
    PartsOpen(hash, Concat(pieces), RestartBytes(points), points,
              LittleEndian(|points|, 4), LittleEndian(hash(Body(pieces)), 8), Block(hash, pieces));
  }

  // --- offsets ---------------------------------------------------------------------------------------------------

  lemma {:induction false} OffsetsAscend(pieces: seq<Bytes>, i: nat, j: nat)
    requires i <= j <= |pieces|
    ensures Offset(pieces, i) <= Offset(pieces, j) && Concat(pieces[..j])[..Offset(pieces, i)] == Concat(pieces[..i])
    ensures i < j && Solid(pieces) ==> Offset(pieces, i) < Offset(pieces, j)
    decreases j - i
  {
    if i < j {
      OffsetsAscend(pieces, i, j - 1);
      OffsetStep(pieces, j - 1);
    }
  }

  /** A piece's offset is a restart point exactly when the piece was written in full. */
  lemma {:induction false} RestartMember(pieces: seq<Bytes>, n: nat, i: nat)
    requires i < n <= |pieces| && Solid(pieces)
    ensures Offset(pieces, i) in Restarts(pieces, n) <==> i % RESTART_INTERVAL == 0
  {
    RestartsBelow(pieces, n - 1);
    if i < n - 1 {
      RestartMember(pieces, n - 1, i);
      OffsetsAscend(pieces, i, n - 1);
    }
  }

  lemma {:induction false} LastRestart(pieces: seq<Bytes>, n: nat)
    requires 0 < n <= |pieces|
    ensures Restarts(pieces, n) != []
    ensures Restarts(pieces, n)[|Restarts(pieces, n)| - 1] == Offset(pieces, n - 1 - (n - 1) % RESTART_INTERVAL)
  {
    if (n - 1) % RESTART_INTERVAL != 0 {
      LastRestart(pieces, n - 1);
    }
  }

  lemma DataEndsThere(hash: Hash, pieces: seq<Bytes>)
    ensures DataEnd(ReaderOf(hash, pieces)) == Offset(pieces, |pieces|)
  {
    FooterParts(pieces, hash);
    assert pieces[..|pieces|] == pieces;
  }

  /** From a piece's offset on, the block starts with that piece. */
  lemma PieceAt(hash: Hash, pieces: seq<Bytes>, i: nat) returns (tail: Bytes)
    requires i < |pieces| && Solid(pieces)
    ensures Offset(pieces, i) < DataEnd(ReaderOf(hash, pieces)) <= |Block(hash, pieces)|
    ensures Block(hash, pieces)[Offset(pieces, i)..] == pieces[i] + tail
  {
    var block, at, next := Block(hash, pieces), Offset(pieces, i), Offset(pieces, i + 1);
    DataEndsThere(hash, pieces);
    OffsetsAscend(pieces, i, |pieces|);
    OffsetsAscend(pieces, i + 1, |pieces|);
    OffsetStep(pieces, i);
    tail := block[next..];
    assert pieces[..|pieces|] == pieces;
    BlockStarts(hash, pieces, next);
    assert block[at..next] == block[..next][at..];
    assert block[at..] == block[at..next] + block[next..];
  }

  lemma BlockStarts(hash: Hash, pieces: seq<Bytes>, n: nat)
    requires n <= |Concat(pieces)|
    ensures n <= |Block(hash, pieces)| && Block(hash, pieces)[..n] == Concat(pieces)[..n]
  {
  }
}
