/** Why the temporary file of a complete session is the uploaded file. */
module Assembly {
  import opened Wrappers
  import opened FileTree
  import opened ChunkedUpload

  /** The bytes of file d that belong to chunk i of size c. */
  ghost function ChunkOf(d: Bytes, c: int, i: nat): Bytes
    requires c > 0 && i * c <= |d|
  {
    d[i * c..if i * c + c <= |d| then i * c + c else |d|]
  }

  /** Whatever of chunk i the bytes leave out is zero in d, and is not the end of d. */
  ghost predicate Fills(d: Bytes, c: int, i: nat, bytes: Bytes)
    requires c > 0
  {
    forall k :: 0 <= k < |d| && k / c == i && i * c + |bytes| <= k ==> d[k] == 0 && k != |d| - 1
  }

  /**
   A body that can do no harm: it carries bytes of d from the start of its chunk on, as many as it likes,
   and when it ends well it carries its whole chunk, or all but zeros before the end of d.
   */
  ghost predicate Honest(d: Bytes, total: int, c: int, index: int, body: Body)
    requires c > 0
  {
    0 <= index < total ==>
      index * c <= |d| && body.bytes <= d[index * c..] && (body.ok ==> Fills(d, c, index, body.bytes))
  }

  /** Position k reads as in d, where bytes past the end of the file read as zeros, and the end is there. */
  ghost predicate Placed(d: Bytes, temp: Bytes, k: nat)
    requires k < |d|
  {
    (if k < |temp| then temp[k] else 0) == d[k] && (k == |d| - 1 ==> k < |temp|)
  }

  /** Every byte is that of d or still zero, nothing lies beyond the end, and received chunks are in place. */
  ghost predicate InPlace(d: Bytes, c: int, received: seq<bool>, temp: Bytes)
    requires c > 0
  {
    && |temp| <= |d|
    && (forall k :: 0 <= k < |temp| ==> temp[k] == d[k] || temp[k] == 0)
    && forall k :: 0 <= k < |d| && 0 <= k / c < |received| && received[k / c] ==> Placed(d, temp, k)
  }

  /** The counter agrees with the bitmap. */
  ghost predicate Counted(u: Upload) {
    |u.received| == u.totalChunks && u.receivedChunks == CountTrue(u.received)
  }

  ghost predicate Agrees(d: Bytes, u: Upload) {
    && u.chunkSize > 0 && u.fileSize == |d| && Covers(u.totalChunks, u.chunkSize, |d|)
    && Counted(u)
    && (u.temp.Some? ==> InPlace(d, u.chunkSize, u.received, u.temp.value))
  }

  /** Position k lies in chunk k / c, and in no other. */
  lemma ChunkOfPosition(k: nat, c: int, i: nat)
    requires c > 0
    ensures k / c == i <==> i * c <= k < i * c + c
  {
    DivisionBounds(k, c);
    assert (k / c + 1) * c == k / c * c + c;
    if k / c < i {
      OrderedProducts(k / c + 1, i, c);
    } else if i < k / c {
      OrderedProducts(i + 1, k / c, c);
      assert (i + 1) * c == i * c + c;
    }
  }

  /** Byte k after a write of bytes of d at the start of chunk i. */
  lemma WrittenByte(d: Bytes, c: int, temp: Bytes, i: nat, bytes: Bytes, w: Bytes, k: nat)
    requires c > 0 && |temp| <= |d| && i * c <= |d| && bytes <= d[i * c..]
    requires IsWritten(temp, i * c, bytes, w) && k < |d|
    requires k < |temp| ==> temp[k] == d[k] || temp[k] == 0
    ensures k < |w| ==> w[k] == d[k] || w[k] == 0
    ensures Placed(d, temp, k) ==> Placed(d, w, k)
    ensures k / c == i && Fills(d, c, i, bytes) ==> Placed(d, w, k)
  {
    ChunkOfPosition(k, c, i);
    if i * c <= k < i * c + |bytes| {
      assert w[k] == bytes[k - i * c] == d[i * c..][k - i * c];
    }
  }

  lemma WrittenInPlace(d: Bytes, c: int, received: seq<bool>, temp: Bytes, i: nat, bytes: Bytes, w: Bytes)
    requires c > 0 && InPlace(d, c, received, temp) && i < |received|
    requires i * c <= |d| && bytes <= d[i * c..] && IsWritten(temp, i * c, bytes, w)
    ensures InPlace(d, c, received, w)
    ensures Fills(d, c, i, bytes) ==> InPlace(d, c, received[i := true], w)
  {
    forall k | 0 <= k < |d|
      ensures k < |w| ==> w[k] == d[k] || w[k] == 0
      ensures Placed(d, temp, k) ==> Placed(d, w, k)
      ensures k / c == i && Fills(d, c, i, bytes) ==> Placed(d, w, k)
    {
      WrittenByte(d, c, temp, i, bytes, w, k);
    }
  }

  lemma WriteInPlace(d: Bytes, c: int, received: seq<bool>, temp: Bytes, i: nat, bytes: Bytes)
    requires c > 0 && InPlace(d, c, received, temp) && i < |received|
    requires i * c <= |d| && bytes <= d[i * c..]
    ensures InPlace(d, c, received, WriteAt(temp, i * c, bytes))
    ensures Fills(d, c, i, bytes) ==> InPlace(d, c, received[i := true], WriteAt(temp, i * c, bytes))
  {
    WriteAtPoints(temp, i * c, bytes);
    WrittenInPlace(d, c, received, temp, i, bytes, WriteAt(temp, i * c, bytes));
  }

  lemma WriteCounts(u: Upload, index: int, body: Body)
    requires Counted(u) && u.chunkSize > 0
    ensures Counted(WriteOf(u, index, body).0)
  {
    if 0 <= index < u.totalChunks && !u.received[index] {
      CountTrueUpdate(u.received, index);
    }
  }

  lemma WriteAgrees(d: Bytes, u: Upload, index: int, body: Body)
    requires Agrees(d, u) && Honest(d, u.totalChunks, u.chunkSize, index, body)
    ensures Agrees(d, WriteOf(u, index, body).0)
  {
    WriteCounts(u, index, body);
    if 0 <= index < u.totalChunks && u.temp.Some? {
      WriteInPlace(d, u.chunkSize, u.received, u.temp.value, index, body.bytes);
      if u.received[index] {
        assert u.received[index := true] == u.received;
      }
    }
  }

  lemma NewUploadAgrees(d: Bytes, totalChunks: nat, chunkSize: int)
    requires chunkSize > 0 && Covers(totalChunks, chunkSize, |d|)
    ensures Agrees(d, NewUpload(totalChunks, chunkSize, |d|))
  {
    CountTrueFalse(totalChunks);
  }

  lemma LastChunk(k: nat, total: int, c: int, n: int)
    requires c > 0 && Covers(total, c, n) && k < n
    ensures 0 <= k / c < total
  {
    DivisionBounds(k, c);
    if k / c >= total {
      OrderedProducts(total, k / c, c);
    }
  }

  lemma AllPlaced(d: Bytes, temp: Bytes)
    requires |temp| <= |d| && forall k :: 0 <= k < |d| ==> Placed(d, temp, k)
    ensures temp == d
  {
    if d != [] {
      assert Placed(d, temp, |d| - 1);
    }
    forall k | 0 <= k < |d| ensures k < |temp| && temp[k] == d[k] {
      assert Placed(d, temp, k);
    }
  }

  /** A session whose counter is full has received everything, and its file is d. */
  lemma CompleteIsWhole(d: Bytes, u: Upload)
    requires Agrees(d, u) && u.receivedChunks == u.totalChunks
    ensures forall i :: 0 <= i < |u.received| ==> u.received[i]
    ensures u.temp.Some? ==> u.temp.value == d
  {
    CountTrueAll(u.received);
    if u.temp.Some? {
      forall k | 0 <= k < |d| ensures Placed(d, u.temp.value, k) {
        LastChunk(k, u.totalChunks, u.chunkSize, |d|);
        assert u.received[k / u.chunkSize];
      }
      AllPlaced(d, u.temp.value);
    }
  }

  datatype Write = Write(index: int, body: Body)

  ghost function WriteAll(u: Upload, writes: seq<Write>): (r: Upload)
    requires |u.received| == u.totalChunks && u.chunkSize > 0
    ensures r.totalChunks == u.totalChunks && r.chunkSize == u.chunkSize && |r.received| == r.totalChunks
  {
    if writes == [] then u
    else
      var n := |writes| - 1;
      WriteOf(WriteAll(u, writes[..n]), writes[n].index, writes[n].body).0
  }

  lemma {:induction false} WritesAgree(d: Bytes, u: Upload, writes: seq<Write>)
    requires Agrees(d, u)
    requires forall w :: w in writes ==> Honest(d, u.totalChunks, u.chunkSize, w.index, w.body)
    ensures Agrees(d, WriteAll(u, writes))
    ensures u.temp.Some? ==> WriteAll(u, writes).temp.Some?
  {
    if writes != [] {
      var n := |writes| - 1;
      WritesAgree(d, u, writes[..n]);
      assert writes[n] in writes;
      WriteAgrees(d, WriteAll(u, writes[..n]), writes[n].index, writes[n].body);
    }
  }

  /** If the session is complete after these writes, its file is d. */
  ghost predicate Assembles(d: Bytes, total: nat, c: int, writes: seq<Write>)
    requires c > 0
  {
    var u := WriteAll(NewUpload(total, c, |d|), writes);
    u.receivedChunks == u.totalChunks ==> u.temp == Some(d)
  }

  /**
   When no body can do harm, in whatever order and however often they come, a session that passes the
   completeness check has exactly the file in its temporary file.
   */
  lemma AnyOrderAssembles(d: Bytes, total: nat, c: int, writes: seq<Write>)
    requires 0 < c && Covers(total, c, |d|)
    requires forall w :: w in writes ==> Honest(d, total, c, w.index, w.body)
    ensures Assembles(d, total, c, writes)
  {
    var u := NewUpload(total, c, |d|);
    NewUploadAgrees(d, u.totalChunks, c);
    WritesAgree(d, u, writes);
    var r := WriteAll(u, writes);
    if r.receivedChunks == r.totalChunks {
      CompleteIsWhole(d, r);
    }
  }

  // ---------------------------------------------------------------------------------------------
  // No other body is harmless
  // ---------------------------------------------------------------------------------------------

  /** A write of exactly one chunk. */
  ghost predicate IsChunk(d: Bytes, total: nat, c: int, w: Write)
    requires c > 0
  {
    0 <= w.index < total && w.index * c <= |d| && w.body == Body(ChunkOf(d, c, w.index), true)
  }

  lemma ChunkIsHonest(d: Bytes, total: nat, c: int, w: Write)
    requires c > 0 && IsChunk(d, total, c, w)
    ensures Honest(d, total, c, w.index, w.body)
  {
    forall k | 0 <= k < |d| && k / c == w.index ensures k < w.index * c + |w.body.bytes| {
      ChunkOfPosition(k, c, w.index);
    }
  }

  ghost predicate Sends(writes: seq<Write>, index: int) {
    exists w :: w in writes && w.index == index
  }

  /** Writes of chunks, of each but skip. */
  ghost predicate AllBut(d: Bytes, total: nat, c: int, skip: int, writes: seq<Write>)
    requires c > 0
  {
    && (forall w :: w in writes ==> IsChunk(d, total, c, w) && w.index != skip)
    && (forall i :: 0 <= i < total && i != skip ==> Sends(writes, i))
  }

  lemma {:induction false} ChunksExist(d: Bytes, total: nat, c: int, skip: int) returns (writes: seq<Write>)
    requires c > 0 && (total > 0 ==> (total - 1) * c <= |d|)
    ensures AllBut(d, total, c, skip, writes)
  {
    writes := [];
    if total > 0 {
      OrderedProducts(if total > 1 then total - 2 else 0, total - 1, c);
      var before := ChunksExist(d, total - 1, c, skip);
      var last := Write(total - 1, Body(ChunkOf(d, c, total - 1), true));
      writes := before + if total - 1 == skip then [] else [last];
      forall i | 0 <= i < total && i != skip ensures Sends(writes, i) {
        if i < total - 1 {
          assert Sends(before, i);
          var w :| w in before && w.index == i;
          assert w in writes;
        } else {
          assert last in writes;
        }
      }
    }
  }

  lemma WriteLast(u: Upload, writes: seq<Write>, w: Write)
    requires |u.received| == u.totalChunks && u.chunkSize > 0
    ensures WriteAll(u, writes + [w]) == WriteOf(WriteAll(u, writes), w.index, w.body).0
  {
    assert (writes + [w])[..|writes|] == writes;
  }

  /** A body that ended well marks its chunk, for good. */
  lemma {:induction false} WritesAreReceived(u: Upload, writes: seq<Write>, w: Write)
    requires |u.received| == u.totalChunks && u.chunkSize > 0 && u.temp.Some?
    requires w in writes && w.body.ok && 0 <= w.index < u.totalChunks
    ensures var r := WriteAll(u, writes); r.temp.Some? && r.received[w.index]
  {
    TempStays(u, writes);
    var n := |writes| - 1;
    TempStays(u, writes[..n]);
    if writes[n] != w {
      assert w in writes[..n];
      WritesAreReceived(u, writes[..n], w);
    }
  }

  lemma {:induction false} TempStays(u: Upload, writes: seq<Write>)
    requires |u.received| == u.totalChunks && u.chunkSize > 0 && u.temp.Some?
    ensures WriteAll(u, writes).temp.Some?
  {
    if writes != [] {
      TempStays(u, writes[..|writes| - 1]);
    }
  }

  /** Position k still reads as zero, and if it is the end of d the file does not reach it. */
  ghost predicate Untouched(d: Bytes, temp: Bytes, k: nat) {
    (k < |temp| ==> temp[k] == 0) && (k == |d| - 1 ==> |temp| <= k)
  }

  /** A write of bytes of d that does not reach position k. */
  ghost predicate Elsewhere(d: Bytes, c: int, w: Write, k: nat) {
    && w.index >= 0 && 0 <= w.index * c <= |d| && w.body.bytes <= d[w.index * c..]
    && !(w.index * c <= k < w.index * c + |w.body.bytes|)
  }

  lemma ChunkIsElsewhere(d: Bytes, total: nat, c: int, w: Write, k: nat)
    requires c > 0 && IsChunk(d, total, c, w) && k / c != w.index
    ensures Elsewhere(d, c, w, k)
  {
    ChunkOfPosition(k, c, w.index);
  }

  lemma WriteLeaves(d: Bytes, u: Upload, w: Write, k: nat)
    requires |u.received| == u.totalChunks && u.chunkSize > 0 && k < |d| && Elsewhere(d, u.chunkSize, w, k)
    requires u.temp.Some? && Untouched(d, u.temp.value, k)
    ensures var r := WriteOf(u, w.index, w.body).0;
            r.temp.Some? && Untouched(d, r.temp.value, k)
  {
    WriteAtPoints(u.temp.value, w.index * u.chunkSize, w.body.bytes);
  }

  lemma {:induction false} WritesLeave(d: Bytes, u: Upload, writes: seq<Write>, k: nat)
    requires |u.received| == u.totalChunks && u.chunkSize > 0 && k < |d|
    requires forall w :: w in writes ==> Elsewhere(d, u.chunkSize, w, k)
    requires u.temp.Some? && Untouched(d, u.temp.value, k)
    ensures var r := WriteAll(u, writes);
            r.temp.Some? && Untouched(d, r.temp.value, k)
  {
    if writes != [] {
      var n := |writes| - 1;
      WritesLeave(d, u, writes[..n], k);
      WriteLeaves(d, WriteAll(u, writes[..n]), writes[n], k);
    }
  }

  /** A write leaves d as it is only when the bytes are those of d. */
  lemma WriteChanges(d: Bytes, offset: nat, bytes: Bytes)
    requires offset <= |d| && WriteAt(d, offset, bytes) == d
    ensures bytes <= d[offset..]
  {
    WriteAtPoints(d, offset, bytes);
    assert forall j :: 0 <= j < |bytes| ==> bytes[j] == WriteAt(d, offset, bytes)[offset + j];
  }

  /** What all chunks but skip leave: everything received but skip, and nothing wrong. */
  lemma AllChunks(d: Bytes, total: nat, c: int, skip: int, chunks: seq<Write>)
    requires 0 < c && Covers(total, c, |d|) && AllBut(d, total, c, skip, chunks)
    ensures var r := WriteAll(NewUpload(total, c, |d|), chunks);
            Agrees(d, r) && r.temp.Some? && forall i :: 0 <= i < total && i != skip ==> r.received[i]
  {
    var u := NewUpload(total, c, |d|);
    forall w | w in chunks ensures Honest(d, total, c, w.index, w.body) {
      ChunkIsHonest(d, total, c, w);
    }
    NewUploadAgrees(d, total, c);
    WritesAgree(d, u, chunks);
    forall i | 0 <= i < total && i != skip ensures WriteAll(u, chunks).received[i] {
      assert Sends(chunks, i);
      var w :| w in chunks && w.index == i;
      WritesAreReceived(u, chunks, w);
    }
  }

  lemma WrongWriteSpoils(d: Bytes, u: Upload, w: Write)
    requires Agrees(d, u) && u.temp.Some? && forall i :: 0 <= i < u.totalChunks ==> u.received[i]
    requires 0 <= w.index < u.totalChunks && 0 <= w.index * u.chunkSize <= |d|
    requires !(w.body.bytes <= d[w.index * u.chunkSize..])
    ensures var r := WriteOf(u, w.index, w.body).0;
            r.receivedChunks == r.totalChunks && r.temp != Some(d)
  {
    CountTrueAll(u.received);
    CompleteIsWhole(d, u);
    var offset := w.index * u.chunkSize;
    if WriteAt(d, offset, w.body.bytes) == d {
      WriteChanges(d, offset, w.body.bytes);
    }
  }

  lemma ShortWriteSpoils(d: Bytes, u: Upload, w: Write, k: nat)
    requires Agrees(d, u) && u.temp.Some? && 0 <= w.index < u.totalChunks && w.body.ok
    requires forall i :: 0 <= i < u.totalChunks && i != w.index ==> u.received[i]
    requires k < |d| && Untouched(d, u.temp.value, k) && (d[k] != 0 || k == |d| - 1)
    requires Elsewhere(d, u.chunkSize, w, k)
    ensures var r := WriteOf(u, w.index, w.body).0;
            r.receivedChunks == r.totalChunks && r.temp != Some(d)
  {
    WriteCounts(u, w.index, w.body);
    WriteLeaves(d, u, w, k);
    CountTrueAll(WriteOf(u, w.index, w.body).0.received);
  }

  /** After all chunks, bytes that are not those of d spoil the file of a complete session. */
  lemma WrongBytesSpoil(d: Bytes, total: nat, c: int, w: Write, chunks: seq<Write>, skip: int)
    requires 0 < c && Covers(total, c, |d|) && skip < 0 && AllBut(d, total, c, skip, chunks)
    requires 0 <= w.index < total && 0 <= w.index * c <= |d| && !(w.body.bytes <= d[w.index * c..])
    ensures !Assembles(d, total, c, chunks + [w])
  {
    var u := NewUpload(total, c, |d|);
    AllChunks(d, total, c, skip, chunks);
    WriteLast(u, chunks, w);
    WrongWriteSpoils(d, WriteAll(u, chunks), w);
  }

  /** After all other chunks, a short body that leaves out more than zeros completes a session of another file. */
  lemma ShortBodySpoils(d: Bytes, total: nat, c: int, w: Write, chunks: seq<Write>, k: nat)
    requires 0 < c && Covers(total, c, |d|) && AllBut(d, total, c, w.index, chunks)
    requires 0 <= w.index < total && w.body.ok && Elsewhere(d, c, w, k)
    requires k < |d| && k / c == w.index && (d[k] != 0 || k == |d| - 1)
    ensures !Assembles(d, total, c, chunks + [w])
  {
    var u := NewUpload(total, c, |d|);
    AllChunks(d, total, c, w.index, chunks);
    forall v | v in chunks ensures Elsewhere(d, c, v, k) {
      ChunkIsElsewhere(d, total, c, v, k);
    }
    WritesLeave(d, u, chunks, k);
    WriteLast(u, chunks, w);
    ShortWriteSpoils(d, WriteAll(u, chunks), w, k);
  }

  /** Writes of chunks of d, and any of the writes sent. */
  ghost predicate Drawn(d: Bytes, total: nat, c: int, sent: seq<Write>, writes: seq<Write>)
    requires c > 0
  {
    forall w :: w in writes ==> w in sent || IsChunk(d, total, c, w)
  }

  /**
   Exactly these bodies do no harm: whatever else clients send besides the chunks of the file, every
   complete session has the file, in any order and with any repeats, if and only if each of the other
   bodies is honest.
   */
  lemma AssemblesIff(d: Bytes, total: nat, c: int, sent: seq<Write>)
    requires 0 < c && Covers(total, c, |d|)
    ensures (forall writes :: Drawn(d, total, c, sent, writes) ==> Assembles(d, total, c, writes))
            <==> forall w :: w in sent ==> Honest(d, total, c, w.index, w.body)
  {
    if forall writes :: Drawn(d, total, c, sent, writes) ==> Assembles(d, total, c, writes) {
      forall w | w in sent ensures Honest(d, total, c, w.index, w.body) {
        DishonestSpoils(d, total, c, sent, w);
      }
    }
    if forall w :: w in sent ==> Honest(d, total, c, w.index, w.body) {
      forall writes: seq<Write> | Drawn(d, total, c, sent, writes) ensures Assembles(d, total, c, writes) {
        forall w | w in writes ensures Honest(d, total, c, w.index, w.body) {
          if w !in sent {
            ChunkIsHonest(d, total, c, w);
          }
        }
        AnyOrderAssembles(d, total, c, writes);
      }
    }
  }

  lemma DishonestSpoils(d: Bytes, total: nat, c: int, sent: seq<Write>, w: Write)
    requires 0 < c && w in sent && Covers(total, c, |d|)
    ensures Honest(d, total, c, w.index, w.body)
            || exists writes :: Drawn(d, total, c, sent, writes) && !Assembles(d, total, c, writes)
  {
    if !Honest(d, total, c, w.index, w.body) {
      OrderedProducts(w.index, total - 1, c);
      if w.body.bytes <= d[w.index * c..] {
        var k :| 0 <= k < |d| && k / c == w.index && w.index * c + |w.body.bytes| <= k && (d[k] != 0 || k == |d| - 1);
        var chunks := ChunksExist(d, total, c, w.index);
        ShortBodySpoils(d, total, c, w, chunks, k);
        assert Drawn(d, total, c, sent, chunks + [w]);
      } else {
        var chunks := ChunksExist(d, total, c, -1);
        WrongBytesSpoil(d, total, c, w, chunks, -1);
        assert Drawn(d, total, c, sent, chunks + [w]);
      }
    }
  }

  /**
   The body of a chunk is not cut to the chunk size: a byte too many in the first of two chunks, sent
   last, spoils the second one, and the session is complete all the same.
   */
  lemma OverlongBodySpoils(d: Bytes, c: nat, extra: Byte)
    requires 0 < c && |d| == 2 * c && extra != d[c]
    ensures var u := WriteAll(NewUpload(2, c, |d|),
                              [Write(1, Body(d[c..], true)), Write(0, Body(d[..c] + [extra], true))]);
            u.receivedChunks == u.totalChunks && u.temp.Some? && u.temp.value != d
  {
    var first, second := Write(1, Body(d[c..], true)), Write(0, Body(d[..c] + [extra], true));
    var u0 := NewUpload(2, c, |d|);
    assert [first, second][..1] == [first] && [first][..0] == [];
    var u1 := WriteOf(u0, 1, first.body).0;
    assert WriteAll(u0, [first]) == u1;
    var u2 := WriteOf(u1, 0, second.body).0;
    assert WriteAll(u0, [first, second]) == u2;
    WriteAtPoints(u1.temp.value, 0, second.body.bytes);
    assert u2.temp.value[c] == extra;
  }
}
