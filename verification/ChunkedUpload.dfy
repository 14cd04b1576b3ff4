/**
 Chunked uploads: a session collects the chunks of a file, in any order, in a temporary file.  Sizes
 are 64-bit; the bytes of a chunk are not cut to the chunk size.
 */
module ChunkedUpload {
  import opened Wrappers
  import opened FileTree

  // ---------------------------------------------------------------------------------------------
  // 64-bit arithmetic and the number of chunks
  // ---------------------------------------------------------------------------------------------

  const MAX_INT64: int := 0x7FFF_FFFF_FFFF_FFFF
  const TWO_TO_64: int := 0x1_0000_0000_0000_0000

  function Wrap64(x: int): int {
    (x + MAX_INT64 + 1) % TWO_TO_64 - MAX_INT64 - 1
  }

  /** Division that truncates toward zero. */
  function Quotient(a: int, b: int): int
    requires b > 0
  {
    if a >= 0 then a / b else -(-a / b)
  }

  function TotalChunks(fileSize: int, chunkSize: int): int
    requires chunkSize > 0
  {
    Quotient(Wrap64(fileSize + chunkSize - 1), chunkSize)
  }

  /** total chunks of the given size hold exactly a file of fileSize bytes, the last one not empty. */
  predicate Covers(total: int, chunkSize: int, fileSize: int) {
    total > 0 && (total - 1) * chunkSize < fileSize <= total * chunkSize
  }

  lemma DivisionBounds(a: int, b: int)
    requires a >= 0 && b > 0
    ensures 0 <= a / b && a / b * b <= a < (a / b + 1) * b
  {
    assert a == a / b * b + a % b;
    assert a / b * b + b == (a / b + 1) * b;
  }

  /** The number of chunks is right exactly when the sum it is computed from does not overflow. */
  lemma TotalChunksIsCeiling(fileSize: int, chunkSize: int)
    requires 0 < fileSize <= MAX_INT64 && 0 < chunkSize <= MAX_INT64
    ensures Covers(TotalChunks(fileSize, chunkSize), chunkSize, fileSize) <==> fileSize + chunkSize - 1 <= MAX_INT64
  {
    var sum := fileSize + chunkSize - 1;
    if sum <= MAX_INT64 {
      assert Wrap64(sum) == sum;
      var total := sum / chunkSize;
      DivisionBounds(sum, chunkSize);
      assert (total - 1) * chunkSize == total * chunkSize - chunkSize;
      assert (total + 1) * chunkSize == total * chunkSize + chunkSize;
      if total == 0 {
        assert false;
      }
    } else {
      assert Wrap64(sum) == sum - TWO_TO_64 < 0;
      DivisionBounds(-Wrap64(sum), chunkSize);
    }
  }

  /** A file of 2^62 bytes in chunks of 2^63 - 1 bytes gets a session with no chunks. */
  lemma OverflowGivesNoChunks()
    ensures TotalChunks(0x4000_0000_0000_0000, MAX_INT64) == 0
  {
  }

  // ---------------------------------------------------------------------------------------------
  // Writing at an offset
  // ---------------------------------------------------------------------------------------------

  function Zeros(n: nat): (z: Bytes)
    ensures |z| == n && forall k :: 0 <= k < n ==> z[k] == 0
  {
    seq(n, _ => 0)
  }

  /** Seek and write: a gap before the offset reads as zeros, writing nothing changes nothing. */
  function WriteAt(buf: Bytes, offset: nat, data: Bytes): Bytes {
    if data == [] then buf
    else
      var padded := if |buf| < offset then buf + Zeros(offset - |buf|) else buf;
      var end := offset + |data|;
      padded[..offset] + data + (if end < |padded| then padded[end..] else [])
  }

  /** w is buf with data from offset on; a gap before the data is filled with zeros. */
  ghost predicate IsWritten(buf: Bytes, offset: nat, data: Bytes, w: Bytes) {
    && |w| == (if data == [] || offset + |data| < |buf| then |buf| else offset + |data|)
    && (forall k :: offset <= k < offset + |data| ==> w[k] == data[k - offset])
    && (forall k :: 0 <= k < |w| && !(offset <= k < offset + |data|) ==> w[k] == if k < |buf| then buf[k] else 0)
  }

  lemma WriteAtPoints(buf: Bytes, offset: nat, data: Bytes)
    ensures IsWritten(buf, offset, data, WriteAt(buf, offset, data))
  {
  }

  // ---------------------------------------------------------------------------------------------
  // The session
  // ---------------------------------------------------------------------------------------------

  /** The state of a session; temp is None when the temporary file has vanished. */
  datatype Upload = Upload(totalChunks: int, chunkSize: int, fileSize: int,
                           received: seq<bool>, receivedChunks: int, temp: Option<Bytes>)

  /** Panicked stands for a request that ends in a panic instead of an answer. */
  datatype UploadError = BadSize | BadChunkSize | Panicked | BadIndex | OpenFailed | WriteFailed
                       | Incomplete(missing: seq<nat>)

  /** What the body of a chunk brought: the bytes that reached the file, and whether it ended well. */
  datatype Body = Body(bytes: Bytes, ok: bool)

  function NewUpload(totalChunks: nat, chunkSize: int, fileSize: int): Upload {
    Upload(totalChunks, chunkSize, fileSize, seq(totalChunks, _ => false), 0, Some([]))
  }

  function WriteOf(u: Upload, index: int, body: Body): (Upload, Result<int, UploadError>)
    requires |u.received| == u.totalChunks && u.chunkSize > 0
  {
    if index < 0 || index >= u.totalChunks then (u, Err(BadIndex))
    else if u.temp == None then (u, Err(OpenFailed))
    else
      var u' := u.(temp := Some(WriteAt(u.temp.value, index * u.chunkSize, body.bytes)));
      if !body.ok then (u', Err(WriteFailed))
      else
        var u'' := if u.received[index] then u'
                   else u'.(received := u.received[index := true], receivedChunks := u.receivedChunks + 1);
        (u'', Ok(u''.receivedChunks))
  }

  /** The indices of the chunks that are missing, in order. */
  function Missing(received: seq<bool>): seq<nat> {
    if received == [] then []
    else
      var n := |received| - 1;
      Missing(received[..n]) + if received[n] then [] else [n]
  }

  /** Missing lists exactly the chunks not received, each once, in increasing order. */
  lemma {:induction false} MissingIsExact(received: seq<bool>)
    ensures var m := Missing(received);
            && (forall i: nat :: i in m <==> i < |received| && !received[i])
            && (forall a, b :: 0 <= a < b < |m| ==> m[a] < m[b])
            && |m| + CountTrue(received) == |received|
  {
    if received != [] {
      var n := |received| - 1;
      MissingIsExact(received[..n]);
      var before := Missing(received[..n]);
      forall i: nat ensures i in Missing(received) <==> i < |received| && !received[i] {
        assert i in Missing(received) <==> i in before || (i == n && !received[n]);
        assert i < n ==> received[..n][i] == received[i];
      }
      forall a | 0 <= a < |before| ensures before[a] < n {
        assert before[a] in before;
      }
    }
  }

  function CountTrue(s: seq<bool>): nat {
    if s == [] then 0 else CountTrue(s[..|s| - 1]) + if s[|s| - 1] then 1 else 0
  }

  lemma {:induction false} CountTrueUpdate(s: seq<bool>, i: nat)
    requires i < |s| && !s[i]
    ensures CountTrue(s[i := true]) == CountTrue(s) + 1
  {
    var n := |s| - 1;
    if i == n {
      assert s[i := true][..n] == s[..n];
    } else {
      assert s[i := true][..n] == s[..n][i := true];
      CountTrueUpdate(s[..n], i);
    }
  }

  lemma {:induction false} CountTrueFalse(n: nat)
    ensures CountTrue(seq(n, _ => false)) == 0
  {
    if n > 0 {
      assert seq(n, _ => false)[..n - 1] == seq(n - 1, _ => false);
      CountTrueFalse(n - 1);
    }
  }

  lemma {:induction false} CountTrueAll(s: seq<bool>)
    ensures CountTrue(s) <= |s|
    ensures CountTrue(s) == |s| <==> forall i :: 0 <= i < |s| ==> s[i]
  {
    if s != [] {
      var t := s[..|s| - 1];
      CountTrueAll(t);
      assert (forall i :: 0 <= i < |t| ==> t[i]) <==> forall i :: 0 <= i < |s| - 1 ==> s[i];
    }
  }

  class UploadSession {
    const totalChunks: int
    const chunkSize: int
    const fileSize: int
    const received: array<bool>
    var receivedChunks: int
    var temp: Option<Bytes>

    ghost function View(): Upload
      reads this, received
    {
      Upload(totalChunks, chunkSize, fileSize, received[..], receivedChunks, temp)
    }

    /** The counter agrees with the bitmap, and the sizes are those of a session that was set up. */
    ghost predicate Valid()
      reads this, received
    {
      && received.Length == totalChunks
      && receivedChunks == CountTrue(received[..])
      && 0 < chunkSize <= MAX_INT64 && 0 < fileSize <= MAX_INT64
      && (totalChunks == 0 || Covers(totalChunks, chunkSize, fileSize))
    }

    constructor (totalChunks: nat, chunkSize: int, fileSize: int)
      requires 0 < chunkSize <= MAX_INT64 && 0 < fileSize <= MAX_INT64
      requires totalChunks == 0 || Covers(totalChunks, chunkSize, fileSize)
      ensures Valid() && fresh(received)
      ensures View() == NewUpload(totalChunks, chunkSize, fileSize)
    {
      this.totalChunks, this.chunkSize, this.fileSize := totalChunks, chunkSize, fileSize;
      received := new bool[totalChunks](_ => false);
      receivedChunks, temp := 0, Some([]);
      new;
      assert received[..] == seq(totalChunks, _ => false);
      CountTrueFalse(totalChunks);
    }

    /** The part of WriteChunk after the session was found. */
    method WriteChunk(index: int, body: Body) returns (r: Result<int, UploadError>)
      requires Valid()
      modifies this, received
      ensures Valid()
      ensures (View(), r) == WriteOf(old(View()), index, body)
    {
      if index < 0 || index >= totalChunks {
        return Err(BadIndex);
      }
      var offset := Wrap64(index * chunkSize);
      OffsetFits(totalChunks, chunkSize, fileSize, index);
      if temp == None {
        return Err(OpenFailed);
      }
      temp := Some(WriteAt(temp.value, offset, body.bytes));
      if !body.ok {
        return Err(WriteFailed);
      }
      if !received[index] {
        CountTrueUpdate(received[..], index);
        received[index] := true;
        receivedChunks := receivedChunks + 1;
      }
      assert received[..] == if old(received[index]) then old(received[..]) else old(received[..])[index := true];
      r := Ok(receivedChunks);
    }

    /** The completeness check: an error lists at most ten missing chunks, the first ones. */
    method CheckComplete() returns (e: Option<UploadError>)
      requires Valid()
      ensures e == None <==> forall i :: 0 <= i < received.Length ==> received[i]
      ensures e.Some? ==> e == Some(Incomplete(FirstTen(Missing(received[..]))))
    {
      CountTrueAll(received[..]);
      if receivedChunks == totalChunks {
        return None;
      }
      var missing := FirstMissing();
      e := Some(Incomplete(missing));
    }

    method FirstMissing() returns (missing: seq<nat>)
      ensures missing == FirstTen(Missing(received[..]))
    {
      missing := [];
      var i := 0;
      while i < received.Length && |missing| < 10
        invariant 0 <= i <= received.Length
        invariant missing == Missing(received[..i]) && |missing| <= 10
      {
        assert received[..i + 1][..i] == received[..i];
        if !received[i] {
          missing := missing + [i];
        }
        i := i + 1;
      }
      MissingPrefix(received[..], i);
      assert received[..][..i] == received[..i];
    }
  }

  function FirstTen(s: seq<nat>): seq<nat> {
    if |s| > 10 then s[..10] else s
  }

  lemma {:induction false} MissingPrefix(received: seq<bool>, i: nat)
    requires i <= |received|
    ensures Missing(received[..i]) <= Missing(received)
    ensures i == |received| ==> Missing(received[..i]) == Missing(received)
  {
    if i == |received| {
      assert received[..i] == received;
    } else {
      var n := |received| - 1;
      assert received[..n][..i] == received[..i];
      MissingPrefix(received[..n], i);
    }
  }

  lemma OffsetFits(totalChunks: int, chunkSize: int, fileSize: int, index: int)
    requires Covers(totalChunks, chunkSize, fileSize) && chunkSize > 0 && fileSize <= MAX_INT64
    requires 0 <= index < totalChunks
    ensures 0 <= index * chunkSize < fileSize
    ensures Wrap64(index * chunkSize) == index * chunkSize
  {
    OrderedProducts(index, totalChunks - 1, chunkSize);
  }

  lemma OrderedProducts(i: int, j: int, c: int)
    requires 0 <= i <= j && c >= 0
    ensures 0 <= i * c <= j * c
  {
    assert j * c == i * c + (j - i) * c;
  }

  /**
   The checks of the sizes, the temporary file, and the session.  A negative number of chunks cannot be
   allocated: the request panics and leaves the temporary file behind without a session.
   */
  method InitUpload(fileSize: int, chunkSize: int) returns (r: Result<UploadSession, UploadError>, tempCreated: bool)
    requires -MAX_INT64 - 1 <= fileSize <= MAX_INT64 && -MAX_INT64 - 1 <= chunkSize <= MAX_INT64
    ensures tempCreated == (fileSize > 0 && chunkSize > 0)
    ensures fileSize <= 0 ==> r == Err(BadSize)
    ensures fileSize > 0 && chunkSize <= 0 ==> r == Err(BadChunkSize)
    ensures fileSize > 0 && chunkSize > 0 ==>
              if TotalChunks(fileSize, chunkSize) < 0 then r == Err(Panicked)
              else r.Ok? && fresh(r.value) && r.value.Valid()
                   && r.value.View() == NewUpload(TotalChunks(fileSize, chunkSize), chunkSize, fileSize)
  {
    tempCreated := false;
    if fileSize <= 0 {
      return Err(BadSize), tempCreated;
    }
    if chunkSize <= 0 {
      return Err(BadChunkSize), tempCreated;
    }
    var totalChunks := Quotient(Wrap64(fileSize + chunkSize - 1), chunkSize);
    tempCreated := true;
    if totalChunks < 0 {
      return Err(Panicked), tempCreated;
    }
    TotalChunksIsCeiling(fileSize, chunkSize);
    if fileSize + chunkSize - 1 > MAX_INT64 {
      OverflowIsNotPositive(fileSize, chunkSize);
    }
    var session := new UploadSession(totalChunks, chunkSize, fileSize);
    r := Ok(session);
  }

  /** After an overflow there are no chunks, when the sum is less than a chunk below zero, or a panic. */
  lemma OverflowIsNotPositive(fileSize: int, chunkSize: int)
    requires 0 < fileSize <= MAX_INT64 && 0 < chunkSize <= MAX_INT64 && fileSize + chunkSize - 1 > MAX_INT64
    ensures TotalChunks(fileSize, chunkSize) <= 0
    ensures TotalChunks(fileSize, chunkSize) == 0 <==> TWO_TO_64 - (fileSize + chunkSize - 1) < chunkSize
  {
    var missing := TWO_TO_64 - (fileSize + chunkSize - 1);
    assert Wrap64(fileSize + chunkSize - 1) == -missing;
    DivisionBounds(missing, chunkSize);
    if missing / chunkSize == 0 {
      assert missing < chunkSize;
    } else {
      OrderedProducts(1, missing / chunkSize, chunkSize);
    }
  }
}
