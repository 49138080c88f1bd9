/**
  Chunking and reading of GridFS files (`libs/mongo-c-driver/src/gridfs.c`), over a
  store that keeps every chunk it is given.
 */
module GridFs {
  import opened Prelude

  const CHUNK := 262144
  /** Chunk numbers are 32-bit integers. */
  const MAX_LENGTH := 0x2_0000_0000_0000

  type Store = map<int, seq<Byte>>

  function Min(a: int, b: int): int { if a < b then a else b }

  /** Chunk `n` of a file. */
  function Piece(content: seq<Byte>, n: nat): seq<Byte>
    requires n * CHUNK <= |content|
  {
    content[n * CHUNK..Min((n + 1) * CHUNK, |content|)]
  }

  /** The store holds exactly the chunks of a file. */
  ghost predicate Chunked(store: Store, content: seq<Byte>) {
    && (forall n :: n in store <==> 0 <= n && n * CHUNK < |content|)
    && (forall n :: n in store ==> 0 <= n && n * CHUNK < |content| && store[n] == Piece(content, n))
  }

  /** One more chunk behind full chunks. */
  lemma AddChunk(store: Store, content: seq<Byte>, k: nat, piece: seq<Byte>)
    requires Chunked(store, content) && |content| == k * CHUNK && 0 < |piece| <= CHUNK
    ensures Chunked(store[k := piece], content + piece)
  {
    var store', content' := store[k := piece], content + piece;
    forall n | n in store'
      ensures 0 <= n && n * CHUNK < |content'| && store'[n] == Piece(content', n)
    {
      if n != k {
        assert n in store;
        assert store[n] == Piece(content, n);
      }
    }
  }

  /** Chunks determine the file. */
  lemma {:induction false} SameContent(store: Store, a: seq<Byte>, b: seq<Byte>)
    requires Chunked(store, a) && Chunked(store, b) && |a| == |b|
    ensures a == b
  {
    forall i | 0 <= i < |a|
      ensures a[i] == b[i]
    {
      var n := i / CHUNK;
      assert n in store;
      assert a[i] == Piece(a, n)[i - n * CHUNK] && b[i] == Piece(b, n)[i - n * CHUNK];
    }
  }

  /** `gridfs_store_buffer`; returns the chunks and the length of the new file. */
  method StoreBuffer(data: seq<Byte>) returns (store: Store, length: nat)
    requires |data| < TWO_32
    ensures Chunked(store, data) && length == |data|
  {
    store := map[];
    var ptr, chunkNumber := 0, 0;
    while ptr < |data|
      invariant 0 <= ptr <= |data| && Chunked(store, data[..ptr]) && (ptr < |data| ==> ptr == chunkNumber * CHUNK)
      invariant 0 <= chunkNumber
    {
      var chunkLen := if CHUNK < |data| - ptr then CHUNK else |data| - ptr;
      AddChunk(store, data[..ptr], chunkNumber, data[ptr..ptr + chunkLen]);
      assert data[..ptr] + data[ptr..ptr + chunkLen] == data[..ptr + chunkLen];
      store := store[chunkNumber := data[ptr..ptr + chunkLen]];
      chunkNumber := chunkNumber + 1;
      ptr := ptr + chunkLen;
    }
    assert data[..|data|] == data;
    length := |data|;
  }

  /** A file that is written piece by piece. */
  class Writer {
    var store: Store
    var chunkNum: nat
    var length: nat
    var pendingData: Option<seq<Byte>>
    var pendingLen: nat
    /** The bytes in the store. */
    ghost var flushed: seq<Byte>

    ghost predicate Valid()
      reads this
    {
      && Chunked(store, flushed) && length == |flushed| == chunkNum * CHUNK
      && pendingLen < CHUNK && (pendingData.Some? <==> pendingLen > 0)
      && (pendingData.Some? ==> |pendingData.value| == pendingLen)
    }

    /** What has reached the file: the stored chunks and the pending bytes. */
    ghost function Written(): seq<Byte>
      reads this
    {
      flushed + if pendingData.Some? then pendingData.value else []
    }

    /** `gridfile_writer_init`. */
    constructor ()
      ensures Valid() && Written() == []
    {
      store, chunkNum, length, pendingData, pendingLen, flushed := map[], 0, 0, None, 0, [];
    }

    /** Insert one full chunk. */
    method Flush(chunk: seq<Byte>)
      requires Chunked(store, flushed) && length == |flushed| == chunkNum * CHUNK && |chunk| == CHUNK
      modifies this`store, this`chunkNum, this`length, this`flushed
      ensures Chunked(store, flushed) && length == |flushed| == chunkNum * CHUNK && flushed == old(flushed) + chunk
    {
      AddChunk(store, flushed, chunkNum, chunk);
      store := store[chunkNum := chunk];
      chunkNum := chunkNum + 1;
      length := length + CHUNK;
      flushed := flushed + chunk;
    }

    /** The bytes of a call reach the file unless nothing is pending and they fill a chunk. */
    predicate Keeps(n: nat)
      reads this
    {
      pendingLen > 0 || n < CHUNK
    }

    /** `gridfile_write_buffer`. */
    method WriteBuffer(data: seq<Byte>)
      requires Valid()
      modifies this
      ensures Valid()
      ensures old(Keeps(|data|)) ==> Written() == old(Written()) + data
      ensures !old(Keeps(|data|)) ==> Written() == old(Written())
    {
      hide Chunked;
      var toWrite := |data| + pendingLen;
      if toWrite < CHUNK {
        // Not enough for a chunk: all of it becomes pending.
        if pendingData.Some? {
          assert old(Written()) + data == flushed + (pendingData.value + data);
          pendingData := Some(pendingData.value + data);
        } else if toWrite > 0 {
          pendingData := Some(data);
        }
        pendingLen := pendingLen + |data|;
        assert pendingData.None? ==> data == [] && Written() == old(Written()) + data;
      } else {
        WriteChunks(data);
      }
    }

    /** Insert `count` full chunks of `data` from `at` on. */
    method FlushChunks(data: seq<Byte>, at: nat, count: nat) returns (p: nat)
      requires Chunked(store, flushed) && length == |flushed| == chunkNum * CHUNK && at + count * CHUNK <= |data|
      modifies this`store, this`chunkNum, this`length, this`flushed
      ensures Chunked(store, flushed) && length == |flushed| == chunkNum * CHUNK
      ensures p == at + count * CHUNK && flushed == old(flushed) + data[at..p]
    {
      hide Chunked;
      p := at;
      var chunksToWrite := count;
      while chunksToWrite > 0
        invariant 0 <= chunksToWrite && at <= p && p + chunksToWrite * CHUNK == at + count * CHUNK
        invariant Chunked(store, flushed) && length == |flushed| == chunkNum * CHUNK
        invariant flushed == old(flushed) + data[at..p]
      {
        Flush(data[p..p + CHUNK]);
        assert data[at..p] + data[p..p + CHUNK] == data[at..p + CHUNK];
        chunksToWrite := chunksToWrite - 1;
        p := p + CHUNK;
      }
    }

    /** The pending bytes and the data fill a chunk or more. */
    method WriteChunks(data: seq<Byte>)
      requires Valid() && |data| + pendingLen >= CHUNK
      modifies this
      ensures Valid()
      ensures Written() == if old(pendingLen) > 0 then old(Written()) + data else old(Written())
    {
      hide Chunked;
      var toWrite := |data| + pendingLen;
      // These are only set if there is pending data.
      var chunksToWrite, bytesLeft, p := 0, 0, 0;
      if pendingLen > 0 {
        chunksToWrite := toWrite / CHUNK;
        bytesLeft := toWrite % CHUNK;
        p := CHUNK - pendingLen;
        Flush(pendingData.value + data[..p]);
        assert flushed == old(Written()) + data[..p];
        chunksToWrite := chunksToWrite - 1;
      }
      ghost var from, before := p, flushed;
      p := FlushChunks(data, p, chunksToWrite);
      // What is left becomes pending.
      pendingData := if bytesLeft == 0 then None else Some(data[p..p + bytesLeft]);
      pendingLen := bytesLeft;
      if old(pendingLen) > 0 {
        assert p + bytesLeft == |data|;
        Pieces(old(Written()), data, from, p);
      }
    }

    static lemma Pieces(was: seq<Byte>, data: seq<Byte>, a: nat, b: nat)
      requires a <= b <= |data|
      ensures ((was + data[..a]) + data[a..b]) + data[b..] == was + data
      ensures b == |data| ==> (was + data[..a]) + data[a..b] == was + data
    {
    }

    /** `gridfile_writer_done`. */
    method Done()
      requires Valid()
      modifies this
      ensures Chunked(store, old(Written())) && length == |old(Written())|
    {
      hide Chunked;
      if pendingData.Some? {
        AddChunk(store, flushed, chunkNum, pendingData.value);
        store := store[chunkNum := pendingData.value];
        length := length + pendingLen;
      } else {
        assert flushed == old(Written());
      }
    }
  }

  /** No piece of a chunk or more comes when the bytes before it fill whole chunks. */
  ghost predicate NoneDropped(pieces: seq<seq<Byte>>, n: nat)
    requires n <= |pieces|
  {
    forall i :: 0 <= i < n ==> |Concat(pieces[..i])| % CHUNK > 0 || |pieces[i]| < CHUNK
  }

  /** Write a file in pieces: the file is complete exactly if no piece is dropped. */
  method WriteAll(pieces: seq<seq<Byte>>) returns (w: Writer)
    ensures w.length == |Concat(pieces)| <==> NoneDropped(pieces, |pieces|)
    ensures NoneDropped(pieces, |pieces|) ==> Chunked(w.store, Concat(pieces))
  {
    hide Chunked, Concat;
    w := new Writer();
    ConcatEmpty(pieces);
    for i := 0 to |pieces|
      invariant w.Valid() && fresh(w)
      invariant NoneDropped(pieces, i) ==> w.Written() == Concat(pieces[..i])
      invariant !NoneDropped(pieces, i) ==> |w.Written()| < |Concat(pieces[..i])|
    {
      ConcatSnoc(pieces, i);
      PendingIsRest(w);
      w.WriteBuffer(pieces[i]);
    }
    assert pieces[..|pieces|] == pieces;
    w.Done();
  }

  lemma PendingIsRest(w: Writer)
    requires w.Valid()
    ensures |w.Written()| % CHUNK == w.pendingLen
  {
  }

  ghost function Concat(pieces: seq<seq<Byte>>): seq<Byte> {
    if pieces == [] then [] else Concat(pieces[..|pieces| - 1]) + pieces[|pieces| - 1]
  }

  lemma ConcatEmpty(pieces: seq<seq<Byte>>)
    ensures Concat(pieces[..0]) == []
  {
  }

  lemma ConcatSnoc(pieces: seq<seq<Byte>>, i: nat)
    requires i < |pieces|
    ensures Concat(pieces[..i + 1]) == Concat(pieces[..i]) + pieces[i]
  {
    assert pieces[..i + 1][..i] == pieces[..i];
  }

  /** For example, a single piece of one chunk is lost. */
  lemma OneChunkDropped(piece: seq<Byte>)
    requires |piece| == CHUNK
    ensures !NoneDropped([piece], 1)
  {
    ConcatEmpty([piece]);
    assert [piece][..0] == [];
  }

  /** Conversion of an unsigned 64-bit number to `int`. */
  function ToInt(x: nat): int {
    var low := x % TWO_32;
    if low >= 0x8000_0000 then low - TWO_32 else low
  }

  /** A stored file opened for reading. */
  class Reader {
    const store: Store
    const length: nat
    var pos: nat
    ghost const content: seq<Byte>

    ghost predicate Valid()
      reads this
    {
      Chunked(store, content) && length == |content| < MAX_LENGTH && pos <= length
    }

    constructor (store: Store, length: nat, ghost content: seq<Byte>)
      requires Chunked(store, content) && length == |content| < MAX_LENGTH
      ensures Valid() && pos == 0 && this.content == content
    {
      this.store, this.length, this.content, pos := store, length, content, 0;
    }

    /** `gridfile_seek`: a position behind the end becomes the end. */
    method Seek(offset: nat) returns (at: nat)
      requires Valid()
      modifies this`pos
      ensures Valid() && pos == at == Min(offset, |content|)
    {
      pos := if length < offset then length else offset;
      at := pos;
    }

    /** The chunk of a position. */
    static function ChunkOf(at: nat): nat { at / CHUNK }

    /** The last chunk of a read, by unsigned arithmetic. */
    static function LastChunk(at: nat, n: nat): int { ToInt(((at + n - 1) % TWO_64) / CHUNK) }

    /** The number of chunks that a read of `n` bytes visits. */
    static function Total(at: nat, n: nat): int {
      if at + n == 0 then 0 else (at + n - 1) / CHUNK - at / CHUNK + 1
    }

    static lemma ChunkRange(at: nat, n: nat, length: nat)
      requires at + n <= length < MAX_LENGTH
      ensures ToInt(ChunkOf(at)) == ChunkOf(at) && LastChunk(at, n) - ChunkOf(at) + 1 == Total(at, n)
    {
      hide ToInt;
      SmallInt(at / CHUNK);
      if at + n > 0 {
        assert (at + n - 1) % TWO_64 == at + n - 1;
        SmallInt((at + n - 1) / CHUNK);
      } else {
        NoLastChunk();
      }
    }

    static lemma SmallInt(x: nat)
      requires x < 0x8000_0000
      ensures ToInt(x) == x
    {
    }

    /** The unsigned number before 0 becomes chunk -1. */
    static lemma NoLastChunk()
      ensures (-1) % TWO_64 == TWO_64 - 1 && (TWO_64 - 1) / CHUNK == 0x3FFF_FFFF_FFFF && ToInt(0x3FFF_FFFF_FFFF) == -1
    {
    }

    /** The position in the file after `i` chunks of a read. */
    static function Reached(at: nat, n: nat, i: nat): int {
      if i == 0 then at else Min(at + n, (ChunkOf(at) + i) * CHUNK)
    }

    /** Where chunk `i` of a read starts and ends. */
    static lemma StepBounds(at: nat, n: nat, length: nat, i: nat)
      requires at + n <= length && i < Total(at, n)
      ensures var k := ChunkOf(at) + i;
              && 0 <= k && k * CHUNK < length && at <= Reached(at, n, i) <= at + n
              && Reached(at, n, i) == k * CHUNK + (if i == 0 then at % CHUNK else 0) <= Min((k + 1) * CHUNK, length)
              && Reached(at, n, i + 1) == Min(at + n, (k + 1) * CHUNK) && at <= Reached(at, n, i + 1)
    {
    }

    static lemma AllReached(at: nat, n: nat)
      ensures 0 <= Total(at, n) && Reached(at, n, Total(at, n)) == at + n
    {
    }

    static lemma Start(at: nat, n: nat)
      ensures Reached(at, n, 0) == at
    {
    }

    static lemma Extend(s: seq<Byte>, a: nat, b: nat, e: nat, m: nat)
      requires a <= b <= e <= |s| && m <= e - b
      ensures s[a..b] + s[b..e][..m] == s[a..b + m]
    {
    }

    /** The data of chunk `k` from `skip` on. */
    method Fetch(k: nat, skip: nat) returns (chunk: seq<Byte>)
      requires Valid() && k * CHUNK < |content| && k * CHUNK + skip <= Min((k + 1) * CHUNK, |content|)
      ensures chunk == content[k * CHUNK + skip..Min((k + 1) * CHUNK, |content|)]
    {
      ChunkAt(k);
      chunk := store[k][skip..];
    }

    /** `gridfile_read`: the bytes from the current position on, at most `size` of them. */
    method Read(size: nat) returns (buf: seq<Byte>)
      requires Valid()
      modifies this`pos
      ensures Valid() && pos == Min(old(pos) + size, |content|) && buf == content[old(pos)..pos]
    {
      hide Chunked, ToInt, Reached, ChunkOf, LastChunk, Total;
      var at := pos;
      var n := if length - at < size then length - at else size;
      var bytesLeft := n;
      var first := ToInt(ChunkOf(at));
      var total := LastChunk(at, n) - first + 1;
      ChunkRange(at, n, length);
      AllReached(at, n);
      Start(at, n);
      buf := [];
      for i := 0 to total
        invariant Valid() && pos == at && at <= Reached(at, n, i) <= at + n
        invariant buf == content[at..Reached(at, n, i)] && bytesLeft == at + n - Reached(at, n, i)
      {
        StepBounds(at, n, length, i);
        ghost var b, e := Reached(at, n, i), Min((first + i + 1) * CHUNK, |content|);
        var chunk := Fetch(first + i, if i == 0 then at % CHUNK else 0);
        assert chunk == content[b..e];
        var m := if bytesLeft > |chunk| then |chunk| else bytesLeft;
        Extend(content, at, b, e, m);
        buf := buf + chunk[..m];
        bytesLeft := bytesLeft - m;
      }
      pos := at + n;
    }

    lemma ChunkAt(k: int)
      requires Valid() && 0 <= k && k * CHUNK < |content|
      ensures k in store && store[k] == Piece(content, k)
    {
    }
  }
}
