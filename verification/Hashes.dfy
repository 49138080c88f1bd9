/**
  The streaming parts of MD5 (`libs/mongo-c-driver/src/md5.c`) and SHA-1
  (`src/web/utils/sha1.c`).  The compression function is a parameter.
 */
module HashPadding {
  import opened Prelude
  import opened BsonFormat

  const BLOCK := 64
  const TWO_61 := 0x2000_0000_0000_0000

  type Step<!S> = (S, seq<Byte>) -> S

  /** Feed the full blocks of a message to the compression function. */
  function Fold<S>(step: Step<S>, s: S, m: seq<Byte>): S
    decreases |m|
  {
    if |m| < BLOCK then s else Fold(step, step(s, m[..BLOCK]), m[BLOCK..])
  }

  lemma {:induction false} FoldAppend<S>(step: Step<S>, s: S, a: seq<Byte>, b: seq<Byte>)
    requires |a| % BLOCK == 0
    ensures Fold(step, s, a + b) == Fold(step, Fold(step, s, a), b)
    decreases |a|
  {
    if a == [] {
      assert a + b == b;
    } else {
      assert (a + b)[..BLOCK] == a[..BLOCK] && (a + b)[BLOCK..] == a[BLOCK..] + b;
      FoldAppend(step, step(s, a[..BLOCK]), a[BLOCK..], b);
    }
  }

  lemma FoldBlock<S>(step: Step<S>, s: S, b: seq<Byte>)
    requires |b| == BLOCK
    ensures Fold(step, s, b) == step(s, b)
  {
    assert b[..BLOCK] == b;
  }

  /** The zero bytes after the first padding byte. */
  function ZeroCount(n: nat): nat { (55 - n) % BLOCK }

  /** A message of `n` bytes is padded with one 1 bit and then zeros to 56 bytes modulo 64. */
  function Pad(n: nat): seq<Byte> { [0x80] + Zeros(ZeroCount(n)) }

  /** The length in bits, modulo 2^64. */
  function BitLength(n: nat): nat { (8 * n) % TWO_64 }

  /** Section 3.1 and 3.2 of RFC 1321: the length follows with its low byte first. */
  function PaddedMd5(m: seq<Byte>): seq<Byte> { (m + Pad(|m|)) + Le(BitLength(|m|), 8) }

  /** Section 4 of FIPS PUB 180-1: the length follows with its high byte first. */
  function PaddedSha1(m: seq<Byte>): seq<Byte> { (m + Pad(|m|)) + Reversed(Le(BitLength(|m|), 8)) }

  function Reversed(s: seq<Byte>): (r: seq<Byte>)
    ensures |r| == |s| && forall i :: 0 <= i < |s| ==> r[i] == s[|s| - 1 - i]
  {
    if s == [] then [] else Reversed(s[1..]) + [s[0]]
  }

  lemma ZeroCases(n: nat)
    ensures ZeroCount(n) == if n % BLOCK <= 55 then 55 - n % BLOCK else 119 - n % BLOCK
  {
    var q, r := n / BLOCK, n % BLOCK;
    assert 55 - n == (if r <= 55 then 55 - r else 119 - r) - BLOCK * (if r <= 55 then q else q + 1);
  }

  /** A message of `n` bytes with `k` more bytes fills whole blocks. */
  lemma WholeWith(n: nat, k: nat)
    requires n % BLOCK + k == BLOCK || n % BLOCK + k == 2 * BLOCK
    ensures (n + k) % BLOCK == 0
  {
    assert n + k == BLOCK * (n / BLOCK) + (n % BLOCK + k);
  }

  lemma NotWholeWith(n: nat, k: nat)
    requires 0 < n % BLOCK + k < BLOCK || BLOCK < n % BLOCK + k < 2 * BLOCK
    ensures (n + k) % BLOCK != 0
  {
    assert n + k == BLOCK * (n / BLOCK) + (n % BLOCK + k);
  }

  /** The padding is the shortest that leaves room for the length in a whole number of blocks. */
  lemma PadLength(n: nat)
    ensures (n + |Pad(n)| + 8) % BLOCK == 0
    ensures forall k: nat :: k < ZeroCount(n) ==> (n + |[0x80] + Zeros(k)| + 8) % BLOCK != 0
  {
    hide ZeroCount;
    ZeroCases(n);
    WholeWith(n, |Pad(n)| + 8);
    forall k: nat | k < ZeroCount(n)
      ensures (n + |[0x80] + Zeros(k)| + 8) % BLOCK != 0
    {
      NotWholeWith(n, 1 + k + 8);
    }
  }

  /** Different messages of less than 2^61 bytes are padded differently. */
  lemma PaddedMd5Injective(m: seq<Byte>, m': seq<Byte>)
    requires |m| < TWO_61 && |m'| < TWO_61 && PaddedMd5(m) == PaddedMd5(m')
    ensures m == m'
  {
    hide Le, Pad, BitLength;
    SameTail(m + Pad(|m|), Le(BitLength(|m|), 8), m' + Pad(|m'|), Le(BitLength(|m'|), 8));
    SameMessage(m, m');
  }

  lemma PaddedSha1Injective(m: seq<Byte>, m': seq<Byte>)
    requires |m| < TWO_61 && |m'| < TWO_61 && PaddedSha1(m) == PaddedSha1(m')
    ensures m == m'
  {
    hide Le, Pad, BitLength, Reversed;
    var l, l' := Le(BitLength(|m|), 8), Le(BitLength(|m'|), 8);
    SameTail(m + Pad(|m|), Reversed(l), m' + Pad(|m'|), Reversed(l'));
    ReversedInjective(l, l');
    SameMessage(m, m');
  }

  /** The bytes of a padded message, whatever they are computed from. */
  ghost predicate PaddedWith(p: seq<Byte>, m: seq<Byte>) {
    && |p| % BLOCK == 0 && |m| + 9 <= |p| < |m| + 9 + BLOCK && p[..|m|] == m && p[|m|] == 0x80
    && forall j :: |m| < j < |p| - 8 ==> p[j] == 0
  }

  lemma PadBytes(m: seq<Byte>, l: seq<Byte>)
    requires |l| == 8
    ensures PaddedWith((m + Pad(|m|)) + l, m)
  {
    hide ZeroCount;
    ZeroCases(|m|);
    PadLength(|m|);
    var p := (m + Pad(|m|)) + l;
    assert p[..|m|] == m;
  }

  /** MD5 feeds the message, one 1 bit, zeros to the end of a block, and the number of bits with
      its low byte first. */
  lemma Md5Layout(m: seq<Byte>)
    ensures var p := PaddedMd5(m);
            && PaddedWith(p, m)
            && forall i :: 0 <= i < 8 ==> Base(i) > 0 && p[|p| - 8 + i] == (8 * |m| / Base(i)) % 256
  {
    hide Le, Base, Pad;
    var l, p := Le(BitLength(|m|), 8), PaddedMd5(m);
    PadBytes(m, l);
    forall i | 0 <= i < 8
      ensures Base(i) > 0 && p[|p| - 8 + i] == (8 * |m| / Base(i)) % 256
    {
      LengthByte(|m|, i);
      assert p[|p| - 8 + i] == l[i];
    }
  }

  /** SHA-1 feeds the same with the high byte of the number of bits first. */
  lemma Sha1Layout(m: seq<Byte>)
    ensures var p := PaddedSha1(m);
            && PaddedWith(p, m)
            && forall e :: 0 <= e < 8 ==> Base(e) > 0 && p[|p| - 1 - e] == (8 * |m| / Base(e)) % 256
  {
    hide Le, Base, Pad, Reversed;
    var l, p := Le(BitLength(|m|), 8), PaddedSha1(m);
    PadBytes(m, Reversed(l));
    forall e | 0 <= e < 8
      ensures Base(e) > 0 && p[|p| - 1 - e] == (8 * |m| / Base(e)) % 256
    {
      LengthByte(|m|, e);
      assert p[|p| - 1 - e] == Reversed(l)[7 - e] == l[e];
    }
  }

  lemma LengthByte(n: nat, i: nat)
    requires i < 8
    ensures Base(i) > 0 && Le(BitLength(n), 8)[i] == (8 * n / Base(i)) % 256
  {
    hide Le, Base;
    Bases();
    LeLow(8 * n, 8);
    LeByte(8 * n, 8, i);
  }

  lemma SameTail(a: seq<Byte>, b: seq<Byte>, a': seq<Byte>, b': seq<Byte>)
    requires |b| == |b'| && a + b == a' + b'
    ensures a == a' && b == b'
  {
    assert a == (a + b)[..|a|] && a' == (a' + b')[..|a'|] && b == (a + b)[|a|..] && b' == (a' + b')[|a'|..];
  }

  lemma ReversedInjective(s: seq<Byte>, t: seq<Byte>)
    requires Reversed(s) == Reversed(t)
    ensures s == t
  {
    forall i | 0 <= i < |s|
      ensures s[i] == t[i]
    {
      assert Reversed(s)[|s| - 1 - i] == s[i];
    }
  }

  lemma SameMessage(m: seq<Byte>, m': seq<Byte>)
    requires |m| < TWO_61 && |m'| < TWO_61 && m + Pad(|m|) == m' + Pad(|m'|)
    requires Le(BitLength(|m|), 8) == Le(BitLength(|m'|), 8)
    ensures m == m'
  {
    hide Le, Pad, BitLength, UnLe;
    LengthKnown(|m|);
    LengthKnown(|m'|);
    SameTail(m, Pad(|m|), m', Pad(|m'|));
  }

  lemma LengthKnown(n: nat)
    requires n < TWO_61
    ensures UnLe(Le(BitLength(n), 8)) == 8 * n
  {
    hide Le, UnLe, Base;
    Bases();
    LeRoundTrip(BitLength(n), 8);
  }
}

module Md5s {
  import opened Prelude
  import opened BsonFormat
  import opened HashPadding

  lemma OffsetOf(c0: nat, c1: nat, n: nat)
    requires c0 < TWO_32 && c0 + TWO_32 * c1 == BitLength(n)
    ensures (c0 / 8) % BLOCK == n % BLOCK
  {
    var q := (8 * n) / TWO_64;
    assert 8 * n == TWO_64 * q + (c0 + TWO_32 * c1);
    var k := 0x80_0000 * c1 + 0x80_0000_0000_0000 * q;
    assert c0 == 8 * (n - BLOCK * k);
    assert c0 / 8 == n - BLOCK * k;
    DropBlocks(n - BLOCK * k, k);
  }

  lemma DropBlocks(x: nat, k: nat)
    ensures (x + BLOCK * k) % BLOCK == x % BLOCK
  {
  }

  /** A 32-bit word. */
  function Word(x: nat): (r: nat)
    ensures r < TWO_32 && (x < TWO_32 ==> r == x)
  {
    x % TWO_32
  }

  /** Adding to a 64-bit number kept in two words. */
  lemma Carry(c0: nat, c1: nat, b: nat)
    requires c0 < TWO_32 && c1 < TWO_32 && b < TWO_32
    ensures var s := Word(c0 + b);
            && (s < b <==> c0 + b >= TWO_32) && (c0 + b >= TWO_32 ==> s == c0 + b - TWO_32)
            && s + TWO_32 * (if s < b then Word(c1 + 1) else c1) == (c0 + TWO_32 * c1 + b) % TWO_64
  {
    var s := Word(c0 + b);
    if c0 + b >= TWO_32 {
      assert s == c0 + b - TWO_32;
      if c1 + 1 == TWO_32 { assert c0 + TWO_32 * c1 + b == TWO_64 + s; }
    }
  }

  lemma BitAdd(n: nat, k: nat)
    ensures BitLength(n + k) == (BitLength(n) + 8 * k) % TWO_64
  {
  }

  /** The low word and the high word of a number of bits. */
  lemma BitsOf(nbytes: nat)
    requires nbytes <= INT_MAX
    ensures nbytes * 8 == Word(nbytes * 8) + TWO_32 * (nbytes / 0x2000_0000) && nbytes / 0x2000_0000 < 4
  {
    var h, l := nbytes / 0x2000_0000, nbytes % 0x2000_0000;
    assert nbytes * 8 == TWO_32 * h + 8 * l;
  }

  lemma HighAdd(c0: nat, c1: nat, h: nat)
    requires c0 < TWO_32 && c1 < TWO_32 && h < 4
    ensures c0 + TWO_32 * Word(c1 + h) == (c0 + TWO_32 * c1 + TWO_32 * h) % TWO_64
  {
    if c1 + h >= TWO_32 {
      assert Word(c1 + h) == c1 + h - TWO_32;
      assert c0 + TWO_32 * c1 + TWO_32 * h == TWO_64 + (c0 + TWO_32 * Word(c1 + h));
    }
  }

  lemma Reduce(x: nat, y: nat)
    ensures (x % TWO_64 + y) % TWO_64 == (x + y) % TWO_64
  {
  }

  /** Adding the bits of a piece, high word first. */
  lemma AddBits(c0: nat, c1: nat, nbytes: nat)
    requires c0 < TWO_32 && c1 < TWO_32 && nbytes <= INT_MAX
    ensures var nbits, t := Word(nbytes * 8), Word(c1 + nbytes / 0x2000_0000);
            var s := Word(c0 + nbits);
            s + TWO_32 * (if s < nbits then Word(t + 1) else t) == (c0 + TWO_32 * c1 + 8 * nbytes) % TWO_64
  {
    hide Word;
    BitsOf(nbytes);
    var nbits, high := Word(nbytes * 8), nbytes / 0x2000_0000;
    HighAdd(c0, c1, high);
    Carry(c0, Word(c1 + high), nbits);
    Reduce(c0 + TWO_32 * c1 + TWO_32 * high, nbits);
  }

  /** A whole number of blocks. */
  ghost predicate Whole(s: seq<Byte>) { |s| % BLOCK == 0 }

  /** A message cut at a block boundary. */
  lemma Remainder(msg: seq<Byte>, head: seq<Byte>, p: seq<Byte>)
    requires head + p == msg && Whole(head) && |p| < BLOCK
    ensures |msg| % BLOCK == |p| && msg[..|msg| - |p|] == head && msg[|msg| - |p|..] == p
  {
  }

  lemma NextBlock<S>(process: Step<S>, init: S, head: seq<Byte>, b: seq<Byte>)
    requires Whole(head) && |b| == BLOCK
    ensures Whole(head + b) && Fold(process, init, head + b) == process(Fold(process, init, head), b)
  {
    FoldAppend(process, init, head, b);
    FoldBlock(process, Fold(process, init, head), b);
  }

  lemma {:induction false} LeAppend(n: nat, hi: nat, k: nat, j: nat)
    requires n < Base(k)
    ensures Le(n + Base(k) * hi, k + j) == Le(n, k) + Le(hi, j)
    decreases k
  {
    if k == 0 {
      assert Le(hi, j) == [] + Le(hi, j);
    } else {
      var b := Base(k - 1);
      assert Base(k) * hi == 256 * (b * hi);
      assert (n + Base(k) * hi) / 256 == n / 256 + b * hi && (n + Base(k) * hi) % 256 == n % 256;
      LeAppend(n / 256, hi, k - 1, j);
    }
  }

  class Md5<S> {
    const process: Step<S>
    const init: S
    var abcd: S
    /** The number of bits, as two 32-bit words. */
    var count0: nat
    var count1: nat
    const buf: array<Byte>
    /** Everything that has been appended. */
    ghost var msg: seq<Byte>

    ghost predicate Counted()
      reads this
    {
      count0 < TWO_32 && count1 < TWO_32 && count0 + TWO_32 * count1 == BitLength(|msg|)
    }

    /** The full blocks have been processed, the rest of the message is kept. */
    ghost predicate Valid()
      reads this, buf
    {
      && buf.Length == BLOCK && Counted()
      && var k := |msg| % BLOCK;
      && buf[..k] == msg[|msg| - k..] && abcd == Fold(process, init, msg[..|msg| - k])
    }

    /** `mongo_md5_init`. */
    constructor (process: Step<S>, init: S)
      ensures Valid() && msg == [] && this.process == process && this.init == init && fresh(buf)
    {
      this.process, this.init := process, init;
      abcd, count0, count1, msg := init, 0, 0, [];
      buf := new Byte[BLOCK](_ => 0);
    }

    /** `memcpy` into the buffer. */
    method Copy(at: nat, s: seq<Byte>)
      requires at + |s| <= buf.Length
      modifies buf
      ensures buf[..at + |s|] == old(buf[..at]) + s
    {
      for i := 0 to |s|
        invariant buf[..at] == old(buf[..at]) && buf[at..at + i] == s[..i]
      {
        buf[at + i] := s[i];
      }
      assert buf[..at + |s|] == buf[..at] + buf[at..at + |s|];
    }

    /** The message length wraps around at 2^64 bits. */
    method AddLength(nbytes: nat)
      requires nbytes <= INT_MAX && Counted()
      modifies this`count0, this`count1
      ensures count0 < TWO_32 && count1 < TWO_32 && count0 + TWO_32 * count1 == BitLength(|msg| + nbytes)
    {
      hide BitLength, Word;
      BitAdd(|msg|, nbytes);
      AddBits(count0, count1, nbytes);
      var nbits, high := Word(nbytes * 8), nbytes / 0x2000_0000;
      count1 := Word(count1 + high);
      count0 := Word(count0 + nbits);
      if count0 < nbits {
        count1 := Word(count1 + 1);
      }
    }

    /** `mongo_md5_append`; the shift in the bit count wraps around, and the sum of the offset
        and the length has to be an `int`. */
    method Append(data: seq<Byte>)
      requires Valid() && |data| + BLOCK <= INT_MAX
      modifies this, buf
      ensures Valid() && msg == old(msg) + data
    {
      hide Fold, BitLength;
      var offset := (count0 / 8) % BLOCK;
      OffsetOf(count0, count1, |msg|);
      if |data| == 0 {
        assert msg + data == msg;
        return;
      }
      AddLength(|data|);
      ghost var head, rest := msg[..|msg| - offset], msg[|msg| - offset..];
      assert msg == head + rest && Whole(head);
      msg := msg + data;
      if offset == 0 {
        assert rest == [] && head == old(msg);
        Absorb(data, head);
        return;
      }
      // First complete the block in the buffer.
      var copy := if offset + |data| > BLOCK then BLOCK - offset else |data|;
      Copy(offset, data[..copy]);
      if offset + copy < BLOCK {
        assert data[..copy] == data && head + (rest + data) == msg;
        Remainder(msg, head, rest + data);
        return;
      }
      FillBlock(head, rest, data, copy);
      Absorb(data[copy..], head + buf[..]);
    }

    /** The buffer is full: process it. */
    method FillBlock(ghost head: seq<Byte>, ghost rest: seq<Byte>, ghost data: seq<Byte>, copy: nat)
      requires buf.Length == BLOCK && copy <= |data| && |rest| + copy == BLOCK && buf[..BLOCK] == rest + data[..copy]
      requires Whole(head) && abcd == Fold(process, init, head) && msg == (head + rest) + data
      modifies this`abcd
      ensures abcd == Fold(process, init, head + buf[..]) && Whole(head + buf[..])
      ensures (head + buf[..]) + data[copy..] == msg
    {
      hide Fold;
      assert buf[..] == buf[..BLOCK] && data == data[..copy] + data[copy..];
      NextBlock(process, init, head, buf[..]);
      abcd := process(abcd, buf[..]);
    }

    static lemma Advance(done: seq<Byte>, data: seq<Byte>, p: nat)
      requires p + BLOCK <= |data|
      ensures (done + data[p..p + BLOCK]) + data[p + BLOCK..] == done + data[p..]
    {
    }

    /** The full blocks of a message that has been processed up to `head`. */
    method FullBlocks(data: seq<Byte>, ghost head: seq<Byte>) returns (p: nat, ghost done: seq<Byte>)
      requires head + data == msg && Whole(head) && abcd == Fold(process, init, head)
      modifies this`abcd
      ensures p <= |data| < p + BLOCK && done + data[p..] == msg && Whole(done) && abcd == Fold(process, init, done)
    {
      hide Fold, Whole;
      var left := |data|;
      p, done := 0, head;
      while left >= BLOCK
        invariant 0 <= left && p + left == |data| && done + data[p..] == msg && Whole(done)
        invariant abcd == Fold(process, init, done)
      {
        Advance(done, data, p);
        NextBlock(process, init, done, data[p..p + BLOCK]);
        abcd := process(abcd, data[p..p + BLOCK]);
        done := done + data[p..p + BLOCK];
        p, left := p + BLOCK, left - BLOCK;
      }
    }

    /** The full blocks and the final partial block. */
    method Absorb(data: seq<Byte>, ghost head: seq<Byte>)
      requires buf.Length == BLOCK && Counted() && head + data == msg && Whole(head)
      requires abcd == Fold(process, init, head)
      modifies this`abcd, buf
      ensures Valid()
    {
      hide Fold, BitLength, Whole;
      ghost var done;
      var p;
      p, done := FullBlocks(data, head);
      if |data| != p { Copy(0, data[p..]); }
      Remainder(msg, done, data[p..]);
    }

    /** `mongo_md5_finish`: the compression function has seen exactly the padded message. */
    method Finish() returns (digest: S)
      requires Valid()
      modifies this, buf
      ensures digest == Fold(process, init, PaddedMd5(old(msg)))
    {
      hide Fold, Pad, BitLength, Le;
      // Padding does not count towards the length.
      var data := Le(count0, 4) + Le(count1, 4);
      LengthBytes();
      var pad := Pad((count0 / 8) % BLOCK);
      OffsetOf(count0, count1, |msg|);
      PadSame(|msg|, (count0 / 8) % BLOCK);
      Append(pad);
      Append(data);
      digest := abcd;
      PadLength(|old(msg)|);
      assert msg == PaddedMd5(old(msg)) && |msg| % BLOCK == 0;
      assert msg[..|msg|] == msg;
    }

    static lemma PadSame(n: nat, k: nat)
      requires k == n % BLOCK
      ensures Pad(k) == Pad(n) && |Pad(n)| <= BLOCK
    {
    }

    lemma LengthBytes()
      requires Counted()
      ensures Le(count0, 4) + Le(count1, 4) == Le(BitLength(|msg|), 8)
    {
      hide Le, BitLength, Base;
      Bases();
      LeAppend(count0, count1, 4, 4);
    }
  }
}

module Sha1s {
  import opened Prelude
  import opened BsonFormat
  import opened HashPadding
  import opened Md5s

  class Sha1<S> {
    const process: Step<S>
    const init: S
    var hash: S
    var low: nat
    var high: nat
    var index: nat
    const block: array<Byte>
    var computed: bool
    var corrupted: bool
    /** Every byte that has been put into the block. */
    ghost var fed: seq<Byte>

    ghost predicate Buffered()
      reads this, block
    {
      && block.Length == BLOCK && index <= BLOCK && index <= |fed| && (|fed| - index) % BLOCK == 0
      && block[..index] == fed[|fed| - index..] && hash == Fold(process, init, fed[..|fed| - index])
    }

    /** The input so far is `fed`; its length is known unless it has reached 2^61 bytes. */
    ghost predicate Valid()
      reads this, block
    {
      && Buffered() && index < BLOCK && low < TWO_32 && high < TWO_32 && !computed
      && low + TWO_32 * high == BitLength(|fed|) && |fed| <= TWO_61 && (corrupted <==> |fed| == TWO_61)
    }

    /** `SHA1Reset`. */
    constructor (process: Step<S>, init: S)
      ensures Valid() && fed == [] && this.process == process && this.init == init && fresh(block)
    {
      hide BitLength;
      NoBits();
      this.process, this.init := process, init;
      hash, low, high, index, computed, corrupted, fed := init, 0, 0, 0, false, false, [];
      block := new Byte[BLOCK](_ => 0);
    }

    static lemma NoBits()
      ensures BitLength(0) == 0
    {
    }

    /** `Message_Block[Message_Block_Index++] = x`. */
    method Put(x: Byte)
      requires Buffered() && index < BLOCK
      modifies this`index, this`fed, block
      ensures Buffered() && index == old(index) + 1 && fed == old(fed) + [x]
    {
      hide Fold;
      ghost var rest := block[..index];
      block[index] := x;
      index := index + 1;
      fed := fed + [x];
      assert block[..index] == rest + [x];
      assert fed[..|fed| - index] == old(fed[..|fed| - index]);
      assert fed[|fed| - index..] == old(fed[|fed| - index..]) + [x];
    }

    /** `SHA1ProcessMessageBlock`. */
    method ProcessBlock()
      requires Buffered() && index == BLOCK
      modifies this`hash, this`index
      ensures Buffered() && index == 0
    {
      hide Fold;
      ghost var head := fed[..|fed| - BLOCK];
      assert block[..] == block[..BLOCK];
      assert fed == head + block[..];
      NextBlock(process, init, head, block[..]);
      hash := process(hash, block[..]);
      index := 0;
      assert fed[..|fed|] == fed;
    }

    method CountByte()
      requires low < TWO_32 && high < TWO_32 && low + TWO_32 * high == BitLength(|fed|) && |fed| < TWO_61 && !corrupted
      modifies this`low, this`high, this`corrupted
      ensures low < TWO_32 && high < TWO_32 && low + TWO_32 * high == BitLength(|fed| + 1)
      ensures corrupted <==> |fed| + 1 == TWO_61
    {
      hide BitLength;
      BitAdd(|fed|, 1);
      Carry(low, high, 8);
      Multiple(low, high, |fed|);
      low := Word(low + 8);
      if low == 0 {
        high := Word(high + 1);
        if high == 0 {
          corrupted := true;
        }
      }
    }

    static lemma Multiple(lo: nat, hi: nat, n: nat)
      requires lo < TWO_32 && hi < TWO_32 && n < TWO_61 && lo + TWO_32 * hi == BitLength(n)
      ensures lo + TWO_32 * hi == 8 * n && lo % 8 == 0
      ensures n + 1 == TWO_61 <==> lo + 8 == TWO_32 && hi + 1 == TWO_32
    {
      assert BitLength(n) == 8 * n;
      assert lo == 8 * (n - 0x2000_0000 * hi);
    }

    /** `SHA1Input`: takes all bytes, but never more than 2^61 in total. */
    method Input(data: seq<Byte>)
      requires Valid()
      modifies this, block
      ensures Valid()
      ensures |old(fed)| + |data| <= TWO_61 ==> fed == old(fed) + data
      ensures |old(fed)| + |data| > TWO_61 ==> fed == old(fed) + data[..TWO_61 - |old(fed)|]
    {
      hide Fold, BitLength;
      var i := 0;
      while i < |data| && !corrupted
        invariant Valid() && 0 <= i <= |data| && fed == old(fed) + data[..i]
      {
        ghost var n := |fed|;
        CountByte();
        Put(data[i]);
        if index == BLOCK { ProcessBlock(); }
        i := i + 1;
      }
      assert data[..|data|] == data;
    }

    /** Zero bytes up to a position in the block. */
    method FillTo(n: nat)
      requires Buffered() && index <= n <= BLOCK
      modifies this`index, this`fed, block
      ensures Buffered() && index == n && fed == old(fed) + Zeros(n - old(index))
    {
      hide Fold;
      while index < n
        invariant Buffered() && old(index) <= index <= n && fed == old(fed) + Zeros(index - old(index))
      {
        ghost var k := index - old(index);
        Put(0);
        assert Zeros(k) + [0] == Zeros(k + 1);
      }
    }

    static lemma ZerosAdd(a: nat, b: nat)
      ensures Zeros(a) + Zeros(b) == Zeros(a + b)
    {
    }

    /** The first byte and the zero bytes of the padding. */
    method PadZeros()
      requires Valid()
      modifies this`index, this`fed, this`hash, block
      ensures Buffered() && index == 56 && fed == old(fed) + Pad(|old(fed)|)
    {
      hide Fold, BitLength, ZeroCount, Buffered, Zeros;
      Position();
      ZeroCases(|fed|);
      Put(0x80);
      if index > 56 {
        FillTo(64);
        ProcessBlock();
        FillTo(56);
        ZerosAdd(63 - |old(fed)| % BLOCK, 56);
      } else {
        FillTo(56);
      }
      Padded(old(fed), fed);
    }

    lemma Position()
      requires Valid()
      ensures Buffered() && index == |fed| % BLOCK < BLOCK
    {
      hide Fold, BitLength;
    }

    static lemma Padded(was: seq<Byte>, now: seq<Byte>)
      requires var at := |was| % BLOCK;
               || (at <= 55 && now == (was + [0x80]) + Zeros(55 - at))
               || (at > 55 && now == ((was + [0x80]) + Zeros(63 - at)) + Zeros(56)
                   && Zeros(63 - at) + Zeros(56) == Zeros(119 - at))
      ensures now == was + Pad(|was|)
    {
      hide Zeros, ZeroCount;
      ZeroCases(|was|);
    }

    /** `SHA1PadMessage`. */
    method PadMessage()
      requires Valid()
      modifies this`index, this`fed, this`hash, block
      ensures Buffered() && index == 0 && fed == PaddedSha1(old(fed))
    {
      hide Fold, BitLength, Le;
      var bytes := Reversed(Le(low, 4) + Le(high, 4));
      LengthBytes();
      PadZeros();
      ghost var padded := fed;
      for i := 0 to 8
        invariant Buffered() && index == 56 + i && fed == padded + bytes[..i]
      {
        Put(bytes[i]);
      }
      assert bytes[..8] == bytes;
      ProcessBlock();
    }

    lemma LengthBytes()
      requires low < TWO_32 && low + TWO_32 * high == BitLength(|fed|)
      ensures Le(low, 4) + Le(high, 4) == Le(BitLength(|fed|), 8)
    {
      hide Le, BitLength, Base;
      Bases();
      LeAppend(low, high, 4, 4);
    }

    /** `SHA1Result`: the compression function has seen exactly the padded input. */
    method Result() returns (digest: S)
      requires computed || Valid()
      modifies this, block
      ensures computed && hash == digest
      // A second call reports the same digest again.
      ensures digest == if old(computed) then old(hash) else Fold(process, init, PaddedSha1(old(fed)))
      // Nothing of the message is left behind.
      ensures !old(computed) ==> low == 0 && high == 0 && forall i :: 0 <= i < block.Length ==> block[i] == 0
    {
      hide Fold, BitLength, PaddedSha1;
      if computed { return hash; }
      PadMessage();
      assert fed[..|fed|] == fed;
      Wipe();
      low, high, computed := 0, 0, true;
      digest := hash;
    }

    method Wipe()
      requires block.Length == BLOCK
      modifies block
      ensures forall i :: 0 <= i < BLOCK ==> block[i] == 0
    {
      for i := 0 to BLOCK
        invariant forall j :: 0 <= j < i ==> block[j] == 0
      {
        block[i] := 0;
      }
    }
  }
}
