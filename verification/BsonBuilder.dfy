/**
  The builder and the iterator of `libs/mongo-c-driver/src/bson.c`: first the buffer of
  the builder as a value, with what each step does to it.
 */
module BsonBuffers {
  import opened Prelude
  import opened Utf8
  import opened BsonFormat

  const MAX_DEPTH := 32

  /** An object or array that has been started; the document itself comes first. */
  datatype Frame = Frame(tag: Byte, key: seq<Byte>, elems: seq<Element>)

  /** The bytes of a document under construction: unfinished parts have length 0. */
  function Partial(open: seq<Frame>): seq<Byte>
    requires |open| > 0
  {
    var n := |open| - 1;
    if n == 0 then EncElems(open[0].elems) else
      Partial(open[..n]) + (Lead(open[n].tag, open[n].key) + (Le32(0) + EncElems(open[n].elems)))
  }

  function Extend(open: seq<Frame>, e: Element): seq<Frame>
    requires |open| > 0
  {
    var n := |open| - 1;
    open[n := open[n].(elems := open[n].elems + [e])]
  }

  /** Where the length of each started part has to be patched in. */
  ghost predicate StackOk(stack: seq<nat>, open: seq<Frame>) {
    && |open| == |stack| + 1
    && forall i :: 0 <= i < |stack| ==>
         stack[i] == 4 + |Partial(open[..i + 1])| + |Lead(open[i + 1].tag, open[i + 1].key)|
  }

  ghost predicate FramesOk(open: seq<Frame>) {
    forall i :: 0 <= i < |open| ==> OkElems(open[i].elems) && (i > 0 ==> NoNul(open[i].key) && open[i].tag in {3, 4})
  }

  lemma PartialExtend(open: seq<Frame>, e: Element)
    requires |open| > 0
    ensures Partial(Extend(open, e)) == Partial(open) + (Lead(Tag(e.value), e.key) + Enc(e.value))
  {
    hide Enc, Lead, EncElems, Tag, Le32;
    var n := |open| - 1;
    var f, one := open[n], Lead(Tag(e.value), e.key) + Enc(e.value);
    EncAppend(f.elems, [e]);
    EncOne(e);
    assert EncElems(f.elems + [e]) == EncElems(f.elems) + one;
    assert Extend(open, e)[..n] == open[..n];
    if n > 0 { Regroup(Partial(open[..n]), Lead(f.tag, f.key), Le32(0), EncElems(f.elems), one); }
  }

  lemma Regroup(a: seq<Byte>, b: seq<Byte>, c: seq<Byte>, d: seq<Byte>, e: seq<Byte>)
    ensures a + (b + (c + (d + e))) == (a + (b + (c + d))) + e
  {
  }

  lemma PartialOpen(open: seq<Frame>, tag: Byte, key: seq<Byte>)
    requires |open| > 0
    ensures Partial(open + [Frame(tag, key, [])]) == Partial(open) + (Lead(tag, key) + Le32(0))
  {
    hide Enc, Lead, Le32;
    assert (open + [Frame(tag, key, [])])[..|open|] == open;
    assert Le32(0) + EncElems([]) == Le32(0);
  }

  lemma StackExtend(stack: seq<nat>, open: seq<Frame>, e: Element)
    requires StackOk(stack, open)
    ensures StackOk(stack, Extend(open, e))
  {
    hide Partial, Lead;
    forall i | 0 <= i < |stack|
      ensures stack[i] == 4 + |Partial(Extend(open, e)[..i + 1])|
          + |Lead(Extend(open, e)[i + 1].tag, Extend(open, e)[i + 1].key)|
    {
      assert Extend(open, e)[..i + 1] == open[..i + 1];
    }
  }

  lemma StackOpen(stack: seq<nat>, open: seq<Frame>, tag: Byte, key: seq<Byte>)
    requires StackOk(stack, open)
    ensures StackOk(stack + [4 + |Partial(open)| + |Lead(tag, key)|], open + [Frame(tag, key, [])])
  {
    hide Partial, Lead;
    var open' := open + [Frame(tag, key, [])];
    assert open'[..|open|] == open;
    forall i | 0 <= i < |stack|
      ensures stack[i] == 4 + |Partial(open'[..i + 1])| + |Lead(open'[i + 1].tag, open'[i + 1].key)|
    {
      assert open'[..i + 1] == open[..i + 1];
    }
  }

  lemma StackClose(stack: seq<nat>, open: seq<Frame>)
    requires StackOk(stack, open) && |stack| > 0
    ensures StackOk(stack[..|stack| - 1], open[..|open| - 1])
  {
    hide Partial, Lead;
    var open' := open[..|open| - 1];
    forall i | 0 <= i < |stack| - 1
      ensures stack[i] == 4 + |Partial(open'[..i + 1])| + |Lead(open'[i + 1].tag, open'[i + 1].key)|
    {
      assert open'[..i + 1] == open[..i + 1];
    }
  }

  lemma FramesExtend(open: seq<Frame>, e: Element)
    requires FramesOk(open) && |open| > 0 && NoNul(e.key) && OkValue(e.value)
    ensures FramesOk(Extend(open, e))
  {
    hide OkValue, NoNul;
  }

  /** Patching the length into a finished part turns its bytes into those of one element. */
  lemma Patched(pre: seq<Frame>, f: Frame, buf: seq<Byte>, len: nat)
    requires |pre| > 0 && |buf| >= 4 && buf[4..] == Partial(pre + [f]) + [0] && len == |EncElems(f.elems)| + 5
    ensures var start := 4 + |Partial(pre)| + |Lead(f.tag, f.key)|;
            && start + 4 <= |buf| && |buf| - start == len
            && var buf' := buf[..start] + Le32(len) + buf[start + 4..];
            && |buf'| == |buf| && buf'[4..] == Partial(Extend(pre, Element(f.key, Nested(f.tag, f.elems))))
  {
    hide EncElems, Lead, Le32, Partial, Extend, Enc;
    PartialExtend(pre, Element(f.key, Nested(f.tag, f.elems)));
    NestedEnc(f.tag, f.elems);
    PartialLast(pre, f);
    Splice(buf, Partial(pre), Lead(f.tag, f.key), Le32(0), EncElems(f.elems) + [0], Le32(len));
  }

  lemma NestedEnc(tag: Byte, es: seq<Element>)
    ensures Enc(Nested(tag, es)) == Le32(|EncElems(es)| + 5) + (EncElems(es) + [0])
  {
  }

  lemma PartialLast(pre: seq<Frame>, f: Frame)
    requires |pre| > 0
    ensures Partial(pre + [f]) + [0] == Partial(pre) + (Lead(f.tag, f.key) + (Le32(0) + (EncElems(f.elems) + [0])))
  {
    hide EncElems, Lead, Le32;
    assert (pre + [f])[..|pre|] == pre;
    Regroup(Partial(pre), Lead(f.tag, f.key), Le32(0), EncElems(f.elems), [0]);
  }

  lemma Splice(buf: seq<Byte>, a: seq<Byte>, b: seq<Byte>, c: seq<Byte>, d: seq<Byte>, c': seq<Byte>)
    requires |buf| >= 4 && buf[4..] == a + (b + (c + d)) && |c| == 4 == |c'|
    ensures var start := 4 + |a| + |b|;
            && start + 4 <= |buf| && |buf| - start == 4 + |d|
            && var buf' := buf[..start] + c' + buf[start + 4..];
            && |buf'| == |buf| && buf'[4..] == a + (b + (c' + d))
  {
    var start := 4 + |a| + |b|;
    var t := a + (b + (c + d));
    assert |t| == |a| + |b| + 4 + |d|;
    assert t == (a + b) + (c + d);
    assert t[..|a| + |b|] == a + b && t[|a| + |b| + 4..] == d;
    assert buf[..start][4..] == buf[4..][..|a| + |b|];
    assert buf[start + 4..] == buf[4..][|a| + |b| + 4..];
    var buf' := buf[..start] + c' + buf[start + 4..];
    assert buf'[4..] == buf[..start][4..] + c' + d;
  }

  // ---------- growing, with 32-bit sums ----------

  /** An `int` sum that wraps around. */
  function Wrap(x: int): (r: int)
    ensures -TWO_31 <= r < TWO_31
  {
    var m := x % TWO_32;
    if m >= TWO_31 then m - TWO_32 else m
  }

  /** `(int) (1.5 * s)`; a result that is out of range becomes the least `int`. */
  function Scaled(s: int): (r: int)
    ensures -TWO_31 <= r < TWO_31
  {
    var t := if s >= 0 then 3 * s / 2 else -(3 * -s / 2);
    if -TWO_31 <= t < TWO_31 then t else -TWO_31
  }

  /** The size of the buffer after `bson_ensure_space`, or nothing if it refuses. */
  function Grown(size: nat, pos: nat, need: int): (r: Option<int>)
    requires size <= INT_MAX
    ensures r.Some? ==> size <= r.value <= INT_MAX
  {
    if Wrap(pos + need) <= size then Some(size) else
      var s := Wrap(size + need);
      var n := Scaled(s);
      if n >= size then Some(n) else if s < INT_MAX then Some(INT_MAX) else None
  }

  lemma WrapSame(x: int)
    ensures -TWO_31 <= x < TWO_31 ==> Wrap(x) == x
    ensures TWO_31 <= x < TWO_32 ==> Wrap(x) == x - TWO_32
  {
  }

  /** While the end of the new bytes is an `int`, there is room exactly if the request is not
      refused, and it is refused exactly if the sizes sum up to `INT_MAX`; beyond that nothing
      is refused and nothing grows. */
  lemma GrownExact(size: nat, pos: nat, need: nat)
    requires pos <= size <= INT_MAX && need <= INT_MAX
    ensures pos + need <= INT_MAX ==> (Grown(size, pos, need).None? <==> pos + need > size && size + need == INT_MAX)
    ensures pos + need <= INT_MAX && Grown(size, pos, need).Some? ==> pos + need <= Grown(size, pos, need).value
    ensures pos + need > INT_MAX ==> Grown(size, pos, need) == Some(size)
  {
    hide Wrap;
    WrapSame(pos + need);
    WrapSame(size + need);
  }

  lemma Room(size: nat, pos: nat, total: nat)
    requires size <= INT_MAX
    ensures pos <= size && pos + total <= INT_MAX && Grown(size, pos, Wrap(total)).Some? ==>
              pos + total <= Grown(size, pos, Wrap(total)).value
  {
    hide Wrap, Grown;
    WrapSame(total);
    if pos <= size && total <= INT_MAX { GrownExact(size, pos, total); }
  }

  lemma OneMore(size: nat, pos: nat)
    requires size <= INT_MAX
    ensures pos <= size && pos < INT_MAX && Grown(size, pos, 1).Some? ==> pos + 1 <= Grown(size, pos, 1).value
  {
    hide Grown;
    if pos <= size { GrownExact(size, pos, 1); }
  }

  /** A buffer of fewer than four bytes, which cannot hold the length of a document, grows
      enough for `need` bytes exactly if they are many. */
  lemma GrownSmall(size: nat, need: nat)
    requires size < 4 && 3 * (size + need) / 2 <= INT_MAX
    ensures Grown(size, 4, need) == Some(3 * (size + need) / 2)
    ensures 4 + need <= Grown(size, 4, need).value <==> need >= 8 - 3 * size
  {
    hide Wrap;
    WrapSame(4 + need);
    WrapSame(size + need);
  }

  // ---------- the whole buffer ----------

  /** What has been written behind the length of the document. */
  function Body(data: seq<Byte>, cur: nat): seq<Byte> { if 4 <= cur <= |data| then data[4..cur] else [] }

  lemma BodyGrown(data: seq<Byte>, data': seq<Byte>, cur: nat)
    requires data <= data'
    ensures cur <= |data| || cur == 4 ==> Body(data', cur) == Body(data, cur)
  {
    if cur <= |data| { assert data'[..cur] == data[..cur]; }
  }

  /** What was written last is at the end of the body. */
  lemma BodyHolds(data: seq<Byte>, cur: nat, cur': nat, was: seq<Byte>, s: seq<Byte>)
    requires 4 <= cur <= cur' <= |data| && cur' == cur + |s| && |was| == cur - 4 && Body(data, cur') == was + s
    ensures Holds(data, cur, s)
  {
    assert data[cur..cur'] == data[4..cur'][cur - 4..] == s;
  }

  /** The buffer belongs to the parts that are open, apart from `stray` bytes in it; a sealed
      document was finished with no other part open. */
  ghost predicate Coherent(data: seq<Byte>, cur: nat, stack: seq<nat>, open: seq<Frame>, stray: nat,
                           finished: bool, sealed: bool)
  {
    && 4 <= cur && (cur <= |data| || cur == 4) && |data| <= INT_MAX
    && |open| == |stack| + 1 && |stack| <= MAX_DEPTH && FramesOk(open)
    && cur == 4 + |Partial(open)| + stray + (if finished then 1 else 0)
    && (forall i :: 0 <= i < |stack| ==> stack[i] + 4 <= cur)
    && (stray == 0 && !finished ==> Body(data, cur) == Partial(open) && StackOk(stack, open))
    && (finished && sealed ==> |open| == 1)
    && (stray == 0 && finished && sealed ==> cur <= |data| && data[..cur] == EncDoc(open[0].elems))
  }

  lemma CoherentGrown(data: seq<Byte>, data': seq<Byte>, cur: nat, stack: seq<nat>, open: seq<Frame>, stray: nat,
                      finished: bool, sealed: bool)
    requires Coherent(data, cur, stack, open, stray, finished, sealed) && data <= data' && |data'| <= INT_MAX
    ensures Coherent(data', cur, stack, open, stray, finished, sealed) && Body(data', cur) == Body(data, cur)
  {
    hide Partial, FramesOk, StackOk, EncDoc;
    if cur <= |data| { assert data'[..cur] == data[..cur]; }
  }

  lemma CoherentAppended(data: seq<Byte>, data': seq<Byte>, cur: nat, cur': nat, stack: seq<nat>, open: seq<Frame>,
                         stray: nat, sealed: bool, e: Element)
    requires Coherent(data, cur, stack, open, stray, false, sealed) && NoNul(e.key) && OkValue(e.value)
    requires cur' == cur + |Lead(Tag(e.value), e.key)| + |Enc(e.value)| && cur' <= |data'| <= INT_MAX
    requires Body(data', cur') == Body(data, cur) + (Lead(Tag(e.value), e.key) + Enc(e.value))
    ensures Coherent(data', cur', stack, Extend(open, e), stray, false, sealed)
  {
    hide Partial, FramesOk, StackOk, Lead, Enc, Body, NoNul, OkValue, EncDoc;
    PartialExtend(open, e);
    FramesExtend(open, e);
    if stray == 0 { StackExtend(stack, open, e); }
  }

  lemma CoherentStrayed(data: seq<Byte>, data': seq<Byte>, cur: nat, cur': nat, stack: seq<nat>, open: seq<Frame>,
                        stray: nat, sealed: bool)
    requires Coherent(data, cur, stack, open, stray, false, sealed) && cur < cur' <= |data'| <= INT_MAX
    ensures Coherent(data', cur', stack, open, stray + (cur' - cur), false, sealed)
  {
    hide Partial, FramesOk, StackOk, EncDoc;
  }

  lemma CoherentOpened(data: seq<Byte>, data': seq<Byte>, cur: nat, cur': nat, stack: seq<nat>, open: seq<Frame>,
                       stray: nat, sealed: bool, tag: Byte, key: seq<Byte>)
    requires Coherent(data, cur, stack, open, stray, false, sealed) && |stack| < MAX_DEPTH && NoNul(key)
        && tag in {3, 4}
    requires cur' == cur + |Lead(tag, key)| + 4 && cur' <= |data'| <= INT_MAX
    requires Body(data', cur') == Body(data, cur) + (Lead(tag, key) + Le32(0))
    ensures Coherent(data', cur', stack + [cur + |Lead(tag, key)|], open + [Frame(tag, key, [])], stray, false, sealed)
  {
    hide Partial, FramesOk, StackOk, Lead, Body, NoNul, EncDoc;
    PartialOpen(open, tag, key);
    FramesOpen(open, tag, key);
    if stray == 0 { StackOpen(stack, open, tag, key); }
  }

  lemma FramesOpen(open: seq<Frame>, tag: Byte, key: seq<Byte>)
    requires FramesOk(open) && |open| > 0 && NoNul(key) && tag in {3, 4}
    ensures FramesOk(open + [Frame(tag, key, [])])
  {
    hide NoNul;
    assert OkElems([]);
  }

  /** The frames after the innermost part has been finished. */
  function Closed(open: seq<Frame>): seq<Frame>
    requires |open| > 1
  {
    var n := |open| - 1;
    Extend(open[..n], Element(open[n].key, Nested(open[n].tag, open[n].elems)))
  }

  lemma ClosedLength(open: seq<Frame>)
    requires |open| > 1
    ensures |Partial(Closed(open))| == |Partial(open)| + 1 && |EncElems(open[|open| - 1].elems)| < |Partial(open)|
    ensures |Closed(open)| == |open| - 1
  {
    hide Partial, EncElems, Lead, Le32, Enc;
    var n := |open| - 1;
    assert open == open[..n] + [open[n]];
    PartialExtend(open[..n], Element(open[n].key, Nested(open[n].tag, open[n].elems)));
    NestedEnc(open[n].tag, open[n].elems);
    PartialLast(open[..n], open[n]);
  }

  /** A buffer with a length written over four of its bytes. */
  function Patch(data: seq<Byte>, at: nat, n: int): (r: seq<Byte>)
    ensures |r| == |data|
  {
    if at + 4 <= |data| then data[..at] + Le32(n) + data[at + 4..] else data
  }

  lemma CoherentClosed(data: seq<Byte>, data': seq<Byte>, cur: nat, stack: seq<nat>, open: seq<Frame>, stray: nat,
                       finished: bool, sealed: bool)
    requires Coherent(data, cur, stack, open, stray, finished, sealed) && |stack| > 0
    requires cur + 1 <= |data'| <= INT_MAX && Body(data', cur + 1) == Body(data, cur) + [0]
    ensures var at := stack[|stack| - 1];
            Coherent(Patch(data', at, cur + 1 - at), cur + 1, stack[..|stack| - 1], Closed(open), stray,
                finished, sealed)
  {
    hide Partial, FramesOk, StackOk, Lead, EncElems, Enc, Le32, EncDoc;
    ClosedLength(open);
    ClosedFrames(open, cur + 1);
    if stray == 0 && !finished {
      ClosedContent(data, data', cur, stack, open);
    }
  }

  lemma ClosedContent(data: seq<Byte>, data': seq<Byte>, cur: nat, stack: seq<nat>, open: seq<Frame>)
    requires 4 <= cur < |data'| && StackOk(stack, open) && |stack| > 0 && stack[|stack| - 1] + 4 <= cur
    requires Body(data, cur) == Partial(open) && Body(data', cur + 1) == Partial(open) + [0]
    ensures var at := stack[|stack| - 1];
            && Body(Patch(data', at, cur + 1 - at), cur + 1) == Partial(Closed(open))
            && StackOk(stack[..|stack| - 1], Closed(open))
  {
    hide Partial, Lead, EncElems, Le32, StackOk, Enc;
    var n, buf, at := |stack|, data'[..cur + 1], stack[|stack| - 1];
    Closing(open, stack);
    var f := open[n];
    assert buf[4..] == Body(data', cur + 1);
    Patched(open[..n], f, buf, |EncElems(f.elems)| + 5);
    PatchPrefix(data', cur + 1, at, cur + 1 - at);
    StackClose(stack, open);
    StackExtend(stack[..n - 1], open[..n], Element(f.key, Nested(f.tag, f.elems)));
  }

  lemma PatchPrefix(data: seq<Byte>, cur: nat, at: nat, n: int)
    requires at + 4 <= cur <= |data|
    ensures Patch(data, at, n)[..cur] == data[..cur][..at] + Le32(n) + data[..cur][at + 4..]
    ensures 4 <= cur ==> Body(Patch(data, at, n), cur) == (data[..cur][..at] + Le32(n) + data[..cur][at + 4..])[4..]
  {
    hide Le32;
  }

  lemma Closing(open: seq<Frame>, stack: seq<nat>)
    requires StackOk(stack, open) && |stack| > 0
    ensures var n := |stack|;
            && |open| == n + 1 && open[..n] + [open[n]] == open
            && stack[n - 1] == 4 + |Partial(open[..n])| + |Lead(open[n].tag, open[n].key)|
  {
    hide Partial, Lead;
  }

  lemma ClosedFrames(open: seq<Frame>, most: nat)
    requires FramesOk(open) && |open| > 1 && |EncElems(open[|open| - 1].elems)| + 5 <= most <= INT_MAX
    ensures FramesOk(Closed(open))
  {
    hide NoNul, OkElems, EncElems;
    var n := |open| - 1;
    var e := Element(open[n].key, Nested(open[n].tag, open[n].elems));
    assert OkValue(e.value);
    assert FramesOk(open[..n]);
    FramesExtend(open[..n], e);
  }

  lemma CoherentFinished(data: seq<Byte>, data': seq<Byte>, cur: nat, stack: seq<nat>, open: seq<Frame>, stray: nat,
                         sealed: bool)
    requires Coherent(data, cur, stack, open, stray, false, sealed)
    requires cur + 1 <= |data'| <= INT_MAX && Body(data', cur + 1) == Body(data, cur) + [0]
    ensures Coherent(Patch(data', 0, cur + 1), cur + 1, stack, open, stray, true, stack == [])
    ensures Patch(data', 0, cur + 1)[..cur + 1] == EncDoc(open[0].elems) <==> stray == 0 && stack == []
  {
    hide Partial, FramesOk, StackOk, EncDoc, Patch, Body;
    PartialLonger(open);
    DocLength(open[0].elems);
    if stray == 0 && stack == [] { FinishedBytes(data', cur + 1, open); }
  }

  lemma FinishedBytes(data: seq<Byte>, n: nat, open: seq<Frame>)
    requires |open| == 1 && 4 <= n <= |data| && Body(data, n) == Partial(open) + [0]
    ensures Patch(data, 0, n)[..n] == EncDoc(open[0].elems)
  {
    hide Partial, EncDoc, Le32;
    assert data[..n][4..] == Body(data, n);
    PatchPrefix(data, n, 0, n);
    WholeDocument(open, data[..n]);
  }

  /** Open parts make a document longer than its finished elements. */
  lemma {:induction false} PartialLonger(open: seq<Frame>)
    requires |open| > 0
    ensures |EncElems(open[0].elems)| <= |Partial(open)| && (|open| > 1 ==> |EncElems(open[0].elems)| < |Partial(open)|)
    decreases |open|
  {
    hide EncElems, Lead, Le32;
    if |open| > 1 { PartialLonger(open[..|open| - 1]); }
  }

  lemma DocLength(es: seq<Element>)
    ensures |EncDoc(es)| == |EncElems(es)| + 5
  {
    hide EncElems, Le32;
  }

  lemma WholeDocument(open: seq<Frame>, buf: seq<Byte>)
    requires |open| == 1 && |buf| >= 4 && buf[4..] == Partial(open) + [0]
    ensures buf[..0] + Le32(|buf|) + buf[4..] == EncDoc(open[0].elems)
  {
    hide EncElems, Le32;
    assert Partial(open) == EncElems(open[0].elems);
  }

  /** What a coherent finished document is. */
  lemma SealedOk(data: seq<Byte>, cur: nat, open: seq<Frame>, sealed: bool)
    requires Coherent(data, cur, [], open, 0, true, sealed) && sealed
    ensures cur <= |data| && data[..cur] == EncDoc(open[0].elems)
    ensures OkElems(open[0].elems) && |EncDoc(open[0].elems)| <= INT_MAX
  {
    hide EncDoc, OkElems, Partial;
  }
}

module BsonBuilders {
  import opened Prelude
  import opened Utf8
  import opened BsonFormat
  import opened BsonBuffers

  class Builder {
    var data: seq<Byte>
    var cur: nat
    var stack: seq<nat>
    var finished: bool
    // The bits of `err`.
    var overflow: bool
    var notUtf8: bool
    var hasDot: bool
    var initDollar: bool
    var alreadyFinished: bool
    ghost var open: seq<Frame>
    /** Bytes of refused regular expressions that were left in the buffer. */
    ghost var stray: nat
    /** The document was finished with no other part open. */
    ghost var sealed: bool
    /** Something was written outside the buffer or the stack; nothing is known any more. */
    ghost var wild: bool

    ghost predicate Valid()
      reads this
    {
      && |data| <= INT_MAX && 4 <= cur && |open| == |stack| + 1
      && (wild || (Coherent(data, cur, stack, open, stray, finished, sealed) && (stray > 0 ==> notUtf8 || overflow)))
    }

    /** `bson_init_size`. */
    constructor (size: nat)
      requires size <= INT_MAX
      ensures Valid() && !finished && !wild && stray == 0 && !notUtf8 && !overflow && open == [Frame(3, [], [])]
      ensures |data| == size && cur == 4 && stack == []
    {
      data := seq(size, _ => 0);
      cur, stack, finished := 4, [], false;
      overflow, notUtf8, hasDot, initDollar, alreadyFinished := false, false, false, false, false;
      open, stray, sealed, wild := [Frame(3, [], [])], 0, false, false;
    }

    /** `bson_ensure_space`. */
    method EnsureSpace(need: int) returns (ok: bool)
      requires |data| <= INT_MAX
      modifies this`data, this`overflow, this`notUtf8, this`hasDot, this`initDollar, this`alreadyFinished
      ensures ok <==> old(Grown(|data|, cur, need)).Some?
      ensures |data| <= INT_MAX && old(data) <= data && (ok ==> |data| == old(Grown(|data|, cur, need)).value)
      ensures ok ==> notUtf8 == old(notUtf8) && overflow == old(overflow)
      ensures ok ==> hasDot == old(hasDot) && initDollar == old(initDollar) && alreadyFinished == old(alreadyFinished)
      ensures !ok ==> overflow && !notUtf8 && data == old(data)
    {
      hide Wrap, Scaled;
      if Wrap(cur + need) <= |data| { return true; }
      var newSize := Scaled(Wrap(|data| + need));
      if newSize < |data| {
        if Wrap(|data| + need) < INT_MAX {
          newSize := INT_MAX;
        } else {
          // The assignment drops all other error bits.
          overflow, notUtf8, hasDot, initDollar, alreadyFinished := true, false, false, false, false;
          return false;
        }
      }
      data := data + seq(newSize - |data|, _ => 0);
      return true;
    }

    /** `bson_append`, `bson_append_byte`, `bson_append32` and `bson_append64`. */
    method Write(s: seq<Byte>)
      requires 4 <= cur
      modifies this`data, this`cur, this`wild
      ensures cur == old(cur) + |s| && |data| == old(|data|) && wild == (old(wild) || cur > |data|)
      ensures cur <= |data| ==> Body(data, cur) == old(Body(data, cur)) + s
    {
      if cur + |s| <= |data| {
        ghost var was := data;
        data := data[..cur] + s + data[cur + |s|..];
        assert data[4..cur + |s|] == was[4..cur] + s;
      } else {
        wild := true;
      }
      cur := cur + |s|;
    }

    /** An element with this key and so many bytes of payload can be started. */
    predicate Begins(key: seq<Byte>, size: nat)
      reads this
      requires |data| <= INT_MAX
    {
      !finished && Grown(|data|, cur, Wrap(|key| + 2 + size)).Some? && Accepts(key)
    }

    /** `bson_append_estart`: the type and the key of an element. */
    method Start(tag: Byte, key: seq<Byte>, size: nat) returns (ok: bool)
      requires |data| <= INT_MAX && 4 <= cur
      modifies this`data, this`cur, this`wild
      modifies this`overflow, this`notUtf8, this`hasDot, this`initDollar, this`alreadyFinished
      ensures ok <==> old(Begins(key, size))
      ensures |data| <= INT_MAX
      ensures !ok ==> cur == old(cur) && wild == old(wild) && old(data) <= data
      // A refusal sets exactly the bit of its reason.
      ensures finished ==> alreadyFinished && notUtf8 == old(notUtf8) && overflow == old(overflow)
      ensures !finished && old(Grown(|data|, cur, Wrap(|key| + 2 + size))).Some? ==>
                && notUtf8 == (old(notUtf8) || !Accepts(key)) && overflow == old(overflow)
                && alreadyFinished == old(alreadyFinished)
      ensures !finished && old(Grown(|data|, cur, Wrap(|key| + 2 + size))).None? ==>
                !notUtf8 && overflow && data == old(data)
      ensures ok ==> |data| == old(Grown(|data|, cur, Wrap(|key| + 2 + size))).value
      ensures ok ==> cur == old(cur) + |Lead(tag, key)| && wild == (old(wild) || cur > |data|)
      ensures ok && cur <= |data| && old(cur <= |data| || cur == 4) ==>
                Body(data, cur) == old(Body(data, cur)) + Lead(tag, key)
      // Warnings about the key.
      ensures ok ==> initDollar == (old(initDollar) || (0 < |key| && key[0] == '$' as int))
      ensures ok ==> hasDot == (old(hasDot) || DotSeen(key))
    {
      hide Accepts, Lead, DotSeen, Wrap, Grown, Body;
      LeadParts(tag, key);
      if finished {
        alreadyFinished := true;
        return false;
      }
      ok := EnsureSpace(Wrap(1 + (|key| + 1) + size));
      if !ok { return false; }
      var legal, dot, dollar := Validate(key, true, true);
      hasDot, initDollar, notUtf8 := hasDot || dot, initDollar || dollar, notUtf8 || !legal;
      if !legal { return false; }
      BodyGrown(old(data), data, cur);
      WriteLead(tag, key);
    }

    method WriteLead(tag: Byte, key: seq<Byte>)
      requires 4 <= cur
      modifies this`data, this`cur, this`wild
      ensures cur == old(cur) + |Lead(tag, key)| && |data| == old(|data|) && wild == (old(wild) || cur > |data|)
      ensures cur <= |data| ==> Body(data, cur) == old(Body(data, cur)) + Lead(tag, key)
    {
      hide Body;
      ghost var was := Body(data, cur);
      Write([tag]);
      Write(key + [0]);
      Associate(was, [tag], key + [0]);
    }

    /** The texts that are checked. */
    predicate Checked(v: Value) { (v.Text? ==> Accepts(v.s)) && (v.Regex? ==> Accepts(v.pattern)) }

    /** The payload of an element, piece by piece. */
    method WritePayload(v: Value) returns (ok: bool)
      requires OkValue(v) && 4 <= cur && (v.Text? ==> Accepts(v.s))
      modifies this`data, this`cur, this`notUtf8, this`wild
      ensures ok <==> Checked(v)
      ensures |data| == old(|data|) && notUtf8 == (old(notUtf8) || !ok)
      ensures cur == old(cur) + if ok then |Enc(v)| else 0
      ensures wild == (old(wild) || (ok && cur > |data|))
      ensures ok && cur <= |data| ==> Body(data, cur) == old(Body(data, cur)) + Enc(v)
    {
      hide Accepts, OkElems, Le32, NoStray, NoNul, Body;
      ghost var was := Body(data, cur);
      match v {
        case Text(_, s) =>
          Write(Le32(|s| + 1));
          Write(s);
          Write([0]);
          Chained(was, Le32(|s| + 1), s, [0]);
        case Binary(t, s) =>
          WriteBinary(t, s);
        case Regex(p, o) =>
          var legal, _, _ := Validate(p, false, false);
          if !legal {
            notUtf8 := true;
            return false;
          }
          Write(p + [0]);
          Write(o + [0]);
          Associate(was, p + [0], o + [0]);
        case _ =>
          Write(Enc(v));
      }
      return true;
    }

    /** The payload of `bson_append_binary`; the old subtype repeats the length. */
    method WriteBinary(t: Byte, s: seq<Byte>)
      requires 4 <= cur
      modifies this`data, this`cur, this`wild
      ensures |data| == old(|data|) && cur == old(cur) + |Enc(Binary(t, s))| && wild == (old(wild) || cur > |data|)
      ensures cur <= |data| ==> Body(data, cur) == old(Body(data, cur)) + Enc(Binary(t, s))
    {
      hide Le32, Body;
      ghost var was := Body(data, cur);
      if t == 2 {
        Write(Le32(|s| + 4));
        Write([t]);
        Write(Le32(|s|));
        Write(s);
        Chained(was + Le32(|s| + 4), [t], Le32(|s|), s);
        Associate(was, Le32(|s| + 4), [t] + (Le32(|s|) + s));
      } else {
        Write(Le32(|s|));
        Write([t]);
        Write(s);
        Chained(was, Le32(|s|), [t], s);
      }
    }

    static lemma Chained(a: seq<Byte>, b: seq<Byte>, c: seq<Byte>, d: seq<Byte>)
      ensures ((a + b) + c) + d == a + (b + (c + d))
    {
    }

    /** The bytes that `Append` leaves in the buffer for nothing: type and key of a regular
        expression whose pattern is refused after they have been written. */
    function Stranded(key: seq<Byte>, v: Value): nat
      reads this
      requires |data| <= INT_MAX
    {
      if v.Regex? && Begins(key, |Enc(v)|) && !Accepts(v.pattern) then |key| + 2 else 0
    }

    lemma Bounds()
      requires Valid()
      ensures !wild ==> (cur <= |data| || cur == 4) && |stack| <= MAX_DEPTH && |Body(data, cur)| == cur - 4
    {
      hide Partial, FramesOk, StackOk, EncDoc;
    }

    /** The functions that append one element: `bson_append_int` and so on, and
        `bson_append_bson` for a finished document. */
    method Append(key: seq<Byte>, v: Value) returns (ok: bool)
      requires Valid() && NoNul(key) && OkValue(v) && (v.Nested? ==> v.tag == 3)
      modifies this
      ensures Valid() && stack == old(stack) && finished == old(finished) && sealed == old(sealed)
      ensures ok <==> old(Begins(key, |Enc(v)|)) && Checked(v)
      ensures open == if ok then Extend(old(open), Element(key, v)) else old(open)
      ensures stray == old(stray) + old(Stranded(key, v))
      ensures cur == old(cur) + if ok then |key| + 2 + |Enc(v)| else old(Stranded(key, v))
      ensures wild == (old(wild) || (cur > old(cur) && cur > |data|))
      ensures ok ==> |data| == old(Grown(|data|, cur, Wrap(|key| + 2 + |Enc(v)|))).value
      ensures ok ==> notUtf8 == old(notUtf8) && overflow == old(overflow)
      // A refusal sets exactly the bit of its reason.
      ensures v.Text? && !Checked(v) ==> notUtf8 && overflow == old(overflow) && alreadyFinished == old(alreadyFinished)
      ensures finished && (v.Text? ==> Checked(v)) ==>
                alreadyFinished && notUtf8 == old(notUtf8) && overflow == old(overflow)
      ensures !finished && old(Grown(|data|, cur, Wrap(|key| + 2 + |Enc(v)|))).Some? && (v.Text? ==> Checked(v)) ==>
                notUtf8 == (old(notUtf8) || !Accepts(key) || !Checked(v)) && overflow == old(overflow)
      ensures old(Stranded(key, v)) > 0 ==>
                notUtf8 && |data| == old(Grown(|data|, cur, Wrap(|key| + 2 + |Enc(v)|))).value
      // Every byte of the element is where the format puts it.
      ensures ok && !wild ==> LaidAt(data, old(cur), key, v)
      // Refused for lack of space: all error bits but one are dropped.
      ensures !finished && Checked(v) && old(Grown(|data|, cur, Wrap(|key| + 2 + |Enc(v)|))).None? ==>
                !notUtf8 && overflow && data == old(data)
      // No byte lands outside while the end of the element is an `int`.
      ensures old(cur <= |data|) && old(cur) + |key| + 2 + |Enc(v)| <= INT_MAX ==> wild == old(wild)
    {
      hide Enc, OkValue, Accepts, Coherent, Lead, NoNul, Body, Grown, Wrap, LaidAt;
      if v.Text? {
        var legal, _, _ := Validate(v.s, false, false);
        if !legal {
          notUtf8 := true;
          return false;
        }
      }
      ok := Emit(key, v);
      Room(old(|data|), old(cur), |key| + 2 + |Enc(v)|);
    }

    /** Type, key and payload of an element. */
    method Emit(key: seq<Byte>, v: Value) returns (ok: bool)
      requires Valid() && NoNul(key) && OkValue(v) && (v.Text? ==> Accepts(v.s))
      modifies this
      ensures Valid() && stack == old(stack) && finished == old(finished) && sealed == old(sealed)
      ensures ok <==> old(Begins(key, |Enc(v)|)) && Checked(v)
      ensures open == if ok then Extend(old(open), Element(key, v)) else old(open)
      ensures stray == old(stray) + old(Stranded(key, v))
      ensures cur == old(cur) + if ok then |key| + 2 + |Enc(v)| else old(Stranded(key, v))
      ensures wild == (old(wild) || (cur > old(cur) && cur > |data|))
      ensures cur > old(cur) ==> old(Begins(key, |Enc(v)|))
      ensures cur > old(cur) ==> |data| == old(Grown(|data|, cur, Wrap(|key| + 2 + |Enc(v)|))).value
      ensures ok ==> notUtf8 == old(notUtf8) && overflow == old(overflow)
      ensures finished ==> alreadyFinished && notUtf8 == old(notUtf8) && overflow == old(overflow)
      ensures !finished && old(Grown(|data|, cur, Wrap(|key| + 2 + |Enc(v)|))).Some? ==>
                notUtf8 == (old(notUtf8) || !Accepts(key) || !Checked(v)) && overflow == old(overflow)
      ensures old(Stranded(key, v)) > 0 ==> notUtf8
      ensures ok && !wild ==> LaidAt(data, old(cur), key, v)
      ensures !finished && old(Grown(|data|, cur, Wrap(|key| + 2 + |Enc(v)|))).None? ==>
                !notUtf8 && overflow && data == old(data)
    {
      hide Enc, OkValue, Accepts, Coherent, Lead, NoNul, Body, Grown, Wrap, LaidAt, Holds;
      LeadParts(Tag(v), key);
      Bounds();
      ok := Start(Tag(v), key, |Enc(v)|);
      if !ok {
        if !wild { CoherentGrown(old(data), data, cur, stack, open, stray, finished, sealed); }
        return;
      }
      ok := WritePayload(v);
      if !ok {
        if !wild { CoherentStrayed(old(data), data, old(cur), cur, stack, open, stray, sealed); }
        stray := stray + (|key| + 2);
        return;
      }
      if !wild {
        Associate(old(Body(data, cur)), Lead(Tag(v), key), Enc(v));
        CoherentAppended(old(data), data, old(cur), cur, stack, open, stray, sealed, Element(key, v));
        BodyHolds(data, old(cur), cur, old(Body(data, cur)), Lead(Tag(v), key) + Enc(v));
        LaidElement(data, old(cur), key, v);
      }
      open := Extend(open, Element(key, v));
    }

    /** `bson_append_start_object` and `bson_append_start_array`; the stack has room for 32. */
    method StartNested(tag: Byte, key: seq<Byte>) returns (ok: bool)
      requires Valid() && NoNul(key) && tag in {3, 4}
      modifies this
      ensures Valid() && finished == old(finished) && stray == old(stray) && sealed == old(sealed)
      ensures ok <==> old(Begins(key, 5))
      ensures open == if ok then old(open) + [Frame(tag, key, [])] else old(open)
      ensures wild == (old(wild) || (ok && (cur > |data| || old(|stack|) >= MAX_DEPTH)))
      ensures ok ==> cur == old(cur) + |key| + 2 + 4 && |data| == old(Grown(|data|, cur, Wrap(|key| + 2 + 5))).value
      ensures ok ==> notUtf8 == old(notUtf8) && overflow == old(overflow)
      ensures old(cur <= |data| && |stack| < MAX_DEPTH) && old(cur) + |key| + 2 + 5 <= INT_MAX ==> wild == old(wild)
    {
      hide Enc, OkValue, Accepts, Coherent, Lead, NoNul, Body, Grown, Wrap, Le32;
      LeadParts(tag, key);
      Bounds();
      ok := Start(tag, key, 5);
      if !ok {
        if !wild { CoherentGrown(old(data), data, cur, stack, open, stray, finished, sealed); }
        return;
      }
      Room(old(|data|), old(cur), |key| + 2 + 5);
      if |stack| >= MAX_DEPTH { wild := true; }
      stack := stack + [cur];
      Write(Le32(0));
      if !wild {
        Associate(old(Body(data, cur)), Lead(tag, key), Le32(0));
        CoherentOpened(old(data), data, old(cur), cur, old(stack), open, stray, sealed, tag, key);
      }
      open := open + [Frame(tag, key, [])];
    }

    /** `bson_append_finish_object`; without an open part the stack is read outside its bounds. */
    method FinishNested() returns (ok: bool)
      requires Valid()
      modifies this
      ensures Valid() && finished == old(finished) && stray == old(stray) && sealed == old(sealed)
      ensures ok <==> old(Grown(|data|, cur, 1)).Some?
      ensures wild == (old(wild) || (ok && (cur > |data| || old(stack) == [])))
      ensures ok && old(stack) != [] ==> open == Closed(old(open)) && stack == old(stack)[..old(|stack|) - 1]
      ensures !ok || old(stack) == [] ==> open == old(open) && stack == old(stack)
      ensures ok ==> cur == old(cur) + 1 && |data| == old(Grown(|data|, cur, 1)).value
      ensures ok ==> notUtf8 == old(notUtf8) && overflow == old(overflow)
      ensures old(cur <= |data| && stack != []) && old(cur) < INT_MAX ==> wild == old(wild)
    {
      hide Enc, OkValue, Coherent, Lead, NoNul, Body, Grown, Le32, Partial, Closed;
      Bounds();
      ok := EnsureSpace(1);
      if !wild { CoherentGrown(old(data), data, cur, stack, open, stray, finished, sealed); }
      if !ok { return; }
      OneMore(old(|data|), old(cur));
      ghost var grown := data;
      Write([0]);
      if |stack| == 0 {
        wild := true;
        return;
      }
      var start := stack[|stack| - 1];
      if !wild { CoherentClosed(grown, data, cur - 1, stack, open, stray, finished, sealed); }
      stack := stack[..|stack| - 1];
      data := Patch(data, start, cur - start);
      ClosedSize(open);
      open := Closed(open);
    }

    static lemma ClosedSize(open: seq<Frame>)
      requires |open| > 1
      ensures |Closed(open)| == |open| - 1
    {
    }

    /** `bson_finish`: refused after a text that is not UTF-8. */
    method Finish() returns (ok: bool)
      requires Valid()
      modifies this
      ensures Valid() && open == old(open) && stack == old(stack) && stray == old(stray)
      ensures ok <==> !old(notUtf8) && (old(finished) || old(Grown(|data|, cur, 1)).Some?)
      ensures ok ==> finished && (old(finished) ==> data == old(data) && cur == old(cur))
      ensures wild == (old(wild) || (ok && !old(finished) && cur > |data|))
      ensures old(cur <= |data|) && old(cur) < INT_MAX ==> wild == old(wild)
      ensures ok && !old(finished) ==> cur == old(cur) + 1 && |data| == old(Grown(|data|, cur, 1)).value
      // The buffer holds the document of the appended elements exactly if every part that was
      // started has been finished and no refused regular expression is in it.
      ensures ok && !old(finished) && !wild ==>
                cur <= |data| && (data[..cur] == EncDoc(open[0].elems) <==> stray == 0 && stack == [])
      // Then the iterator reads the elements back.
      ensures ok && !old(finished) && !wild && stray == 0 && stack == [] ==>
                ParseElems(data[..cur], 4) == Some(open[0].elems)
    {
      hide Enc, OkValue, Coherent, Lead, NoNul, Body, Grown, Le32, Partial, Closed, EncDoc, ParseElems, Patch;
      hide OkElems, IntRaw;
      Bounds();
      if notUtf8 { return false; }
      if finished { return true; }
      ok := EnsureSpace(1);
      if !wild { CoherentGrown(old(data), data, cur, stack, open, stray, finished, sealed); }
      if !ok { return; }
      OneMore(old(|data|), old(cur));
      ghost var grown := data;
      Write([0]);
      if !wild { CoherentFinished(grown, data, cur - 1, stack, open, stray, sealed); }
      data := Patch(data, 0, cur);
      finished := true;
      sealed := stack == [];
      if !wild && stray == 0 && stack == [] {
        SealedOk(data, cur, open, sealed);
        RoundTrip(open[0].elems);
      }
    }
  }

  /** A cursor over the elements of a document. */
  class Iterator {
    const d: seq<Byte>
    var cur: nat
    var first: bool
    ghost const base: nat
    ghost const elems: seq<Element>
    /** Elements before the current one. */
    ghost var k: nat

    ghost predicate Valid()
      reads this
    {
      && OkElems(elems) && Holds(d, base + 4, EncElems(elems) + [0]) && k <= |elems| && (first ==> k == 0)
      && cur == base + 4 + |EncElems(elems[..k])|
    }

    /** `bson_iterator_from_buffer`. */
    constructor (d: seq<Byte>, base: nat, ghost es: seq<Element>)
      requires OkElems(es) && Holds(d, base, EncDoc(es))
      ensures Valid() && this.d == d && this.base == base && elems == es && k == 0 && first
    {
      this.d := d;
      this.base := base;
      elems := es;
      cur, first, k := base + 4, true, 0;
      new;
      HoldsSplit(d, base, Le32(|EncElems(es)| + 5), EncElems(es) + [0]);
    }

    ghost function TypeAt(k: nat): Byte { if k < |elems| then Tag(elems[k].value) else 0 }

    /** What the cursor sees. */
    lemma Here()
      requires Valid()
      ensures cur < |d| && d[cur] == TypeAt(k) && (d[cur] == 0 <==> k == |elems|)
      ensures k < |elems| ==>
                KeyAt(d, cur) == elems[k].key && Parse(d, d[cur], ValuePos(d, cur)) == Some(elems[k].value)
      ensures k < |elems| ==> NextPos(d, cur) == Some(base + 4 + |EncElems(elems[..k + 1])|)
    {
      hide Enc, Lead, EncElems, Parse, ValueLen, OkValue, OkElems, NoNul, ParseElems, KeyAt, Holds, Tag, Strlen;
      var pre, post := elems[..k], elems[k..];
      assert elems == pre + post;
      EncAppend(pre, post);
      Associate(EncElems(pre), EncElems(post), [0]);
      HoldsSplit(d, base + 4, EncElems(pre), EncElems(post) + [0]);
      if k == |elems| {
        AtEnd(d, cur);
      } else {
        var e := elems[k];
        OkSuffix(elems, k);
        ElementStep(d, cur, post);
        ElementAt(d, cur, e);
        ValueOf(d, ValuePos(d, cur), e.value);
        TagNonzero(e.value);
        assert elems[..k + 1] == pre + [e];
        EncAppend(pre, [e]);
        EncOne(e);
        LeadParts(Tag(e.value), e.key);
      }
    }

    static lemma AtEnd(d: seq<Byte>, cur: nat)
      requires Holds(d, cur, EncElems([]) + [0])
      ensures cur < |d| && d[cur] == 0
    {
      HoldsSplit(d, cur, EncElems([]), [0]);
      HoldsByte(d, cur, 0);
    }

    static lemma OkSuffix(es: seq<Element>, k: nat)
      requires OkElems(es) && k <= |es|
      ensures OkElems(es[k..])
    {
    }

    /** `bson_iterator_next`: step to the next element, or stay at the end. */
    method Next() returns (tag: Byte)
      requires Valid()
      modifies this`cur, this`first, this`k
      ensures Valid() && !first && tag == TypeAt(k)
      ensures k == if old(first) then 0 else if old(k) < |elems| then old(k) + 1 else old(k)
    {
      hide Enc, Lead, EncElems, Parse, ValueLen, OkElems, Holds, KeyAt, Strlen, NextPos, ValuePos, TypeAt;
      Here();
      if first {
        first := false;
        return d[cur];
      }
      if d[cur] != 0 {
        cur := NextPos(d, cur).value;
        k := k + 1;
        Here();
      }
      return d[cur];
    }
  }

  /** The first element with the given key, or the number of elements. */
  ghost function IndexOf(es: seq<Element>, name: seq<Byte>): (k: nat)
    ensures k <= |es| && (k < |es| ==> es[k].key == name) && forall j :: 0 <= j < k ==> es[j].key != name
  {
    if es == [] || es[0].key == name then 0 else 1 + IndexOf(es[1..], name)
  }

  /** `bson_find`. */
  method Find(d: seq<Byte>, name: seq<Byte>, ghost es: seq<Element>) returns (it: Iterator, tag: Byte)
    requires OkElems(es) && Holds(d, 0, EncDoc(es))
    ensures fresh(it) && it.Valid() && it.elems == es && it.k == IndexOf(es, name) && tag == it.TypeAt(it.k)
  {
    hide Enc, Lead, EncElems, OkElems, Holds, KeyAt, Parse, EncDoc, ValuePos, NextPos, Tag;
    it := new Iterator(d, 0, es);
    tag := it.Next();
    it.Here();
    while tag != 0
      invariant it.Valid() && it.elems == es && it.d == d && !it.first && fresh(it) && tag == it.TypeAt(it.k)
      invariant forall j :: 0 <= j < it.k ==> es[j].key != name
      decreases |es| - it.k
    {
      it.Here();
      if KeyAt(d, it.cur) == name {
        return;
      }
      tag := it.Next();
    }
    it.Here();
  }

  /** Read a document to its end. */
  method ReadAll(d: seq<Byte>, ghost es: seq<Element>) returns (out: seq<Element>)
    requires OkElems(es) && Holds(d, 0, EncDoc(es))
    ensures out == es
  {
    hide Enc, Lead, EncElems, OkElems, Holds, KeyAt, Parse, EncDoc, ValuePos, NextPos, Tag;
    out := [];
    var it := new Iterator(d, 0, es);
    var tag := it.Next();
    it.Here();
    while tag != 0
      invariant it.Valid() && it.elems == es && it.d == d && !it.first && fresh(it) && tag == it.TypeAt(it.k)
      invariant out == es[..it.k] && (tag == 0 <==> it.k == |es|)
      decreases |es| - it.k
    {
      it.Here();
      assert es[..it.k + 1] == es[..it.k] + [es[it.k]];
      out := out + [Element(KeyAt(d, it.cur), Parse(d, tag, ValuePos(d, it.cur)).value)];
      tag := it.Next();
      it.Here();
    }
    assert es[..|es|] == es;
  }

  // ---------- whole documents ----------

  /** One call of the builder's functions. */
  datatype Call = Put(key: seq<Byte>, value: Value) | Open(tag: Byte, key: seq<Byte>) | Close

  predicate OkCall(c: Call) {
    match c
    case Put(key, v) => NoNul(key) && OkValue(v) && (v.Nested? ==> v.tag == 3)
    case Open(tag, key) => NoNul(key) && tag in {3, 4}
    case Close => true
  }

  /** The parts that are open after `n` calls. */
  ghost function Frames(calls: seq<Call>, n: nat): (open: seq<Frame>)
    requires n <= |calls|
    ensures |open| > 0
  {
    if n == 0 then [Frame(3, [], [])] else
      var open := Frames(calls, n - 1);
      match calls[n - 1]
      case Put(key, v) => Extend(open, Element(key, v))
      case Open(tag, key) => open + [Frame(tag, key, [])]
      case Close => if |open| > 1 then Closed(open) else open
  }

  /** Every call finds the part that it closes, no part is nested too deeply, and the
      document stays below the largest `int`. */
  ghost predicate Proper(calls: seq<Call>) {
    && (forall n :: 0 <= n <= |calls| ==>
          |Frames(calls, n)| <= MAX_DEPTH + 1 && 5 + |Partial(Frames(calls, n))| <= INT_MAX)
    && (forall n :: 0 <= n < |calls| && calls[n] == Close ==> |Frames(calls, n)| > 1)
  }

  method Perform(b: Builder, c: Call) returns (ok: bool)
    requires b.Valid() && OkCall(c) && !b.finished && b.stray == 0 && !b.wild && b.cur <= |b.data|
    requires c == Close ==> |b.open| > 1
    requires c.Open? ==> |b.stack| < MAX_DEPTH && b.cur + |c.key| + 7 <= INT_MAX
    requires c.Put? ==> b.cur + |c.key| + 2 + |Enc(c.value)| <= INT_MAX
    requires c == Close ==> b.cur < INT_MAX
    modifies b
    ensures b.Valid() && !b.finished && !b.wild
    ensures ok ==> b.stray == 0 && b.cur <= |b.data|
    ensures ok ==> match c
                   case Put(key, v) => b.open == Extend(old(b.open), Element(key, v))
                   case Open(tag, key) => b.open == old(b.open) + [Frame(tag, key, [])]
                   case Close => b.open == Closed(old(b.open))
  {
    hide Enc, Coherent, Grown, Wrap, Accepts, OkValue, NoNul, Extend, Closed;
    match c {
      case Put(key, v) => ok := b.Append(key, v);
      case Open(tag, key) => ok := b.StartNested(tag, key);
      case Close => ok := b.FinishNested();
    }
  }

  /** Any proper sequence of calls: no byte lands outside the buffer, and if every call
      succeeds and no part is left open, the finished document is read back. */
  method Build(size: nat, calls: seq<Call>) returns (b: Builder, ok: bool, out: seq<Element>)
    requires 4 <= size <= INT_MAX && Proper(calls) && forall n :: 0 <= n < |calls| ==> OkCall(calls[n])
    ensures b.Valid() && !b.wild
    ensures ok ==> b.open == Frames(calls, |calls|) && b.finished
    ensures ok && |Frames(calls, |calls|)| == 1 ==>
              b.cur <= |b.data| && b.data[..b.cur] == EncDoc(Frames(calls, |calls|)[0].elems)
    ensures ok && |Frames(calls, |calls|)| == 1 ==> out == Frames(calls, |calls|)[0].elems
  {
    hide Enc, Coherent, Grown, Wrap, OkCall, EncDoc, OkElems, Frames, Partial, Proper, ParseElems;
    b := new Builder(size);
    out := [];
    NoCalls(calls);
    for n := 0 to |calls|
      invariant b.Valid() && fresh(b) && !b.finished && !b.wild && b.stray == 0 && b.cur <= |b.data|
      invariant b.open == Frames(calls, n)
    {
      Size(b);
      OneCall(calls, n);
      ok := Perform(b, calls[n]);
      if !ok { return; }
    }
    Size(b);
    ProperAt(calls, |calls|);
    ok := b.Finish();
    if ok && b.stack == [] {
      Finished(b);
      out := ReadAll(b.data[..b.cur], b.open[0].elems);
    }
  }

  lemma NoCalls(calls: seq<Call>)
    ensures Frames(calls, 0) == [Frame(3, [], [])]
  {
  }

  lemma ProperAt(calls: seq<Call>, n: nat)
    requires Proper(calls) && n <= |calls|
    ensures |Frames(calls, n)| <= MAX_DEPTH + 1 && 5 + |Partial(Frames(calls, n))| <= INT_MAX
    ensures n < |calls| && calls[n] == Close ==> |Frames(calls, n)| > 1
  {
    hide Frames, Partial;
  }

  lemma OneCall(calls: seq<Call>, n: nat)
    requires Proper(calls) && n < |calls| && OkCall(calls[n])
    ensures var open, c, size := Frames(calls, n), calls[n], 4 + |Partial(Frames(calls, n))|;
            && (c == Close ==> |open| > 1 && size < INT_MAX && Frames(calls, n + 1) == Closed(open))
            && (c.Open? ==> |open| <= MAX_DEPTH && size + |c.key| + 7 <= INT_MAX
                            && Frames(calls, n + 1) == open + [Frame(c.tag, c.key, [])])
            && (c.Put? ==> size + |c.key| + 2 + |Enc(c.value)| <= INT_MAX
                           && Frames(calls, n + 1) == Extend(open, Element(c.key, c.value)))
  {
    hide Partial, Enc, Closed, Extend, Proper;
    ProperAt(calls, n);
    ProperAt(calls, n + 1);
    var open := Frames(calls, n);
    match calls[n]
    case Put(key, v) =>
      PartialExtend(open, Element(key, v));
      LeadParts(Tag(v), key);
    case Open(tag, key) =>
      PartialOpen(open, tag, key);
      LeadParts(tag, key);
    case Close =>
  }

  /** The position in a coherent buffer. */
  lemma Size(b: Builder)
    requires b.Valid() && !b.wild && b.stray == 0 && !b.finished
    ensures b.cur == 4 + |Partial(b.open)| && |b.open| == |b.stack| + 1
  {
    hide Partial, FramesOk, StackOk, EncDoc;
  }

  lemma Finished(b: Builder)
    requires b.Valid() && !b.wild && b.stray == 0 && b.finished && b.stack == [] && b.cur <= |b.data|
    requires b.data[..b.cur] == EncDoc(b.open[0].elems)
    ensures OkElems(b.open[0].elems) && Holds(b.data[..b.cur], 0, EncDoc(b.open[0].elems))
  {
    hide Partial, EncDoc, OkElems;
  }

  // ---------- documents that are not what was appended ----------

  lemma LetterKey(c: Byte)
    requires 0x61 <= c <= 0x7A
    ensures Accepts([c]) && NoNul([c])
  {
    assert [c][..1] == [c] && [c][1..] == [];
  }

  lemma BadPattern()
    ensures !Accepts([0xFF])
  {
    var s: seq<Byte> := [0xFF];
    assert Trailing(s[0]) == 5;
  }

  /** A regular expression whose pattern is refused leaves its key behind, an element that is
      refused for lack of space clears the error, and the document is finished: it holds three
      bytes more than the empty document that the accepted calls stand for. */
  method SpoiltDocument() returns (b: Builder, first: bool, second: bool, last: bool)
    ensures !first && !second && last && b.Valid() && !b.wild && b.open == [Frame(3, [], [])]
    ensures b.stray == 3 && b.cur <= |b.data| && b.data[..b.cur] != EncDoc([])
  {
    hide Accepts, Coherent, Grown, Wrap, NoNul, EncDoc, ParseElems;
    LetterKey(0x61);
    LetterKey(0x62);
    BadPattern();
    b := new Builder(128);
    var regex := Regex([0xFF], []);
    PlainValues();
    WrapSame(6);
    GrownExact(128, 4, 6);
    GrownFits(128, 4, 6);
    first := b.Append([0x61], regex);
    assert b.cur == 7 && b.stray == 3 && |b.data| == 128;
    var large := Binary(0, Zeros(INT_MAX - 136));
    WrapSame(INT_MAX - 128);
    GrownExact(128, 7, INT_MAX - 128);
    second := b.Append([0x62], large);
    GrownExact(128, 7, 1);
    last := b.Finish();
  }

  lemma PlainValues()
    ensures var r := Regex([0xFF], []); OkValue(r) && |Enc(r)| == 3
    ensures var l := Binary(0, Zeros(INT_MAX - 136)); OkValue(l) && |Enc(l)| == INT_MAX - 131
  {
    hide Le32;
  }

  lemma GrownFits(size: nat, pos: nat, need: nat)
    requires size <= INT_MAX && pos + need <= size
    ensures Grown(size, pos, need) == Some(size)
  {
    hide Wrap;
    WrapSame(pos + need);
  }

  /** A builder that starts with fewer than three bytes writes outside its buffer when the
      empty document is finished. */
  method SmallBuffer(size: nat) returns (b: Builder, ok: bool)
    requires size < 4
    ensures ok && (b.wild <==> size < 3)
  {
    hide Coherent, Grown, Wrap, EncDoc, ParseElems;
    b := new Builder(size);
    GrownSmall(size, 1);
    ok := b.Finish();
  }
}
