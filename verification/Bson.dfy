/**
  BSON documents (`libs/mongo-c-driver/src/bson.c`): the format as a function of a
  document's value, and the iterator that reads it back.
 */
module BsonFormat {
  import opened Prelude
  import opened Utf8

  const INT_MAX := 0x7FFF_FFFF
  const TWO_31 := 0x8000_0000

  /** Payloads are kept as the builder receives them: the 64-bit types as bit patterns. */
  datatype Value =
    | Fixed8(tag: Byte, bits: nat)
    | Int(i: int)
    | Bool(b: bool)
    | Empty(tag: Byte)
    | Text(tag: Byte, s: seq<Byte>)
    | Oid(id: seq<Byte>)
    | Binary(sub: Byte, s: seq<Byte>)
    | Regex(pattern: seq<Byte>, opts: seq<Byte>)
    | Nested(tag: Byte, elems: seq<Element>)

  datatype Element = Element(key: seq<Byte>, value: Value)

  function Tag(v: Value): Byte {
    match v
    case Int(_) => 16
    case Bool(_) => 8
    case Oid(_) => 7
    case Binary(_, _) => 5
    case Regex(_, _) => 11
    case Fixed8(t, _) => t
    case Empty(t) => t
    case Text(t, _) => t
    case Nested(t, _) => t
  }

  // ---------- numbers ----------

  /** The `k` low bytes of `n`, least significant first. */
  function Le(n: nat, k: nat): (s: seq<Byte>)
    ensures |s| == k
    decreases k
  {
    if k == 0 then [] else [n % 256] + Le(n / 256, k - 1)
  }

  function UnLe(s: seq<Byte>): nat { if s == [] then 0 else s[0] + 256 * UnLe(s[1..]) }

  function Base(k: nat): nat { if k == 0 then 1 else 256 * Base(k - 1) }

  lemma {:induction false} LeRoundTrip(n: nat, k: nat)
    requires n < Base(k)
    ensures UnLe(Le(n, k)) == n
    decreases k
  {
    if k > 0 {
      LeRoundTrip(n / 256, k - 1);
      assert Le(n, k)[1..] == Le(n / 256, k - 1);
    }
  }

  lemma {:induction false} BasePositive(k: nat)
    ensures Base(k) > 0
  {
    if k > 0 { BasePositive(k - 1); }
  }

  lemma DivideTwice(n: nat, b: nat)
    requires 0 < b
    ensures (n / 256) / b == n / (256 * b)
  {
    var q, r := n / (256 * b), n % (256 * b);
    assert n == 256 * (b * q) + r;
    assert n / 256 == q * b + r / 256;
    assert q == Quot(n, 256 * b);
    Decompose(q, r / 256, b);
  }

  /** Byte `i` counts multiples of 256^i. */
  lemma {:induction false} LeByte(n: nat, k: nat, i: nat)
    requires i < k
    ensures Base(i) > 0 && Le(n, k)[i] == (n / Base(i)) % 256
    decreases k
  {
    BasePositive(i);
    if i > 0 {
      LeByte(n / 256, k - 1, i - 1);
      DivideTwice(n, Base(i - 1));
    }
  }

  lemma RemainderParts(n: nat, b: nat)
    requires 0 < b
    ensures (n % (256 * b)) % 256 == n % 256 && (n % (256 * b)) / 256 == (n / 256) % b
  {
    var q, r := n / (256 * b), n % (256 * b);
    assert n == 256 * (b * q) + r;
    assert n / 256 == q * b + r / 256 && n % 256 == r % 256;
    assert q == Quot(n, 256 * b);
    Decompose(q, r / 256, b);
  }

  /** Only the low bytes matter. */
  lemma {:induction false} LeLow(n: nat, k: nat)
    ensures Base(k) > 0 && Le(n % Base(k), k) == Le(n, k)
    decreases k
  {
    BasePositive(k);
    if k > 0 {
      BasePositive(k - 1);
      RemainderParts(n, Base(k - 1));
      LeLow(n / 256, k - 1);
    }
  }

  lemma Bases()
    ensures Base(4) == TWO_32 && Base(8) == TWO_32 * TWO_32
  {
    assert Base(1) == 256 && Base(2) == 65536 && Base(3) == 0x100_0000;
    assert Base(5) == 256 * TWO_32 && Base(6) == 65536 * TWO_32 && Base(7) == 0x100_0000 * TWO_32;
  }

  /** A 32-bit integer in two's complement. */
  function Le32(i: int): (s: seq<Byte>)
    ensures |s| == 4
  {
    Le(i % TWO_32, 4)
  }

  function Signed(n: nat): int { if n >= TWO_31 then n - TWO_32 else n }

  lemma Le32RoundTrip(i: int)
    requires -TWO_31 <= i < TWO_31
    ensures Signed(UnLe(Le32(i))) == i
  {
    Bases();
    LeRoundTrip(i % TWO_32, 4);
  }

  // ---------- the format ----------

  function Enc(v: Value): seq<Byte> {
    match v
    case Fixed8(_, bits) => Le(bits, 8)
    case Int(i) => Le32(i)
    case Bool(b) => [if b then 1 else 0]
    case Empty(_) => []
    case Text(_, s) => Le32(|s| + 1) + (s + [0])
    case Oid(id) => id
    case Binary(t, s) => if t == 2 then Le32(|s| + 4) + ([t] + (Le32(|s|) + s)) else Le32(|s|) + ([t] + s)
    case Regex(p, o) => (p + [0]) + (o + [0])
    case Nested(_, es) => Le32(|EncElems(es)| + 5) + (EncElems(es) + [0])
  }

  function EncElems(es: seq<Element>): seq<Byte> {
    if es == [] then [] else (Lead(Tag(es[0].value), es[0].key) + Enc(es[0].value)) + EncElems(es[1..])
  }

  /** What precedes the payload of an element. */
  function Lead(tag: Byte, key: seq<Byte>): seq<Byte> { [tag] + (key + [0]) }

  /** A document starts with its own length and ends with a zero byte. */
  function EncDoc(es: seq<Element>): seq<Byte> { Enc(Nested(3, es)) }

  lemma {:induction false} EncAppend(es: seq<Element>, fs: seq<Element>)
    ensures EncElems(es + fs) == EncElems(es) + EncElems(fs)
  {
    if es == [] {
      assert es + fs == fs;
    } else {
      hide Enc, Lead, Tag;
      EncAppend(es[1..], fs);
      assert (es + fs)[1..] == es[1..] + fs && (es + fs)[0] == es[0];
      Associate(Lead(Tag(es[0].value), es[0].key) + Enc(es[0].value), EncElems(es[1..]), EncElems(fs));
    }
  }

  lemma Associate(a: seq<Byte>, b: seq<Byte>, c: seq<Byte>)
    ensures a + (b + c) == (a + b) + c
  {
  }

  lemma EncOne(e: Element)
    ensures EncElems([e]) == Lead(Tag(e.value), e.key) + Enc(e.value)
  {
    hide Enc, Lead;
    assert [e][1..] == [];
  }

  predicate NoNul(s: seq<Byte>) { 0 !in s }

  /** Values that the builder's functions can be called with. */
  predicate OkValue(v: Value) {
    && |Enc(v)| <= INT_MAX
    && match v
       case Fixed8(t, bits) => t in {1, 9, 17, 18} && bits < TWO_32 * TWO_32
       case Int(i) => -TWO_31 <= i < TWO_31
       case Bool(_) => true
       case Empty(t) => t in {6, 10}
       case Text(t, _) => t in {2, 13, 14}
       case Oid(id) => |id| == 12
       case Binary(_, _) => true
       case Regex(p, o) => NoNul(p) && NoNul(o)
       case Nested(t, es) => t in {3, 4} && OkElems(es)
  }

  predicate OkElems(es: seq<Element>) {
    forall i :: 0 <= i < |es| ==> NoNul(es[i].key) && OkValue(es[i].value)
  }

  // ---------- the iterator ----------

  function Strlen(d: seq<Byte>, p: nat): nat
    decreases |d| - p
  {
    if p >= |d| || d[p] == 0 then 0 else 1 + Strlen(d, p + 1)
  }

  function KeyAt(d: seq<Byte>, cur: nat): seq<Byte> {
    if cur + 1 + Strlen(d, cur + 1) <= |d| then d[cur + 1..cur + 1 + Strlen(d, cur + 1)] else []
  }

  /** `bson_iterator_value`. */
  function ValuePos(d: seq<Byte>, cur: nat): nat { cur + 1 + Strlen(d, cur + 1) + 1 }

  /** `bson_iterator_int_raw`, for the value at `vp`. */
  function IntRaw(d: seq<Byte>, vp: nat): int { if vp + 4 <= |d| then Signed(UnLe(d[vp..vp + 4])) else -1 }

  /** The length of the value at `vp`, by the switch in `bson_iterator_next`. */
  function ValueLen(d: seq<Byte>, tag: Byte, vp: nat): Option<int> {
    if tag in {6, 10} then Some(0)
    else if tag == 8 then Some(1)
    else if tag == 16 then Some(4)
    else if tag in {1, 9, 17, 18} then Some(8)
    else if tag == 7 then Some(12)
    else if tag in {2, 13, 14} then Some(4 + IntRaw(d, vp))
    else if tag == 5 then Some(5 + IntRaw(d, vp))
    else if tag in {3, 4, 15} then Some(IntRaw(d, vp))
    else if tag == 12 then Some(16 + IntRaw(d, vp))
    else if tag == 11 then
      var p := vp + Strlen(d, vp) + 1;
      Some(p + Strlen(d, p) + 1 - vp)
    else None
  }

  /** Where `bson_iterator_next` goes from an element; unknown types are fatal. */
  function NextPos(d: seq<Byte>, cur: nat): Option<int>
    requires cur < |d|
  {
    if d[cur] == 0 then Some(cur) else
      var ds := ValueLen(d, d[cur], ValuePos(d, cur));
      if ds.None? then None else Some(cur + 1 + Strlen(d, cur + 1) + 1 + ds.value)
  }

  /** The value at `vp` as the accessors of its type read it. */
  function Parse(d: seq<Byte>, tag: Byte, vp: nat): Option<Value>
    decreases |d| - vp
  {
    var n := ValueLen(d, tag, vp);
    if n.None? || n.value < 0 || vp + n.value > |d| then None
    else if tag in {6, 10} then Some(Empty(tag))
    else if tag == 8 then Some(Bool(d[vp] != 0))
    else if tag == 16 then Some(Int(IntRaw(d, vp)))
    else if tag in {1, 9, 17, 18} then Some(Fixed8(tag, UnLe(d[vp..vp + 8])))
    else if tag == 7 then Some(Oid(d[vp..vp + 12]))
    else if tag in {2, 13, 14} then
      if n.value < 5 then None else Some(Text(tag, d[vp + 4..vp + 4 + IntRaw(d, vp) - 1]))
    else if tag == 5 then
      if n.value < 5 then None
      else if d[vp + 4] != 2 then Some(Binary(d[vp + 4], d[vp + 5..vp + 5 + IntRaw(d, vp)]))
      else if n.value < 9 then None else Some(Binary(2, d[vp + 9..vp + 9 + (IntRaw(d, vp) - 4)]))
    else if tag == 11 then
      var p := vp + Strlen(d, vp) + 1;
      if p + Strlen(d, p) > |d| then None else Some(Regex(d[vp..p - 1], d[p..p + Strlen(d, p)]))
    else if tag in {3, 4} then
      if vp + 4 > |d| then None else
        var es := ParseElems(d, vp + 4);
        if es.None? then None else Some(Nested(tag, es.value))
    else None
  }

  /** All elements from `cur` on, read with the iterator until it meets `BSON_EOO`. */
  function ParseElems(d: seq<Byte>, cur: nat): Option<seq<Element>>
    decreases |d| - cur
  {
    if cur >= |d| then None
    else if d[cur] == 0 then Some([])
    else
      var vp := ValuePos(d, cur);
      if vp > |d| then None else
        var v := Parse(d, d[cur], vp);
        var next := NextPos(d, cur);
        if v.None? || next.None? || next.value <= cur || next.value > |d| then None else
          var rest := ParseElems(d, next.value);
          if rest.None? then None else Some([Element(KeyAt(d, cur), v.value)] + rest.value)
  }

  // ---------- reading back what was written ----------

  /** The bytes `s` are at position `p`. */
  predicate Holds(d: seq<Byte>, p: nat, s: seq<Byte>) { p + |s| <= |d| && d[p..p + |s|] == s }

  lemma HoldsSplit(d: seq<Byte>, p: nat, a: seq<Byte>, b: seq<Byte>)
    requires Holds(d, p, a + b)
    ensures Holds(d, p, a) && Holds(d, p + |a|, b)
  {
    var s := d[p..p + |a + b|];
    assert s[..|a|] == a && s[|a|..] == b;
    assert d[p..p + |a|] == s[..|a|] && d[p + |a|..p + |a| + |b|] == s[|a|..];
  }

  lemma HoldsByte(d: seq<Byte>, p: nat, x: Byte)
    requires Holds(d, p, [x])
    ensures p < |d| && d[p] == x
  {
    assert d[p] == d[p..p + 1][0];
  }

  lemma {:induction false} StrlenOf(d: seq<Byte>, p: nat, s: seq<Byte>)
    requires Holds(d, p, s + [0]) && NoNul(s)
    ensures Strlen(d, p) == |s| && Holds(d, p, s) && p + |s| < |d|
    decreases |s|
  {
    HoldsSplit(d, p, s, [0]);
    HoldsByte(d, p + |s|, 0);
    if s != [] {
      assert s + [0] == [s[0]] + (s[1..] + [0]);
      HoldsSplit(d, p, [s[0]], s[1..] + [0]);
      HoldsByte(d, p, s[0]);
      assert s[0] in s;
      StrlenOf(d, p + 1, s[1..]);
    }
  }

  lemma IntRawOf(d: seq<Byte>, p: nat, i: int)
    requires Holds(d, p, Le32(i)) && -TWO_31 <= i < TWO_31
    ensures IntRaw(d, p) == i
  {
    hide UnLe, Le32;
    Le32RoundTrip(i);
  }

  lemma TextOf(d: seq<Byte>, vp: nat, v: Value)
    requires v.Text? && OkValue(v) && Holds(d, vp, Enc(v))
    ensures ValueLen(d, Tag(v), vp) == Some(|Enc(v)|) && Parse(d, Tag(v), vp) == Some(v)
  {
    hide Le32, Strlen, IntRaw, NextPos;
    HoldsSplit(d, vp, Le32(|v.s| + 1), v.s + [0]);
    HoldsSplit(d, vp + 4, v.s, [0]);
    IntRawOf(d, vp, |v.s| + 1);
  }

  lemma BinaryOf(d: seq<Byte>, vp: nat, v: Value)
    requires v.Binary? && OkValue(v) && Holds(d, vp, Enc(v))
    ensures ValueLen(d, Tag(v), vp) == Some(|Enc(v)|) && Parse(d, Tag(v), vp) == Some(v)
  {
    hide Le32, Strlen, IntRaw, NextPos;
    var n, rest := if v.sub == 2 then |v.s| + 4 else |v.s|, if v.sub == 2 then Le32(|v.s|) + v.s else v.s;
    HoldsSplit(d, vp, Le32(n), [v.sub] + rest);
    HoldsSplit(d, vp + 4, [v.sub], rest);
    HoldsByte(d, vp + 4, v.sub);
    IntRawOf(d, vp, n);
    if v.sub == 2 { HoldsSplit(d, vp + 5, Le32(|v.s|), v.s); }
  }

  lemma RegexOf(d: seq<Byte>, vp: nat, v: Value)
    requires v.Regex? && OkValue(v) && Holds(d, vp, Enc(v))
    ensures ValueLen(d, Tag(v), vp) == Some(|Enc(v)|) && Parse(d, Tag(v), vp) == Some(v)
  {
    hide Strlen, IntRaw, NextPos, NoNul;
    HoldsSplit(d, vp, v.pattern + [0], v.opts + [0]);
    StrlenOf(d, vp, v.pattern);
    StrlenOf(d, vp + |v.pattern| + 1, v.opts);
  }

  lemma FlatOf(d: seq<Byte>, vp: nat, v: Value)
    requires (v.Fixed8? || v.Int? || v.Bool? || v.Empty? || v.Oid?) && OkValue(v) && Holds(d, vp, Enc(v))
    ensures ValueLen(d, Tag(v), vp) == Some(|Enc(v)|) && Parse(d, Tag(v), vp) == Some(v)
  {
    hide Le, Le32, UnLe, Strlen, IntRaw, NextPos, Base;
    match v
    case Fixed8(_, bits) =>
      Bases();
      LeRoundTrip(bits, 8);
    case Int(i) => IntRawOf(d, vp, i);
    case Bool(b) => HoldsByte(d, vp, if b then 1 else 0);
    case Empty(_) =>
    case Oid(_) =>
  }

  /** Every value is read back, and skipped exactly. */
  lemma {:induction false} ValueOf(d: seq<Byte>, vp: nat, v: Value)
    requires OkValue(v) && Holds(d, vp, Enc(v))
    ensures ValueLen(d, Tag(v), vp) == Some(|Enc(v)|) && Parse(d, Tag(v), vp) == Some(v)
    decreases v
  {
    match v
    case Text(_, _) => TextOf(d, vp, v);
    case Binary(_, _) => BinaryOf(d, vp, v);
    case Regex(_, _) => RegexOf(d, vp, v);
    case Nested(_, es) =>
      NestedLen(d, vp, v);
      ElemsOf(d, vp + 4, es);
      NestedOf(d, vp, v);
    case _ => FlatOf(d, vp, v);
  }

  lemma NestedLen(d: seq<Byte>, vp: nat, v: Value)
    requires v.Nested? && OkValue(v) && Holds(d, vp, Enc(v))
    ensures ValueLen(d, Tag(v), vp) == Some(|Enc(v)|) && Holds(d, vp + 4, EncElems(v.elems) + [0]) && OkElems(v.elems)
  {
    hide Le32, IntRaw, EncElems, OkElems;
    var n := |EncElems(v.elems)| + 5;
    HoldsSplit(d, vp, Le32(n), EncElems(v.elems) + [0]);
    IntRawOf(d, vp, n);
  }

  lemma NestedOf(d: seq<Byte>, vp: nat, v: Value)
    requires v.Nested? && v.tag in {3, 4} && ValueLen(d, Tag(v), vp) == Some(|Enc(v)|) && vp + |Enc(v)| <= |d|
    requires vp + 4 <= |d| && ParseElems(d, vp + 4) == Some(v.elems)
    ensures Parse(d, Tag(v), vp) == Some(v)
  {
    hide ParseElems, ValueLen, Enc;
  }

  /** One element in place. */
  lemma ElementAt(d: seq<Byte>, cur: nat, e: Element)
    requires NoNul(e.key) && Holds(d, cur, Lead(Tag(e.value), e.key) + Enc(e.value))
    ensures cur < |d| && d[cur] == Tag(e.value) && KeyAt(d, cur) == e.key && ValuePos(d, cur) == cur + 2 + |e.key|
    ensures Holds(d, ValuePos(d, cur), Enc(e.value)) && Strlen(d, cur + 1) == |e.key|
  {
    hide Enc, NoNul, Tag, Lead, Strlen, Holds, KeyAt;
    var tag := Tag(e.value);
    LeadParts(tag, e.key);
    HoldsSplit(d, cur, Lead(tag, e.key), Enc(e.value));
    HoldsSplit(d, cur, [tag], e.key + [0]);
    HoldsByte(d, cur, tag);
    StrlenOf(d, cur + 1, e.key);
    KeyIs(d, cur, e.key);
  }

  lemma KeyIs(d: seq<Byte>, cur: nat, key: seq<Byte>)
    requires Strlen(d, cur + 1) == |key| && Holds(d, cur + 1, key)
    ensures KeyAt(d, cur) == key
  {
    hide Strlen;
  }

  lemma LeadParts(tag: Byte, key: seq<Byte>)
    ensures Lead(tag, key) == [tag] + (key + [0]) && |Lead(tag, key)| == |key| + 2
  {
  }

  lemma TagNonzero(v: Value)
    requires OkValue(v)
    ensures Tag(v) != 0
  {
  }

  /** Every sequence of elements that is followed by a zero byte is read back. */
  lemma {:induction false} ElemsOf(d: seq<Byte>, cur: nat, es: seq<Element>)
    requires OkElems(es) && Holds(d, cur, EncElems(es) + [0])
    ensures ParseElems(d, cur) == Some(es)
    decreases es
  {
    hide Enc, Lead, EncElems, ParseElems, Parse, ValueLen, ValuePos, OkValue, OkElems, Holds, NoNul;
    if es == [] {
      ParseEnd(d, cur);
    } else {
      var e, rest := es[0], es[1..];
      ElementStep(d, cur, es);
      ValueOf(d, ValuePos(d, cur), e.value);
      ElemsOf(d, cur + |Lead(Tag(e.value), e.key)| + |Enc(e.value)|, rest);
      ParseStep(d, cur, e, rest);
      assert es == [e] + rest;
    }
  }

  lemma ParseEnd(d: seq<Byte>, cur: nat)
    requires Holds(d, cur, EncElems([]) + [0])
    ensures ParseElems(d, cur) == Some([])
  {
    HoldsSplit(d, cur, EncElems([]), [0]);
    HoldsByte(d, cur, 0);
  }

  lemma ElementStep(d: seq<Byte>, cur: nat, es: seq<Element>)
    requires es != [] && OkElems(es) && Holds(d, cur, EncElems(es) + [0])
    ensures var e := es[0];
            && OkElems(es[1..]) && OkValue(e.value) && NoNul(e.key)
               && Holds(d, cur, Lead(Tag(e.value), e.key) + Enc(e.value))
            && Holds(d, ValuePos(d, cur), Enc(e.value))
            && Holds(d, cur + |Lead(Tag(e.value), e.key)| + |Enc(e.value)|, EncElems(es[1..]) + [0])
  {
    hide Enc, Lead, OkValue, NoNul, ValuePos;
    var e, rest := es[0], es[1..];
    var one := Lead(Tag(e.value), e.key) + Enc(e.value);
    assert EncElems(es) + [0] == one + (EncElems(rest) + [0]);
    HoldsSplit(d, cur, one, EncElems(rest) + [0]);
    ElementAt(d, cur, e);
  }

  lemma ParseStep(d: seq<Byte>, cur: nat, e: Element, rest: seq<Element>)
    requires NoNul(e.key) && OkValue(e.value) && Holds(d, cur, Lead(Tag(e.value), e.key) + Enc(e.value))
    requires var vp := ValuePos(d, cur);
             ValueLen(d, Tag(e.value), vp) == Some(|Enc(e.value)|) && Parse(d, Tag(e.value), vp) == Some(e.value)
    requires ParseElems(d, cur + |Lead(Tag(e.value), e.key)| + |Enc(e.value)|) == Some(rest)
    ensures ParseElems(d, cur) == Some([e] + rest)
  {
    hide Enc, OkValue, NoNul, Parse, ValueLen;
    ElementAt(d, cur, e);
    TagNonzero(e.value);
  }

  lemma HoldsAll(d: seq<Byte>)
    ensures Holds(d, 0, d)
  {
  }

  lemma OkDocument(es: seq<Element>)
    requires OkElems(es) && |EncDoc(es)| <= INT_MAX
    ensures OkValue(Nested(3, es))
  {
    hide Enc;
  }

  lemma LengthPrefix(d: seq<Byte>, tag: Byte, vp: nat)
    requires tag in {3, 4}
    ensures ValueLen(d, tag, vp) == Some(IntRaw(d, vp))
  {
  }

  /** Reading a written document gives the document. */
  lemma RoundTrip(es: seq<Element>)
    requires OkElems(es) && |EncDoc(es)| <= INT_MAX
    ensures ParseElems(EncDoc(es), 4) == Some(es)
    ensures IntRaw(EncDoc(es), 0) == |EncDoc(es)|
  {
    hide Enc, EncElems, ParseElems, OkValue, OkElems, ValueLen, IntRaw, Holds;
    var d := EncDoc(es);
    HoldsAll(d);
    OkDocument(es);
    NestedLen(d, 0, Nested(3, es));
    ElemsOf(d, 4, es);
    LengthPrefix(d, 3, 0);
  }

  /** Two documents with the same bytes are the same document. */
  lemma Unambiguous(es: seq<Element>, fs: seq<Element>)
    requires OkElems(es) && OkElems(fs) && |EncDoc(es)| <= INT_MAX && EncDoc(es) == EncDoc(fs)
    ensures es == fs
  {
    RoundTrip(es);
    RoundTrip(fs);
  }

  // ---------- where each byte is ----------

  /** The bytes at `p` are the 32-bit number `n`, low byte first. */
  ghost predicate WordAt(d: seq<Byte>, p: nat, n: int) {
    p + 4 <= |d| && forall j :: 0 <= j < 4 ==> Base(j) > 0 && d[p + j] == ((n % TWO_32) / Base(j)) % 256
  }

  ghost predicate BytesAt(d: seq<Byte>, p: nat, s: seq<Byte>) {
    p + |s| <= |d| && forall j :: 0 <= j < |s| ==> d[p + j] == s[j]
  }

  predicate ByteAt(d: seq<Byte>, p: nat, x: Byte) { p < |d| && d[p] == x }

  /** The bytes of a value at `vp`, by section "Specification Version 1.0" of bsonspec.org; `tag`
      is the type byte of its element. */
  ghost predicate ValueAt(d: seq<Byte>, tag: Byte, vp: nat, v: Value) {
    match v
    case Fixed8(t, bits) =>
      && tag == t && vp + 8 <= |d|
      && forall j :: 0 <= j < 8 ==> Base(j) > 0 && d[vp + j] == (bits / Base(j)) % 256
    case Int(i) => tag == 0x10 && WordAt(d, vp, i)
    case Bool(b) => tag == 0x08 && ByteAt(d, vp, if b then 1 else 0)
    case Empty(t) => tag == t
    case Text(t, s) => tag == t && WordAt(d, vp, |s| + 1) && BytesAt(d, vp + 4, s) && ByteAt(d, vp + 4 + |s|, 0)
    case Oid(id) => tag == 0x07 && BytesAt(d, vp, id)
    case Binary(t, s) =>
      && tag == 0x05 && ByteAt(d, vp + 4, t)
      && if t == 2 then WordAt(d, vp, |s| + 4) && WordAt(d, vp + 5, |s|) && BytesAt(d, vp + 9, s)
         else WordAt(d, vp, |s|) && BytesAt(d, vp + 5, s)
    case Regex(p, o) =>
      && tag == 0x0B && BytesAt(d, vp, p) && ByteAt(d, vp + |p|, 0)
      && BytesAt(d, vp + |p| + 1, o) && ByteAt(d, vp + |p| + 1 + |o|, 0)
    case Nested(t, es) =>
      var n := |EncElems(es)|;
      tag == t && WordAt(d, vp, n + 5) && BytesAt(d, vp + 4, EncElems(es)) && ByteAt(d, vp + 4 + n, 0)
  }

  /** The bytes of an element at `cur`. */
  ghost predicate LaidAt(d: seq<Byte>, cur: nat, key: seq<Byte>, v: Value) {
    && cur < |d| && BytesAt(d, cur + 1, key) && ByteAt(d, cur + 1 + |key|, 0)
    && ValueAt(d, d[cur], cur + 2 + |key|, v)
  }

  lemma HoldsBytes(d: seq<Byte>, p: nat, s: seq<Byte>)
    requires Holds(d, p, s)
    ensures BytesAt(d, p, s)
  {
    forall j | 0 <= j < |s|
      ensures d[p + j] == s[j]
    {
      assert d[p..p + |s|][j] == d[p + j];
    }
  }

  lemma HoldsWord(d: seq<Byte>, p: nat, n: int)
    requires Holds(d, p, Le32(n))
    ensures WordAt(d, p, n)
  {
    hide Le, Base;
    HoldsBytes(d, p, Le32(n));
    forall j | 0 <= j < 4
      ensures Base(j) > 0 && d[p + j] == ((n % TWO_32) / Base(j)) % 256
    {
      LeByte(n % TWO_32, 4, j);
      assert d[p + j] == Le32(n)[j];
    }
  }

  lemma Laid8(d: seq<Byte>, vp: nat, bits: nat)
    requires Holds(d, vp, Le(bits, 8))
    ensures vp + 8 <= |d| && forall j :: 0 <= j < 8 ==> Base(j) > 0 && d[vp + j] == (bits / Base(j)) % 256
  {
    hide Le, Base;
    HoldsBytes(d, vp, Le(bits, 8));
    forall j | 0 <= j < 8
      ensures Base(j) > 0 && d[vp + j] == (bits / Base(j)) % 256
    {
      LeByte(bits, 8, j);
    }
  }

  lemma LaidBinary(d: seq<Byte>, vp: nat, t: Byte, s: seq<Byte>)
    requires Holds(d, vp, Enc(Binary(t, s)))
    ensures ValueAt(d, 5, vp, Binary(t, s))
  {
    hide Le32, WordAt, BytesAt, Holds;
    var n, rest := if t == 2 then |s| + 4 else |s|, if t == 2 then Le32(|s|) + s else s;
    HoldsSplit(d, vp, Le32(n), [t] + rest);
    HoldsWord(d, vp, n);
    HoldsSplit(d, vp + 4, [t], rest);
    HoldsByte(d, vp + 4, t);
    if t == 2 {
      HoldsSplit(d, vp + 5, Le32(|s|), s);
      HoldsWord(d, vp + 5, |s|);
      HoldsBytes(d, vp + 9, s);
    } else {
      HoldsBytes(d, vp + 5, s);
    }
  }

  lemma LaidText(d: seq<Byte>, vp: nat, t: Byte, s: seq<Byte>)
    requires Holds(d, vp, Enc(Text(t, s)))
    ensures ValueAt(d, t, vp, Text(t, s))
  {
    hide Le32, WordAt, BytesAt, Holds;
    HoldsSplit(d, vp, Le32(|s| + 1), s + [0]);
    HoldsWord(d, vp, |s| + 1);
    HoldsSplit(d, vp + 4, s, [0]);
    HoldsBytes(d, vp + 4, s);
    HoldsByte(d, vp + 4 + |s|, 0);
  }

  lemma LaidRegex(d: seq<Byte>, vp: nat, p: seq<Byte>, o: seq<Byte>)
    requires Holds(d, vp, Enc(Regex(p, o)))
    ensures ValueAt(d, 11, vp, Regex(p, o))
  {
    hide BytesAt, Holds;
    HoldsSplit(d, vp, p + [0], o + [0]);
    HoldsSplit(d, vp, p, [0]);
    HoldsSplit(d, vp + |p| + 1, o, [0]);
    HoldsBytes(d, vp, p);
    HoldsByte(d, vp + |p|, 0);
    HoldsBytes(d, vp + |p| + 1, o);
    HoldsByte(d, vp + |p| + 1 + |o|, 0);
  }

  lemma LaidNested(d: seq<Byte>, vp: nat, t: Byte, es: seq<Element>)
    requires Holds(d, vp, Enc(Nested(t, es)))
    ensures ValueAt(d, t, vp, Nested(t, es))
  {
    hide Le32, WordAt, BytesAt, Holds, EncElems;
    var n := |EncElems(es)|;
    HoldsSplit(d, vp, Le32(n + 5), EncElems(es) + [0]);
    HoldsWord(d, vp, n + 5);
    HoldsSplit(d, vp + 4, EncElems(es), [0]);
    HoldsBytes(d, vp + 4, EncElems(es));
    HoldsByte(d, vp + 4 + n, 0);
  }

  lemma LaidFlat(d: seq<Byte>, vp: nat, v: Value)
    requires (v.Fixed8? || v.Int? || v.Bool? || v.Empty? || v.Oid?) && Holds(d, vp, Enc(v))
    ensures ValueAt(d, Tag(v), vp, v)
  {
    hide Le, Le32, WordAt, BytesAt, Holds, Base;
    match v
    case Fixed8(_, bits) => Laid8(d, vp, bits);
    case Int(i) => HoldsWord(d, vp, i);
    case Bool(b) => HoldsByte(d, vp, if b then 1 else 0);
    case Empty(_) =>
    case Oid(id) => HoldsBytes(d, vp, id);
  }

  /** Every byte of a written value is where the format puts it. */
  lemma LaidValue(d: seq<Byte>, vp: nat, v: Value)
    requires Holds(d, vp, Enc(v))
    ensures ValueAt(d, Tag(v), vp, v)
  {
    hide ValueAt, Enc, Holds;
    match v
    case Text(t, s) => LaidText(d, vp, t, s);
    case Binary(t, s) => LaidBinary(d, vp, t, s);
    case Regex(p, o) => LaidRegex(d, vp, p, o);
    case Nested(t, es) => LaidNested(d, vp, t, es);
    case _ => LaidFlat(d, vp, v);
  }

  /** Every byte of a written element is where the format puts it. */
  lemma LaidElement(d: seq<Byte>, cur: nat, key: seq<Byte>, v: Value)
    requires Holds(d, cur, Lead(Tag(v), key) + Enc(v))
    ensures LaidAt(d, cur, key, v)
  {
    hide Enc, Tag, Holds, BytesAt, ValueAt;
    HoldsSplit(d, cur, Lead(Tag(v), key), Enc(v));
    HoldsSplit(d, cur, [Tag(v)], key + [0]);
    HoldsByte(d, cur, Tag(v));
    HoldsSplit(d, cur + 1, key, [0]);
    HoldsBytes(d, cur + 1, key);
    HoldsByte(d, cur + 1 + |key|, 0);
    LaidValue(d, cur + 2 + |key|, v);
  }

  /** The example of bsonspec.org: the document that maps "hello" to the string "world". */
  lemma HelloWorld()
    ensures EncDoc([Element([0x68, 0x65, 0x6C, 0x6C, 0x6F], Text(2, [0x77, 0x6F, 0x72, 0x6C, 0x64]))]) ==
              [0x16, 0x00, 0x00, 0x00, 0x02, 0x68, 0x65, 0x6C, 0x6C, 0x6F, 0x00,
               0x06, 0x00, 0x00, 0x00, 0x77, 0x6F, 0x72, 0x6C, 0x64, 0x00, 0x00]
  {
    hide Le, Le32, EncElems;
    var key: seq<Byte>, s: seq<Byte> := [0x68, 0x65, 0x6C, 0x6C, 0x6F], [0x77, 0x6F, 0x72, 0x6C, 0x64];
    var e := Element(key, Text(2, s));
    SmallWord(6);
    SmallWord(22);
    EncOne(e);
    assert Lead(2, key) == [0x02, 0x68, 0x65, 0x6C, 0x6C, 0x6F, 0x00];
    assert Enc(Text(2, s)) == [0x06, 0x00, 0x00, 0x00, 0x77, 0x6F, 0x72, 0x6C, 0x64, 0x00];
    Framed(EncElems([e]), Lead(2, key), Enc(Text(2, s)), Le32(22));
  }

  lemma Framed(es: seq<Byte>, lead: seq<Byte>, value: seq<Byte>, n: seq<Byte>)
    requires es == lead + value
    ensures n + (es + [0]) == n + lead + value + [0]
  {
  }

  lemma SmallWord(n: nat)
    requires n < 256
    ensures Le32(n) == [n, 0, 0, 0]
  {
    assert Le(n, 4) == [n] + Le(0, 3) && Le(0, 3) == [0] + Le(0, 2);
    assert Le(0, 2) == [0] + Le(0, 1) && Le(0, 1) == [0] + Le(0, 0);
  }
}
