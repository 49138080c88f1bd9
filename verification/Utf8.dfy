/**
  The UTF-8 acceptor of `libs/mongo-c-driver/src/encoding.c`, against an encoder of
  code points in shortest form.
 */
module Utf8 {
  import opened Prelude

  const DOT: Byte := '.' as int
  const DOLLAR: Byte := '$' as int

  /** The table `trailingBytesForUTF8`. */
  function Trailing(a: Byte): nat {
    if a < 0xC0 then 0 else if a < 0xE0 then 1 else if a < 0xF0 then 2
    else if a < 0xF8 then 3 else if a < 0xFC then 4 else 5
  }

  predicate Cont(a: Byte) { 0x80 <= a <= 0xBF }

  /** The second byte is acceptable after the first. */
  predicate SecondOk(first: Byte, a: Byte) {
    && a <= 0xBF
    && if first == 0xE0 then a >= 0xA0 else if first == 0xF0 then a >= 0x90
       else if first == 0xF4 then a <= 0x8F else a >= 0x80
  }

  predicate FirstOk(a: Byte) { !(0x80 <= a < 0xC2) && a <= 0xF4 }

  /** `isLegalUTF8`: the cases of the outer switch fall through. */
  predicate IsLegal(t: seq<Byte>) {
    && 1 <= |t| <= 4
    && (|t| >= 4 ==> Cont(t[3])) && (|t| >= 3 ==> Cont(t[2])) && (|t| >= 2 ==> SecondOk(t[0], t[1]))
    && FirstOk(t[0])
  }

  /** `t` is a sequence that the acceptor takes in one step. */
  predicate Unit(t: seq<Byte>) { 0 < |t| == Trailing(t[0]) + 1 && IsLegal(t) }

  /** What the acceptor does, sequence by sequence. */
  predicate Accepts(s: seq<Byte>) {
    s == [] || (Trailing(s[0]) + 1 <= |s| && IsLegal(s[..Trailing(s[0]) + 1]) && Accepts(s[Trailing(s[0]) + 1..]))
  }

  /** A sequence that the acceptor looks at starts with a dot. */
  predicate DotSeen(s: seq<Byte>) {
    && s != []
    && (|| s[0] == DOT
        || (Trailing(s[0]) + 1 <= |s| && IsLegal(s[..Trailing(s[0]) + 1]) && DotSeen(s[Trailing(s[0]) + 1..])))
  }

  /** `bson_validate_string` with the checks of field names; the flags are those it sets. */
  method Validate(s: seq<Byte>, checkDot: bool, checkDollar: bool) returns (ok: bool, dot: bool, dollar: bool)
    ensures ok <==> Accepts(s)
    ensures dollar <==> checkDollar && 0 < |s| && s[0] == '$' as int
    ensures dot <==> checkDot && DotSeen(s)
  {
    dot := false;
    dollar := checkDollar && |s| > 0 && s[0] == DOLLAR;
    var position := 0;
    while position < |s|
      invariant 0 <= position <= |s| && (Accepts(s) <==> Accepts(s[position..]))
      invariant checkDot && DotSeen(s) <==> dot || (checkDot && DotSeen(s[position..]))
    {
      if checkDot && s[position] == DOT {
        dot := true;
      }
      ghost var rest := s[position..];
      var n := Trailing(s[position]) + 1;
      if position + n > |s| {
        return false, dot, dollar;
      }
      assert rest[..n] == s[position..position + n] && rest[n..] == s[position + n..];
      if !IsLegal(s[position..position + n]) {
        return false, dot, dollar;
      }
      position := position + n;
    }
    return true, dot, dollar;
  }

  // ---------- what is accepted ----------

  /** 0xF4 is always followed by a byte from 0x80 on. */
  predicate NoStray(s: seq<Byte>) {
    forall i :: 0 <= i < |s| && s[i] == 0xF4 ==> i + 1 < |s| && s[i + 1] >= 0x80
  }

  type CodePoint = x: int | 0 <= x <= 0x10FFFF

  /** The shortest form of a code point, by section 3 of RFC 3629. */
  function Encode(c: CodePoint): (t: seq<Byte>)
    ensures 1 <= |t| <= 4
  {
    if c < 0x80 then [c]
    else if c < 0x800 then [0xC0 + c / 64, 0x80 + c % 64]
    else if c < 0x10000 then [0xE0 + c / 4096, 0x80 + c / 64 % 64, 0x80 + c % 64]
    else [0xF0 + c / 262144, 0x80 + c / 4096 % 64, 0x80 + c / 64 % 64, 0x80 + c % 64]
  }

  function EncodeAll(cs: seq<CodePoint>): seq<Byte> { if cs == [] then [] else Encode(cs[0]) + EncodeAll(cs[1..]) }

  /** The code point of one sequence. */
  function DecodeOne(t: seq<Byte>): int
    requires 1 <= |t| <= 4
  {
    var a: int := t[0];
    if |t| == 1 then a
    else
      var b: int := t[1];
      if |t| == 2 then Join(a - 0xC0, b)
      else
        var c: int := t[2];
        if |t| == 3 then Join(Join(a - 0xE0, b), c)
        else
          var d: int := t[3];
          Join(Join(Join(a - 0xF0, b), c), d)
  }

  /** Six more bits from a continuation byte. */
  function Join(high: int, a: int): int { high * 64 + (a - 0x80) }

  /** Taking six bits off and joining them are inverse. */
  lemma JoinSplit(high: int, a: int)
    requires 0x80 <= a <= 0xBF
    ensures Join(high, a) / 64 == high && 0x80 + Join(high, a) % 64 == a
  {
  }

  lemma SplitJoin(c: int)
    ensures Join(c / 64, 0x80 + c % 64) == c && 0x80 <= 0x80 + c % 64 <= 0xBF
  {
  }

  lemma SplitTwice(c: nat)
    ensures c / 64 / 64 == c / 4096 && c / 64 / 64 / 64 == c / 262144
  {
  }

  lemma EncodeUnit(c: CodePoint)
    ensures Unit(Encode(c)) && DecodeOne(Encode(c)) == c && (Encode(c)[0] == 0xF4 ==> Encode(c)[1] >= 0x80)
    ensures forall i :: 1 <= i < |Encode(c)| ==> 0x80 <= Encode(c)[i] <= 0xBF
  {
    hide Join;
    SplitTwice(c);
    SplitJoin(c);
    SplitJoin(c / 64);
    SplitJoin(c / 4096);
  }

  /** The bounds that make a sequence the shortest form of some code point. */
  lemma UnitBounds(t: seq<Byte>)
    requires Unit(t) && (t[0] == 0xF4 ==> t[1] >= 0x80)
    ensures |t| == 1 ==> t[0] < 0x80
    ensures |t| == 2 ==> 0xC2 <= t[0] <= 0xDF && Cont(t[1])
    ensures |t| == 3 ==> 0xE0 <= t[0] <= 0xEF && Cont(t[1]) && Cont(t[2]) && (t[0] == 0xE0 ==> t[1] >= 0xA0)
    ensures |t| == 4 ==> 0xF0 <= t[0] <= 0xF4 && Cont(t[1]) && Cont(t[2]) && Cont(t[3])
    ensures |t| == 4 ==> (t[0] == 0xF0 ==> t[1] >= 0x90) && (t[0] == 0xF4 ==> t[1] <= 0x8F)
  {
  }

  lemma UnitDecodes(t: seq<Byte>)
    requires Unit(t) && (t[0] == 0xF4 ==> t[1] >= 0x80)
    ensures 0 <= DecodeOne(t) <= 0x10FFFF && Encode(DecodeOne(t)) == t
  {
    hide Unit, Join;
    UnitBounds(t);
    IsShort(t);
    if |t| == 2 {
      UnitDecodes2(t[0], t[1]);
    } else if |t| == 3 {
      UnitDecodes3(t[0], t[1], t[2]);
    } else if |t| == 4 {
      UnitDecodes4(t[0], t[1], t[2], t[3]);
    }
  }

  lemma IsShort(t: seq<Byte>)
    requires Unit(t)
    ensures 1 <= |t| <= 4
  {
  }

  lemma UnitDecodes2(a: int, b: int)
    requires 0xC2 <= a <= 0xDF && 0x80 <= b <= 0xBF
    ensures var x := Join(a - 0xC0, b); 0x80 <= x < 0x800 && a == 0xC0 + x / 64 && b == 0x80 + x % 64
  {
    JoinSplit(a - 0xC0, b);
  }

  lemma UnitDecodes3(a: int, b: int, c: int)
    requires 0xE0 <= a <= 0xEF && 0x80 <= b <= 0xBF && 0x80 <= c <= 0xBF && (a == 0xE0 ==> b >= 0xA0)
    ensures var x := Join(Join(a - 0xE0, b), c);
            && 0x800 <= x < 0x10000 && a == 0xE0 + x / 4096 && b == 0x80 + x / 64 % 64 && c == 0x80 + x % 64
  {
    JoinSplit(Join(a - 0xE0, b), c);
    JoinSplit(a - 0xE0, b);
  }

  lemma UnitDecodes4(a: int, b: int, c: int, d: int)
    requires 0xF0 <= a <= 0xF4 && 0x80 <= b <= 0xBF && 0x80 <= c <= 0xBF && 0x80 <= d <= 0xBF
    requires (a == 0xF0 ==> b >= 0x90) && (a == 0xF4 ==> b <= 0x8F)
    ensures var x := Join(Join(Join(a - 0xF0, b), c), d);
            && 0x10000 <= x <= 0x10FFFF && a == 0xF0 + x / 262144
            && b == 0x80 + x / 4096 % 64 && c == 0x80 + x / 64 % 64 && d == 0x80 + x % 64
  {
    var x := Join(Join(Join(a - 0xF0, b), c), d);
    JoinSplit(Join(Join(a - 0xF0, b), c), d);
    JoinSplit(Join(a - 0xF0, b), c);
    JoinSplit(a - 0xF0, b);
    SplitTwice(x);
  }

  /** The code points of an accepted string. */
  function Decode(s: seq<Byte>): seq<int>
    requires Accepts(s)
  {
    if s == [] then [] else
      var n := Trailing(s[0]) + 1;
      [DecodeOne(s[..n])] + Decode(s[n..])
  }

  predicate AllCodePoints(cs: seq<int>) { forall i :: 0 <= i < |cs| ==> 0 <= cs[i] <= 0x10FFFF }

  lemma NoStrayTail(s: seq<Byte>, n: nat)
    requires NoStray(s) && n <= |s|
    ensures NoStray(s[n..])
  {
    forall i | 0 <= i < |s| - n && s[n..][i] == 0xF4
      ensures i + 1 < |s| - n && s[n..][i + 1] >= 0x80
    {
      assert s[n + i] == 0xF4;
    }
  }

  /** In an encoding of code points that is the same as containing a dot. */
  lemma {:induction false} DotIn(s: seq<Byte>)
    requires Accepts(s) && NoStray(s)
    ensures DotSeen(s) <==> '.' as int in s
  {
    if s != [] {
      hide NoStray;
      var n := Trailing(s[0]) + 1;
      FirstUnit(s);
      NoStrayTail(s, n);
      DotIn(s[n..]);
      UnitHigh(s[..n]);
      assert s == s[..n] + s[n..] && s[..n][0] == s[0];
      assert DOT in s[..n] <==> s[0] == DOT;
    }
  }

  lemma UnitHigh(t: seq<Byte>)
    requires Unit(t) && (t[0] == 0xF4 ==> t[1] >= 0x80)
    ensures forall i :: 1 <= i < |t| ==> t[i] != DOT
  {
    UnitBounds(t);
  }

  lemma FirstUnit(s: seq<Byte>)
    requires Accepts(s) && NoStray(s) && s != []
    ensures var n := Trailing(s[0]) + 1; n <= |s| && Unit(s[..n]) && (s[..n][0] == 0xF4 ==> s[..n][1] >= 0x80)
  {
    var n := Trailing(s[0]) + 1;
    assert s[..n][0] == s[0] && (n > 1 ==> s[..n][1] == s[1]);
  }

  lemma EncodeCons(c: CodePoint, rest: seq<CodePoint>)
    ensures EncodeAll([c] + rest) == Encode(c) + EncodeAll(rest)
  {
    hide Encode;
    assert ([c] + rest)[1..] == rest;
  }

  lemma ConsPoints(c: int, rest: seq<int>)
    requires 0 <= c <= 0x10FFFF && AllCodePoints(rest)
    ensures AllCodePoints([c] + rest)
  {
  }

  lemma Rejoin(s: seq<Byte>, n: nat)
    requires n <= |s|
    ensures s == s[..n] + s[n..]
  {
  }

  lemma AcceptsParts(s: seq<Byte>)
    requires Accepts(s) && s != []
    ensures var n := Trailing(s[0]) + 1;
            n <= |s| && IsLegal(s[..n]) && 1 <= |s[..n]| <= 4 && Accepts(s[n..])
  {
  }

  lemma DecodeCons(s: seq<Byte>)
    requires Accepts(s) && s != []
    ensures var n := Trailing(s[0]) + 1;
            && n <= |s| && 1 <= |s[..n]| <= 4 && Accepts(s[n..])
            && Decode(s) == [DecodeOne(s[..n])] + Decode(s[n..]) && s == s[..n] + s[n..]
  {
    hide DecodeOne, Trailing, IsLegal, Accepts;
    AcceptsParts(s);
    Rejoin(s, Trailing(s[0]) + 1);
  }

  /** Decoding what was accepted and encoding it again is the identity. */
  lemma {:induction false} DecodeEncode(s: seq<Byte>)
    requires Accepts(s) && NoStray(s)
    ensures AllCodePoints(Decode(s)) && EncodeAll(Decode(s)) == s
  {
    if s != [] {
      hide Accepts, Decode, EncodeAll, Encode, DecodeOne, IsLegal, NoStray, Trailing, AllCodePoints, Unit;
      var n := Trailing(s[0]) + 1;
      FirstUnit(s);
      DecodeCons(s);
      UnitDecodes(s[..n]);
      NoStrayTail(s, n);
      DecodeEncode(s[n..]);
      ConsPoints(DecodeOne(s[..n]), Decode(s[n..]));
      EncodeDecoded(DecodeOne(s[..n]), Decode(s[n..]));
    }
  }

  lemma EncodeDecoded(c: int, rest: seq<int>)
    requires 0 <= c <= 0x10FFFF && AllCodePoints(rest) && AllCodePoints([c] + rest)
    ensures EncodeAll([c] + rest) == Encode(c) + EncodeAll(rest)
  {
    EncodeCons(c, rest);
  }

  /** Every string of encoded code points is accepted and decodes to them. */
  lemma {:induction false} EncodeAccepted(cs: seq<CodePoint>)
    ensures Accepts(EncodeAll(cs)) && Decode(EncodeAll(cs)) == cs && NoStray(EncodeAll(cs))
  {
    hide Encode, DecodeOne, IsLegal, NoStray;
    assert NoStray(EncodeAll([])) by { NoStrayEmpty(); }
    if cs != [] {
      var t, rest := Encode(cs[0]), EncodeAll(cs[1..]);
      EncodeUnit(cs[0]);
      EncodeAccepted(cs[1..]);
      var s := t + rest;
      assert s[..|t|] == t && s[|t|..] == rest;
      NoStrayJoin(t, rest);
      assert cs == [cs[0]] + cs[1..];
    }
  }

  lemma NoStrayEmpty()
    ensures NoStray([])
  {
  }

  lemma NoStrayJoin(t: seq<Byte>, rest: seq<Byte>)
    requires NoStray(rest) && 1 <= |t| && (t[0] == 0xF4 ==> 1 < |t| && t[1] >= 0x80)
    requires forall i :: 1 <= i < |t| ==> t[i] <= 0xBF
    ensures NoStray(t + rest)
  {
    var s := t + rest;
    forall i | 0 <= i < |s| && s[i] == 0xF4
      ensures i + 1 < |s| && s[i + 1] >= 0x80
    {
      if i >= |t| { assert rest[i - |t|] == 0xF4; }
    }
  }

  /** The strings of shortest-form sequences up to U+10FFFF, surrogates included, are those
      accepted strings in which 0xF4 is never followed by a byte below 0x80. */
  lemma AcceptedExactly(s: seq<Byte>)
    ensures (exists cs: seq<CodePoint> :: EncodeAll(cs) == s) <==> Accepts(s) && NoStray(s)
  {
    if Accepts(s) && NoStray(s) {
      DecodeEncode(s);
      var cs: seq<CodePoint> := Decode(s);
      assert EncodeAll(cs) == s;
    }
    if cs: seq<CodePoint> :| EncodeAll(cs) == s {
      EncodeAccepted(cs);
    }
  }

  /** Without that condition more is accepted: the bytes F4 41 80 80 encode nothing. */
  lemma StrayAccepted()
    ensures Accepts([0xF4, 0x41, 0x80, 0x80]) && !exists cs: seq<CodePoint> :: EncodeAll(cs) == [0xF4, 0x41, 0x80, 0x80]
  {
    var s: seq<Byte> := [0xF4, 0x41, 0x80, 0x80];
    assert s[..4] == s && s[4..] == [];
    assert s[0] == 0xF4 && s[1] < 0x80;
    AcceptedExactly(s);
  }

  /** The field names "a.b" and "$a". */
  method SampleNames() returns (dot: bool, dollar: bool, plain: bool)
    ensures dot && dollar && plain
  {
    var ok, seen, first;
    assert [0x61, 0x2E, 0x62][..1] == [0x61] && [0x61, 0x2E, 0x62][1..] == [0x2E, 0x62];
    assert [0x2E, 0x62][..1] == [0x2E] && [0x2E, 0x62][1..] == [0x62];
    assert [0x62][..1] == [0x62] && [0x62][1..] == [];
    ok, seen, first := Validate([0x61, 0x2E, 0x62], true, true);
    dot := ok && seen && !first;
    assert [0x24, 0x61][..1] == [0x24] && [0x24, 0x61][1..] == [0x61];
    assert [0x61][..1] == [0x61] && [0x61][1..] == [];
    ok, seen, first := Validate([0x24, 0x61], true, true);
    dollar := ok && !seen && first;
    ok, seen, first := Validate([0x61], true, true);
    plain := ok && !seen && !first;
  }
}
