/** What a name may hold, from the other side: the encodings of Unicode scalar values (sections 3
    and 4 of RFC 3629), and the order of names by their first difference. */
module Utf8 {
  import opened Bytes
  import opened Names

  ghost predicate IsScalar(c: int) {
    0 <= c < 0xD800 || 0xE000 <= c < 0x11_0000
  }

  type Scalar = c: int | IsScalar(c)

  function Tail(c: nat): byte {
    0x80 + c % 64
  }

  function Encoded(c: Scalar): (s: seq<byte>)
    ensures s != []
  {
    assert IsScalar(c);
    if c < 0x80 then
      var lead: byte := c;
      [lead]
    else if c < 0x800 then
      var lead: byte := 0xC0 + c / 0x40;
      [lead, Tail(c)]
    else if c < 0x1_0000 then
      var lead: byte := 0xE0 + c / 0x1000;
      [lead, Tail(c / 0x40), Tail(c)]
    else
      var lead: byte := 0xF0 + c / 0x4_0000;
      [lead, Tail(c / 0x1000), Tail(c / 0x40), Tail(c)]
  }

  function EncodedAll(cs: seq<Scalar>): seq<byte> {
    if cs == [] then [] else Encoded(cs[0]) + EncodedAll(cs[1..])
  }

  lemma {:induction false} EncodedIsCharacter(c: Scalar, rest: seq<byte>)
    ensures CharLength(Encoded(c) + rest) == |Encoded(c)|
  {
    assert IsScalar(c);
    var e, s := Encoded(c), Encoded(c) + rest;
    assert forall i :: 0 <= i < |e| ==> s[i] == e[i];
    TailIsTail(c);
    TailIsTail(c / 0x40);
    TailIsTail(c / 0x1000);
    if c >= 0x800 {
      SecondByte(c);
    }
  }

  lemma TailIsTail(c: nat)
    ensures IsTail(Tail(c))
  {
  }

  lemma SecondByte(c: Scalar)
    requires c >= 0x800
    ensures SecondByteFits(Encoded(c)[0], Encoded(c)[1])
  {
    assert IsScalar(c);
  }

  lemma {:induction false} CharacterIsEncoded(s: seq<byte>) returns (c: Scalar)
    requires s != [] && CharLength(s) > 0
    ensures Encoded(c) == s[..CharLength(s)]
  {
    var n := CharLength(s);
    if n == 1 {
      c := s[0];
    } else if n == 2 {
      c := OfTwo(s[0], s[1]);
    } else if n == 3 {
      c := OfThree(s[0], s[1], s[2]);
    } else {
      c := OfFour(s[0], s[1], s[2], s[3]);
    }
  }

  lemma OfTwo(b0: byte, b1: byte) returns (c: Scalar)
    requires 0xC2 <= b0 <= 0xDF && IsTail(b1)
    ensures Encoded(c) == [b0, b1]
  {
    var code: int := (b0 as int - 0xC0) * 0x40 + (b1 as int - 0x80);
    assert IsScalar(code);
    c := code;
  }

  lemma OfThree(b0: byte, b1: byte, b2: byte) returns (c: Scalar)
    requires 0xE0 <= b0 <= 0xEF && SecondByteFits(b0, b1) && IsTail(b2)
    ensures Encoded(c) == [b0, b1, b2]
  {
    var code: int := (b0 as int - 0xE0) * 0x1000 + (b1 as int - 0x80) * 0x40 + (b2 as int - 0x80);
    assert IsScalar(code);
    c := code;
  }

  lemma OfFour(b0: byte, b1: byte, b2: byte, b3: byte) returns (c: Scalar)
    requires 0xF0 <= b0 <= 0xF4 && SecondByteFits(b0, b1) && IsTail(b2) && IsTail(b3)
    ensures Encoded(c) == [b0, b1, b2, b3]
  {
    var x3, x2, x1, x0 := b0 as int - 0xF0, b1 as int - 0x80, b2 as int - 0x80, b3 as int - 0x80;
    var code: int := x3 * 0x4_0000 + x2 * 0x1000 + x1 * 0x40 + x0;
    Digits(x3, x2, x1, x0, code);
    assert IsScalar(code);
    c := code;
    hide SecondByteFits;
    assert Encoded(c)[0] == b0 && Encoded(c)[1] == b1 && Encoded(c)[2] == b2 && Encoded(c)[3] == b3;
  }

  lemma Digits(x3: int, x2: int, x1: int, x0: int, c: int)
    requires 0 <= x3 && 0 <= x2 < 0x40 && 0 <= x1 < 0x40 && 0 <= x0 < 0x40
    requires c == x3 * 0x4_0000 + x2 * 0x1000 + x1 * 0x40 + x0
    ensures c / 0x4_0000 == x3 && c / 0x1000 % 0x40 == x2 && c / 0x40 % 0x40 == x1 && c % 0x40 == x0
  {
    Low(x3 * 0x1000 + x2 * 0x40 + x1, x0);
    Low(x3 * 0x40 + x2, x1);
    Low(x3, x2);
    High(x3 * 0x40 + x2, x1 * 0x40 + x0);
    Top(x3, x2 * 0x1000 + x1 * 0x40 + x0);
  }

  lemma Low(h: int, l: int)
    requires 0 <= h && 0 <= l < 0x40
    ensures (h * 0x40 + l) / 0x40 == h && (h * 0x40 + l) % 0x40 == l
  {
  }

  lemma High(h: int, l: int)
    requires 0 <= h && 0 <= l < 0x1000
    ensures (h * 0x1000 + l) / 0x1000 == h
  {
  }

  lemma Top(h: int, l: int)
    requires 0 <= h && 0 <= l < 0x4_0000
    ensures (h * 0x4_0000 + l) / 0x4_0000 == h
  {
  }

  /** A byte string is accepted as a name exactly if it encodes some sequence of scalar values. */
  lemma {:induction false} NamesAreEncodings(s: seq<byte>)
    ensures IsUtf8(s) <==> exists cs: seq<Scalar> :: EncodedAll(cs) == s
  {
    if IsUtf8(s) {
      var cs := Decoded(s);
    }
    if cs: seq<Scalar> :| EncodedAll(cs) == s {
      EncodingIsUtf8(cs);
    }
  }

  lemma {:induction false} EncodingIsUtf8(cs: seq<Scalar>)
    ensures IsUtf8(EncodedAll(cs))
  {
    hide CharLength, Encoded;
    if cs != [] {
      var head, rest := Encoded(cs[0]), EncodedAll(cs[1..]);
      EncodedIsCharacter(cs[0], rest);
      EncodingIsUtf8(cs[1..]);
      assert (head + rest)[|head|..] == rest;
    }
  }

  lemma {:induction false} Decoded(s: seq<byte>) returns (cs: seq<Scalar>)
    requires IsUtf8(s)
    ensures EncodedAll(cs) == s
    decreases |s|
  {
    hide CharLength, Encoded;
    cs := [];
    if s != [] {
      var c := CharacterIsEncoded(s);
      cs := Decoded(s[CharLength(s)..]);
      cs := [c] + cs;
      assert s == s[..CharLength(s)] + s[CharLength(s)..];
    }
  }

  // ---------- order ----------

  /** The two agree on the first `k` bytes, and there `a` ends or has the smaller byte. */
  ghost predicate DiffersAt(a: seq<byte>, b: seq<byte>, k: nat) {
    k <= |a| && k < |b| && a[..k] == b[..k] && (k == |a| || a[k] < b[k])
  }

  lemma {:induction false} LessAtFirstDifference(a: seq<byte>, b: seq<byte>)
    ensures Less(a, b) <==> exists k: nat :: DiffersAt(a, b, k)
  {
    if b != [] && a != [] && a[0] == b[0] {
      LessAtFirstDifference(a[1..], b[1..]);
      if k: nat :| DiffersAt(a[1..], b[1..], k) {
        assert a[..k + 1] == [a[0]] + a[1..][..k] && b[..k + 1] == [b[0]] + b[1..][..k];
        assert DiffersAt(a, b, k + 1);
      }
      if k: nat :| DiffersAt(a, b, k) {
        assert k > 0;
        assert a[1..][..k - 1] == a[..k][1..] && b[1..][..k - 1] == b[..k][1..];
        assert DiffersAt(a[1..], b[1..], k - 1);
      }
    } else if Less(a, b) {
      assert DiffersAt(a, b, 0);
    } else {
      forall k: nat ensures !DiffersAt(a, b, k) {
        if 0 < k <= |a| && k < |b| {
          assert a[..k][0] == a[0] && b[..k][0] == b[0];
        }
      }
    }
  }
}
