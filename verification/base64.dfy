/**
  Base64 with the standard alphabet and `=` padding, as fixed by section 4
  of RFC 4648 (the "base64" encoding, Table 1), never line-wrapped.

  The encoder is total. The decoder is the strict one: the length must be a
  multiple of four, padding may only close the last group, and the bits a
  padded group leaves unused must be zero. Under these rules every string
  has at most one preimage, so `Decode(s) == Some(b)` holds exactly when
  `Encode(b) == s` (lemma `DecodeIffEncode`).
 */
module Base64 {
  import opened Wrappers

  type byte = x: int | 0 <= x < 256

  /** One 6-bit group value. */
  type sextet = x: int | 0 <= x < 64

  const Pad: char := '='

  /** The 64 characters of Table 1 of RFC 4648: `A`-`Z`, `a`-`z`, `0`-`9`, `+`, `/`. */
  predicate IsAlphabetChar(c: char) {
    ('A' <= c <= 'Z') || ('a' <= c <= 'z') || ('0' <= c <= '9') || c == '+' || c == '/'
  }

  /** The character Table 1 assigns to a 6-bit value. */
  function SextetChar(v: sextet): (c: char)
    ensures IsAlphabetChar(c)
  {
    if v < 26 then ('A' as int + v) as char
    else if v < 52 then ('a' as int + (v - 26)) as char
    else if v < 62 then ('0' as int + (v - 52)) as char
    else if v == 62 then '+'
    else '/'
  }

  /** The 6-bit value of an alphabet character; the inverse of `SextetChar`. */
  function CharSextet(c: char): (v: sextet)
    requires IsAlphabetChar(c)
    ensures SextetChar(v) == c
  {
    if 'A' <= c <= 'Z' then c as int - 'A' as int
    else if 'a' <= c <= 'z' then c as int - 'a' as int + 26
    else if '0' <= c <= '9' then c as int - '0' as int + 52
    else if c == '+' then 62
    else 63
  }

  /** Distinct values get distinct characters, so decoding a character is unambiguous. */
  lemma SextetCharInjective(v: sextet)
    ensures CharSextet(SextetChar(v)) == v
  {
  }

  /** Number of `=` characters closing the encoding of `n` bytes. */
  function PadCount(n: nat): (p: nat)
    ensures p <= 2
    ensures (n + p) % 3 == 0
  {
    (3 - n % 3) % 3
  }

  /** Length of the encoding of `n` bytes: four characters per started group of three. */
  function EncodedLength(n: nat): nat {
    4 * ((n + 2) / 3)
  }

  /** A full 24-bit group: three bytes become four alphabet characters. */
  function EncodeGroup(b0: byte, b1: byte, b2: byte): (s: string)
    ensures |s| == 4
  {
    [SextetChar(b0 / 4), SextetChar((b0 % 4) * 16 + b1 / 16),
     SextetChar((b1 % 16) * 4 + b2 / 64), SextetChar(b2 % 64)]
  }

  /** A final group of two bytes: three alphabet characters and one `=`. */
  function EncodeFinalTwo(b0: byte, b1: byte): (s: string)
    ensures |s| == 4
  {
    [SextetChar(b0 / 4), SextetChar((b0 % 4) * 16 + b1 / 16), SextetChar((b1 % 16) * 4), Pad]
  }

  /** A final group of one byte: two alphabet characters and two `=`. */
  function EncodeFinalOne(b0: byte): (s: string)
    ensures |s| == 4
  {
    [SextetChar(b0 / 4), SextetChar((b0 % 4) * 16), Pad, Pad]
  }

  /**
    The encoding of `data`: groups of three bytes left to right, the last
    one padded. Its length is four characters per started group of three
    bytes; `EncodeShape` says which of them are `=`.
   */
  function Encode(data: seq<byte>): (s: string)
    ensures |s| == EncodedLength(|data|)
    decreases |data|
  {
    if |data| == 0 then ""
    else if |data| == 1 then EncodeFinalOne(data[0])
    else if |data| == 2 then EncodeFinalTwo(data[0], data[1])
    else
      EncodeGroup(data[0], data[1], data[2]) + Encode(data[3..])
  }

  /**
    The shape of an encoding: every character but the last `PadCount(|data|)`
    is from the alphabet, and those last ones are `=`.
   */
  lemma {:induction false} EncodeShape(data: seq<byte>)
    ensures forall i :: 0 <= i < |Encode(data)| - PadCount(|data|) ==> IsAlphabetChar(Encode(data)[i])
    ensures forall i :: |Encode(data)| - PadCount(|data|) <= i < |Encode(data)| ==> Encode(data)[i] == Pad
    decreases |data|
  {
    if |data| > 2 {
      var head := EncodeGroup(data[0], data[1], data[2]);
      EncodeShape(data[3..]);
      assert PadCount(|data|) == PadCount(|data| - 3);
      ShapeOfConcat(head, Encode(data[3..]), PadCount(|data|));
    }
  }

  /** Four alphabet characters in front of a padded encoding keep its shape. */
  lemma ShapeOfConcat(head: string, tail: string, p: nat)
    requires |head| == 4 && IsAlphabetChar(head[0]) && IsAlphabetChar(head[1]) && IsAlphabetChar(head[2]) && IsAlphabetChar(head[3])
    requires p <= |tail|
    requires forall j :: 0 <= j < |tail| - p ==> IsAlphabetChar(tail[j])
    requires forall j :: |tail| - p <= j < |tail| ==> tail[j] == Pad
    ensures forall i :: 0 <= i < |head + tail| - p ==> IsAlphabetChar((head + tail)[i])
    ensures forall i :: |head + tail| - p <= i < |head + tail| ==> (head + tail)[i] == Pad
  {
    var s := head + tail;
    forall i | 0 <= i < |s| - p
      ensures IsAlphabetChar(s[i])
    {
      if i >= 4 {
        assert s[i] == tail[i - 4];
      } else {
        assert s[i] == head[i];
      }
    }
    forall i | |s| - p <= i < |s|
      ensures s[i] == Pad
    {
      assert s[i] == tail[i - 4];
    }
  }

  /** Encoding works group by group: three leading bytes become the four leading characters. */
  lemma EncodeGroupPrefix(b0: byte, b1: byte, b2: byte, rest: seq<byte>)
    ensures Encode([b0, b1, b2] + rest) == EncodeGroup(b0, b1, b2) + Encode(rest)
  {
    assert ([b0, b1, b2] + rest)[3..] == rest;
  }

  /** Decodes a group of four alphabet characters into three bytes. */
  function DecodeGroup(q: string): (r: Option<seq<byte>>)
    requires |q| == 4
    ensures r.Some? ==> |r.value| == 3
  {
    if IsAlphabetChar(q[0]) && IsAlphabetChar(q[1]) && IsAlphabetChar(q[2]) && IsAlphabetChar(q[3]) then
      var s0, s1, s2, s3 := CharSextet(q[0]), CharSextet(q[1]), CharSextet(q[2]), CharSextet(q[3]);
      Some([s0 * 4 + s1 / 16, (s1 % 16) * 16 + s2 / 4, (s2 % 4) * 64 + s3])
    else None
  }

  /**
    Decodes the last group of four characters, which may carry one or two
    `=`; the bits a padded group leaves unused must be zero.
   */
  function DecodeFinalGroup(q: string): (r: Option<seq<byte>>)
    requires |q| == 4
    ensures r.Some? ==> 1 <= |r.value| <= 3
  {
    if DecodeGroup(q).Some? then DecodeGroup(q)
    else if IsAlphabetChar(q[0]) && IsAlphabetChar(q[1]) && IsAlphabetChar(q[2]) && q[3] == Pad then
      var s0, s1, s2 := CharSextet(q[0]), CharSextet(q[1]), CharSextet(q[2]);
      if s2 % 4 == 0 then Some([s0 * 4 + s1 / 16, (s1 % 16) * 16 + s2 / 4]) else None
    else if IsAlphabetChar(q[0]) && IsAlphabetChar(q[1]) && q[2] == Pad && q[3] == Pad then
      var s0, s1 := CharSextet(q[0]), CharSextet(q[1]);
      if s1 % 16 == 0 then Some([s0 * 4 + s1 / 16]) else None
    else None
  }

  /** Strict decoding: `None` for every string that is not an encoder output. */
  function Decode(s: string): (r: Option<seq<byte>>)
    ensures r.Some? ==> |s| == EncodedLength(|r.value|)
    decreases |s|
  {
    if |s| == 0 then Some([])
    else if |s| < 4 then None
    else if |s| == 4 then DecodeFinalGroup(s)
    else match DecodeGroup(s[..4])
      case None => None
      case Some(head) =>
        match Decode(s[4..])
        case None => None
        case Some(tail) => Some(head + tail)
  }

  /** Splitting three bytes into sextets and joining them again is the identity. */
  lemma SplitJoin(b0: byte, b1: byte, b2: byte)
    ensures var s1: int, s2: int := (b0 % 4) * 16 + b1 / 16, (b1 % 16) * 4 + b2 / 64;
      && (b0 / 4) * 4 + s1 / 16 == b0
      && (s1 % 16) * 16 + s2 / 4 == b1
      && (s2 % 4) * 64 + b2 % 64 == b2
  {
    var s1: int, s2: int := (b0 % 4) * 16 + b1 / 16, (b1 % 16) * 4 + b2 / 64;
    assert s1 / 16 == b0 % 4 && s1 % 16 == b1 / 16;
    assert s2 / 4 == b1 % 16 && s2 % 4 == b2 / 64;
  }

  /** Decoding the characters of a full group gives back its three bytes. */
  lemma DecodeEncodeGroup(g: seq<byte>)
    requires |g| == 3
    ensures DecodeGroup(EncodeGroup(g[0], g[1], g[2])) == Some(g)
  {
    var b0, b1, b2 := g[0], g[1], g[2];
    var v0: sextet, v1: sextet := b0 / 4, (b0 % 4) * 16 + b1 / 16;
    var v2: sextet, v3: sextet := (b1 % 16) * 4 + b2 / 64, b2 % 64;
    var q := EncodeGroup(b0, b1, b2);
    assert q == [SextetChar(v0), SextetChar(v1), SextetChar(v2), SextetChar(v3)];
    SextetCharInjective(v0);
    SextetCharInjective(v1);
    SextetCharInjective(v2);
    SextetCharInjective(v3);
    SplitJoin(b0, b1, b2);
    assert DecodeGroup(q).value == [b0, b1, b2];
    assert [b0, b1, b2] == g;
  }

  /** Decoding the last group of a two-byte tail gives back those two bytes. */
  lemma DecodeEncodeFinalTwo(g: seq<byte>)
    requires |g| == 2
    ensures DecodeFinalGroup(EncodeFinalTwo(g[0], g[1])) == Some(g)
  {
    var b0, b1 := g[0], g[1];
    var v0: sextet, v1: sextet, v2: sextet := b0 / 4, (b0 % 4) * 16 + b1 / 16, (b1 % 16) * 4;
    var q := EncodeFinalTwo(b0, b1);
    assert q == [SextetChar(v0), SextetChar(v1), SextetChar(v2), Pad];
    assert !IsAlphabetChar(q[3]);
    SextetCharInjective(v0);
    SextetCharInjective(v1);
    SextetCharInjective(v2);
    SplitJoin(b0, b1, 0);
    assert DecodeFinalGroup(q).value == [b0, b1];
    assert [b0, b1] == g;
  }

  /** Decoding the last group of a one-byte tail gives back that byte. */
  lemma DecodeEncodeFinalOne(g: seq<byte>)
    requires |g| == 1
    ensures DecodeFinalGroup(EncodeFinalOne(g[0])) == Some(g)
  {
    var b0 := g[0];
    var v0: sextet, v1: sextet := b0 / 4, (b0 % 4) * 16;
    var q := EncodeFinalOne(b0);
    assert q == [SextetChar(v0), SextetChar(v1), Pad, Pad];
    assert !IsAlphabetChar(q[2]) && !IsAlphabetChar(q[3]);
    SextetCharInjective(v0);
    SextetCharInjective(v1);
    SplitJoin(b0, 0, 0);
    assert DecodeFinalGroup(q).value == [b0];
    assert [b0] == g;
  }

  /** Round trip: the strict decoder inverts the encoder, for every byte sequence. */
  lemma {:induction false} DecodeEncode(data: seq<byte>)
    ensures Decode(Encode(data)) == Some(data)
    decreases |data|
  {
    if |data| == 0 {
    } else if |data| == 1 {
      DecodeEncodeFinalOne(data);
    } else if |data| == 2 {
      DecodeEncodeFinalTwo(data);
    } else {
      var q := EncodeGroup(data[0], data[1], data[2]);
      DecodeEncodeGroup(data[..3]);
      if |data| == 3 {
        assert Encode(data) == q + Encode(data[3..]);
        assert Encode(data) == q;
        assert data[..3] == data;
      } else {
        DecodeEncode(data[3..]);
        DecodeGroupPrefix(q, Encode(data[3..]));
        assert data[..3] + data[3..] == data;
      }
    }
  }

  /** Decoding works group by group: a valid leading group is decoded ahead of a valid non-empty rest. */
  lemma DecodeGroupPrefix(q: string, rest: string)
    requires |q| == 4 && |rest| > 0
    requires DecodeGroup(q).Some? && Decode(rest).Some?
    ensures Decode(q + rest) == Some(DecodeGroup(q).value + Decode(rest).value)
  {
    assert (q + rest)[..4] == q;
    assert (q + rest)[4..] == rest;
  }

  /** Joining four sextets into bytes and splitting them again is the identity. */
  lemma JoinSplit(s0: sextet, s1: sextet, s2: sextet, s3: sextet, b0: int, b1: int, b2: int)
    requires b0 == s0 * 4 + s1 / 16 && b1 == (s1 % 16) * 16 + s2 / 4 && b2 == (s2 % 4) * 64 + s3
    ensures 0 <= b0 < 256 && 0 <= b1 < 256 && 0 <= b2 < 256
    ensures b0 / 4 == s0
    ensures (b0 % 4) * 16 + b1 / 16 == s1
    ensures (b1 % 16) * 4 + b2 / 64 == s2
    ensures b2 % 64 == s3
  {
    assert b0 / 4 == s0 && b0 % 4 == s1 / 16;
    assert b1 / 16 == s1 % 16 && b1 % 16 == s2 / 4;
    assert b2 / 64 == s2 % 4 && b2 % 64 == s3;
  }

  /** A decoded full group re-encodes to the very same four characters. */
  lemma EncodeDecodeGroup(q: string)
    requires |q| == 4
    requires DecodeGroup(q).Some?
    ensures EncodeGroup(DecodeGroup(q).value[0], DecodeGroup(q).value[1], DecodeGroup(q).value[2]) == q
  {
    var v0: int, v1: int, v2: int, v3: int := CharSextet(q[0]), CharSextet(q[1]), CharSextet(q[2]), CharSextet(q[3]);
    var b0: int, b1: int, b2: int := v0 * 4 + v1 / 16, (v1 % 16) * 16 + v2 / 4, (v2 % 4) * 64 + v3;
    JoinSplit(v0, v1, v2, v3, b0, b1, b2);
    assert DecodeGroup(q).value == [b0, b1, b2];
    assert EncodeGroup(b0, b1, b2) == [SextetChar(v0), SextetChar(v1), SextetChar(v2), SextetChar(v3)];
  }

  /** A last group without `=` re-encodes to the very same four characters. */
  lemma EncodeDecodeFullFinal(q: string)
    requires |q| == 4
    requires DecodeGroup(q).Some?
    ensures Encode(DecodeFinalGroup(q).value) == q
  {
    var b := DecodeGroup(q).value;
    EncodeDecodeGroup(q);
    assert b == [b[0], b[1], b[2]] + [];
    EncodeGroupPrefix(b[0], b[1], b[2], []);
  }

  /** A last group with one `=` re-encodes to the very same four characters. */
  lemma EncodeDecodeFinalTwo(q: string)
    requires |q| == 4 && DecodeFinalGroup(q).Some? && DecodeGroup(q).None?
    requires IsAlphabetChar(q[0]) && IsAlphabetChar(q[1]) && IsAlphabetChar(q[2]) && q[3] == Pad
    ensures Encode(DecodeFinalGroup(q).value) == q
  {
    var s0: int, s1: int, s2: int := CharSextet(q[0]), CharSextet(q[1]), CharSextet(q[2]);
    assert s2 % 4 == 0;
    var b0: int, b1: int := s0 * 4 + s1 / 16, (s1 % 16) * 16 + s2 / 4;
    JoinSplit(s0, s1, s2, 0, b0, b1, 0);
    assert DecodeFinalGroup(q).value == [b0, b1];
    assert (b1 % 16) * 4 == s2;
    assert EncodeFinalTwo(b0, b1) == [SextetChar(s0), SextetChar(s1), SextetChar(s2), Pad];
    assert Encode([b0, b1]) == EncodeFinalTwo(b0, b1);
  }

  /** A last group with two `=` re-encodes to the very same four characters. */
  lemma EncodeDecodeFinalOne(q: string)
    requires |q| == 4 && DecodeFinalGroup(q).Some? && DecodeGroup(q).None?
    requires IsAlphabetChar(q[0]) && IsAlphabetChar(q[1]) && q[2] == Pad && q[3] == Pad
    ensures Encode(DecodeFinalGroup(q).value) == q
  {
    var s0: int, s1: int := CharSextet(q[0]), CharSextet(q[1]);
    assert s1 % 16 == 0;
    var b0: int := s0 * 4 + s1 / 16;
    JoinSplit(s0, s1, 0, 0, b0, 0, 0);
    assert DecodeFinalGroup(q).value == [b0];
    assert (b0 % 4) * 16 == s1;
    assert EncodeFinalOne(b0) == [SextetChar(s0), SextetChar(s1), Pad, Pad];
    assert Encode([b0]) == EncodeFinalOne(b0);
  }

  /** A decoded last group re-encodes to the very same four characters. */
  lemma EncodeDecodeFinalGroup(q: string)
    requires |q| == 4
    requires DecodeFinalGroup(q).Some?
    ensures Encode(DecodeFinalGroup(q).value) == q
  {
    if DecodeGroup(q).Some? {
      EncodeDecodeFullFinal(q);
    } else if q[2] != Pad {
      EncodeDecodeFinalTwo(q);
    } else {
      EncodeDecodeFinalOne(q);
    }
  }

  /** Canonicity: whatever the strict decoder accepts is exactly the encoding of its result. */
  lemma {:induction false} EncodeDecode(s: string)
    requires Decode(s).Some?
    ensures Encode(Decode(s).value) == s
    decreases |s|
  {
    if |s| == 0 {
    } else if |s| == 4 {
      EncodeDecodeFinalGroup(s);
    } else {
      var q := s[..4];
      var head := DecodeGroup(q).value;
      var tail := Decode(s[4..]).value;
      EncodeDecode(s[4..]);
      EncodeDecodeGroup(q);
      var data := head + tail;
      assert |tail| > 0;
      assert data[..3] == head;
      assert data[3..] == tail;
      assert s == q + s[4..];
    }
  }

  /** Base64 is a bijection between byte sequences and strictly valid strings. */
  lemma DecodeIffEncode(s: string, data: seq<byte>)
    ensures Decode(s) == Some(data) ==> Encode(data) == s
    ensures Encode(data) == s ==> Decode(s) == Some(data)
  {
    if Decode(s) == Some(data) {
      EncodeDecode(s);
    }
    if Encode(data) == s {
      DecodeEncode(data);
    }
  }

  /** Every character of an encoding is an alphabet character or `=`, never anything else. */
  lemma EncodeCharset(data: seq<byte>, i: int)
    requires 0 <= i < |Encode(data)|
    ensures IsAlphabetChar(Encode(data)[i]) || Encode(data)[i] == Pad
    ensures Encode(data)[i] != ';' && Encode(data)[i] != ',' && Encode(data)[i] != ' '
  {
    EncodeShape(data);
  }

  /** The groups making up the test vectors of section 10 of RFC 4648. */
  lemma Rfc4648Groups()
    ensures EncodeFinalOne(102) == "Zg=="
    ensures EncodeFinalTwo(102, 111) == "Zm8="
    ensures EncodeGroup(102, 111, 111) == "Zm9v"
    ensures EncodeFinalOne(98) == "Yg=="
    ensures EncodeFinalTwo(98, 97) == "YmE="
    ensures EncodeGroup(98, 97, 114) == "YmFy"
  {
    assert 102 / 4 == 25 && (102 % 4) * 16 == 32 && (102 % 4) * 16 + 111 / 16 == 38;
    assert (111 % 16) * 4 == 60 && (111 % 16) * 4 + 111 / 64 == 61 && 111 % 64 == 47;
    assert 98 / 4 == 24 && (98 % 4) * 16 == 32 && (98 % 4) * 16 + 97 / 16 == 38;
    assert (97 % 16) * 4 == 4 && (97 % 16) * 4 + 114 / 64 == 5 && 114 % 64 == 50;
  }

  /** The test vectors of section 10 of RFC 4648, for the inputs "", "f", "fo" and "foo". */
  lemma Rfc4648ShortVectors()
    ensures Encode([]) == ""
    ensures Encode([102]) == "Zg=="
    ensures Encode([102, 111]) == "Zm8="
    ensures Encode([102, 111, 111]) == "Zm9v"
  {
    Rfc4648Groups();
    EncodeGroupPrefix(102, 111, 111, []);
    assert [102, 111, 111] + [] == [102, 111, 111];
  }

  /** The test vectors of section 10 of RFC 4648, for the inputs "foob" and "fooba". */
  lemma Rfc4648PartialVectors()
    ensures Encode([102, 111, 111, 98]) == "Zm9vYg=="
    ensures Encode([102, 111, 111, 98, 97]) == "Zm9vYmE="
  {
    Rfc4648Groups();
    EncodeGroupPrefix(102, 111, 111, [98]);
    EncodeGroupPrefix(102, 111, 111, [98, 97]);
  }

  /** The test vector of section 10 of RFC 4648 for the input "foobar". */
  lemma Rfc4648FullVector()
    ensures Encode([102, 111, 111, 98, 97, 114]) == "Zm9vYmFy"
  {
    Rfc4648Groups();
    EncodeGroupPrefix(102, 111, 111, [98, 97, 114]);
    EncodeGroupPrefix(98, 97, 114, []);
    assert [98, 97, 114] + [] == [98, 97, 114];
  }
}
