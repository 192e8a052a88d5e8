/**
 * Padded base64 with the standard alphabet, as defined in section 4 of
 * RFC 4648 (Go's base64.StdEncoding).  The encoder is what the crawler
 * calls; the decoder is its partner, strict in the sense of section 3.5
 * (non-zero pad bits are rejected), so that the two are exact inverses.
 */
module Base64 {
  import opened Outcomes

  type Byte = b: int | 0 <= b < 256
  type Sextet = i: int | 0 <= i < 64

  const Pad: char := '='

  /** The character of the base64 alphabet (Table 1 of RFC 4648) for a 6-bit value. */
  function Digit(i: Sextet): (c: char)
    ensures c != Pad
  {
    if i < 26 then ('A' as int + i) as char
    else if i < 52 then ('a' as int + (i - 26)) as char
    else if i < 62 then ('0' as int + (i - 52)) as char
    else if i == 62 then '+'
    else '/'
  }

  predicate IsDigit(c: char)
  {
    ('A' <= c <= 'Z') || ('a' <= c <= 'z') || ('0' <= c <= '9') || c == '+' || c == '/'
  }

  /** The 6-bit value of an alphabet character: the inverse of Digit. */
  function ValueOf(c: char): (i: Sextet)
    requires IsDigit(c)
    ensures Digit(i) == c
  {
    if 'A' <= c <= 'Z' then c as int - 'A' as int
    else if 'a' <= c <= 'z' then c as int - 'a' as int + 26
    else if '0' <= c <= '9' then c as int - '0' as int + 52
    else if c == '+' then 62
    else 63
  }

  lemma DigitValue(i: Sextet)
    ensures IsDigit(Digit(i)) && ValueOf(Digit(i)) == i
  {
  }

  /** One full 24-bit group of three bytes as four characters. */
  function EncodeGroup(b0: Byte, b1: Byte, b2: Byte): string
  {
    [Digit(b0 / 4), Digit((b0 % 4) * 16 + b1 / 16), Digit((b1 % 16) * 4 + b2 / 64), Digit(b2 % 64)]
  }

  /** A final group of one byte: two characters and two pads. */
  function EncodeOne(b0: Byte): string
  {
    [Digit(b0 / 4), Digit((b0 % 4) * 16), Pad, Pad]
  }

  /** A final group of two bytes: three characters and one pad. */
  function EncodeTwo(b0: Byte, b1: Byte): string
  {
    [Digit(b0 / 4), Digit((b0 % 4) * 16 + b1 / 16), Digit((b1 % 16) * 4), Pad]
  }

  /** base64.StdEncoding.EncodeToString */
  function Encode(b: seq<Byte>): (s: string)
    ensures |s| == 4 * ((|b| + 2) / 3)
    decreases |b|
  {
    if |b| == 0 then ""
    else if |b| == 1 then EncodeOne(b[0])
    else if |b| == 2 then EncodeTwo(b[0], b[1])
    else EncodeGroup(b[0], b[1], b[2]) + Encode(b[3..])
  }

  /** Every character of an encoding is from the alphabet or a pad, and pads occur only in the last two places. */
  lemma {:induction false} EncodeAlphabet(b: seq<Byte>)
    ensures forall i :: 0 <= i < |Encode(b)| ==>
      IsDigit(Encode(b)[i]) || (Encode(b)[i] == Pad && i >= |Encode(b)| - 2)
    decreases |b|
  {
    forall i: Sextet
      ensures IsDigit(Digit(i))
    {
      DigitValue(i);
    }
    if |b| >= 3 {
      EncodeAlphabet(b[3..]);
      var head, tail := EncodeGroup(b[0], b[1], b[2]), Encode(b[3..]);
      var s := head + tail;
      assert Encode(b) == s;
      assert IsDigit(head[0]) && IsDigit(head[1]) && IsDigit(head[2]) && IsDigit(head[3]);
      forall i | 0 <= i < |s|
        ensures IsDigit(s[i]) || (s[i] == Pad && i >= |s| - 2)
      {
        if i >= 4 {
          assert s[i] == tail[i - 4];
        } else {
          assert s[i] == head[i];
        }
      }
    } else if |b| == 2 {
      assert Encode(b) == EncodeTwo(b[0], b[1]);
    } else if |b| == 1 {
      assert Encode(b) == EncodeOne(b[0]);
    }
  }

  /** The test vectors of section 10 of RFC 4648, for "f", "fo", "foo", "foob", "fooba" and "foobar". */
  lemma StandardVectors()
    ensures Encode([]) == ""
    ensures Encode([102]) == "Zg=="
    ensures Encode([102, 111]) == "Zm8="
    ensures Encode([102, 111, 111]) == "Zm9v"
    ensures Encode([102, 111, 111, 98]) == "Zm9vYg=="
    ensures Encode([102, 111, 111, 98, 97]) == "Zm9vYmE="
    ensures Encode([102, 111, 111, 98, 97, 114]) == "Zm9vYmFy"
  {
    assert [102, 111, 111, 98][3..] == [98];
    assert [102, 111, 111, 98, 97][3..] == [98, 97];
    assert [102, 111, 111, 98, 97, 114][3..] == [98, 97, 114];
  }

  /**
   * Decodes one 4-character quantum.  Padding is accepted only in the final
   * quantum, and only when the bits it discards are zero.
   */
  function DecodeQuantum(q: string, last: bool): Option<seq<Byte>>
    requires |q| == 4
  {
    if IsDigit(q[0]) && IsDigit(q[1]) && IsDigit(q[2]) && IsDigit(q[3]) then
      var v0, v1, v2, v3 := ValueOf(q[0]), ValueOf(q[1]), ValueOf(q[2]), ValueOf(q[3]);
      Some([v0 * 4 + v1 / 16, (v1 % 16) * 16 + v2 / 4, (v2 % 4) * 64 + v3])
    else if last && IsDigit(q[0]) && IsDigit(q[1]) && IsDigit(q[2]) && q[3] == Pad
         && ValueOf(q[2]) % 4 == 0 then
      var v0, v1, v2 := ValueOf(q[0]), ValueOf(q[1]), ValueOf(q[2]);
      Some([v0 * 4 + v1 / 16, (v1 % 16) * 16 + v2 / 4])
    else if last && IsDigit(q[0]) && IsDigit(q[1]) && q[2] == Pad && q[3] == Pad
         && ValueOf(q[1]) % 16 == 0 then
      var v0, v1 := ValueOf(q[0]), ValueOf(q[1]);
      Some([v0 * 4 + v1 / 16])
    else None
  }

  function Decode(s: string): Option<seq<Byte>>
    decreases |s|
  {
    if |s| == 0 then Some([])
    else if |s| < 4 then None
    else
      match DecodeQuantum(s[..4], |s| == 4)
      case None => None
      case Some(head) =>
        match Decode(s[4..])
        case None => None
        case Some(tail) => Some(head + tail)
  }

  lemma Split4(x: int, y: int)
    requires 0 <= y < 4
    ensures (x * 4 + y) / 4 == x && (x * 4 + y) % 4 == y
  {
  }

  lemma Split16(x: int, y: int)
    requires 0 <= y < 16
    ensures (x * 16 + y) / 16 == x && (x * 16 + y) % 16 == y
  {
  }

  lemma Split64(x: int, y: int)
    requires 0 <= y < 64
    ensures (x * 64 + y) / 64 == x && (x * 64 + y) % 64 == y
  {
  }

  /** Regrouping three bytes into four sextets loses nothing. */
  lemma BytesToSextets(b0: Byte, b1: Byte, b2: Byte)
    ensures var v1, v2, v3 := (b0 % 4) * 16 + b1 / 16, (b1 % 16) * 4 + b2 / 64, b2 % 64;
      (b0 / 4) * 4 + v1 / 16 == b0 && (v1 % 16) * 16 + v2 / 4 == b1 && (v2 % 4) * 64 + v3 == b2
  {
    Split16(b0 % 4, b1 / 16);
    Split4(b1 % 16, b2 / 64);
  }

  /** Regrouping four sextets into three bytes loses nothing. */
  lemma SextetsToBytes(v0: Sextet, v1: Sextet, v2: Sextet, v3: Sextet)
    ensures var b0, b1, b2 := v0 * 4 + v1 / 16, (v1 % 16) * 16 + v2 / 4, (v2 % 4) * 64 + v3;
      b0 / 4 == v0 && (b0 % 4) * 16 + b1 / 16 == v1 && (b1 % 16) * 4 + b2 / 64 == v2 && b2 % 64 == v3
  {
    Split4(v0, v1 / 16);
    Split16(v1 % 16, v2 / 4);
    Split64(v2 % 4, v3);
  }

  lemma GroupRoundTrip(b0: Byte, b1: Byte, b2: Byte, last: bool)
    ensures DecodeQuantum(EncodeGroup(b0, b1, b2), last) == Some([b0, b1, b2])
  {
    var v0, v1, v2, v3 := b0 / 4, (b0 % 4) * 16 + b1 / 16, (b1 % 16) * 4 + b2 / 64, b2 % 64;
    var q := EncodeGroup(b0, b1, b2);
    assert q == [Digit(v0), Digit(v1), Digit(v2), Digit(v3)];
    DigitValue(v0);
    DigitValue(v1);
    DigitValue(v2);
    DigitValue(v3);
    BytesToSextets(b0, b1, b2);
  }

  lemma OneRoundTrip(b0: Byte)
    ensures DecodeQuantum(EncodeOne(b0), true) == Some([b0])
  {
    DigitValue(b0 / 4);
    DigitValue((b0 % 4) * 16);
    BytesToSextets(b0, 0, 0);
  }

  lemma TwoRoundTrip(b0: Byte, b1: Byte)
    ensures DecodeQuantum(EncodeTwo(b0, b1), true) == Some([b0, b1])
  {
    DigitValue(b0 / 4);
    DigitValue((b0 % 4) * 16 + b1 / 16);
    DigitValue((b1 % 16) * 4);
    BytesToSextets(b0, b1, 0);
  }

  lemma DecodeStep(s: string, head: seq<Byte>, tail: seq<Byte>)
    requires |s| >= 4
    requires DecodeQuantum(s[..4], |s| == 4) == Some(head)
    requires Decode(s[4..]) == Some(tail)
    ensures Decode(s) == Some(head + tail)
  {
  }

  /** The final group of one or two bytes round-trips. */
  lemma DecodeEncodeFinal(b: seq<Byte>)
    requires 1 <= |b| <= 2
    ensures Decode(Encode(b)) == Some(b)
  {
    if |b| == 1 {
      DecodeEncodeOne(b);
    } else {
      DecodeEncodeTwo(b);
    }
  }

  lemma DecodeEncodeOne(b: seq<Byte>)
    requires |b| == 1
    ensures Decode(Encode(b)) == Some(b)
  {
    var s := Encode(b);
    assert s == EncodeOne(b[0]) && s[..4] == s && s[4..] == [];
    OneRoundTrip(b[0]);
    DecodeStep(s, [b[0]], []);
    assert [b[0]] + [] == b;
  }

  lemma DecodeEncodeTwo(b: seq<Byte>)
    requires |b| == 2
    ensures Decode(Encode(b)) == Some(b)
  {
    var s := Encode(b);
    assert s == EncodeTwo(b[0], b[1]) && s[..4] == s && s[4..] == [];
    TwoRoundTrip(b[0], b[1]);
    DecodeStep(s, [b[0], b[1]], []);
    assert [b[0], b[1]] + [] == b;
  }

  /** Decoding an encoding gives back the bytes. */
  lemma {:induction false} DecodeEncode(b: seq<Byte>)
    ensures Decode(Encode(b)) == Some(b)
    decreases |b|
  {
    if |b| == 0 {
    } else if |b| <= 2 {
      DecodeEncodeFinal(b);
    } else {
      DecodeEncode(b[3..]);
      DecodeEncodeGroup(b);
    }
  }

  /** A leading full group round-trips whenever the rest does. */
  lemma DecodeEncodeGroup(b: seq<Byte>)
    requires |b| >= 3
    requires Decode(Encode(b[3..])) == Some(b[3..])
    ensures Decode(Encode(b)) == Some(b)
  {
    var s := Encode(b);
    assert s == EncodeGroup(b[0], b[1], b[2]) + Encode(b[3..]);
    assert s[..4] == EncodeGroup(b[0], b[1], b[2]);
    assert s[4..] == Encode(b[3..]);
    GroupRoundTrip(b[0], b[1], b[2], |s| == 4);
    SplitGroup(b);
    DecodeStep(s, [b[0], b[1], b[2]], b[3..]);
  }

  lemma SplitGroup(b: seq<Byte>)
    requires |b| >= 3
    ensures [b[0], b[1], b[2]] + b[3..] == b
  {
    assert b == b[..3] + b[3..];
  }

  /** A successful decode is undone by encoding: the encoding of each byte string is unique. */
  lemma {:induction false} EncodeDecode(s: string, b: seq<Byte>)
    requires Decode(s) == Some(b)
    ensures Encode(b) == s
    decreases |s|
  {
    if |s| == 0 {
    } else {
      var q := s[..4];
      var head := DecodeQuantum(q, |s| == 4).value;
      var tail := Decode(s[4..]).value;
      assert b == head + tail;
      EncodeDecode(s[4..], tail);
      QuantumInverse(q, |s| == 4);
      if |head| < 3 {
        assert |s| == 4;
        assert tail == [];
        assert b == head;
        assert s == q;
      } else {
        assert b[3..] == tail;
        assert s == q + s[4..];
      }
    }
  }

  lemma FullQuantumInverse(q: string)
    requires |q| == 4 && IsDigit(q[0]) && IsDigit(q[1]) && IsDigit(q[2]) && IsDigit(q[3])
    ensures var v0, v1, v2, v3 := ValueOf(q[0]), ValueOf(q[1]), ValueOf(q[2]), ValueOf(q[3]);
      EncodeGroup(v0 * 4 + v1 / 16, (v1 % 16) * 16 + v2 / 4, (v2 % 4) * 64 + v3) == q
  {
    SextetsToBytes(ValueOf(q[0]), ValueOf(q[1]), ValueOf(q[2]), ValueOf(q[3]));
  }

  lemma TwoQuantumInverse(q: string)
    requires |q| == 4 && IsDigit(q[0]) && IsDigit(q[1]) && IsDigit(q[2]) && q[3] == Pad
    requires ValueOf(q[2]) % 4 == 0
    ensures var v0, v1, v2 := ValueOf(q[0]), ValueOf(q[1]), ValueOf(q[2]);
      EncodeTwo(v0 * 4 + v1 / 16, (v1 % 16) * 16 + v2 / 4) == q
  {
    SextetsToBytes(ValueOf(q[0]), ValueOf(q[1]), ValueOf(q[2]), 0);
  }

  lemma OneQuantumInverse(q: string)
    requires |q| == 4 && IsDigit(q[0]) && IsDigit(q[1]) && q[2] == Pad && q[3] == Pad
    requires ValueOf(q[1]) % 16 == 0
    ensures var v0, v1 := ValueOf(q[0]), ValueOf(q[1]);
      EncodeOne(v0 * 4 + v1 / 16) == q
  {
    SextetsToBytes(ValueOf(q[0]), ValueOf(q[1]), 0, 0);
  }

  /** What one decoded quantum re-encodes to. */
  lemma QuantumInverse(q: string, last: bool)
    requires |q| == 4 && DecodeQuantum(q, last).Some?
    ensures var h := DecodeQuantum(q, last).value;
      1 <= |h| <= 3 && (|h| < 3 ==> last) &&
      (|h| == 3 ==> EncodeGroup(h[0], h[1], h[2]) == q) &&
      (|h| == 2 ==> EncodeTwo(h[0], h[1]) == q) &&
      (|h| == 1 ==> EncodeOne(h[0]) == q)
  {
    if IsDigit(q[0]) && IsDigit(q[1]) && IsDigit(q[2]) && IsDigit(q[3]) {
      FullQuantumInverse(q);
    } else if last && IsDigit(q[0]) && IsDigit(q[1]) && IsDigit(q[2]) && q[3] == Pad && ValueOf(q[2]) % 4 == 0 {
      TwoQuantumInverse(q);
    } else {
      OneQuantumInverse(q);
    }
  }

  /** The encoder and the strict decoder are inverse: s decodes to b exactly when s is b's encoding. */
  lemma DecodeIff(s: string, b: seq<Byte>)
    ensures Decode(s) == Some(b) <==> s == Encode(b)
  {
    if Decode(s) == Some(b) {
      EncodeDecode(s, b);
    }
    if s == Encode(b) {
      DecodeEncode(b);
    }
  }
}
