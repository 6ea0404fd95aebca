/**
 * The base 64 encoding of section 4 of RFC 4648, and the 64-character line
 * wrapping that Foundation's `base64EncodedString(options:
 * .lineLength64Characters)` applies to it. The encoder is what the printed
 * body must equal; the decoder is its independent partner, and the two are
 * proved to be inverse to each other.
 */
module Base64 {
  import opened Wrappers
  import opened Strings

  type Byte = b: int | 0 <= b < 256

  /** A 6-bit group, the index of one character of the alphabet. */
  type Sextet = i: int | 0 <= i < 64

  /** The pad character of RFC 4648, section 4. */
  const PAD: char := '='

  /** The line length that `.lineLength64Characters` asks for. */
  const LINE_LENGTH: nat := 64

  /** Table 1 of RFC 4648 (section 4): the character that encodes a 6-bit group. */
  function CharOf(i: Sextet): char
  {
    if i < 26 then ('A' as int + i) as char
    else if i < 52 then ('a' as int + (i - 26)) as char
    else if i < 62 then ('0' as int + (i - 52)) as char
    else if i == 62 then '+'
    else '/'
  }

  /** The 64 characters of the alphabet (the pad character is not one of them). */
  predicate InAlphabet(c: char)
  {
    'A' <= c <= 'Z' || 'a' <= c <= 'z' || '0' <= c <= '9' || c == '+' || c == '/'
  }

  /** Table 1 read backwards. */
  function IndexOf(c: char): (i: Sextet)
    requires InAlphabet(c)
    ensures CharOf(i) == c
  {
    if 'A' <= c <= 'Z' then c as int - 'A' as int
    else if 'a' <= c <= 'z' then c as int - 'a' as int + 26
    else if '0' <= c <= '9' then c as int - '0' as int + 52
    else if c == '+' then 62
    else 63
  }

  /** Every group is encoded by a character of the alphabet, and by no other group's. */
  lemma CharOfIndexOf(i: Sextet)
    ensures InAlphabet(CharOf(i)) && IndexOf(CharOf(i)) == i
  {
  }

  /** Three bytes as four 6-bit groups, most significant bits first. */
  function ToSextets(b0: Byte, b1: Byte, b2: Byte): seq<Sextet>
  {
    [b0 / 4, (b0 % 4) * 16 + b1 / 16, (b1 % 16) * 4 + b2 / 64, b2 % 64]
  }

  /** Four 6-bit groups as three bytes. */
  function ToBytes(i0: Sextet, i1: Sextet, i2: Sextet, i3: Sextet): seq<Byte>
  {
    [i0 * 4 + i1 / 16, (i1 % 16) * 16 + i2 / 4, (i2 % 4) * 64 + i3]
  }

  /** Regrouping three bytes into 6-bit groups and back gives the bytes. */
  lemma ToBytesToSextets(b0: Byte, b1: Byte, b2: Byte)
    ensures var g := ToSextets(b0, b1, b2); ToBytes(g[0], g[1], g[2], g[3]) == [b0, b1, b2]
  {
    Split(b0 % 4, b1 / 16, 16);
    Split(b1 % 16, b2 / 64, 4);
    SplitOf(b0, 4);
    SplitOf(b1, 16);
    SplitOf(b2, 64);
  }

  /** Regrouping four 6-bit groups into bytes and back gives the groups. */
  lemma ToSextetsToBytes(i0: Sextet, i1: Sextet, i2: Sextet, i3: Sextet)
    ensures var b := ToBytes(i0, i1, i2, i3); ToSextets(b[0], b[1], b[2]) == [i0, i1, i2, i3]
  {
    Split(i0, i1 / 16, 4);
    Split(i1 % 16, i2 / 4, 16);
    Split(i2 % 4, i3, 64);
    SplitOf(i1, 16);
    SplitOf(i2, 4);
  }

  /**
   * One quantum of output for the last `n` bytes of a group (1 <= n <= 3):
   * the bytes, padded with zero bits, give n + 1 characters, and pad
   * characters complete the quantum to four.
   */
  function Quantum(b0: Byte, b1: Byte, b2: Byte, n: nat): string
    requires 1 <= n <= 3
  {
    var g := ToSextets(b0, b1, b2);
    [CharOf(g[0]), CharOf(g[1]), if n >= 2 then CharOf(g[2]) else PAD, if n == 3 then CharOf(g[3]) else PAD]
  }

  /**
   * Base 64 encoding: each group of three bytes becomes four characters;
   * a final group of one or two bytes is padded with zero bits and the
   * quantum is completed with two or one pad characters.
   */
  function Encode(data: seq<Byte>): (s: string)
    ensures |s| == 4 * ((|data| + 2) / 3)
    decreases |data|
  {
    if |data| == 0 then ""
    else if |data| == 1 then Quantum(data[0], 0, 0, 1)
    else if |data| == 2 then Quantum(data[0], data[1], 0, 2)
    else Quantum(data[0], data[1], data[2], 3) + Encode(data[3..])
  }

  /**
   * One quantum of input: four alphabet characters give three bytes; three
   * and a pad give two, two and two pads give one. The bits that padding
   * leaves over must be zero, so that every byte sequence has exactly one
   * encoding.
   */
  function DecodeQuantum(c0: char, c1: char, c2: char, c3: char): Option<seq<Byte>>
  {
    if !InAlphabet(c0) || !InAlphabet(c1) then None
    else
      var i0, i1 := IndexOf(c0), IndexOf(c1);
      if c2 == PAD && c3 == PAD then
        if i1 % 16 == 0 then Some(ToBytes(i0, i1, 0, 0)[..1]) else None
      else if InAlphabet(c2) && c3 == PAD then
        var i2 := IndexOf(c2);
        if i2 % 4 == 0 then Some(ToBytes(i0, i1, i2, 0)[..2]) else None
      else if InAlphabet(c2) && InAlphabet(c3) then Some(ToBytes(i0, i1, IndexOf(c2), IndexOf(c3)))
      else None
  }

  /**
   * Strict decoding: `None` for anything that is not the encoding of some
   * bytes (a length that is not a multiple of 4, a character outside the
   * alphabet, padding before the last quantum, non-zero pad bits).
   */
  function Decode(s: string): Option<seq<Byte>>
    decreases |s|
  {
    if |s| == 0 then Some([])
    else if |s| < 4 then None
    else
      match DecodeQuantum(s[0], s[1], s[2], s[3])
      case None => None
      case Some(q) =>
        if |s| == 4 then Some(q)
        else if |q| < 3 then None
        else
          match Decode(s[4..])
          case None => None
          case Some(rest) => Some(q + rest)
  }

  /** A final single byte is encoded by two characters and two pads; the pad bits are zero. */
  lemma QuantumOneChars(b0: Byte)
    ensures var g := ToSextets(b0, 0, 0);
      Quantum(b0, 0, 0, 1) == [CharOf(g[0]), CharOf(g[1]), PAD, PAD] && g[1] % 16 == 0
  {
  }

  /** Two final bytes are encoded by three characters and a pad; the pad bits are zero. */
  lemma QuantumTwoChars(b0: Byte, b1: Byte)
    ensures var g := ToSextets(b0, b1, 0);
      Quantum(b0, b1, 0, 2) == [CharOf(g[0]), CharOf(g[1]), CharOf(g[2]), PAD] && g[2] % 4 == 0
  {
  }

  /** Two characters and two pads decode to the first byte of their groups. */
  lemma DecodeTwoPads(i0: Sextet, i1: Sextet)
    requires i1 % 16 == 0
    ensures DecodeQuantum(CharOf(i0), CharOf(i1), PAD, PAD) == Some(ToBytes(i0, i1, 0, 0)[..1])
  {
    CharOfIndexOf(i0); CharOfIndexOf(i1);
  }

  /** Three characters and a pad decode to the first two bytes of their groups. */
  lemma DecodeOnePad(i0: Sextet, i1: Sextet, i2: Sextet)
    requires i2 % 4 == 0
    ensures DecodeQuantum(CharOf(i0), CharOf(i1), CharOf(i2), PAD) == Some(ToBytes(i0, i1, i2, 0)[..2])
  {
    CharOfIndexOf(i0); CharOfIndexOf(i1); CharOfIndexOf(i2);
  }

  /** Decoding the quantum of a final single byte gives the byte. */
  lemma DecodeQuantumOne(b0: Byte)
    ensures var q := Quantum(b0, 0, 0, 1); DecodeQuantum(q[0], q[1], q[2], q[3]) == Some([b0])
  {
    QuantumOneChars(b0);
    var g := ToSextets(b0, 0, 0);
    DecodeTwoPads(g[0], g[1]);
    ToBytesToSextets(b0, 0, 0);
    assert ToBytes(g[0], g[1], 0, 0)[..1] == [b0];
  }

  /** Decoding the quantum of two final bytes gives the bytes. */
  lemma DecodeQuantumTwo(b0: Byte, b1: Byte)
    ensures var q := Quantum(b0, b1, 0, 2); DecodeQuantum(q[0], q[1], q[2], q[3]) == Some([b0, b1])
  {
    QuantumTwoChars(b0, b1);
    var g := ToSextets(b0, b1, 0);
    DecodeOnePad(g[0], g[1], g[2]);
    ToBytesToSextets(b0, b1, 0);
    assert ToBytes(g[0], g[1], g[2], 0)[..2] == [b0, b1];
  }

  /** Decoding the quantum of a full group gives its three bytes. */
  lemma DecodeQuantumThree(b0: Byte, b1: Byte, b2: Byte)
    ensures var q := Quantum(b0, b1, b2, 3); DecodeQuantum(q[0], q[1], q[2], q[3]) == Some([b0, b1, b2])
  {
    var g := ToSextets(b0, b1, b2);
    var q := Quantum(b0, b1, b2, 3);
    assert q == [CharOf(g[0]), CharOf(g[1]), CharOf(g[2]), CharOf(g[3])];
    CharOfIndexOf(g[0]); CharOfIndexOf(g[1]); CharOfIndexOf(g[2]); CharOfIndexOf(g[3]);
    assert DecodeQuantum(q[0], q[1], q[2], q[3]) == Some(ToBytes(g[0], g[1], g[2], g[3]));
    ToBytesToSextets(b0, b1, b2);
  }

  /** What two characters and two pads decode to, when they decode. */
  lemma DecodedTwoPads(c0: char, c1: char)
    requires DecodeQuantum(c0, c1, PAD, PAD).Some?
    ensures InAlphabet(c0) && InAlphabet(c1) && IndexOf(c1) % 16 == 0
    ensures DecodeQuantum(c0, c1, PAD, PAD).value == [ToBytes(IndexOf(c0), IndexOf(c1), 0, 0)[0]]
  {
  }

  /** What three characters and a pad decode to, when they decode. */
  lemma DecodedOnePad(c0: char, c1: char, c2: char)
    requires c2 != PAD && DecodeQuantum(c0, c1, c2, PAD).Some?
    ensures InAlphabet(c0) && InAlphabet(c1) && InAlphabet(c2) && IndexOf(c2) % 4 == 0
    ensures var b := ToBytes(IndexOf(c0), IndexOf(c1), IndexOf(c2), 0);
      DecodeQuantum(c0, c1, c2, PAD).value == [b[0], b[1]]
  {
  }

  /** What four characters other than pads decode to, when they decode. */
  lemma DecodedFull(c0: char, c1: char, c2: char, c3: char)
    requires c3 != PAD && DecodeQuantum(c0, c1, c2, c3).Some?
    ensures InAlphabet(c0) && InAlphabet(c1) && InAlphabet(c2) && InAlphabet(c3)
    ensures DecodeQuantum(c0, c1, c2, c3).value == ToBytes(IndexOf(c0), IndexOf(c1), IndexOf(c2), IndexOf(c3))
  {
  }

  /** Zero pad bits: the byte of two groups is encoded by the same two groups. */
  lemma RegroupOne(i0: Sextet, i1: Sextet)
    requires i1 % 16 == 0
    ensures Quantum(ToBytes(i0, i1, 0, 0)[0], 0, 0, 1) == [CharOf(i0), CharOf(i1), PAD, PAD]
  {
    ToSextetsToBytes(i0, i1, 0, 0);
  }

  /** Zero pad bits: the two bytes of three groups are encoded by the same three groups. */
  lemma RegroupTwo(i0: Sextet, i1: Sextet, i2: Sextet)
    requires i2 % 4 == 0
    ensures var b := ToBytes(i0, i1, i2, 0); Quantum(b[0], b[1], 0, 2) == [CharOf(i0), CharOf(i1), CharOf(i2), PAD]
  {
    ToSextetsToBytes(i0, i1, i2, 0);
  }

  /** The three bytes of four groups are encoded by the same four groups. */
  lemma RegroupThree(i0: Sextet, i1: Sextet, i2: Sextet, i3: Sextet)
    ensures var b := ToBytes(i0, i1, i2, i3); Quantum(b[0], b[1], b[2], 3) == [CharOf(i0), CharOf(i1), CharOf(i2), CharOf(i3)]
  {
    ToSextetsToBytes(i0, i1, i2, i3);
  }

  /** The encoding of one full group is its quantum. */
  lemma EncodeGroup(b: seq<Byte>)
    requires |b| == 3
    ensures Encode(b) == Quantum(b[0], b[1], b[2], 3)
  {
    assert b[3..] == [];
  }

  /** Encoding what two characters and two pads decode to gives them back. */
  lemma EncodeDecodeTwoPads(c0: char, c1: char)
    requires DecodeQuantum(c0, c1, PAD, PAD).Some?
    ensures Encode(DecodeQuantum(c0, c1, PAD, PAD).value) == [c0, c1, PAD, PAD]
  {
    DecodedTwoPads(c0, c1);
    RegroupOne(IndexOf(c0), IndexOf(c1));
  }

  /** Encoding what three characters and a pad decode to gives them back. */
  lemma EncodeDecodeOnePad(c0: char, c1: char, c2: char)
    requires c2 != PAD && DecodeQuantum(c0, c1, c2, PAD).Some?
    ensures Encode(DecodeQuantum(c0, c1, c2, PAD).value) == [c0, c1, c2, PAD]
  {
    DecodedOnePad(c0, c1, c2);
    RegroupTwo(IndexOf(c0), IndexOf(c1), IndexOf(c2));
  }

  /** Encoding what four characters other than pads decode to gives them back. */
  lemma EncodeDecodeFull(c0: char, c1: char, c2: char, c3: char)
    requires c3 != PAD && DecodeQuantum(c0, c1, c2, c3).Some?
    ensures Encode(DecodeQuantum(c0, c1, c2, c3).value) == [c0, c1, c2, c3]
  {
    DecodedFull(c0, c1, c2, c3);
    var b := ToBytes(IndexOf(c0), IndexOf(c1), IndexOf(c2), IndexOf(c3));
    EncodeGroup(b);
    RegroupThree(IndexOf(c0), IndexOf(c1), IndexOf(c2), IndexOf(c3));
  }

  /** Encoding what one quantum decodes to gives the quantum back. */
  lemma EncodeDecodeQuantum(c0: char, c1: char, c2: char, c3: char)
    requires DecodeQuantum(c0, c1, c2, c3).Some?
    ensures Encode(DecodeQuantum(c0, c1, c2, c3).value) == [c0, c1, c2, c3]
  {
    if c2 == PAD && c3 == PAD {
      EncodeDecodeTwoPads(c0, c1);
    } else if c3 == PAD {
      EncodeDecodeOnePad(c0, c1, c2);
    } else {
      EncodeDecodeFull(c0, c1, c2, c3);
    }
  }

  /** Encoding works group by group. */
  lemma EncodeAfterGroup(g: seq<Byte>, rest: seq<Byte>)
    requires |g| == 3
    ensures Encode(g + rest) == Quantum(g[0], g[1], g[2], 3) + Encode(rest)
  {
    assert (g + rest)[3..] == rest;
  }

  /** Decoding works quantum by quantum: a full quantum followed by decodable input. */
  lemma DecodeAfterQuantum(q: string, t: string, g: seq<Byte>, rest: seq<Byte>)
    requires |q| == 4 && DecodeQuantum(q[0], q[1], q[2], q[3]) == Some(g) && |g| == 3
    requires Decode(t) == Some(rest)
    ensures Decode(q + t) == Some(g + rest)
  {
    var s := q + t;
    assert s[0] == q[0] && s[1] == q[1] && s[2] == q[2] && s[3] == q[3];
    if |t| == 0 {
      assert s == q;
      assert g + rest == g;
    } else {
      assert s[4..] == t;
    }
  }

  /** Input longer than one quantum decodes only as a full quantum followed by decodable input. */
  lemma DecodeStep(s: string)
    requires |s| > 4 && Decode(s).Some?
    ensures DecodeQuantum(s[0], s[1], s[2], s[3]).Some? && |DecodeQuantum(s[0], s[1], s[2], s[3]).value| == 3
    ensures Decode(s[4..]).Some?
    ensures Decode(s).value == DecodeQuantum(s[0], s[1], s[2], s[3]).value + Decode(s[4..]).value
  {
  }

  /** A string of at least four characters is its first quantum followed by the rest. */
  lemma FirstQuantum(s: string)
    requires |s| >= 4
    ensures s[..4] == [s[0], s[1], s[2], s[3]] && s == s[..4] + s[4..]
    ensures |s| == 4 ==> s == [s[0], s[1], s[2], s[3]]
  {
  }

  /** Input of exactly one quantum decodes as that quantum. */
  lemma DecodeSingle(s: string)
    requires |s| == 4
    ensures Decode(s) == DecodeQuantum(s[0], s[1], s[2], s[3])
  {
  }

  /** The round trip of a single final byte. */
  lemma DecodeEncodeOne(b0: Byte)
    ensures Decode(Encode([b0])) == Some([b0])
  {
    assert Encode([b0]) == Quantum(b0, 0, 0, 1);
    DecodeSingle(Quantum(b0, 0, 0, 1));
    DecodeQuantumOne(b0);
  }

  /** The round trip of two final bytes. */
  lemma DecodeEncodeTwo(b0: Byte, b1: Byte)
    ensures Decode(Encode([b0, b1])) == Some([b0, b1])
  {
    assert Encode([b0, b1]) == Quantum(b0, b1, 0, 2);
    DecodeSingle(Quantum(b0, b1, 0, 2));
    DecodeQuantumTwo(b0, b1);
  }

  /** The round trip of a full group extends to what follows it. */
  lemma DecodeEncodeGroup(b0: Byte, b1: Byte, b2: Byte, rest: seq<Byte>)
    requires Decode(Encode(rest)) == Some(rest)
    ensures Decode(Encode([b0, b1, b2] + rest)) == Some([b0, b1, b2] + rest)
  {
    EncodeAfterGroup([b0, b1, b2], rest);
    DecodeQuantumThree(b0, b1, b2);
    DecodeAfterQuantum(Quantum(b0, b1, b2, 3), Encode(rest), [b0, b1, b2], rest);
  }

  /** A sequence of at least three bytes is its first group followed by the rest. */
  lemma FirstGroup(data: seq<Byte>)
    requires |data| >= 3
    ensures data == [data[0], data[1], data[2]] + data[3..]
  {
  }

  /** A sequence of one or two bytes is the display of its elements. */
  lemma ShortDisplay(data: seq<Byte>)
    requires 1 <= |data| <= 2
    ensures |data| == 1 ==> data == [data[0]]
    ensures |data| == 2 ==> data == [data[0], data[1]]
  {
  }

  /** The round trip of a final group of one or two bytes. */
  lemma DecodeEncodeShort(data: seq<Byte>)
    requires 1 <= |data| <= 2
    ensures Decode(Encode(data)) == Some(data)
  {
    ShortDisplay(data);
    if |data| == 1 {
      DecodeEncodeOne(data[0]);
    } else {
      DecodeEncodeTwo(data[0], data[1]);
    }
  }

  /** The round trip of the bytes after a full group extends to the group. */
  lemma DecodeEncodeLong(data: seq<Byte>)
    requires |data| >= 3 && Decode(Encode(data[3..])) == Some(data[3..])
    ensures Decode(Encode(data)) == Some(data)
  {
    FirstGroup(data);
    DecodeEncodeGroup(data[0], data[1], data[2], data[3..]);
  }

  /** Round trip: the decoder recovers every byte sequence from its encoding. */
  lemma {:induction false} DecodeEncode(data: seq<Byte>)
    ensures Decode(Encode(data)) == Some(data)
    decreases |data|
  {
    if |data| == 0 {
    } else if |data| <= 2 {
      DecodeEncodeShort(data);
    } else {
      DecodeEncode(data[3..]);
      DecodeEncodeLong(data);
    }
  }

  /** A single quantum that decodes is the encoding of what it decodes to. */
  lemma EncodeDecodeLast(s: string)
    requires |s| == 4 && Decode(s).Some?
    ensures Encode(Decode(s).value) == s
  {
    DecodeSingle(s);
    EncodeDecodeQuantum(s[0], s[1], s[2], s[3]);
    FirstQuantum(s);
  }

  /** Re-encoding a full quantum extends to what follows it. */
  lemma EncodeDecodeGroup(s: string, q: seq<Byte>, rest: seq<Byte>)
    requires |s| > 4 && |q| == 3 && Encode(q) == s[..4] && Encode(rest) == s[4..]
    ensures Encode(q + rest) == s
  {
    EncodeAfterGroup(q, rest);
    EncodeGroup(q);
    FirstQuantum(s);
  }

  /** Strictness: whatever the decoder accepts is the one encoding of its result. */
  lemma {:induction false} EncodeDecode(s: string, data: seq<Byte>)
    requires Decode(s) == Some(data)
    ensures Encode(data) == s
    decreases |s|
  {
    if |s| == 4 {
      EncodeDecodeLast(s);
    } else if |s| > 4 {
      DecodeStep(s);
      var q, rest := DecodeQuantum(s[0], s[1], s[2], s[3]).value, Decode(s[4..]).value;
      EncodeDecodeQuantum(s[0], s[1], s[2], s[3]);
      FirstQuantum(s);
      EncodeDecode(s[4..], rest);
      EncodeDecodeGroup(s, q, rest);
    }
  }

  /** Writing `q * d + r` with `0 <= r < d` is division with remainder. */
  lemma Split(q: int, r: int, d: int)
    requires d in {4, 16, 64} && 0 <= r < d
    ensures (q * d + r) / d == q && (q * d + r) % d == r
  {
    if d == 4 {
      assert (q * 4 + r) / 4 == q;
    } else if d == 16 {
      assert (q * 16 + r) / 16 == q;
    } else {
      assert (q * 64 + r) / 64 == q;
    }
  }

  /** Division with remainder puts a number back together. */
  lemma SplitOf(n: int, d: int)
    requires d in {4, 16, 64}
    ensures (n / d) * d + n % d == n
  {
  }

  /**
   * Lines of `width` characters: every line is non-empty and at most `width`
   * long, every line but the last is exactly `width` long, and together they
   * are `s`.
   */
  function Wrap(s: string, width: nat): (lines: seq<string>)
    requires width > 0
    ensures Concat(lines) == s
    ensures forall i :: 0 <= i < |lines| ==> 0 < |lines[i]| <= width
    ensures forall i :: 0 <= i < |lines| - 1 ==> |lines[i]| == width
    decreases |s|
  {
    if |s| == 0 then []
    else if |s| <= width then
      assert Concat([s][1..]) == "";
      [s]
    else
      var rest := Wrap(s[width..], width);
      assert ([s[..width]] + rest)[1..] == rest;
      assert s == s[..width] + s[width..];
      [s[..width]] + rest
  }

  /** The number of 64-character lines is the length divided by 64, rounded up. */
  lemma {:induction false} WrapCount(s: string)
    ensures |Wrap(s, LINE_LENGTH)| == (|s| + 63) / 64
    decreases |s|
  {
    if |s| > 64 {
      WrapCount(s[64..]);
    }
  }

  /**
   * What `base64EncodedString(options: .lineLength64Characters)` returns:
   * the encoding in lines of 64 characters, with Foundation's line
   * separator between them.
   */
  function EncodedText(data: seq<Byte>, lineSeparator: string): string
  {
    Join(Wrap(Encode(data), LINE_LENGTH), lineSeparator)
  }

  /** No bytes are printed as an empty body line, whatever the separator. */
  lemma EmptyEncodedText(lineSeparator: string)
    ensures EncodedText([], lineSeparator) == ""
  {
    assert Encode([]) == "";
    assert Wrap("", LINE_LENGTH) == [];
  }

  /** An encoding of at most 64 characters (a body of at most 48 bytes) is printed on one line. */
  lemma ShortEncodingIsOneLine(data: seq<Byte>, lineSeparator: string)
    requires |data| <= 48
    ensures EncodedText(data, lineSeparator) == Encode(data)
  {
    var s := Encode(data);
    var groups := (|data| + 2) / 3;
    assert groups * 3 <= |data| + 2;
    assert groups <= 16;
    if |s| > 0 {
      assert Wrap(s, LINE_LENGTH) == [s];
    }
  }

  /** The test vectors of section 10 of RFC 4648 for up to three bytes. */
  lemma TestVectorsUpToThree()
    ensures Encode([]) == ""
    ensures Encode([0x66]) == "Zg=="
    ensures Encode([0x66, 0x6F]) == "Zm8="
    ensures Encode([0x66, 0x6F, 0x6F]) == "Zm9v"
  {
  }

  /** Four to six bytes are a group of three followed by the others. */
  lemma GroupDisplays(a: Byte, b: Byte, c: Byte, d: Byte, e: Byte, f: Byte)
    ensures [a, b, c, d] == [a, b, c] + [d]
    ensures [a, b, c, d, e] == [a, b, c] + [d, e]
    ensures [a, b, c, d, e, f] == [a, b, c] + [d, e, f]
  {
  }

  /** The test vector of section 10 of RFC 4648 for "foob". */
  lemma TestVectorFoob()
    ensures Encode([0x66, 0x6F, 0x6F, 0x62]) == "Zm9vYg=="
  {
    GroupDisplays(0x66, 0x6F, 0x6F, 0x62, 0, 0);
    EncodeAfterGroup([0x66, 0x6F, 0x6F], [0x62]);
    assert Encode([0x66, 0x6F, 0x6F]) == "Zm9v";
    assert Encode([0x62]) == "Yg==";
  }

  /** The test vector of section 10 of RFC 4648 for "fooba". */
  lemma TestVectorFooba()
    ensures Encode([0x66, 0x6F, 0x6F, 0x62, 0x61]) == "Zm9vYmE="
  {
    GroupDisplays(0x66, 0x6F, 0x6F, 0x62, 0x61, 0);
    EncodeAfterGroup([0x66, 0x6F, 0x6F], [0x62, 0x61]);
    assert Encode([0x66, 0x6F, 0x6F]) == "Zm9v";
    assert Encode([0x62, 0x61]) == "YmE=";
  }

  /** The test vector of section 10 of RFC 4648 for "foobar". */
  lemma TestVectorFoobar()
    ensures Encode([0x66, 0x6F, 0x6F, 0x62, 0x61, 0x72]) == "Zm9vYmFy"
  {
    GroupDisplays(0x66, 0x6F, 0x6F, 0x62, 0x61, 0x72);
    EncodeAfterGroup([0x66, 0x6F, 0x6F], [0x62, 0x61, 0x72]);
    assert Encode([0x66, 0x6F, 0x6F]) == "Zm9v";
    assert Encode([0x62, 0x61, 0x72]) == "YmFy";
  }

  /** Four binary bytes, printed as one line. */
  lemma DeadBeef(lineSeparator: string)
    ensures EncodedText([0xDE, 0xAD, 0xBE, 0xEF], lineSeparator) == "3q2+7w=="
  {
    GroupDisplays(0xDE, 0xAD, 0xBE, 0xEF, 0, 0);
    EncodeAfterGroup([0xDE, 0xAD, 0xBE], [0xEF]);
    assert Encode([0xDE, 0xAD, 0xBE]) == "3q2+";
    assert Encode([0xEF]) == "7w==";
    ShortEncodingIsOneLine([0xDE, 0xAD, 0xBE, 0xEF], lineSeparator);
  }
}
