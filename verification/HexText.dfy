/** Bytes in hexadecimal: `OutputBytes`, its inverse `ParseAsHexString`, and the chunked payload printer. */
module HexText {
  import opened Base
  import opened Numbers

  /** The format `%02x`. */
  function HexByte(b: Byte): (s: string)
    ensures |s| == 2
  {
    [DigitChar(b / 16), DigitChar(b % 16)]
  }

  function HexOf(bytes: seq<Byte>): (s: string)
    ensures |s| == 2 * |bytes|
  {
    if bytes == [] then "" else HexByte(bytes[0]) + HexOf(bytes[1..])
  }

  lemma {:induction false} HexOfConcat(a: seq<Byte>, b: seq<Byte>)
    ensures HexOf(a + b) == HexOf(a) + HexOf(b)
  {
    if a == [] {
      assert a + b == b;
    } else {
      hide HexOf, HexByte;
      HexOfConcat(a[1..], b);
      HeadFirst(a, b);
      HexOfCons(a[0], a[1..]);
      HexOfCons(a[0], a[1..] + b);
      ThreeTexts(HexByte(a[0]), HexOf(a[1..]), HexOf(b));
    }
  }

  lemma HeadFirst(a: seq<Byte>, b: seq<Byte>)
    requires a != []
    ensures a == [a[0]] + a[1..] && a + b == [a[0]] + (a[1..] + b)
  {
  }

  lemma ThreeTexts(a: string, b: string, c: string)
    ensures a + (b + c) == a + b + c
  {
  }

  lemma HexOfCons(b: Byte, rest: seq<Byte>)
    ensures HexOf([b] + rest) == HexByte(b) + HexOf(rest)
  {
    hide HexByte;
    assert ([b] + rest)[1..] == rest;
  }

  method OutputBytes(bytes: array<Byte>, length: nat) returns (out: string)
    requires length <= bytes.Length
    ensures out == HexOf(bytes[..length])
  {
    out := "";
    for i := 0 to length
      invariant out == HexOf(bytes[..i])
    {
      out := out + HexByte(bytes[i]);
      assert bytes[..i + 1] == bytes[..i] + [bytes[i]];
      HexOfConcat(bytes[..i], [bytes[i]]);
    }
  }

  lemma {:induction false} HexChars(bytes: seq<Byte>, k: nat)
    requires k < |HexOf(bytes)|
    ensures Digit(HexOf(bytes)[k], Hex).Some?
  {
    if k >= 2 {
      HexChars(bytes[1..], k - 2);
    }
  }

  // ---------- Reading ----------

  /** The bytes that pairs of digits denote. */
  function Pairs(s: string): (r: Option<seq<Byte>>)
    requires |s| % 2 == 0
    ensures r.Some? ==> 2 * |r.value| == |s|
  {
    if s == "" then Some([])
    else
      var high, low, rest := Digit(s[0], Hex), Digit(s[1], Hex), Pairs(s[2..]);
      if high.None? || low.None? || rest.None? then None
      else Some([high.value * 16 + low.value] + rest.value)
  }

  /** With an odd number of digits the first one stands alone. */
  function HexDecode(s: string): (r: Option<seq<Byte>>)
    ensures r.Some? ==> |r.value| == (|s| + 1) / 2
  {
    if |s| % 2 == 0 then Pairs(s)
    else
      var first, rest := Digit(s[0], Hex), Pairs(s[1..]);
      if first.None? || rest.None? then None else Some([first.value] + rest.value)
  }

  /** What is left to decode when `pending` holds a high digit already read. */
  function Remaining(s: string, pending: Option<Byte>): (r: Option<seq<Byte>>)
    requires |s| % 2 == (if pending.Some? then 1 else 0) && (pending.Some? ==> pending.value < 16)
  {
    if pending.None? then Pairs(s)
    else
      var low, rest := Digit(s[0], Hex), Pairs(s[1..]);
      if low.None? || rest.None? then None else Some([pending.value * 16 + low.value] + rest.value)
  }

  /** Reads exactly `size` bytes into the buffer. */
  method ParseAsHexString(s: string, buffer: array<Byte>, size: nat) returns (error: Error)
    requires size <= buffer.Length
    modifies buffer
    ensures error == NoError <==> HexDecode(s).Some? && |HexDecode(s).value| == size
    ensures error == NoError ==> HexDecode(s) == Some(buffer[..size])
    ensures buffer[size..] == old(buffer[size..])
  {
    hide Pairs, HexDecode, Remaining, Digit;
    if (|s| + 1) / 2 > size {
      return InvalidArgs;
    }
    var pending: Option<Byte> := if |s| % 2 == 1 then Some(0) else None;
    var hex: nat, readBytes: nat := 0, 0;
    DecodeStart(s);
    assert buffer[..0] == [];
    while hex < |s|
      invariant hex <= |s| && |s[hex..]| % 2 == (if pending.Some? then 1 else 0)
      invariant pending.Some? ==> pending.value < 16
      invariant 2 * readBytes + (if pending.Some? then 1 else 0) == hex + |s| % 2 && readBytes <= size
      invariant HexDecode(s) == Prepend(buffer[..readBytes], Remaining(s[hex..], pending))
      invariant buffer[size..] == old(buffer[size..])
    {
      var digit := Digit(s[hex], Hex);
      DecodeStep(s, hex, pending);
      if digit.None? {
        return InvalidArgs;
      }
      if pending.Some? {
        ghost var done, tail := buffer[..readBytes], buffer[size..];
        var byte: Byte := pending.value * 16 + digit.value;
        buffer[readBytes] := byte;
        readBytes := readBytes + 1;
        pending := None;
        assert buffer[..readBytes] == done + [byte];
        PrependOne(done, byte, Pairs(s[hex + 1..]));
        NothingPending(s[hex + 1..]);
        assert buffer[size..] == tail;
      } else {
        pending := Some(digit.value);
      }
      hex := hex + 1;
    }
    assert s[hex..] == "";
    DecodeEnd(buffer[..readBytes]);
    error := if readBytes == size then NoError else InvalidArgs;
  }

  function Prepend(bytes: seq<Byte>, rest: Option<seq<Byte>>): Option<seq<Byte>> {
    if rest.None? then None else Some(bytes + rest.value)
  }

  lemma PrependOne(bytes: seq<Byte>, b: Byte, rest: Option<seq<Byte>>)
    ensures Prepend(bytes, Prepend([b], rest)) == Prepend(bytes + [b], rest)
  {
    if rest.Some? {
      assert bytes + ([b] + rest.value) == bytes + [b] + rest.value;
    }
  }

  lemma DecodeStart(s: string)
    ensures HexDecode(s) == Prepend([], Remaining(s[0..], if |s| % 2 == 1 then Some(0) else None))
  {
    assert s[0..] == s;
    if HexDecode(s).Some? {
      assert [] + HexDecode(s).value == HexDecode(s).value;
    }
  }

  lemma DecodeEnd(bytes: seq<Byte>)
    ensures Prepend(bytes, Remaining("", None)) == Some(bytes)
  {
    assert bytes + [] == bytes;
  }

  lemma NothingPending(s: string)
    requires |s| % 2 == 0
    ensures Remaining(s, None) == Pairs(s)
  {
  }

  lemma DecodeStep(s: string, hex: nat, pending: Option<Byte>)
    requires hex < |s| && |s[hex..]| % 2 == (if pending.Some? then 1 else 0) && (pending.Some? ==> pending.value < 16)
    ensures var digit := Digit(s[hex], Hex);
            Remaining(s[hex..], pending) ==
            if digit.None? then None
            else if pending.Some? then Prepend([pending.value * 16 + digit.value], Pairs(s[hex + 1..]))
            else Remaining(s[hex + 1..], Some(digit.value))
  {
    assert s[hex..][1..] == s[hex + 1..];
    if pending.None? {
      assert s[hex..][2..] == s[hex + 1..][1..];
    }
  }

  /** Printed bytes are read back, so hexadecimal text determines the bytes. */
  lemma {:induction false} HexReadsBack(bytes: seq<Byte>)
    ensures HexDecode(HexOf(bytes)) == Some(bytes)
  {
    if bytes != [] {
      HexReadsBack(bytes[1..]);
      var s := HexOf(bytes);
      assert s[2..] == HexOf(bytes[1..]);
      assert bytes == [bytes[0]] + bytes[1..];
    }
  }

  /** A digit in front of printed bytes is a byte of its own. */
  lemma OddDigitAlone(c: char, d: Byte, bytes: seq<Byte>)
    requires Digit(c, Hex) == Some(d)
    ensures HexDecode([c] + HexOf(bytes)) == Some([d] + bytes)
  {
    hide Digit, HexOf;
    HexReadsBack(bytes);
    assert ([c] + HexOf(bytes))[1..] == HexOf(bytes);
  }

  // ---------- The diagnostic payload ----------

  const CHUNK: nat := 16

  /** `otMessageRead`: copies part of a message into the start of a buffer. */
  method ReadMessage(message: seq<Byte>, offset: nat, buf: array<Byte>, count: nat)
    requires offset + count <= |message| && count <= buf.Length
    modifies buf
    ensures buf[..count] == message[offset..offset + count]
  {
    for k := 0 to count
      invariant buf[..k] == message[offset..offset + k]
    {
      ghost var before := buf[..k];
      buf[k] := message[offset + k];
      assert buf[..k + 1] == before + [message[offset + k]];
    }
  }

  /** Printing a payload through a 16-byte buffer prints all of it, in order. */
  method OutputPayload(message: seq<Byte>, offset: nat) returns (out: string)
    requires offset <= |message| <= 0xffff
    ensures out == HexOf(message[offset..])
  {
    hide HexOf;
    var buf := new Byte[CHUNK](_ => 0);
    var bytesPrinted: nat, length: nat := 0, |message| - offset;
    out := "";
    assert message[offset..offset] == [] && HexOf([]) == "";
    while length > 0
      invariant offset + bytesPrinted + length == |message|
      invariant out == HexOf(message[offset..offset + bytesPrinted])
      decreases length
    {
      var bytesToPrint := if length < CHUNK then length else CHUNK;
      ReadMessage(message, offset + bytesPrinted, buf, bytesToPrint);
      var chunk := OutputBytes(buf, bytesToPrint);
      out := out + chunk;
      ghost var done := message[offset..offset + bytesPrinted];
      ghost var next := message[offset + bytesPrinted..offset + bytesPrinted + bytesToPrint];
      HexOfConcat(done, next);
      length := length - bytesToPrint;
      bytesPrinted := bytesPrinted + bytesToPrint;
      assert message[offset..offset + bytesPrinted] == done + next;
    }
    assert message[offset..offset + bytesPrinted] == message[offset..];
  }
}
