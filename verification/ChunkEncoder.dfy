/** The chunks this server writes, and that they are chunks of the protocol. */
module ChunkEncoder {
  import opened Bytes
  import A = ChunkedAutomaton
  import G = ChunkedGrammar

  const MAX_CHUNK_LEN: nat := 0xfff  // three hex digits

  /** hex_digit: '0'..'9', 'a'..'f'. */
  function HexDigit(value: nat): (d: byte)
    requires value < 16
    ensures |A.HEX_LOWER| == 16 && d == A.HEX_LOWER[value]
  {
    if value <= 9 then 48 + value else 97 + (value - 10)
  }

  /** The hex digits of a chunk size, as many as it takes. */
  function SizeDigits(len: nat): seq<byte>
    requires 0 < len <= MAX_CHUNK_LEN
  {
    if len <= 0xf then [HexDigit(len)]
    else if len <= 0xff then [HexDigit(len / 16), HexDigit(len % 16)]
    else [HexDigit(len / 256), HexDigit(len / 16 % 16), HexDigit(len % 16)]
  }

  function SizeLine(len: nat): seq<byte>
    requires 0 < len <= MAX_CHUNK_LEN
  {
    SizeDigits(len) + [CR, LF]
  }

  function EncodeChunk(payload: seq<byte>): seq<byte>
    requires 0 < |payload| <= MAX_CHUNK_LEN
  {
    SizeLine(|payload|) + payload + [CR, LF]
  }

  ghost predicate Sendable(payloads: seq<seq<byte>>) {
    forall i :: 0 <= i < |payloads| ==> 0 < |payloads[i]| <= MAX_CHUNK_LEN
  }

  function EncodeAll(payloads: seq<seq<byte>>): seq<byte>
    requires Sendable(payloads)
  {
    if payloads == [] then [] else EncodeChunk(payloads[0]) + EncodeAll(payloads[1..])
  }

  lemma {:induction false} EncodeAllSnoc(payloads: seq<seq<byte>>, last: seq<byte>)
    requires Sendable(payloads) && 0 < |last| <= MAX_CHUNK_LEN
    ensures Sendable(payloads + [last])
    ensures EncodeAll(payloads + [last]) == EncodeAll(payloads) + EncodeChunk(last)
    decreases |payloads|
  {
    hide EncodeChunk;
    if payloads != [] {
      EncodeAllSnoc(payloads[1..], last);
      assert (payloads + [last])[1..] == payloads[1..] + [last];
    } else {
      assert [last][1..] == [];
    }
  }

  /** The size digits write the payload's length in hex, without leading zeros. */
  lemma SizeDigitsWriteLength(len: nat)
    requires 0 < len <= 0xfff
    ensures var digits := SizeDigits(len);
            && A.AllHex(digits) && A.HexValue(digits) == len
            && digits[0] != 48  // '0'
            && |digits| == if len < 16 then 1 else if len < 256 then 2 else 3
  {
    hide A.HexValue, A.AllHex, HexDigit;
    Base16(len);
    if len < 16 {
      OneDigit(len);
    } else if len < 256 {
      TwoDigits(len / 16, len % 16);
    } else {
      TwoDigits(len / 256, len / 16 % 16);
      DigitHasValue(len % 16);
      HexSnoc([HexDigit(len / 256), HexDigit(len / 16 % 16)], HexDigit(len % 16));
      assert [HexDigit(len / 256), HexDigit(len / 16 % 16)] + [HexDigit(len % 16)] == SizeDigits(len);
    }
  }

  lemma OneDigit(a: nat)
    requires a < 16
    ensures A.AllHex([HexDigit(a)]) && A.HexValue([HexDigit(a)]) == a && (a > 0 ==> HexDigit(a) != 48)
  {
    hide A.HexValue, HexDigit, A.HexOf, A.IsHex, A.AllHex;
    DigitHasValue(a);
    HexSnoc([], HexDigit(a));
  }

  lemma TwoDigits(a: nat, b: nat)
    requires 0 < a < 16 && b < 16
    ensures var s := [HexDigit(a), HexDigit(b)];
            A.AllHex(s) && A.HexValue(s) == 16 * a + b && s[0] != 48
  {
    hide A.HexValue, HexDigit, A.HexOf, A.IsHex, A.AllHex;
    OneDigit(a);
    DigitHasValue(b);
    HexSnoc([HexDigit(a)], HexDigit(b));
    assert [HexDigit(a)] + [HexDigit(b)] == [HexDigit(a), HexDigit(b)];
  }

  lemma DigitHasValue(value: nat)
    requires value < 16
    ensures var d := HexDigit(value); A.IsHex(d) && A.HexOf(d) == value && (value > 0 ==> d != 48)
  {
    A.DecodesHex(HexDigit(value));
  }

  lemma Base16(len: nat)
    ensures len == 16 * (len / 16) + len % 16 && len / 16 == 16 * (len / 256) + len / 16 % 16
  {
  }

  lemma HexSnoc(front: seq<byte>, last: byte)
    requires A.IsHex(last)
    ensures A.AllHex(front) ==> A.AllHex(front + [last])
    ensures A.AllHex([])
    ensures A.HexValue(front + [last]) == 16 * A.HexValue(front) + A.HexOf(last)
    ensures A.HexValue([]) == 0 && [] + [last] == [last]
  {
    hide A.IsHex, A.HexOf;
    assert (front + [last])[..|front|] == front;
  }

  function RfcChunkOf(payload: seq<byte>): G.RfcChunk
    requires 0 < |payload| <= MAX_CHUNK_LEN
  {
    G.RfcChunk(SizeDigits(|payload|), [], payload)
  }

  /** What the server writes for one payload is one chunk of section 4.1 of RFC 7230 carrying that payload. */
  lemma EncodedChunkIsRfcChunk(payload: seq<byte>)
    requires 0 < |payload| <= MAX_CHUNK_LEN
    ensures G.ValidRfcChunk(RfcChunkOf(payload))
    ensures EncodeChunk(payload) == G.PrintRfcChunks([RfcChunkOf(payload)])
  {
    hide A.HexValue, A.AllHex;
    SizeDigitsWriteLength(|payload|);
    var c := RfcChunkOf(payload);
    assert [c][1..] == [];
    assert CRLF == [CR, LF];
  }

  lemma DecodesEncodedChunk(consumeTrailer: bool, payload: seq<byte>)
    requires 0 < |payload| <= MAX_CHUNK_LEN
    ensures A.Run(A.Initial(consumeTrailer), EncodeChunk(payload)) ==
            A.Outcome(A.Incomplete, A.Initial(consumeTrailer), |EncodeChunk(payload)|, payload)
  {
    var c := RfcChunkOf(payload);
    EncodedChunkIsRfcChunk(payload);
    G.LenientChunksAgree([c]);
    assert [c][1..] == [];
    G.RunChunks(consumeTrailer, G.LenientChunks([c]));
    assert payload + [] == payload;
  }

  /** The decoder undoes the encoder and is back at a chunk boundary. */
  lemma {:induction false} DecodesEncoded(consumeTrailer: bool, payloads: seq<seq<byte>>)
    requires Sendable(payloads)
    ensures A.Run(A.Initial(consumeTrailer), EncodeAll(payloads)) ==
            A.Outcome(A.Incomplete, A.Initial(consumeTrailer), |EncodeAll(payloads)|, Flatten(payloads))
    decreases |payloads|
  {
    if payloads != [] {
      hide A.Run;
      DecodesEncodedChunk(consumeTrailer, payloads[0]);
      DecodesEncoded(consumeTrailer, payloads[1..]);
      A.RunConcat(A.Initial(consumeTrailer), EncodeChunk(payloads[0]), EncodeAll(payloads[1..]));
    }
  }
}
