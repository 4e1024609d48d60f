/*
 * The message codec of the LoveKnot client (utils/messageEncoding.ts).
 *
 * A message is handled as its UTF-8 byte sequence: the browser's TextEncoder
 * produces it and TextDecoder turns it back into text, and this model
 * identifies a text with those bytes. Whether a decoded text is blank
 * (`text.trim().length === 0`) is decided by a predicate the caller supplies.
 *
 * Encoding packs every four bytes little-endian into one 32-bit word, pads
 * the last group with zero high bytes and appends the separator word
 * 0xFFFFFFFF. Decoding unpacks each word into four bytes and drops trailing
 * zero bytes. A stream holding several messages is split on the separator.
 */
module MessageEncoding {

  type Byte = b: int | 0 <= b < 256
  type Bytes = seq<Byte>

  /** The unsigned value of one 32-bit word, as it is encrypted and decrypted. */
  type Word = w: int | 0 <= w < 0x1_0000_0000

  /** Marks the end of one message in a word stream. */
  const MessageSeparator: Word := 0xFFFF_FFFF

  function Pow256(j: nat): (p: nat)
    ensures p >= 1
  {
    if j == 0 then 1 else 256 * Pow256(j - 1)
  }

  /** Byte `i` of `bytes`, or 0 past its end (the zero padding of the last group). */
  function ByteOrZero(bytes: Bytes, i: nat): Byte
  {
    if i < |bytes| then bytes[i] else 0
  }

  /** The little-endian word made of bytes 4k .. 4k+3, missing bytes counting as 0. */
  function LaneWord(bytes: Bytes, k: nat): Word
  {
    ByteOrZero(bytes, 4 * k)
    + 256 * ByteOrZero(bytes, 4 * k + 1)
    + 65536 * ByteOrZero(bytes, 4 * k + 2)
    + 16777216 * ByteOrZero(bytes, 4 * k + 3)
  }

  // ---------------------------------------------------------------------------
  // Encoding
  // ---------------------------------------------------------------------------

  /** The payload words of a message: one word per group of four bytes. */
  function Pack(bytes: Bytes): (words: seq<Word>)
    ensures |words| == (|bytes| + 3) / 4
    decreases |bytes|
  {
    if |bytes| == 0 then []
    else [LaneWord(bytes, 0)] + Pack(if |bytes| <= 4 then [] else bytes[4..])
  }

  /** The words `stringToUint32Array` returns: the payload, then the separator if asked for. */
  function Encode(bytes: Bytes, addSeparator: bool): (words: seq<Word>)
    ensures |words| == (|bytes| + 3) / 4 + (if addSeparator then 1 else 0)
    ensures addSeparator ==> words[|words| - 1] == MessageSeparator
    ensures |bytes| == 0 ==> words == (if addSeparator then [MessageSeparator] else [])
  {
    Pack(bytes) + (if addSeparator then [MessageSeparator] else [])
  }

  /** Word k of the payload is the little-endian value of bytes 4k .. 4k+3, zero-padded. */
  lemma {:induction false} PackWordAt(bytes: Bytes, k: nat)
    requires k < |Pack(bytes)|
    ensures Pack(bytes)[k] ==
      ByteOrZero(bytes, 4 * k)
      + 256 * ByteOrZero(bytes, 4 * k + 1)
      + 65536 * ByteOrZero(bytes, 4 * k + 2)
      + 16777216 * ByteOrZero(bytes, 4 * k + 3)
  {
    if k > 0 {
      var rest := bytes[4..];
      PackWordAt(rest, k - 1);
      assert Pack(bytes)[k] == Pack(rest)[k - 1];
      assert ByteOrZero(rest, 4 * (k - 1)) == ByteOrZero(bytes, 4 * k);
      assert ByteOrZero(rest, 4 * (k - 1) + 1) == ByteOrZero(bytes, 4 * k + 1);
      assert ByteOrZero(rest, 4 * (k - 1) + 2) == ByteOrZero(bytes, 4 * k + 2);
      assert ByteOrZero(rest, 4 * (k - 1) + 3) == ByteOrZero(bytes, 4 * k + 3);
    }
  }

  /** The sum of the first `j` lanes of the group starting at byte `i`. */
  function PartialWord(bytes: Bytes, i: nat, j: nat): int
  {
    if j == 0 then 0
    else PartialWord(bytes, i, j - 1) + ByteOrZero(bytes, i + j - 1) * Pow256(j - 1)
  }

  lemma PartialWordComplete(bytes: Bytes, k: nat, j: nat)
    requires j <= 4
    requires j == 4 || 4 * k + j >= |bytes|
    ensures PartialWord(bytes, 4 * k, j) == LaneWord(bytes, k)
  {
    var i := 4 * k;
    assert Pow256(1) == 256 && Pow256(2) == 65536 && Pow256(3) == 16777216;
    assert PartialWord(bytes, i, 1) == ByteOrZero(bytes, i);
    assert PartialWord(bytes, i, 2) == PartialWord(bytes, i, 1) + ByteOrZero(bytes, i + 1) * 256;
    assert PartialWord(bytes, i, 3) == PartialWord(bytes, i, 2) + ByteOrZero(bytes, i + 2) * 65536;
    assert PartialWord(bytes, i, 4) == PartialWord(bytes, i, 3) + ByteOrZero(bytes, i + 3) * 16777216;
  }

  /**
   * `stringToUint32Array`: the nested loops build each word with
   * `value |= bytes[i + j] << (j * 8)`. The byte lanes are disjoint, so the
   * or-accumulation equals the sum written here. JavaScript holds a word whose
   * top byte is 0x80 or more as a negative int32; the model keeps the unsigned
   * value, which has the same 32 bits (see SignedReadingDecodesAlike).
   */
  method StringToWords(message: Bytes, addSeparator: bool) returns (words: seq<Word>)
    ensures words == Encode(message, addSeparator)
  {
    words := [];
    var i := 0;
    while i < |message|
      invariant 0 <= i <= |message| + 3 && i % 4 == 0
      invariant |words| == i / 4
      invariant forall k :: 0 <= k < |words| ==> words[k] == LaneWord(message, k)
    {
      var value := 0;
      var j := 0;
      while j < 4 && i + j < |message|
        invariant 0 <= j <= 4
        invariant value == PartialWord(message, i, j)
      {
        value := value + message[i + j] * Pow256(j);
        j := j + 1;
      }
      PartialWordComplete(message, i / 4, j);
      words := words + [value];
      i := i + 4;
    }
    forall k | 0 <= k < |words| ensures words[k] == Pack(message)[k] {
      PackWordAt(message, k);
    }
    assert words == Pack(message);
    if addSeparator {
      words := words + [MessageSeparator];
    }
  }

  // ---------------------------------------------------------------------------
  // Decoding one message
  // ---------------------------------------------------------------------------

  /**
   * JavaScript's `(value >> (j * 8)) & 0xFF` for an integral number: the
   * shift reads the value modulo 2^32 as an int32 and floors, the mask keeps
   * the low byte. Dafny's division and remainder floor for a positive divisor,
   * so this agrees with JavaScript for negative values too.
   */
  function ByteAt(value: int, j: nat): Byte
  {
    (value / Pow256(j)) % 256
  }

  function UnpackWord(value: int): (bytes: Bytes)
    ensures |bytes| == 4
  {
    [ByteAt(value, 0), ByteAt(value, 1), ByteAt(value, 2), ByteAt(value, 3)]
  }

  /** All bytes of a word stream, four per word, in order. */
  function Unpack(values: seq<int>): (bytes: Bytes)
    ensures |bytes| == 4 * |values|
  {
    if values == [] then []
    else Unpack(values[..|values| - 1]) + UnpackWord(values[|values| - 1])
  }

  /** The `while ... pop()` of `uint32ArrayToString`: drop every trailing zero byte. */
  function StripTrailingZeros(bytes: Bytes): (r: Bytes)
    ensures |r| <= |bytes| && r == bytes[..|r|]
    ensures r == [] || r[|r| - 1] != 0
    ensures forall i :: |r| <= i < |bytes| ==> bytes[i] == 0
    decreases |bytes|
  {
    if |bytes| > 0 && bytes[|bytes| - 1] == 0 then StripTrailingZeros(bytes[..|bytes| - 1])
    else bytes
  }

  /** The text `uint32ArrayToString` returns for a word stream. */
  function DecodeOne(values: seq<int>): Bytes
  {
    StripTrailingZeros(Unpack(values))
  }

  /** `uint32ArrayToString`: push four bytes per word, then pop the trailing zeros. */
  method WordsToString(values: seq<int>) returns (text: Bytes)
    ensures text == DecodeOne(values)
  {
    var bytes: Bytes := [];
    for i := 0 to |values|
      invariant bytes == Unpack(values[..i])
    {
      var value := values[i];
      for j := 0 to 4
        invariant bytes == Unpack(values[..i]) + UnpackWord(value)[..j]
      {
        bytes := bytes + [ByteAt(value, j)];
      }
      assert values[..i + 1][..i] == values[..i];
    }
    assert values[..|values|] == values;
    while |bytes| > 0 && bytes[|bytes| - 1] == 0
      invariant StripTrailingZeros(bytes) == StripTrailingZeros(Unpack(values))
      decreases |bytes|
    {
      bytes := bytes[..|bytes| - 1];
    }
    text := bytes;
  }

  /** Unpacking is a homomorphism from word streams to byte streams. */
  lemma {:induction false} UnpackAppend(a: seq<int>, b: seq<int>)
    ensures Unpack(a + b) == Unpack(a) + Unpack(b)
    decreases |b|
  {
    if b == [] {
      assert a + b == a;
    } else {
      var init := b[..|b| - 1];
      UnpackAppend(a, init);
      assert (a + b)[..|a + b| - 1] == a + init;
    }
  }

  lemma UnpackLaneWord(bytes: Bytes)
    ensures UnpackWord(LaneWord(bytes, 0)) ==
      [ByteOrZero(bytes, 0), ByteOrZero(bytes, 1), ByteOrZero(bytes, 2), ByteOrZero(bytes, 3)]
  {
    var b0: int, b1: int, b2: int, b3: int := ByteOrZero(bytes, 0), ByteOrZero(bytes, 1), ByteOrZero(bytes, 2), ByteOrZero(bytes, 3);
    var w := LaneWord(bytes, 0);
    assert Pow256(1) == 256 && Pow256(2) == 65536 && Pow256(3) == 16777216;
    DivModUnique(w, 256, b1 + 256 * b2 + 65536 * b3, b0);
    DivModUnique(w, 65536, b2 + 256 * b3, b0 + 256 * b1);
    DivModUnique(w, 16777216, b3, b0 + 256 * b1 + 65536 * b2);
    DivModUnique(b1 + 256 * b2 + 65536 * b3, 256, b2 + 256 * b3, b1);
    DivModUnique(b2 + 256 * b3, 256, b3, b2);
    DivModUnique(b3, 256, 0, b3);
  }

  /** Quotient and remainder are the only ones with the remainder in range. */
  lemma DivModUnique(x: int, m: int, a: int, r: int)
    requires m > 0 && x == m * a + r && 0 <= r < m
    ensures x / m == a && x % m == r
  {
    var a0, r0 := x / m, x % m;
    assert m * (a0 - a) == r - r0;
    if a0 > a {
      MulAtLeast(m, a0 - a);
    } else if a0 < a {
      MulAtLeast(m, a - a0);
    }
  }

  lemma {:induction false} MulAtLeast(m: int, d: int)
    requires m > 0 && d >= 1
    ensures m * d >= m
    decreases d
  {
    if d > 1 {
      MulAtLeast(m, d - 1);
      assert m * d == m * (d - 1) + m;
    }
  }

  function Zeros(n: nat): (z: Bytes)
    ensures |z| == n && forall i :: 0 <= i < n ==> z[i] == 0
  {
    seq(n, _ => 0)
  }

  /** The four bytes of the first payload word: the first four bytes of the message, zero-padded. */
  lemma UnpackFirstWord(bytes: Bytes)
    ensures UnpackWord(LaneWord(bytes, 0)) ==
      if |bytes| >= 4 then bytes[..4] else bytes + Zeros(4 - |bytes|)
  {
    UnpackLaneWord(bytes);
  }

  /** Unpacking a payload starts with the bytes of its first word. */
  lemma UnpackPackFirst(bytes: Bytes)
    requires |bytes| > 0
    ensures Unpack(Pack(bytes)) ==
      (if |bytes| >= 4 then bytes[..4] else bytes + Zeros(4 - |bytes|)) + Unpack(Pack(if |bytes| <= 4 then [] else bytes[4..]))
  {
    var rest := if |bytes| <= 4 then [] else bytes[4..];
    var w := LaneWord(bytes, 0);
    assert Pack(bytes) == [w] + Pack(rest);
    UnpackAppend([w], Pack(rest));
    assert Unpack([w]) == UnpackWord(w) by {
      assert [w][..0] == [];
    }
    UnpackFirstWord(bytes);
  }

  /** Unpacking the payload gives the message back followed by the zero padding of its last group. */
  lemma {:induction false} UnpackPack(bytes: Bytes)
    ensures Unpack(Pack(bytes)) == bytes + Zeros(4 * |Pack(bytes)| - |bytes|)
    decreases |bytes|
  {
    if |bytes| > 0 {
      var rest := if |bytes| <= 4 then [] else bytes[4..];
      UnpackPackFirst(bytes);
      UnpackPack(rest);
      var padding := 4 * |Pack(bytes)| - |bytes|;
      if |bytes| >= 4 {
        assert |Pack(bytes)| == |Pack(rest)| + 1;
        assert 4 * |Pack(rest)| - |rest| == padding;
        assert bytes[..4] + (rest + Zeros(padding)) == bytes + Zeros(padding) by {
          assert bytes == bytes[..4] + rest;
        }
      } else {
        assert padding == 4 - |bytes|;
        assert Pack(rest) == [] && Unpack([]) == [];
      }
    }
  }


  /** Appending zero bytes does not change what stripping leaves. */
  lemma {:induction false} StripIgnoresZeros(bytes: Bytes, n: nat)
    ensures StripTrailingZeros(bytes + Zeros(n)) == StripTrailingZeros(bytes)
    decreases n
  {
    if n > 0 {
      var longer := bytes + Zeros(n);
      assert longer[..|longer| - 1] == bytes + Zeros(n - 1);
      StripIgnoresZeros(bytes, n - 1);
    } else {
      assert bytes + Zeros(n) == bytes;
    }
  }

  /** Decoding the payload of a message gives the message without its trailing zero bytes. */
  lemma DecodePackStrips(bytes: Bytes)
    ensures DecodeOne(Pack(bytes)) == StripTrailingZeros(bytes)
  {
    UnpackPack(bytes);
    StripIgnoresZeros(bytes, 4 * |Pack(bytes)| - |bytes|);
  }

  /** Round trip: a message that is empty or does not end in a zero byte is decoded unchanged. */
  lemma DecodePackRoundTrip(bytes: Bytes)
    requires bytes == [] || bytes[|bytes| - 1] != 0
    ensures DecodeOne(Pack(bytes)) == bytes
  {
    DecodePackStrips(bytes);
  }

  /** Trailing NUL characters of a message are lost: "a\0" decodes as "a". */
  lemma TrailingNulLost(bytes: Bytes)
    ensures DecodeOne(Pack(bytes + [0])) == DecodeOne(Pack(bytes))
  {
    DecodePackStrips(bytes + [0]);
    DecodePackStrips(bytes);
    assert (bytes + [0])[..|bytes|] == bytes;
  }

  /**
   * A word holds a negative int32 in JavaScript when its top byte is 0x80 or
   * more. Byte extraction reads such a value exactly as the unsigned word.
   */
  function ToInt32(w: Word): (v: int)
    ensures -0x8000_0000 <= v < 0x8000_0000
    ensures (v - w) % 0x1_0000_0000 == 0
  {
    if w >= 0x8000_0000 then w - 0x1_0000_0000 else w
  }

  lemma SignedReadingDecodesAlike(w: Word)
    ensures UnpackWord(ToInt32(w)) == UnpackWord(w)
    ensures ToInt32(w) < 0 <==> ByteAt(w, 3) >= 0x80
  {
    if w >= 0x8000_0000 {
      WrapKeepsByte(w, 0);
      WrapKeepsByte(w, 1);
      WrapKeepsByte(w, 2);
      WrapKeepsByte(w, 3);
    }
    assert Pow256(3) == 16777216;
  }

  /** Byte extraction is blind to a shift of the value by 2^32. */
  lemma WrapKeepsByte(v: int, j: nat)
    requires j < 4
    ensures ByteAt(v - 0x1_0000_0000, j) == ByteAt(v, j)
  {
    var u := v - 0x1_0000_0000;
    if j == 0 {
      assert u % 256 == v % 256;
    } else if j == 1 {
      assert Pow256(1) == 256;
      WrapShifted(v, 256, 16777216);
    } else if j == 2 {
      assert Pow256(2) == 65536;
      WrapShifted(v, 65536, 65536);
    } else {
      assert Pow256(3) == 16777216;
      WrapShifted(v, 16777216, 256);
    }
  }

  lemma WrapShifted(v: int, d: int, c: int)
    requires (d == 256 && c == 16777216) || (d == 65536 && c == 65536) || (d == 16777216 && c == 256)
    ensures ((v - 0x1_0000_0000) / d) % 256 == (v / d) % 256
  {
    var q := v / d;
    if d == 256 {
      assert v - 0x1_0000_0000 == 256 * (q - 16777216) + v % 256;
    } else if d == 65536 {
      assert v - 0x1_0000_0000 == 65536 * (q - 65536) + v % 65536;
    } else {
      assert v - 0x1_0000_0000 == 16777216 * (q - 256) + v % 16777216;
    }
    assert (v - 0x1_0000_0000) / d == q - c;
    assert (q - c) % 256 == q % 256;
  }

  // ---------------------------------------------------------------------------
  // Framing
  // ---------------------------------------------------------------------------

  /** No byte is 0xFF; UTF-8 never produces that byte (section 3 of RFC 3629). */
  predicate NoFFByte(bytes: Bytes)
  {
    forall i :: 0 <= i < |bytes| ==> bytes[i] != 0xFF
  }

  /** A payload word cannot equal the separator when no byte is 0xFF. */
  lemma {:induction false} PayloadNeverSeparator(bytes: Bytes)
    requires NoFFByte(bytes)
    ensures MessageSeparator !in Pack(bytes)
    decreases |bytes|
  {
    if |bytes| > 4 {
      PayloadNeverSeparator(bytes[4..]);
    }
  }

  /** The encoding of one message holds the separator at its end and nowhere else. */
  lemma SeparatorOnlyAtEnd(bytes: Bytes)
    requires NoFFByte(bytes)
    ensures var words := Encode(bytes, true);
      words[|words| - 1] == MessageSeparator &&
      forall k :: 0 <= k < |words| - 1 ==> words[k] != MessageSeparator
  {
    PayloadNeverSeparator(bytes);
    var words := Encode(bytes, true);
    forall k | 0 <= k < |words| - 1 ensures words[k] != MessageSeparator {
      assert words[k] == Pack(bytes)[k];
    }
  }

  /** Four 0xFF bytes, which are not UTF-8, pack into the separator itself. */
  lemma SeparatorCollision()
    ensures Pack([0xFF, 0xFF, 0xFF, 0xFF]) == [MessageSeparator]
  {
    assert Pack([0xFF, 0xFF, 0xFF, 0xFF]) == [LaneWord([0xFF, 0xFF, 0xFF, 0xFF], 0)] + Pack([]);
  }

  // ---------------------------------------------------------------------------
  // Splitting a stream into messages
  // ---------------------------------------------------------------------------

  /**
   * The runs of words between separators, in order: the segments closed by
   * each separator, then the (possibly empty) segment after the last one.
   */
  function Segments(values: seq<int>): (segments: seq<seq<int>>)
    ensures |segments| >= 1
  {
    if values == [] then [[]]
    else
      var init := Segments(values[..|values| - 1]);
      var value := values[|values| - 1];
      if value == MessageSeparator then init + [[]]
      else init[..|init| - 1] + [init[|init| - 1] + [value]]
  }

  /** A segment yields a message when it is non-empty and its text is not blank. */
  function KeptOne(segment: seq<int>, isBlank: Bytes -> bool): seq<Bytes>
  {
    if |segment| > 0 && !isBlank(DecodeOne(segment)) then [DecodeOne(segment)] else []
  }

  function Kept(segments: seq<seq<int>>, isBlank: Bytes -> bool): seq<Bytes>
  {
    if segments == [] then []
    else Kept(segments[..|segments| - 1], isBlank) + KeptOne(segments[|segments| - 1], isBlank)
  }

  /** The messages `uint32ArrayToMessages` returns for a word stream. */
  function Messages(values: seq<int>, isBlank: Bytes -> bool): seq<Bytes>
  {
    Kept(Segments(values), isBlank)
  }

  /**
   * What the loop of `uint32ArrayToMessages` holds after reading `prefix`:
   * the messages of every closed segment, and the open segment.
   */
  ghost predicate SplitState(prefix: seq<int>, messages: seq<Bytes>, current: seq<int>, isBlank: Bytes -> bool)
  {
    var segments := Segments(prefix);
    messages == Kept(segments[..|segments| - 1], isBlank) && current == segments[|segments| - 1]
  }

  lemma SplitAtSeparator(prefix: seq<int>, messages: seq<Bytes>, current: seq<int>, isBlank: Bytes -> bool)
    requires SplitState(prefix, messages, current, isBlank)
    ensures SplitState(prefix + [MessageSeparator], messages + KeptOne(current, isBlank), [], isBlank)
  {
    SegmentsSnoc(prefix, MessageSeparator);
    var segments := Segments(prefix);
    assert (segments + [[]])[..|segments|] == segments;
  }

  lemma SplitAtWord(prefix: seq<int>, messages: seq<Bytes>, current: seq<int>, value: int, isBlank: Bytes -> bool)
    requires value != MessageSeparator
    requires SplitState(prefix, messages, current, isBlank)
    ensures SplitState(prefix + [value], messages, current + [value], isBlank)
  {
    SegmentsSnoc(prefix, value);
    var segments := Segments(prefix);
    var closed := segments[..|segments| - 1];
    assert (closed + [current + [value]])[..|closed|] == closed;
  }

  /**
   * `uint32ArrayToMessages`: collect words into the current segment, decode
   * it at each separator, and decode a last segment left without one.
   */
  method WordsToMessages(values: seq<int>, isBlank: Bytes -> bool) returns (messages: seq<Bytes>)
    ensures messages == Messages(values, isBlank)
  {
    messages := [];
    var current: seq<int> := [];
    assert Segments([]) == [[]];
    for i := 0 to |values|
      invariant SplitState(values[..i], messages, current, isBlank)
    {
      assert values[..i + 1] == values[..i] + [values[i]];
      var value := values[i];
      if value == MessageSeparator {
        SplitAtSeparator(values[..i], messages, current, isBlank);
        if |current| > 0 {
          var message := WordsToString(current);
          if !isBlank(message) {
            messages := messages + [message];
          }
          current := [];
        }
      } else {
        SplitAtWord(values[..i], messages, current, value, isBlank);
        current := current + [value];
      }
    }
    assert values[..|values|] == values;
    ghost var segments := Segments(values);
    assert segments == segments[..|segments| - 1] + [current];
    if |current| > 0 {
      var message := WordsToString(current);
      if !isBlank(message) {
        messages := messages + [message];
      }
    }
  }

  lemma {:induction false} KeptAppend(a: seq<seq<int>>, b: seq<seq<int>>, isBlank: Bytes -> bool)
    ensures Kept(a + b, isBlank) == Kept(a, isBlank) + Kept(b, isBlank)
    decreases |b|
  {
    if b == [] {
      assert a + b == a;
    } else {
      var init, last := b[..|b| - 1], b[|b| - 1];
      var ab := a + b;
      assert ab[..|ab| - 1] == a + init;
      assert ab[|ab| - 1] == last;
      calc {
        Kept(ab, isBlank);
        Kept(a + init, isBlank) + KeptOne(last, isBlank);
        { KeptAppend(a, init, isBlank); }
        Kept(a, isBlank) + Kept(init, isBlank) + KeptOne(last, isBlank);
        Kept(a, isBlank) + Kept(b, isBlank);
      }
    }
  }

  /** A separator closes the segments before it: splitting distributes over it. */
  lemma {:induction false} SegmentsSplit(x: seq<int>, y: seq<int>)
    ensures Segments(x + [MessageSeparator] + y) == Segments(x) + Segments(y)
    decreases |y|
  {
    if y == [] {
      SegmentsSnoc(x, MessageSeparator);
      assert x + [MessageSeparator] + y == x + [MessageSeparator];
    } else {
      var init, value := y[..|y| - 1], y[|y| - 1];
      var prefix := x + [MessageSeparator] + init;
      assert x + [MessageSeparator] + y == prefix + [value];
      assert y == init + [value];
      SegmentsSnoc(prefix, value);
      SegmentsSnoc(init, value);
      SegmentsSplit(x, init);
      SnocOpenSegment(Segments(x), Segments(init), value);
    }
  }

  /** How one more word changes the segments: a separator opens a new one, any other word extends the last. */
  lemma SegmentsSnoc(values: seq<int>, value: int)
    ensures var before := Segments(values);
      Segments(values + [value]) ==
        if value == MessageSeparator then before + [[]]
        else before[..|before| - 1] + [before[|before| - 1] + [value]]
  {
    assert (values + [value])[..|values|] == values;
  }

  lemma SnocOpenSegment(a: seq<seq<int>>, b: seq<seq<int>>, value: int)
    requires |b| >= 1
    ensures (a + b) + [[]] == a + (b + [[]])
    ensures var ab := a + b;
      ab[..|ab| - 1] + [ab[|ab| - 1] + [value]] == a + (b[..|b| - 1] + [b[|b| - 1] + [value]])
  {
    var ab := a + b;
    assert ab[..|ab| - 1] == a + b[..|b| - 1];
  }

  /** A run of words without a separator is a single segment. */
  lemma {:induction false} SegmentsOfRun(run: seq<int>)
    requires MessageSeparator !in run
    ensures Segments(run) == [run]
    decreases |run|
  {
    if run != [] {
      var init, value := run[..|run| - 1], run[|run| - 1];
      SegmentsOfRun(init);
      assert init + [value] == run;
    }
  }

  /** No segment contains the separator. */
  lemma {:induction false} SegmentsSeparatorFree(values: seq<int>)
    ensures forall s :: s in Segments(values) ==> MessageSeparator !in s
    decreases |values|
  {
    if values != [] {
      SegmentsSeparatorFree(values[..|values| - 1]);
    }
  }

  /** Segments joined back with the separator between them. */
  function Join(segments: seq<seq<int>>): seq<int>
    requires |segments| >= 1
  {
    if |segments| == 1 then segments[0]
    else Join(segments[..|segments| - 1]) + [MessageSeparator] + segments[|segments| - 1]
  }

  /** Splitting loses nothing: joining the segments gives the stream back. */
  lemma {:induction false} JoinSegments(values: seq<int>)
    ensures Join(Segments(values)) == values
    decreases |values|
  {
    if values != [] {
      var init, value := values[..|values| - 1], values[|values| - 1];
      assert values == init + [value];
      JoinSegments(init);
      SegmentsSnoc(init, value);
      var before := Segments(init);
      if value == MessageSeparator {
        JoinSnoc(before, []);
      } else {
        var open, last := before[..|before| - 1], before[|before| - 1];
        if |before| == 1 {
          assert Segments(values) == [last + [value]];
        } else {
          assert before == open + [last];
          JoinSnoc(open, last);
          JoinSnoc(open, last + [value]);
        }
      }
    }
  }

  lemma JoinSnoc(segments: seq<seq<int>>, s: seq<int>)
    requires |segments| >= 1
    ensures Join(segments + [s]) == Join(segments) + [MessageSeparator] + s
  {
    assert (segments + [s])[..|segments|] == segments;
  }

  /** Every message is non-blank and does not end in a zero byte. */
  lemma {:induction false} MessagesWellFormed(values: seq<int>, isBlank: Bytes -> bool)
    ensures forall m :: m in Messages(values, isBlank) ==> !isBlank(m) && (m == [] || m[|m| - 1] != 0)
    ensures isBlank([]) ==> forall m :: m in Messages(values, isBlank) ==> |m| > 0
  {
    KeptWellFormed(Segments(values), isBlank);
  }

  lemma {:induction false} KeptWellFormed(segments: seq<seq<int>>, isBlank: Bytes -> bool)
    ensures forall m :: m in Kept(segments, isBlank) ==> !isBlank(m) && (m == [] || m[|m| - 1] != 0)
    decreases |segments|
  {
    if segments != [] {
      KeptWellFormed(segments[..|segments| - 1], isBlank);
    }
  }

  /** A separator at the start of a stream produces no message. */
  lemma LeadingSeparatorIgnored(values: seq<int>, isBlank: Bytes -> bool)
    ensures Messages([MessageSeparator] + values, isBlank) == Messages(values, isBlank)
  {
    SegmentsSplit([], values);
    assert [] + [MessageSeparator] + values == [MessageSeparator] + values;
    KeptAppend([[]], Segments(values), isBlank);
    KeptEmpty(isBlank);
  }

  /** An empty segment yields no message. */
  lemma KeptEmpty(isBlank: Bytes -> bool)
    ensures Kept([[]], isBlank) == []
  {
    var none: seq<seq<int>> := [[]];
    assert none[..0] == [];
  }

  /** Two consecutive separators produce the same messages as one. */
  lemma DoubleSeparatorIgnored(x: seq<int>, y: seq<int>, isBlank: Bytes -> bool)
    ensures Messages(x + [MessageSeparator, MessageSeparator] + y, isBlank)
         == Messages(x + [MessageSeparator] + y, isBlank)
  {
    assert x + [MessageSeparator, MessageSeparator] + y == x + [MessageSeparator] + ([MessageSeparator] + y);
    SegmentsSplit(x, [MessageSeparator] + y);
    SegmentsSplit(x, y);
    KeptAppend(Segments(x), Segments([MessageSeparator] + y), isBlank);
    KeptAppend(Segments(x), Segments(y), isBlank);
    LeadingSeparatorIgnored(y, isBlank);
  }

  // ---------------------------------------------------------------------------
  // Round trips over whole streams
  // ---------------------------------------------------------------------------

  /**
   * A message the codec carries intact: its text is not blank (so it is not
   * empty), it has no 0xFF byte (true of all UTF-8) and it does not end in NUL.
   */
  predicate Deliverable(m: Bytes, isBlank: Bytes -> bool)
  {
    |m| > 0 && !isBlank(m) && NoFFByte(m) && m[|m| - 1] != 0
  }

  /** The message at the head of a stream is decoded, and decoding continues after its separator. */
  lemma DecodeFirstMessage(m: Bytes, rest: seq<int>, isBlank: Bytes -> bool)
    requires Deliverable(m, isBlank)
    ensures Messages(Encode(m, true) + rest, isBlank) == [m] + Messages(rest, isBlank)
  {
    assert Encode(m, true) + rest == Pack(m) + [MessageSeparator] + rest;
    SegmentsSplit(Pack(m), rest);
    PayloadNeverSeparator(m);
    SegmentsOfRun(Pack(m));
    KeptAppend([Pack(m)], Segments(rest), isBlank);
    DecodePackRoundTrip(m);
    assert Kept([Pack(m)], isBlank) == [m] by {
      assert [Pack(m)][..0] == [];
    }
  }

  /** The stream `sendMessage` calls produce for a sequence of messages. */
  function EncodeAll(ms: seq<Bytes>): seq<int>
  {
    if ms == [] then [] else Encode(ms[0], true) + EncodeAll(ms[1..])
  }

  /** Messages sent one after another are decoded as the same messages in the same order. */
  lemma {:induction false} DecodeEncodeAll(ms: seq<Bytes>, isBlank: Bytes -> bool)
    requires forall i :: 0 <= i < |ms| ==> Deliverable(ms[i], isBlank)
    ensures Messages(EncodeAll(ms), isBlank) == ms
    decreases |ms|
  {
    if ms == [] {
      KeptEmpty(isBlank);
    } else {
      DecodeEncodeAll(ms[1..], isBlank);
      DecodeFirstMessage(ms[0], EncodeAll(ms[1..]), isBlank);
      assert [ms[0]] + ms[1..] == ms;
    }
  }

  /** Two messages sent in turn decode as those two messages. */
  lemma DecodeTwoMessages(m1: Bytes, m2: Bytes, isBlank: Bytes -> bool)
    requires Deliverable(m1, isBlank) && Deliverable(m2, isBlank)
    ensures Messages(Encode(m1, true) + Encode(m2, true), isBlank) == [m1, m2]
  {
    DecodeEncodeAll([m1, m2], isBlank);
    assert [m1, m2][1..] == [m2];
    assert [m2][1..] == [];
    assert EncodeAll([m2]) == Encode(m2, true) + EncodeAll([]);
    assert EncodeAll([m1, m2]) == Encode(m1, true) + EncodeAll([m2]);
    assert Encode(m2, true) + [] == Encode(m2, true);
  }

  /** A final message whose separator is missing is still decoded. */
  lemma DecodeUnterminated(m: Bytes, isBlank: Bytes -> bool)
    requires Deliverable(m, isBlank)
    ensures Messages(Pack(m), isBlank) == [m]
  {
    PayloadNeverSeparator(m);
    SegmentsOfRun(Pack(m));
    DecodePackRoundTrip(m);
    assert Kept([Pack(m)], isBlank) == [m] by {
      assert [Pack(m)][..0] == [];
    }
  }

  /** An unterminated last message is decoded after a terminated one too. */
  lemma DecodeUnterminatedLast(m1: Bytes, m2: Bytes, isBlank: Bytes -> bool)
    requires Deliverable(m1, isBlank) && Deliverable(m2, isBlank)
    ensures Messages(Encode(m1, true) + Pack(m2), isBlank) == [m1, m2]
  {
    DecodeUnterminated(m2, isBlank);
    DecodeFirstMessage(m1, Pack(m2), isBlank);
  }
}
