/*
 * The rules of the LoveKnot client hook (hooks/useLoveKnot.tsx) that do not
 * depend on the network, the wallet or the FHE library: the projection of an
 * address onto the 32-bit plaintext of a crush target, the checks
 * `sendMessage` makes before it encrypts, the short-circuits of
 * `decryptMatchResult` and its bookkeeping of found matches, and the way
 * `getMessages` turns the decrypted words of both directions of a
 * conversation into one list of messages.
 *
 * Calls to the contract, to the FHE instance (encryption, userDecrypt) and to
 * the decryption-signature store are not modelled; what they return enters
 * the operations below as parameters.
 */
module LoveKnotHook {
  import opened MessageEncoding

  datatype Option<T> = None | Some(value: T)

  /** An address, a ciphertext handle or any other text the hook handles as a string. */
  type Text = seq<char>

  // ---------------------------------------------------------------------------
  // Address projection (`addressToUint32`)
  // ---------------------------------------------------------------------------

  predicate IsHexDigit(c: char)
  {
    ('0' <= c <= '9') || ('a' <= c <= 'f') || ('A' <= c <= 'F')
  }

  function HexDigitValue(c: char): (v: nat)
    requires IsHexDigit(c)
    ensures v < 16
  {
    if '0' <= c <= '9' then c as nat - '0' as nat
    else if 'a' <= c <= 'f' then c as nat - 'a' as nat + 10
    else c as nat - 'A' as nat + 10
  }

  predicate AllHexDigits(digits: Text)
  {
    forall i :: 0 <= i < |digits| ==> IsHexDigit(digits[i])
  }

  predicate IsDecimalDigit(c: char)
  {
    '0' <= c <= '9'
  }

  predicate AllDecimalDigits(digits: Text)
  {
    forall i :: 0 <= i < |digits| ==> IsDecimalDigit(digits[i])
  }

  /**
   * The hex spellings `ethers.isAddress` accepts: forty hex digits, with or
   * without a lower-case "0x" in front. (Its ICAP spelling is not modelled.)
   */
  predicate IsAddressText(s: Text)
  {
    (|s| == 42 && s[0] == '0' && s[1] == 'x' && AllHexDigits(s[2..])) || (|s| == 40 && AllHexDigits(s))
  }

  predicate IsBinaryDigit(c: char)
  {
    c == '0' || c == '1'
  }

  predicate AllBinaryDigits(digits: Text)
  {
    forall i :: 0 <= i < |digits| ==> IsBinaryDigit(digits[i])
  }

  /** The prefix that makes `BigInt` read a string as binary; "b" and "B" are hex digits too. */
  predicate HasBinaryPrefix(s: Text)
  {
    |s| >= 2 && s[0] == '0' && (s[1] == 'b' || s[1] == 'B')
  }

  /** The prefix that makes `BigInt` read a string as hexadecimal. */
  predicate HasHexPrefix(s: Text)
  {
    |s| >= 2 && s[0] == '0' && (s[1] == 'x' || s[1] == 'X')
  }

  function Pow16(k: nat): (p: nat)
    ensures p >= 1
  {
    if k == 0 then 1 else 16 * Pow16(k - 1)
  }

  function Pow2(k: nat): (p: nat)
    ensures p >= 1
  {
    if k == 0 then 1 else 2 * Pow2(k - 1)
  }

  /** The value of a string of hex digits, most significant first. */
  function HexValue(digits: Text): (v: nat)
    requires AllHexDigits(digits)
    ensures v < Pow16(|digits|)
  {
    if digits == [] then 0
    else 16 * HexValue(digits[..|digits| - 1]) + HexDigitValue(digits[|digits| - 1])
  }

  /** The value of a string of decimal digits, most significant first. */
  function DecimalValue(digits: Text): nat
    requires AllDecimalDigits(digits)
  {
    if digits == [] then 0
    else 10 * DecimalValue(digits[..|digits| - 1]) + (digits[|digits| - 1] as int - '0' as int)
  }

  /** The value of a string of binary digits, most significant first. */
  function BinaryValue(digits: Text): nat
    requires AllBinaryDigits(digits)
  {
    if digits == [] then 0
    else 2 * BinaryValue(digits[..|digits| - 1]) + (if digits[|digits| - 1] == '1' then 1 else 0)
  }

  /** A string `BigInt` reads as a binary literal: "0b" or "0B", then binary digits. */
  predicate IsBinaryLiteral(s: Text)
  {
    HasBinaryPrefix(s) && AllBinaryDigits(s[2..])
  }

  datatype BigIntParse = Parsed(value: nat) | SyntaxError

  /**
   * `BigInt(s)` on an accepted address: with the "0x" prefix the digits are
   * hexadecimal; a "0b" or "0B" followed by binary digits is a binary
   * literal; all decimal digits are read as a decimal number; anything else
   * makes `BigInt` throw a SyntaxError.
   */
  function ParseBigInt(s: Text): (r: BigIntParse)
    requires IsAddressText(s)
    ensures r.SyntaxError? <==> !HasHexPrefix(s) && !IsBinaryLiteral(s) && !AllDecimalDigits(s)
    ensures HasHexPrefix(s) ==> |s| == 42 && AllHexDigits(s[2..]) && r == Parsed(HexValue(s[2..]))
    ensures IsBinaryLiteral(s) ==> r == Parsed(BinaryValue(s[2..]))
  {
    if HasHexPrefix(s) then
      Parsed(HexValue(s[2..]))
    else if IsBinaryLiteral(s) then
      Parsed(BinaryValue(s[2..]))
    else if AllDecimalDigits(s) then
      assert AllHexDigits(s) by {
        forall i | 0 <= i < |s| ensures IsHexDigit(s[i]) {
          assert IsDecimalDigit(s[i]);
        }
      }
      Parsed(DecimalValue(s))
    else SyntaxError
  }

  /** The bitwise `&` of two non-negative integers, one bit at a time. */
  function BitAnd(x: nat, y: nat): (r: nat)
    ensures r <= x && r <= y
  {
    if x == 0 || y == 0 then 0
    else (x % 2) * (y % 2) + 2 * BitAnd(x / 2, y / 2)
  }

  /** What `addressToUint32` yields: a number, or the SyntaxError `BigInt` throws. */
  datatype Projection = Projected(n: nat) | Throws

  /**
   * `addressToUint32` as written: `Number(BigInt(address) & BigInt(0xFFFFFFFF))`,
   * the plaintext a crush target is encrypted as.
   */
  function AddressToUint32(address: Text): (r: Projection)
    requires IsAddressText(address)
    ensures r.Throws? <==> ParseBigInt(address).SyntaxError?
    ensures r.Projected? ==> r.n < 0x1_0000_0000 && r.n == ParseBigInt(address).value % 0x1_0000_0000
  {
    var parsed := ParseBigInt(address);
    if parsed.SyntaxError? then Throws
    else
      MaskIsMod(parsed.value, 32);
      Pow2Of32();
      Projected(BitAnd(parsed.value, 0xFFFF_FFFF))
  }

  /** The forty hex digits of an accepted address, "0x" dropped (the form `ethers.getAddress` normalises to). */
  function AddressDigits(address: Text): (digits: Text)
    requires IsAddressText(address)
    ensures |digits| == 40 && AllHexDigits(digits)
  {
    if |address| == 42 then address[2..] else address
  }

  /**
   * The projection as intended: the low 32 bits of the address, that is the
   * value of its last eight hex digits, however the address is spelt.
   */
  function AddressLow32(address: Text): (r: nat)
    requires IsAddressText(address)
    ensures r < 0x1_0000_0000
    ensures r == HexValue(AddressDigits(address)[32..])
  {
    var digits := AddressDigits(address);
    MaskIsMod(HexValue(digits), 32);
    Pow2Of32();
    LowEightDigits(digits);
    assert digits[|digits| - 8..] == digits[32..];
    BitAnd(HexValue(digits), 0xFFFF_FFFF)
  }

  /** Masking with k one-bits keeps the value modulo 2^k. */
  lemma {:induction false} MaskIsMod(x: nat, k: nat)
    ensures BitAnd(x, Pow2(k) - 1) == x % Pow2(k)
  {
    if k == 0 {
      assert Pow2(k) == 1;
    } else if x == 0 {
      assert BitAnd(x, Pow2(k) - 1) == 0;
    } else {
      var half := Pow2(k - 1);
      calc {
        BitAnd(x, Pow2(k) - 1);
        { MaskStep(x, k); }
        x % 2 + 2 * BitAnd(x / 2, half - 1);
        { MaskIsMod(x / 2, k - 1); }
        x % 2 + 2 * ((x / 2) % half);
        { ModOfDouble(x, half); }
        x % (2 * half);
        { assert Pow2(k) == 2 * half; }
        x % Pow2(k);
      }
    }
  }

  /** One bit of the mask: the low bit of x, and the rest masked with one bit fewer. */
  lemma MaskStep(x: nat, k: nat)
    requires k > 0 && x > 0
    ensures BitAnd(x, Pow2(k) - 1) == x % 2 + 2 * BitAnd(x / 2, Pow2(k - 1) - 1)
  {
    var mask := Pow2(k) - 1;
    assert mask == 2 * (Pow2(k - 1) - 1) + 1;
    assert mask % 2 == 1 && mask / 2 == Pow2(k - 1) - 1;
  }

  lemma Pow2Of32()
    ensures Pow2(32) == 0x1_0000_0000
  {
    assert Pow2(8) == 256;
    assert Pow2(16) == 256 * Pow2(8) by {
      assert Pow2(16) == 2 * 2 * 2 * 2 * 2 * 2 * 2 * 2 * Pow2(8);
    }
    assert Pow2(24) == 256 * Pow2(16) by {
      assert Pow2(24) == 2 * 2 * 2 * 2 * 2 * 2 * 2 * 2 * Pow2(16);
    }
    assert Pow2(32) == 256 * Pow2(24) by {
      assert Pow2(32) == 2 * 2 * 2 * 2 * 2 * 2 * 2 * 2 * Pow2(24);
    }
  }

  /** x mod 2m is the low bit of x plus twice (x div 2) mod m. */
  lemma ModOfDouble(x: nat, m: nat)
    requires m >= 1
    ensures x % (2 * m) == x % 2 + 2 * ((x / 2) % m)
  {
    var q, b := x / 2, x % 2;
    var a, rest := q / m, q % m;
    assert q == m * a + rest;
    assert x == (2 * m) * a + (b + 2 * rest);
    DivModUnique(x, 2 * m, a, b + 2 * rest);
  }

  /** v shifted left by n hex digits. */
  function ShiftDigits(v: nat, n: nat): nat
  {
    if n == 0 then v else 16 * ShiftDigits(v, n - 1)
  }

  /** Appending digits shifts the value left by four bits per digit. */
  lemma {:induction false} HexValueAppend(p: Text, q: Text)
    requires AllHexDigits(p) && AllHexDigits(q)
    ensures AllHexDigits(p + q)
    ensures HexValue(p + q) == ShiftDigits(HexValue(p), |q|) + HexValue(q)
    decreases |q|
  {
    if q == [] {
      assert p + q == p;
    } else {
      var init := q[..|q| - 1];
      HexValueAppend(p, init);
      var pq := p + q;
      assert pq[..|pq| - 1] == p + init;
    }
  }

  lemma ShiftEightDigits(v: nat)
    ensures ShiftDigits(v, 8) == 0x1_0000_0000 * v
  {
    assert ShiftDigits(v, 1) == 16 * v;
    assert ShiftDigits(v, 2) == 256 * v;
    assert ShiftDigits(v, 3) == 4096 * v;
    assert ShiftDigits(v, 4) == 65536 * v;
    assert ShiftDigits(v, 5) == 1048576 * v;
    assert ShiftDigits(v, 6) == 16777216 * v;
    assert ShiftDigits(v, 7) == 268435456 * v;
  }

  /** A number's last eight hex digits are its value modulo 2^32. */
  lemma LowEightDigits(digits: Text)
    requires AllHexDigits(digits) && |digits| >= 8
    ensures HexValue(digits) % 0x1_0000_0000 == HexValue(digits[|digits| - 8..])
  {
    var high, low := digits[..|digits| - 8], digits[|digits| - 8..];
    assert digits == high + low;
    HexValueAppend(high, low);
    var h, l := HexValue(high), HexValue(low);
    assert |low| == 8 && Pow16(8) == 0x1_0000_0000;
    ShiftEightDigits(h);
    DivModUnique(HexValue(digits), 0x1_0000_0000, h, l);
  }

  /** For an address written with "0x", the projection is the value of its last eight hex digits. */
  lemma AddressLastEightDigits(address: Text)
    requires IsAddressText(address) && HasHexPrefix(address)
    ensures AddressToUint32(address) == Projected(HexValue(address[|address| - 8..]))
    ensures AddressToUint32(address) == Projected(AddressLow32(address))
  {
    LowEightDigits(address[2..]);
    assert address[2..][|address[2..]| - 8..] == address[|address| - 8..] == AddressDigits(address)[32..];
  }

  /** The intended projection does not depend on the "0x" prefix. */
  lemma AddressLow32IgnoresPrefix(digits: Text)
    requires |digits| == 40 && AllHexDigits(digits)
    ensures IsAddressText("0x" + digits) && IsAddressText(digits)
    ensures AddressLow32("0x" + digits) == AddressLow32(digits)
  {
    assert ("0x" + digits)[2..] == digits;
  }

  lemma {:induction false} LeadingZerosDecimal(n: nat, q: Text)
    requires AllDecimalDigits(q)
    ensures AllDecimalDigits(seq(n, _ => '0') + q)
    ensures DecimalValue(seq(n, _ => '0') + q) == DecimalValue(q)
    decreases |q|, n
  {
    var zeros: Text := seq(n, _ => '0');
    if q == [] {
      assert zeros + q == zeros;
      if n > 0 {
        LeadingZerosDecimal(n - 1, []);
        assert zeros[..n - 1] == seq(n - 1, _ => '0') + [];
      }
    } else {
      LeadingZerosDecimal(n, q[..|q| - 1]);
      var zq := zeros + q;
      assert zq[..|zq| - 1] == zeros + q[..|q| - 1];
    }
  }

  lemma {:induction false} LeadingZerosHex(n: nat, q: Text)
    requires AllHexDigits(q)
    ensures AllHexDigits(seq(n, _ => '0') + q)
    ensures HexValue(seq(n, _ => '0') + q) == HexValue(q)
    decreases |q|, n
  {
    var zeros: Text := seq(n, _ => '0');
    if q == [] {
      assert zeros + q == zeros;
      if n > 0 {
        LeadingZerosHex(n - 1, []);
        assert zeros[..n - 1] == seq(n - 1, _ => '0') + [];
      }
    } else {
      LeadingZerosHex(n, q[..|q| - 1]);
      var zq := zeros + q;
      assert zq[..|zq| - 1] == zeros + q[..|q| - 1];
    }
  }

  /**
   * Forty decimal digits without "0x" pass `ethers.isAddress`, but `BigInt`
   * reads them as a decimal number: "00…010" projects to 10 instead of 0x10.
   */
  lemma UnprefixedAddressMisread()
    ensures var digitsOnly := seq(38, _ => '0') + "10";
      IsAddressText(digitsOnly) && AddressToUint32(digitsOnly) == Projected(10) && AddressLow32(digitsOnly) == 16
  {
    var digitsOnly := seq(38, _ => '0') + "10";
    DigitsOnlyValues(digitsOnly);
    assert !HasHexPrefix(digitsOnly) by {
      assert digitsOnly[1] == '0';
    }
  }

  /** "00…010" is ten read as decimal, and its last eight hex digits are sixteen. */
  lemma DigitsOnlyValues(digitsOnly: Text)
    requires digitsOnly == seq(38, _ => '0') + "10"
    ensures AllDecimalDigits(digitsOnly) && DecimalValue(digitsOnly) == 10
    ensures AllHexDigits(digitsOnly) && HexValue(digitsOnly[32..]) == 16
  {
    LeadingZerosDecimal(38, "10");
    LeadingZerosHex(38, "10");
    assert DecimalValue("10") == 10 by {
      assert "10"[..1] == "1";
    }
    assert digitsOnly[32..] == seq(6, _ => '0') + "10";
    LeadingZerosHex(6, "10");
    assert HexValue("10") == 16 by {
      assert "10"[..1] == "1";
    }
  }

  lemma {:induction false} LeadingZerosBinary(n: nat, q: Text)
    requires AllBinaryDigits(q)
    ensures AllBinaryDigits(seq(n, _ => '0') + q)
    ensures BinaryValue(seq(n, _ => '0') + q) == BinaryValue(q)
    decreases |q|, n
  {
    var zeros: Text := seq(n, _ => '0');
    if q == [] {
      assert zeros + q == zeros;
      if n > 0 {
        LeadingZerosBinary(n - 1, []);
        assert zeros[..n - 1] == seq(n - 1, _ => '0') + [];
      }
    } else {
      LeadingZerosBinary(n, q[..|q| - 1]);
      var zq := zeros + q;
      assert zq[..|zq| - 1] == zeros + q[..|q| - 1];
    }
  }

  /**
   * Forty hex digits starting "0b" and then binary digits pass
   * `ethers.isAddress`, and `BigInt` reads them as a binary literal:
   * "0b0…010" projects to 2 instead of 0x10.
   */
  lemma BinaryAddressMisread()
    ensures var binary := "0b" + seq(36, _ => '0') + "10";
      IsAddressText(binary) && IsBinaryLiteral(binary) &&
      AddressToUint32(binary) == Projected(2) && AddressLow32(binary) == 16
  {
    var binary := "0b" + seq(36, _ => '0') + "10";
    BinaryDigitsValues(binary);
    assert !HasHexPrefix(binary) by {
      assert binary[1] == 'b';
    }
  }

  /** "0b0…010" is a binary literal of value two, and its last eight hex digits are sixteen. */
  lemma BinaryDigitsValues(binary: Text)
    requires binary == "0b" + seq(36, _ => '0') + "10"
    ensures AllHexDigits(binary) && IsBinaryLiteral(binary) && BinaryValue(binary[2..]) == 2
    ensures HexValue(binary[32..]) == 16
  {
    var digits := seq(36, _ => '0') + "10";
    assert binary[2..] == digits;
    LeadingZerosBinary(36, "10");
    assert BinaryValue("10") == 2 by {
      assert "10"[..1] == "1";
    }
    assert AllHexDigits(binary) by {
      forall i | 0 <= i < |binary| ensures IsHexDigit(binary[i]) {
        if i >= 2 {
          assert binary[i] == digits[i - 2] && IsBinaryDigit(digits[i - 2]);
        }
      }
    }
    assert binary[32..] == seq(6, _ => '0') + "10";
    LeadingZerosHex(6, "10");
    assert HexValue("10") == 16 by {
      assert "10"[..1] == "1";
    }
  }

  /**
   * Forty hex digits with a letter, neither "0x"-prefixed nor a binary
   * literal, pass `ethers.isAddress`, but `BigInt` throws on them: "00…0a"
   * throws a SyntaxError.
   */
  lemma UnprefixedAddressThrows()
    ensures var withLetter := seq(39, _ => '0') + "a";
      IsAddressText(withLetter) && AddressToUint32(withLetter) == Throws && AddressLow32(withLetter) == 10
  {
    var withLetter := seq(39, _ => '0') + "a";
    LeadingZerosHex(39, "a");
    assert !HasHexPrefix(withLetter) by {
      assert withLetter[1] == '0';
    }
    assert !AllDecimalDigits(withLetter) by {
      assert withLetter[39] == 'a';
    }
    assert withLetter[32..] == seq(7, _ => '0') + "a";
    LeadingZerosHex(7, "a");
  }

  // ---------------------------------------------------------------------------
  // Sending a message (`sendMessage`)
  // ---------------------------------------------------------------------------

  /** The most words, separator included, one message may take. */
  const MaxMessageWords := 100

  /** `!text || text.trim().length === 0`. */
  predicate IsBlankText(text: Bytes, isBlank: Bytes -> bool)
  {
    text == [] || isBlank(text)
  }

  /** Where `sendMessage` stops, or the words it hands to the encryption when it does not. */
  datatype SendOutcome =
    | Ignored           // a send, submission or check is already in flight
    | NotReady          // no contract address, FHE instance or signer
    | InvalidRecipient  // the recipient is not an address
    | EmptyMessage      // the text is empty or whitespace only
    | TooLong           // the encoding takes more than MaxMessageWords words
    | Encrypt(words: seq<Word>)

  /**
   * The checks of `sendMessage` up to the encryption, in the source's order.
   * `busy` stands for the in-flight flags, `ready` for the presence of the
   * contract address, FHE instance and signer, and `recipientIsAddress` for
   * `ethers.isAddress(to)`.
   */
  method SendMessage(busy: bool, ready: bool, recipientIsAddress: bool, text: Bytes, isBlank: Bytes -> bool)
    returns (outcome: SendOutcome)
    ensures outcome == Ignored <==> busy
    ensures outcome == NotReady <==> !busy && !ready
    ensures outcome == InvalidRecipient <==> !busy && ready && !recipientIsAddress
    ensures outcome == EmptyMessage <==> !busy && ready && recipientIsAddress && IsBlankText(text, isBlank)
    ensures outcome == TooLong <==>
      !busy && ready && recipientIsAddress && !IsBlankText(text, isBlank) && |text| > 4 * (MaxMessageWords - 1)
    ensures outcome.Encrypt? ==>
      outcome.words == Encode(text, true) && |outcome.words| <= MaxMessageWords
  {
    if busy {
      return Ignored;
    }
    if !ready {
      return NotReady;
    }
    if !recipientIsAddress {
      return InvalidRecipient;
    }
    if IsBlankText(text, isBlank) {
      return EmptyMessage;
    }
    var words := StringToWords(text, true);
    if |words| > MaxMessageWords {
      return TooLong;
    }
    outcome := Encrypt(words);
  }

  // ---------------------------------------------------------------------------
  // Decrypting a match result (`decryptMatchResult`)
  // ---------------------------------------------------------------------------

  /** The handle of a ciphertext that was never computed. */
  const ZeroHash: Text := "0x0000000000000000000000000000000000000000000000000000000000000000"

  datatype MatchResult = MatchResult(handle: Text, clear: int)

  /** What `decryptMatchResult` does before any decryption. */
  datatype DecryptStart =
    | Skip                          // busy, not ready, or this handle is already decrypted
    | SetResult(result: MatchResult) // the zero handle: the result is 0, nothing is decrypted
    | RequestDecryption(handle: Text)

  function StartDecryption(busy: bool, ready: bool, current: Option<MatchResult>, handle: Text): (step: DecryptStart)
    ensures step == Skip <==> busy || !ready || (current.Some? && current.value.handle == handle)
    ensures step.SetResult? <==> step != Skip && handle == ZeroHash
    ensures step.SetResult? ==> step.result == MatchResult(handle, 0)
    ensures step.RequestDecryption? ==> step.handle == handle && handle != ZeroHash
  {
    if busy || !ready then Skip
    else if current.Some? && current.value.handle == handle then Skip
    else if handle == ZeroHash then SetResult(MatchResult(handle, 0))
    else RequestDecryption(handle)
  }

  /** Once a handle's result is set, asking again for the same handle does nothing. */
  lemma StartDecryptionSettles(current: Option<MatchResult>, handle: Text)
    ensures var step := StartDecryption(false, true, current, handle);
      step.SetResult? ==> StartDecryption(false, true, Some(step.result), handle) == Skip
  {
  }

  /** A value `userDecrypt` may return for a handle. */
  datatype ClearValue =
    | BigIntValue(n: int)
    | BoolValue(b: bool)
    | OtherValue(asNumber: int)   // any other value, with the integer `Number` gives for it

  /**
   * The match result's clear number: a bigint as its number, `true` as 1 and
   * everything else as 0. (A euint32 result is below 2^53, so `Number` is exact.)
   */
  function MatchClearNumber(v: ClearValue): int
  {
    match v
    case BigIntValue(n) => n
    case BoolValue(b) => if b then 1 else 0
    case OtherValue(_) => 0
  }

  /** Only a clear value of bigint 1 or `true` counts as a match. */
  lemma IsMatchIff(v: ClearValue)
    ensures MatchClearNumber(v) == 1 <==> v == BigIntValue(1) || v == BoolValue(true)
  {
  }

  // ---------------------------------------------------------------------------
  // The list of found matches kept per user
  // ---------------------------------------------------------------------------

  datatype MatchRecord = MatchRecord(userA: Text, userB: Text, timestamp: int, blockNumber: int)

  predicate IsUpperAscii(c: char)
  {
    'A' <= c <= 'Z'
  }

  function LowerChar(c: char): char
  {
    if IsUpperAscii(c) then (c as int + 32) as char else c
  }

  /**
   * `toLowerCase` on the ASCII text of an address: no capital is left, a
   * capital becomes its small letter (32 code points on), and every other
   * character stays where it is.
   */
  function ToLower(s: Text): (r: Text)
    ensures |r| == |s|
    ensures forall i :: 0 <= i < |r| ==> !IsUpperAscii(r[i])
    ensures forall i :: 0 <= i < |s| && !IsUpperAscii(s[i]) ==> r[i] == s[i]
    ensures forall i :: 0 <= i < |s| && IsUpperAscii(s[i]) ==> r[i] as int == s[i] as int + 32
  {
    seq(|s|, i requires 0 <= i < |s| => LowerChar(s[i]))
  }

  /** Two characters are the same up to ASCII case. */
  predicate SameUpToCase(c: char, d: char)
  {
    c == d || (IsUpperAscii(c) && d as int == c as int + 32) || (IsUpperAscii(d) && c as int == d as int + 32)
  }

  /** Two texts spell the same thing up to ASCII case. */
  predicate TextsSameUpToCase(s: Text, t: Text)
  {
    |s| == |t| && forall i :: 0 <= i < |s| ==> SameUpToCase(s[i], t[i])
  }

  lemma LowerCharEqualIff(c: char, d: char)
    ensures LowerChar(c) == LowerChar(d) <==> SameUpToCase(c, d)
  {
  }

  /** Lower-casing makes two texts equal exactly when they differ only in ASCII case. */
  lemma ToLowerEqualIff(s: Text, t: Text)
    ensures ToLower(s) == ToLower(t) <==> TextsSameUpToCase(s, t)
  {
    if ToLower(s) == ToLower(t) {
      forall i | 0 <= i < |s| ensures SameUpToCase(s[i], t[i]) {
        assert ToLower(s)[i] == ToLower(t)[i];
        LowerCharEqualIff(s[i], t[i]);
      }
    }
    if TextsSameUpToCase(s, t) {
      forall i | 0 <= i < |s| ensures ToLower(s)[i] == ToLower(t)[i] {
        LowerCharEqualIff(s[i], t[i]);
      }
    }
  }

  lemma ToLowerIdempotent(s: Text)
    ensures ToLower(ToLower(s)) == ToLower(s)
  {
  }

  /** The two records name the same two users, in either order (the `some` test). */
  predicate SamePair(m: MatchRecord, n: MatchRecord)
  {
    (m.userA == n.userA && m.userB == n.userB) || (m.userA == n.userB && m.userB == n.userA)
  }

  /** SamePair compares the records' users as unordered pairs. */
  lemma SamePairIsPairEquality(m: MatchRecord, n: MatchRecord)
    ensures SamePair(m, n) <==> multiset{m.userA, m.userB} == multiset{n.userA, n.userB}
  {
  }

  predicate HasPair(matches: seq<MatchRecord>, record: MatchRecord)
  {
    exists i :: 0 <= i < |matches| && SamePair(matches[i], record)
  }

  /** The stored list after a found match: unchanged if the pair is there, else the record appended. */
  function WithMatch(matches: seq<MatchRecord>, record: MatchRecord): seq<MatchRecord>
  {
    if HasPair(matches, record) then matches else matches + [record]
  }

  /** The record `decryptMatchResult` stores: both addresses lower-cased, block number 0. */
  function NewMatchRecord(signer: Text, other: Text, now: int): MatchRecord
  {
    MatchRecord(ToLower(signer), ToLower(other), now, 0)
  }

  /**
   * The stored record names the signer and the matched address, each up to
   * case and with no capital left, stamped with the time and block number 0.
   */
  lemma NewMatchRecordNormalised(signer: Text, other: Text, now: int)
    ensures var record := NewMatchRecord(signer, other, now);
      TextsSameUpToCase(record.userA, signer) && TextsSameUpToCase(record.userB, other) &&
      ToLower(record.userA) == record.userA && ToLower(record.userB) == record.userB &&
      record.timestamp == now && record.blockNumber == 0
  {
    ToLowerIdempotent(signer);
    ToLowerIdempotent(other);
    ToLowerEqualIff(ToLower(signer), signer);
    ToLowerEqualIff(ToLower(other), other);
  }

  /** The `matches.some(...)` test followed by `matches.push(matchRecord)` when it fails. */
  method RecordMatch(matches: seq<MatchRecord>, record: MatchRecord) returns (updated: seq<MatchRecord>)
    ensures HasPair(matches, record) ==> updated == matches
    ensures !HasPair(matches, record) ==> updated == matches + [record]
  {
    var matchExists := false;
    var i := 0;
    while i < |matches| && !matchExists
      invariant 0 <= i <= |matches|
      invariant matchExists <==> exists k :: 0 <= k < i && SamePair(matches[k], record)
    {
      matchExists := SamePair(matches[i], record);
      i := i + 1;
    }
    updated := matches;
    if !matchExists {
      updated := updated + [record];
    }
  }

  /** No two records of the list name the same pair. */
  predicate PairsDistinct(matches: seq<MatchRecord>)
  {
    forall i, j :: 0 <= i < j < |matches| ==> !SamePair(matches[i], matches[j])
  }

  /** Storing a match keeps the list free of repeated pairs, and leaves the pair in it. */
  lemma WithMatchKeepsPairsDistinct(matches: seq<MatchRecord>, record: MatchRecord)
    requires PairsDistinct(matches)
    ensures PairsDistinct(WithMatch(matches, record))
    ensures HasPair(WithMatch(matches, record), record)
    ensures WithMatch(matches, record)[..|matches|] == matches
  {
    var updated := WithMatch(matches, record);
    if !HasPair(matches, record) {
      assert updated[|matches|] == record;
      forall i, j | 0 <= i < j < |updated| ensures !SamePair(updated[i], updated[j]) {
        if j == |matches| {
          assert !SamePair(matches[i], record);
        }
      }
    }
  }

  /** Storing the same pair again, in either orientation, changes nothing. */
  lemma WithMatchIdempotent(matches: seq<MatchRecord>, record: MatchRecord, again: MatchRecord)
    requires SamePair(record, again)
    ensures WithMatch(WithMatch(matches, record), again) == WithMatch(matches, record)
  {
    var updated := WithMatch(matches, record);
    if HasPair(matches, record) {
      var i :| 0 <= i < |matches| && SamePair(matches[i], record);
      assert SamePair(updated[i], again);
    } else {
      assert SamePair(updated[|matches|], again);
    }
  }

  /**
   * The work `decryptMatchResult` does with the decrypted value: the new
   * match result, and the stored list of matches afterwards. A match is
   * stored only for clear value 1 and a non-empty other address.
   */
  method FinishDecryption(handle: Text, clear: ClearValue, signer: Text, other: Option<Text>, now: int,
                          stored: seq<MatchRecord>)
    returns (result: MatchResult, updated: seq<MatchRecord>)
    ensures result.handle == handle && result.clear == MatchClearNumber(clear)
    ensures updated == if result.clear == 1 && other.Some? && other.value != []
                       then WithMatch(stored, NewMatchRecord(signer, other.value, now))
                       else stored
  {
    var clearValueNumber := MatchClearNumber(clear);
    result := MatchResult(handle, clearValueNumber);
    updated := stored;
    if clearValueNumber == 1 {
      if other.Some? && other.value != [] {
        var matchRecord := NewMatchRecord(signer, other.value, now);
        updated := RecordMatch(stored, matchRecord);
      }
    }
  }

  // ---------------------------------------------------------------------------
  // Assembling a conversation (`getMessages`)
  // ---------------------------------------------------------------------------

  /** The number a decrypted message word becomes: as for a match result, except that other values go through `Number`. */
  function WordClearNumber(v: ClearValue): int
  {
    match v
    case BigIntValue(n) => n
    case BoolValue(b) => if b then 1 else 0
    case OtherValue(x) => x
  }

  /** The two readings of a clear value differ only on values that are neither bigint nor boolean. */
  lemma ClearMappingsAgree(v: ClearValue)
    ensures !v.OtherValue? ==> WordClearNumber(v) == MatchClearNumber(v)
    ensures v.OtherValue? ==> MatchClearNumber(v) == 0 && WordClearNumber(v) == v.asNumber
  {
  }

  /** The words of one direction: the clear value of each handle in order, skipping handles without one. */
  function DirectionWords(handles: seq<Text>, decrypted: map<Text, ClearValue>): (words: seq<int>)
    ensures |words| <= |handles|
  {
    if handles == [] then []
    else
      var init := DirectionWords(handles[..|handles| - 1], decrypted);
      var handle := handles[|handles| - 1];
      if handle in decrypted then init + [WordClearNumber(decrypted[handle])] else init
  }

  datatype ChatMessage = ChatMessage(message: Bytes, from: Text, to: Text)

  /** Each message wrapped with its sender and recipient. */
  function Tagged(messages: seq<Bytes>, from: Text, to: Text): seq<ChatMessage>
  {
    seq(|messages|, k requires 0 <= k < |messages| => ChatMessage(messages[k], from, to))
  }

  /** Tagging goes message by message: tagging a concatenation concatenates the tagged parts. */
  lemma TaggedAppend(a: seq<Bytes>, b: seq<Bytes>, from: Text, to: Text)
    ensures Tagged(a + b, from, to) == Tagged(a, from, to) + Tagged(b, from, to)
  {
  }

  /** The tagged list keeps the messages, in order, each from `from` to `to`. */
  lemma TaggedKeepsMessages(messages: seq<Bytes>, from: Text, to: Text)
    ensures |Tagged(messages, from, to)| == |messages|
    ensures forall k :: 0 <= k < |messages| ==>
      Tagged(messages, from, to)[k].message == messages[k] &&
      Tagged(messages, from, to)[k].from == from && Tagged(messages, from, to)[k].to == to
  {
  }

  /** The messages of both directions: all from `from` to `to`, then all from `to` to `from`. */
  function Conversation(from: Text, to: Text, handlesFrom: seq<Text>, handlesTo: seq<Text>,
                        decrypted: map<Text, ClearValue>, isBlank: Bytes -> bool): seq<ChatMessage>
  {
    Tagged(Messages(DirectionWords(handlesFrom, decrypted), isBlank), from, to)
    + Tagged(Messages(DirectionWords(handlesTo, decrypted), isBlank), to, from)
  }

  /** The `for (const handle of ...)` loop that collects one direction's words. */
  method CollectWords(handles: seq<Text>, decrypted: map<Text, ClearValue>) returns (words: seq<int>)
    ensures words == DirectionWords(handles, decrypted)
  {
    words := [];
    for i := 0 to |handles|
      invariant words == DirectionWords(handles[..i], decrypted)
    {
      assert handles[..i + 1][..i] == handles[..i];
      var handle := handles[i];
      if handle in decrypted {
        words := words + [WordClearNumber(decrypted[handle])];
      }
    }
    assert handles[..|handles|] == handles;
  }

  /** The `messages.forEach(msg => allMessages.push(...))` loop. */
  method PushTagged(all: seq<ChatMessage>, messages: seq<Bytes>, from: Text, to: Text)
    returns (r: seq<ChatMessage>)
    ensures r == all + Tagged(messages, from, to)
  {
    r := all;
    for k := 0 to |messages|
      invariant r == all + Tagged(messages[..k], from, to)
    {
      r := r + [ChatMessage(messages[k], from, to)];
    }
    assert messages[..|messages|] == messages;
  }

  /** One direction's `if (handles.length > 0) { ... }` block: collect, split, tag and append. */
  method AddDirection(all: seq<ChatMessage>, handles: seq<Text>, decrypted: map<Text, ClearValue>,
                      isBlank: Bytes -> bool, from: Text, to: Text)
    returns (r: seq<ChatMessage>)
    ensures r == all + Tagged(Messages(DirectionWords(handles, decrypted), isBlank), from, to)
  {
    r := all;
    if |handles| > 0 {
      var words := CollectWords(handles, decrypted);
      var messages := WordsToMessages(words, isBlank);
      r := PushTagged(r, messages, from, to);
    } else {
      NoHandlesNoMessages(decrypted, isBlank, from, to);
      assert r == all + [];
    }
  }

  /**
   * `getMessages` once both handle lists are read and decrypted: nothing
   * (`null`) while a load is in flight, without contract, FHE instance,
   * provider or signer (`ready` covers all four), for invalid addresses, for no handles at all, or when no
   * message survives; otherwise the conversation, each direction split on
   * its own.
   */
  method GetMessages(busy: bool, ready: bool, addressesValid: bool, from: Text, to: Text, handlesFrom: seq<Text>, handlesTo: seq<Text>,
                     decrypted: map<Text, ClearValue>, isBlank: Bytes -> bool)
    returns (r: Option<seq<ChatMessage>>)
    ensures busy || !ready || !addressesValid ==> r == None
    ensures !busy && ready && addressesValid ==>
      var all := Conversation(from, to, handlesFrom, handlesTo, decrypted, isBlank);
      r == if all == [] then None else Some(all)
  {
    if busy || !ready || !addressesValid {
      return None;
    }
    if |handlesFrom| + |handlesTo| == 0 {
      NoHandlesNoConversation(from, to, handlesFrom, handlesTo, decrypted, isBlank);
      return None;
    }
    ghost var fromPart := Tagged(Messages(DirectionWords(handlesFrom, decrypted), isBlank), from, to);
    ghost var toPart := Tagged(Messages(DirectionWords(handlesTo, decrypted), isBlank), to, from);
    var allMessages := AddDirection([], handlesFrom, decrypted, isBlank, from, to);
    assert allMessages == fromPart;
    allMessages := AddDirection(allMessages, handlesTo, decrypted, isBlank, to, from);
    assert allMessages == fromPart + toPart == Conversation(from, to, handlesFrom, handlesTo, decrypted, isBlank);
    r := if |allMessages| > 0 then Some(allMessages) else None;
  }

  lemma NoHandlesNoMessages(decrypted: map<Text, ClearValue>, isBlank: Bytes -> bool, from: Text, to: Text)
    ensures Tagged(Messages(DirectionWords([], decrypted), isBlank), from, to) == []
  {
    KeptEmpty(isBlank);
  }

  lemma NoHandlesNoConversation(from: Text, to: Text, handlesFrom: seq<Text>, handlesTo: seq<Text>,
                                decrypted: map<Text, ClearValue>, isBlank: Bytes -> bool)
    requires handlesFrom == [] && handlesTo == []
    ensures Conversation(from, to, handlesFrom, handlesTo, decrypted, isBlank) == []
  {
    NoHandlesNoMessages(decrypted, isBlank, from, to);
    NoHandlesNoMessages(decrypted, isBlank, to, from);
  }

  /** Every handle of the direction decrypts to the clear word at its position. */
  predicate DecryptsTo(handles: seq<Text>, decrypted: map<Text, ClearValue>, words: seq<int>)
  {
    |handles| == |words| &&
    forall k :: 0 <= k < |handles| ==> handles[k] in decrypted && decrypted[handles[k]] == BigIntValue(words[k])
  }

  lemma {:induction false} DirectionWordsOfDecrypted(handles: seq<Text>, decrypted: map<Text, ClearValue>, words: seq<int>)
    requires DecryptsTo(handles, decrypted, words)
    ensures DirectionWords(handles, decrypted) == words
    decreases |handles|
  {
    if handles != [] {
      var n := |handles| - 1;
      DirectionWordsOfDecrypted(handles[..n], decrypted, words[..n]);
      assert words == words[..n] + [words[n]];
    }
  }

  /**
   * End to end: when each direction's handles decrypt to the words of the
   * messages sent that way, the conversation is those messages, all of one
   * direction and then all of the other, each in the order sent.
   */
  lemma ConversationOfSentMessages(from: Text, to: Text, handlesFrom: seq<Text>, handlesTo: seq<Text>,
                                   decrypted: map<Text, ClearValue>, isBlank: Bytes -> bool,
                                   sentFrom: seq<Bytes>, sentTo: seq<Bytes>)
    requires forall i :: 0 <= i < |sentFrom| ==> Deliverable(sentFrom[i], isBlank)
    requires forall i :: 0 <= i < |sentTo| ==> Deliverable(sentTo[i], isBlank)
    requires DecryptsTo(handlesFrom, decrypted, EncodeAll(sentFrom))
    requires DecryptsTo(handlesTo, decrypted, EncodeAll(sentTo))
    ensures Conversation(from, to, handlesFrom, handlesTo, decrypted, isBlank)
         == Tagged(sentFrom, from, to) + Tagged(sentTo, to, from)
  {
    DirectionWordsOfDecrypted(handlesFrom, decrypted, EncodeAll(sentFrom));
    DirectionWordsOfDecrypted(handlesTo, decrypted, EncodeAll(sentTo));
    DecodeEncodeAll(sentFrom, isBlank);
    DecodeEncodeAll(sentTo, isBlank);
  }
}
