# LoveKnot client core in Dafny

LoveKnot is a dating dApp on an FHE-enabled EVM chain. Users register an
encrypted crush target, check whether a crush is mutual, and exchange
messages as encrypted 32-bit words. This project models the three parts of
the browser client that carry the logic:

- `message_encoding.dfy` (module `MessageEncoding`) covers
  `utils/messageEncoding.ts`:
  - packing a message into little-endian 32-bit words ended by the separator
    0xFFFFFFFF (a loop, modelled as a method proved against the function
    `Encode`);
  - turning words back into text (a method proved against `DecodeOne`);
  - splitting a stream of words into messages, with blank messages dropped
    (a method proved against `Messages`).

  Text is modelled as its UTF-8 bytes. `TextEncoder` and `TextDecoder` are
  the identity on that view. `text.trim().length === 0` is a predicate
  `isBlank` that the caller supplies.
- `love_knot_hook.dfy` (module `LoveKnotHook`) covers the pure parts of
  `hooks/useLoveKnot.tsx`:
  - `addressToUint32`;
  - the checks in front of `sendMessage`, including the 100-word cap;
  - the short-circuits of `decryptMatchResult` and how it reads the
    decrypted value;
  - storing a found match without repeating a pair;
  - how `getMessages` builds one conversation from the decrypted words of
    both directions.

  Contract calls, the FHE instance and the signature store are not modelled.
  What they return is passed in as parameters.
- `my_matches.dfy` (module `MyMatches`) covers `app/my-matches/page.tsx`:
  - reading the user's matches back, filtered to the user and sorted newest
    first by an in-place insertion sort on an `array`;
  - the other party of a match;
  - selection toggling;
  - the blank-text guard of `handleSendMessage`.

The main results:

- **Round trips.** Encoding then decoding gives back every message that is
  non-blank, free of 0xFF bytes and not ending in NUL. This holds for one
  message and for any stream of such messages (`DecodeEncodeAll`). End to
  end, a conversation whose handles decrypt to the sent words is exactly
  the sent messages, direction by direction (`ConversationOfSentMessages`).
- **The exact bounds of the send checks.** A non-blank message is too long
  exactly when it has more than 396 bytes.
- **The address projection.** For an address written with "0x" it equals
  the value of the address's last eight hex digits. `ethers.isAddress` also
  accepts the forty digits without "0x", and `BigInt` then misreads them
  as a decimal or binary number, or throws
  (see "## Findings").
- **Stored matches.** The list never holds the same pair twice. Storing a
  match is idempotent in either orientation. A stored match always shows up
  on the user's page with the right other party.

Notes on the source:

- The decoder's `(value >> 8j) & 0xFF` is modelled with Euclidean division
  and remainder. For a positive divisor these floor, as `>>` followed by
  `& 0xFF` does.
- The cap of 100 words includes the separator. So a message may have at
  most 396 UTF-8 bytes, although the status text says "max 400 characters".

## Model

| member | source | states |
|---|---|---|
| MessageEncoding.Pack | loveknot-frontend/utils/messageEncoding.ts:23-30 | one payload word per started group of four bytes |
| MessageEncoding.Encode | loveknot-frontend/utils/messageEncoding.ts:17-37 | length is the payload words plus one for the separator; the separator is the last word; an empty message encodes to the separator alone |
| MessageEncoding.PackWordAt | loveknot-frontend/utils/messageEncoding.ts:23-30 | word k is the little-endian value of bytes 4k..4k+3, missing bytes counting as zero |
| MessageEncoding.StringToWords | loveknot-frontend/utils/messageEncoding.ts:17-37 | the nested encoder loops compute exactly `Encode(message, addSeparator)` |
| MessageEncoding.PartialWordComplete | loveknot-frontend/utils/messageEncoding.ts:26-28 | the inner loop's accumulated value, once stopped by j = 4 or by the end of the bytes, is the full lane word |
| MessageEncoding.ToInt32 | loveknot-frontend/utils/messageEncoding.ts:27 | the signed reading of a word lies in the int32 range and is congruent to it modulo 2^32 |
| MessageEncoding.SignedReadingDecodesAlike | loveknot-frontend/utils/messageEncoding.ts:27 | the signed int32 the encoder really pushes yields the same four bytes as the unsigned word; it is negative exactly when the top byte is 0x80 or more |
| MessageEncoding.WrapKeepsByte | loveknot-frontend/utils/messageEncoding.ts:52 | byte extraction does not change when the value is shifted by 2^32 |
| MessageEncoding.StripTrailingZeros | loveknot-frontend/utils/messageEncoding.ts:58-60 | the result is a prefix that is empty or ends in a nonzero byte, and only zero bytes were dropped |
| MessageEncoding.WordsToString | loveknot-frontend/utils/messageEncoding.ts:45-64 | the byte-extraction loops and the pop loop compute exactly `DecodeOne(values)` |
| MessageEncoding.UnpackAppend | loveknot-frontend/utils/messageEncoding.ts:49-55 | extracting the bytes of a concatenation gives the concatenated bytes |
| MessageEncoding.UnpackPack | loveknot-frontend/utils/messageEncoding.ts:49-55 | extracting the bytes of the payload gives the message followed by the zero padding of its last group |
| MessageEncoding.StripIgnoresZeros | loveknot-frontend/utils/messageEncoding.ts:58-60 | appended zero bytes do not change what stripping leaves |
| MessageEncoding.DecodePackStrips | loveknot-frontend/utils/messageEncoding.ts:45-64 | decoding a payload gives the message without its trailing NUL bytes |
| MessageEncoding.DecodePackRoundTrip | loveknot-frontend/utils/messageEncoding.ts:45-64 | a message that is empty or ends in a nonzero byte is decoded back exactly |
| MessageEncoding.TrailingNulLost | loveknot-frontend/utils/messageEncoding.ts:58-60 | a trailing NUL character is lost in the round trip |
| MessageEncoding.PayloadNeverSeparator | loveknot-frontend/utils/messageEncoding.ts:8 | a message without 0xFF bytes (any UTF-8 text) never packs into the separator word |
| MessageEncoding.SeparatorOnlyAtEnd | loveknot-frontend/utils/messageEncoding.ts:33-35 | an encoded message holds the separator as its last word and nowhere else |
| MessageEncoding.SeparatorCollision | loveknot-frontend/utils/messageEncoding.ts:8 | four 0xFF bytes would pack into the separator itself |
| MessageEncoding.WordsToMessages | loveknot-frontend/utils/messageEncoding.ts:71-99 | the splitting loop and the final-segment step compute exactly `Messages(values, isBlank)` |
| MessageEncoding.SplitAtSeparator | loveknot-frontend/utils/messageEncoding.ts:76-84 | a separator closes the open segment and keeps its message when that is non-empty and not blank |
| MessageEncoding.SplitAtWord | loveknot-frontend/utils/messageEncoding.ts:85-87 | any other word extends the open segment |
| MessageEncoding.KeptAppend | loveknot-frontend/utils/messageEncoding.ts:78-82 | segments are filtered independently of one another |
| MessageEncoding.SegmentsSplit | loveknot-frontend/utils/messageEncoding.ts:75-88 | splitting a stream at a separator gives the segments of the part before it followed by those of the part after |
| MessageEncoding.SegmentsOfRun | loveknot-frontend/utils/messageEncoding.ts:90-96 | a stream without separators is a single segment |
| MessageEncoding.SegmentsSeparatorFree | loveknot-frontend/utils/messageEncoding.ts:75-88 | no segment contains the separator |
| MessageEncoding.JoinSegments | loveknot-frontend/utils/messageEncoding.ts:75-88 | joining the segments with separators gives the original stream back, so splitting loses no word |
| MessageEncoding.MessagesWellFormed | loveknot-frontend/utils/messageEncoding.ts:78-96 | every returned message is non-blank and does not end in a NUL byte; when the empty text counts as blank, as `trim` makes it, every message is non-empty |
| MessageEncoding.LeadingSeparatorIgnored | loveknot-frontend/utils/messageEncoding.ts:78 | a separator at the start of the stream changes nothing |
| MessageEncoding.DoubleSeparatorIgnored | loveknot-frontend/utils/messageEncoding.ts:76-84 | two consecutive separators act as one |
| MessageEncoding.DecodeFirstMessage | loveknot-frontend/utils/messageEncoding.ts:71-99 | the message heading a stream is decoded, and decoding continues after its separator |
| MessageEncoding.DecodeEncodeAll | loveknot-frontend/utils/messageEncoding.ts:71-99 | decoding the concatenated encodings of deliverable messages gives exactly those messages, in order |
| MessageEncoding.DecodeTwoMessages | loveknot-frontend/utils/messageEncoding.ts:71-99 | two encoded messages in a row decode to both |
| MessageEncoding.DecodeUnterminated | loveknot-frontend/utils/messageEncoding.ts:90-96 | a final message without a separator is still decoded |
| MessageEncoding.DecodeUnterminatedLast | loveknot-frontend/utils/messageEncoding.ts:90-96 | an unterminated last message is decoded after a terminated one |
| LoveKnotHook.HexDigitValue | loveknot-frontend/hooks/useLoveKnot.tsx:56 | a hex digit's value is below 16 |
| LoveKnotHook.HexValue | loveknot-frontend/hooks/useLoveKnot.tsx:56 | the value of n hex digits is below 16^n |
| LoveKnotHook.BitAnd | loveknot-frontend/hooks/useLoveKnot.tsx:57 | a bitwise AND is at most either operand |
| LoveKnotHook.MaskIsMod | loveknot-frontend/hooks/useLoveKnot.tsx:57 | AND with 2^k - 1 is the remainder modulo 2^k |
| LoveKnotHook.ParseBigInt | loveknot-frontend/hooks/useLoveKnot.tsx:56 | `BigInt` of an accepted address throws exactly when it is neither "0x"-prefixed, nor a "0b"/"0B" binary literal, nor all decimal digits; with "0x" it is the hex value of the forty digits, and a binary literal gives its binary value |
| LoveKnotHook.AddressToUint32 | loveknot-frontend/hooks/useLoveKnot.tsx:55-58 | as written: it throws exactly when `BigInt` does; otherwise the projection is below 2^32 and is `BigInt`'s reading of the address (hex, binary or decimal) modulo 2^32 |
| LoveKnotHook.AddressLow32 | loveknot-frontend/hooks/useLoveKnot.tsx:55-58 | as intended: the projection is below 2^32 and is the value of the address's last eight hex digits, however the address is spelt |
| LoveKnotHook.LowEightDigits | loveknot-frontend/hooks/useLoveKnot.tsx:57 | a hex number modulo 2^32 is the value of its last eight digits |
| LoveKnotHook.AddressLow32IgnoresPrefix | loveknot-frontend/hooks/useLoveKnot.tsx:55-58 | the intended projection is the same with and without the "0x" prefix |
| LoveKnotHook.UnprefixedAddressMisread | loveknot-frontend/hooks/useLoveKnot.tsx:178-186 | an address of decimal digits without "0x" passes the guard and projects to its decimal reading: "00…010" gives 10, where its last eight hex digits give 16 |
| LoveKnotHook.UnprefixedAddressThrows | loveknot-frontend/hooks/useLoveKnot.tsx:178-186 | an address without "0x" that holds a hex letter and is not a binary literal, "00…0a", passes the guard, and then the projection throws |
| LoveKnotHook.BinaryAddressMisread | loveknot-frontend/hooks/useLoveKnot.tsx:178-186 | an address "0b" followed by binary digits passes the guard and projects to its binary reading: "0b0…010" gives 2, where its last eight hex digits give 16 |
| LoveKnotHook.HexValueAppend | loveknot-frontend/hooks/useLoveKnot.tsx:56 | appending digits shifts the value left by one hex digit each |
| LoveKnotHook.AddressLastEightDigits | loveknot-frontend/hooks/useLoveKnot.tsx:55-58 | for an address written with "0x", the projection as written is the value of its last eight hex digits and agrees with the intended one |
| LoveKnotHook.SendMessage | loveknot-frontend/hooks/useLoveKnot.tsx:513-555 | each early return, as an if-and-only-if over the inputs in the source's order: busy, not ready, recipient not an address, blank text, and more than 396 bytes; otherwise the words handed to encryption are the message's encoding and number at most 100 |
| LoveKnotHook.StartDecryption | loveknot-frontend/hooks/useLoveKnot.tsx:341-358 | nothing happens when busy, not ready or the handle is already decrypted; otherwise the zero handle sets the result 0 without decrypting, and any other handle is requested |
| LoveKnotHook.StartDecryptionSettles | loveknot-frontend/hooks/useLoveKnot.tsx:351-358 | once the zero handle's result is set, asking again for it does nothing |
| LoveKnotHook.IsMatchIff | loveknot-frontend/hooks/useLoveKnot.tsx:415-418 | `MatchClearNumber` counts the decrypted value as a match exactly when it is the bigint 1 or `true` |
| LoveKnotHook.ClearMappingsAgree | loveknot-frontend/hooks/useLoveKnot.tsx:415 | the match result and the message words read bigints and booleans alike; on any other value the match result is 0 and a word is its `Number` |
| LoveKnotHook.ToLower | loveknot-frontend/hooks/useLoveKnot.tsx:430-431 | lower-casing keeps the length, leaves no capital, moves each capital to its small letter and keeps every other character |
| LoveKnotHook.LowerCharEqualIff | loveknot-frontend/hooks/useLoveKnot.tsx:430-431 | two characters lower-case alike exactly when they are the same up to ASCII case |
| LoveKnotHook.ToLowerEqualIff | loveknot-frontend/hooks/useLoveKnot.tsx:430-431 | two texts lower-case alike exactly when they have the same length and agree position by position up to ASCII case |
| LoveKnotHook.ToLowerIdempotent | loveknot-frontend/hooks/useLoveKnot.tsx:430-431 | lower-casing twice is lower-casing once |
| LoveKnotHook.NewMatchRecordNormalised | loveknot-frontend/hooks/useLoveKnot.tsx:424-434 | the stored record names the signer and the matched address up to case, holds no capital, carries the time and block number 0 |
| LoveKnotHook.SamePairIsPairEquality | loveknot-frontend/hooks/useLoveKnot.tsx:441-445 | the duplicate test compares the two users as an unordered pair |
| LoveKnotHook.RecordMatch | loveknot-frontend/hooks/useLoveKnot.tsx:440-450 | the list is unchanged when it already holds the pair in either order; otherwise the record is appended |
| LoveKnotHook.WithMatchKeepsPairsDistinct | loveknot-frontend/hooks/useLoveKnot.tsx:440-450 | storing keeps the list free of repeated pairs, leaves the pair in it and keeps every earlier record in place |
| LoveKnotHook.WithMatchIdempotent | loveknot-frontend/hooks/useLoveKnot.tsx:441-448 | storing the same pair again, in either orientation, changes nothing |
| LoveKnotHook.FinishDecryption | loveknot-frontend/hooks/useLoveKnot.tsx:414-450 | the result carries the handle and the clear number; a match is stored, lower-cased and deduplicated, only for clear value 1 and a non-empty other address |
| LoveKnotHook.DirectionWords | loveknot-frontend/hooks/useLoveKnot.tsx:724-730 | a direction yields at most one word per handle |
| LoveKnotHook.TaggedAppend | loveknot-frontend/hooks/useLoveKnot.tsx:732-734 | tagging a concatenation of messages concatenates the tagged parts |
| LoveKnotHook.TaggedKeepsMessages | loveknot-frontend/hooks/useLoveKnot.tsx:732-734 | the tagged list has one entry per message, in order, each carrying the message and the direction's sender and recipient |
| LoveKnotHook.CollectWords | loveknot-frontend/hooks/useLoveKnot.tsx:724-730 | the loop over the handles collects `DirectionWords` |
| LoveKnotHook.PushTagged | loveknot-frontend/hooks/useLoveKnot.tsx:732-734 | the `forEach` appends the tagged messages after what was already there |
| LoveKnotHook.AddDirection | loveknot-frontend/hooks/useLoveKnot.tsx:722-735 | one direction's block appends that direction's tagged messages, and nothing when it has no handles |
| LoveKnotHook.GetMessages | loveknot-frontend/hooks/useLoveKnot.tsx:617-756 | `null` when busy, not ready, for an invalid address, without handles or without any surviving message; otherwise the messages from `from` followed by those from `to` |
| LoveKnotHook.NoHandlesNoConversation | loveknot-frontend/hooks/useLoveKnot.tsx:672-674 | without handles there is no conversation, so the early `null` agrees with the general rule |
| LoveKnotHook.DirectionWordsOfDecrypted | loveknot-frontend/hooks/useLoveKnot.tsx:724-730 | when every handle decrypts to a bigint, the direction's words are those values in order |
| LoveKnotHook.ConversationOfSentMessages | loveknot-frontend/hooks/useLoveKnot.tsx:718-753 | handles that decrypt to the encodings of the sent messages yield exactly those messages, all of one direction and then all of the other |
| MyMatches.UserMatches | loveknot-frontend/app/my-matches/page.tsx:79-81 | a record is kept exactly when it is stored and names the user in either field, in any case; each kept record occurs as often as it is stored |
| MyMatches.InvolvesIff | loveknot-frontend/app/my-matches/page.tsx:79-80 | the filter keeps a record exactly when one of its two users is the connected address up to ASCII case |
| MyMatches.UserMatchesKeepsPairsDistinct | loveknot-frontend/app/my-matches/page.tsx:78-80 | filtering keeps a list free of repeated pairs |
| MyMatches.PairsDistinctOccursOnce | loveknot-frontend/app/my-matches/page.tsx:82 | in a list free of repeated pairs no record occurs twice |
| MyMatches.PermutationKeepsPairsDistinct | loveknot-frontend/app/my-matches/page.tsx:82 | reordering keeps a list free of repeated pairs |
| MyMatches.StartInsertion | loveknot-frontend/app/my-matches/page.tsx:82 | a sorted prefix plus one new record satisfies the insertion invariant |
| MyMatches.SwapDown | loveknot-frontend/app/my-matches/page.tsx:82 | swapping the new record past an older one keeps the insertion invariant |
| MyMatches.FinishInsertion | loveknot-frontend/app/my-matches/page.tsx:82 | once the new record meets a record at least as new, the prefix is sorted |
| MyMatches.SwapKeepsMultiset | loveknot-frontend/app/my-matches/page.tsx:82 | a swap does not change the records held |
| MyMatches.InsertNewest | loveknot-frontend/app/my-matches/page.tsx:82 | one insertion step extends the sorted prefix by one record, keeps the same records and leaves the part after the step untouched |
| MyMatches.SortNewestFirst | loveknot-frontend/app/my-matches/page.tsx:82 | the array ends up newest first and is a permutation of what it held |
| MyMatches.LoadMatches | loveknot-frontend/app/my-matches/page.tsx:62-86 | empty unless connected with an account and a stored list; otherwise a newest-first permutation of the user's records, and a record is listed exactly when it is stored and names the user; a stored list without repeated pairs gives a displayed list without them |
| MyMatches.OtherPartyCompletesPair | loveknot-frontend/app/my-matches/page.tsx:219-221 | the connected user and the shown other party are the record's two users |
| MyMatches.OtherPartyIsNotMe | loveknot-frontend/app/my-matches/page.tsx:219-221 | for a record of two different users that involves the connected user, the address shown is one of the record's users and not the connected one; the same test is repeated at lines 282-284 |
| MyMatches.IsSelectedIsPairEquality | loveknot-frontend/app/my-matches/page.tsx:223-225 | a match shows as selected exactly when it names the selected record's two users as an unordered pair, and nothing is selected without a selection |
| MyMatches.FoundMatchIsListed | loveknot-frontend/app/my-matches/page.tsx:79-81 | after a match is stored, the signer's list holds a record of that pair, and it shows the matched address as the other party |
| MyMatches.ToggleSelection | loveknot-frontend/app/my-matches/page.tsx:231 | a click selects a match exactly when it was not selected, and selects only that match |
| MyMatches.AtMostOneSelected | loveknot-frontend/app/my-matches/page.tsx:223-225 | in a list without repeated pairs at most one entry shows as selected |
| MyMatches.HandleSendMessage | loveknot-frontend/app/my-matches/page.tsx:288-296 | blank text is ignored and kept; otherwise the input is cleared and the hook is called, which then never reports an empty message; a ready send of at most 396 bytes encrypts the message's encoding |

## Findings

| source | as written | input that shows it | evidently intended | confidence | as-written member | corrected member |
|---|---|---|---|---|---|---|
| loveknot-frontend/hooks/useLoveKnot.tsx:55-58 | `BigInt(address)` reads the address as a number. It is called at line 186, after the `ethers.isAddress` guard at line 178, and that guard also accepts forty hex digits without "0x". Without the prefix `BigInt` reads "0b"/"0B" followed by binary digits as binary, all decimal digits as decimal, and throws a SyntaxError, outside the `try`, on any other string with a letter | "0000000000000000000000000000000000000010" projects to 10 and "0b00000000000000000000000000000000000010" to 2, while the low 32 bits of both are 0x10 = 16; "000000000000000000000000000000000000000a" makes the projection throw | the low 32 bits of the address, the value of its last eight hex digits, whether or not it is written with "0x" | high that the input passes the guard and is misread; not executed | LoveKnotHook.UnprefixedAddressMisread | LoveKnotHook.AddressLow32 |

## Left out

- The smart contract (`LoveKnot.sol`), the deployment script and the contract tests are not part of this model. Only the client's use of the values the contract returns is modelled.
- FHE work is not modelled: encrypted inputs, `userDecrypt`, decryption signatures, and the decryption-signature storage. Their results are parameters: the decrypted map `handle -> ClearValue`, the flag `ready`, and so on.
- Network, wallet and storage I/O are not modelled: `localStorage`, JSON parsing and its errors, transactions and receipts. A missing stored list is `None`. A parse failure (the page's catch branch, which also yields an empty list) is not modelled separately.
- The asynchronous protocol is not modelled: the in-flight refs, the stale-chain and stale-signer checks, status messages, React state and `setTimeout`.
  - The in-flight refs appear only as the input `busy`.
  - Staleness aborts are not represented.
- The retry loop that reloads messages after a send (eight attempts, 1.5 s apart) is left out. It only repeats `getMessages`.
- `registerCrush`, `checkMatch` and `getLoveKnotByChainId` are calls into the contract and chain configuration, which are not part of the model.
- `TextEncoder`/`TextDecoder` are the identity on UTF-8 bytes. Replacement of invalid UTF-8 on decoding is not modelled.
- `String.prototype.trim` is the caller-supplied predicate `isBlank`. Its whitespace set is not fixed.
- LoveKnotHook.ToLower: covers ASCII only, because addresses are hex strings.
- MessageEncoding.WordsToString and LoveKnotHook.DirectionWords take words as mathematical integers. `Number` for a bigint beyond 2^53 and `Number(x)` giving `NaN` for a non-numeric value are not modelled. An `OtherValue` carries the integer `Number` gives.
- LoveKnotHook.FinishDecryption: a handle missing from the decryption result (`undefined`) is represented as an `OtherValue`, which maps to 0 as in the source.
- MyMatches.SortNewestFirst: stability is not stated. The source's `Array.prototype.sort` is stable, so records with equal timestamps keep their stored order there.
- LoveKnotHook.GetMessages: two more `null` returns of the source are not modelled: when `loadOrSign` yields no decryption signature (useLoveKnot.tsx:689-691), and when any awaited call throws (the catch at useLoveKnot.tsx:754-756). The contract describes the result once every call has succeeded.
- LoveKnotHook.SendMessage: `ethers.isAddress` is the input `recipientIsAddress`. Encryption and the transaction after the checks are not modelled.
- LoveKnotHook.SendMessage: the words handed to encryption are the unsigned words of `Encode`. The source's encoder builds each word with `value |= byte << 8j`, which is a negative int32 when the top byte is 0x80 or more, and how `input.add32` (useLoveKnot.tsx:565-567) treats a negative value is not modelled.
- MessageEncoding.StringToWords: computes the unsigned word, where the source's `|=` and `<<` leave a signed int32. `ToInt32` and `SignedReadingDecodesAlike` relate the two readings, and the decoder extracts the same four bytes from both.
- LoveKnotHook.IsAddressText: covers the hex spellings `ethers.isAddress` accepts, with or without "0x". Its ICAP spelling ("XE…") is not modelled, and neither is its checksum test, which rejects a mixed-case address whose case does not match the checksum.
- Rendering, avatars, date formatting and the per-match message cache of the page are UI only.
