# lnreceipt signature recovery, modelled in Dafny

lnreceipt shows a receipt for a paid Lightning invoice. Part of the receipt
is the public key of the node that signed the BOLT11 invoice. The code in
`composables/utils.ts` recovers that key. It rebuilds the bytes the
signature covers from the decoded invoice's sections. It hashes them with
SHA-256 and recovers the key from the compact secp256k1 signature. The
key comes back as lower-case hex.

This project models that core:

- `strToHex`, `byteArrayToHexString` and `hexToArrayBuffer`
  (module `Hex`, file `hex.dfy`).
- `bech32To8BitArray` (module `Bech32`, file `bech32.dfy`).
- `getPubkeyFromSignature` (module `Signature`, file `signature.dfy`).

The JavaScript built-ins they rely on are written out in module
`JsBuiltins` (`js_builtins.dfy`):

- the int32 conversion behind `<<`, `>>` and `&`;
- `Number.prototype.toString(16)`;
- `parseInt(_, 16)`;
- `indexOf`, and the first two pieces of `split`;
- storing a number into a `Uint8Array`.

Module `Bits` (`bits.dfy`) holds bit strings and division facts.
`wrappers.dfy` holds `Option` and `Result`.

How each operation is modelled:

- **`hexToArrayBuffer`** fills a `Uint8Array` pair by pair. The model is
  the method `Hex.HexToArrayBuffer`, over a Dafny `array<byte>`. It is
  proved to compute `Hex.DecodeHex`.
- **`bech32To8BitArray`** is the method `Bech32.Bech32To8BitArray`. It
  keeps the source's 32-bit register `buffer`, its `count`, and the inner
  `while (count >= 8)` loop, which lives in `Consume`, the `forEach`
  callback. It is proved to compute `Bech32.Packed`, a fold over the 5-bit
  values that keeps only the bits not yet emitted. The lemmas then relate
  `Packed` to the bits of the groups:
  - length;
  - bit layout and padding;
  - the round trip back to the groups;
  - injectivity.
- **`getPubkeyFromSignature`** is a function. SHA-256 and the
  secp256k1 library are its parameters: `sha256` maps bytes to a digest,
  and `recover` maps the compact signature text, the recovery id and the
  digest to the compressed key, or to None when the library throws.
- The three ways the source ends without a key are told apart by
  `Signature.Failure`:
  - `NotRecoverable`: one of the three `return null`.
  - `MissingDataPart`: `split(prefix + separator)[1]` is undefined, so
    the `.split` call on it throws.
  - `RecoveryFailed`: the curve library throws.
  - `InvalidEncoding` is never produced by the code as written; only the
    corrected reconstruction `Signature.CheckedSigningData` uses it.

Behaviour of the code that the model keeps as written:

- When `prefix + separator` does not occur in the payment request,
  `splitInvoice[1]` is undefined and the code throws instead of returning
  `null`. The model returns `MissingDataPart`.
- The prefix is the letters of the `lightning_network`, `coin_network`
  and `amount` sections, joined in the order the sections appear in the
  decoded invoice (the `filter` keeps section order). For an invoice whose
  sections come in BOLT #11 order this is the human-readable part before
  the separator, whatever values the sections carry:
  `Signature.PrefixOfInvoice` states it for an invoice with an amount and
  `Signature.PrefixOfAmountlessInvoice` for one without, whose prefix is
  only the network and coin letters.
- A character outside the bech32 alphabet is not rejected. It is read as
  -1 and added into the register (see Findings). `Signature.SigningData`
  models this as written. `Signature.CheckedSigningData` is the corrected
  reconstruction: it fails with `InvalidEncoding` for such a data part and
  otherwise uses the corrected decoder `Bech32.Bech32ToBytes`.
- The recovery id is whatever `parseInt` gives for the last two
  characters, NaN included; the code does not check that it is 0..3 and
  hands it to the curve library, and so does the model.

## Model

| member | source | states |
|---|---|---|
| Hex.StrToHex | composables/utils.ts:58-63 | every character of the result is a lower-case hex digit, and each character code gives at least one digit |
| Hex.StrToHexCodes | composables/utils.ts:58-63 | for character codes 0x10..0xFF, each character gives exactly two digits, and decoding the result as hex gives back the character codes |
| Hex.TwoDigitCode | composables/utils.ts:61 | `c.toString(16)` for a code 0x10..0xFF is two digits that decode back to c |
| Hex.ByteToHex | composables/utils.ts:76-77 | `('0' + (byte & 0xff).toString(16)).slice(-2)` is the high and then the low hex digit of the byte, for every byte |
| Hex.ByteArrayToHexString | composables/utils.ts:73-79 | the result has two characters per byte, all hex digits, with byte i written at positions 2i and 2i+1 as its high and low digit |
| Hex.HexRoundTrip | composables/utils.ts:65-79 | decoding the hex string of any byte array gives the bytes back |
| Hex.HexToArrayBuffer | composables/utils.ts:65-71 | the buffer is newly allocated, holds floor(n/2) bytes, and its contents are DecodeHex of the string |
| Hex.DecodeHexDigits | composables/utils.ts:65-71 | on a string of hex digits of either case, byte i is 16 times the value of character 2i plus the value of character 2i+1 |
| Hex.DecodeHexAppend | composables/utils.ts:65-71 | decoding splits at an even boundary: DecodeHex(a + b) is DecodeHex(a) + DecodeHex(b) when a has even length |
| Hex.CharCodes | composables/utils.ts:60-61 | `split('')` then `charCodeAt(0)`: one code per character, in order |
| Hex.Pairs | composables/utils.ts:66-68 | the `substr(i * 2, 2)` pieces: floor(n/2) of them; DecodeHexAt gives piece i |
| Hex.PairByte | composables/utils.ts:68 | `parseInt(pair, 16)` stored into a Uint8Array; PairByteDigits gives its value on hex digits |
| Hex.DecodeHex | composables/utils.ts:65-71 | what `hexToArrayBuffer` fills in: floor(n/2) bytes; DecodeHexAt, DecodeHexDigits and DecodeHexAppend give its meaning |
| Hex.DecodeHexAt | composables/utils.ts:67-68 | byte i comes from the characters at 2i and 2i+1 |
| Hex.PairByteDigits | composables/utils.ts:68 | a pair of hex digits stored into the Uint8Array is stored as its value |
| JsBuiltins.NatToHex | composables/utils.ts:61 | `n.toString(16)`: lower-case digits, no leading zero, reading back to n, one digit exactly when n < 16 |
| JsBuiltins.ParseInt16Digits | composables/utils.ts:68 | `parseInt(s, 16)` of a non-empty string of hex digits is the digits' value |
| JsBuiltins.ParseInt16Pair | composables/utils.ts:140 | two hex digits parse to 16 times the first plus the second |
| JsBuiltins.ParseInt16NoDigits | composables/utils.ts:140 | a string with no hex digit parses to NaN |
| JsBuiltins.ToUint8 | composables/utils.ts:68 | storing into a Uint8Array keeps a value in 0..255 unchanged |
| JsBuiltins.ToInt32 | composables/utils.ts:90 | the int32 conversion lies in the signed 32-bit range and is congruent to its argument modulo 2^32 |
| JsBuiltins.ToInt32Low | composables/utils.ts:90 | the int32 conversion keeps the low c bits, for c up to 32 |
| JsBuiltins.IndexOf | composables/utils.ts:83 | `indexOf` gives the first occurrence at or after `from`, or None when there is none |
| JsBuiltins.SplitFirst | composables/utils.ts:134 | `split(sep)[0]` is a piece of s starting at 0: no occurrence of sep starts inside it, and it ends at an occurrence of sep or the end of s; it is shorter than s exactly when sep occurs, and then its length is the first occurrence |
| JsBuiltins.PieceUnique | composables/utils.ts:132-134 | a piece of `split` is determined by where it starts |
| JsBuiltins.SplitFirstExact | composables/utils.ts:134 | any piece starting at 0 is `split(sep)[0]` |
| JsBuiltins.SplitSecondExact | composables/utils.ts:132-134 | any piece starting right after the first occurrence of sep is `split(sep)[1]` |
| JsBuiltins.SplitSecondAt | composables/utils.ts:132-134 | when sep first occurs at i, `split(sep)[1]` is defined and is the piece starting right after it |
| JsBuiltins.SplitSecond | composables/utils.ts:132-134 | `split(sep)[1]` is undefined exactly when sep does not occur; otherwise it is the piece right after the first occurrence: no occurrence starts inside it and it ends at the next occurrence or the end |
| JsBuiltins.ParseInt16 | composables/utils.ts:68 | `parseInt(s, 16)` (also used at line 140), None for NaN; its meaning is given by ParseInt16Digits, ParseInt16Pair and ParseInt16NoDigits |
| JsBuiltins.ShiftLeft | composables/utils.ts:90 | `x << k` is an int32 whose low k bits are zero; PushMatches and FlushMatches give the bits it keeps |
| JsBuiltins.ShiftRight | composables/utils.ts:94 | `x >> k`; TopByte and EmitMatches give the byte it exposes |
| JsBuiltins.And255 | composables/utils.ts:94-100 | `x & 255` is in 0..255 and is x modulo 256, the low eight bits of x |
| Bech32.CharIndex | composables/utils.ts:82-83 | `indexOf` in the alphabet is -1 exactly for characters outside it; otherwise it is the first position holding the character |
| Bech32.Indices | composables/utils.ts:83 | one value per character; all values are 5-bit groups exactly when every character is in the alphabet, and then each value spells its character |
| Bech32.Bech32To8BitArray | composables/utils.ts:81-104 | the bytes returned are Packed(Indices(str)), for every string, valid or not |
| Bech32.Consume | composables/utils.ts:89-97 | one call of the forEach callback keeps count < 8 and moves the register and output to the fold's next state |
| Bech32.PushState | composables/utils.ts:90-91 | `buffer = (buffer << 5) + value; count += 5` on the register is one push in the fold |
| Bech32.EmitState | composables/utils.ts:93-96 | one turn of `while (count >= 8)` on the register is one emitted byte in the fold |
| Bech32.PushMatches | composables/utils.ts:90 | the low count + 5 bits of `(buffer << 5) + value` are the pushed bits, despite the 32-bit wrap-around |
| Bech32.EmitMatches | composables/utils.ts:94 | `(buffer >> (count - 8)) & 255` is the top eight of the low count bits, and the low count - 8 bits are what remains |
| Bech32.FlushMatches | composables/utils.ts:99-101 | `(buffer << (8 - count)) & 255` is the low count bits followed by zero bits |
| Bech32.Push | composables/utils.ts:90-91 | five more pending bits and the output unchanged; PushGroup gives the bits for a 5-bit group, PushMatches ties it to the register |
| Bech32.Emit | composables/utils.ts:94-95 | eight fewer pending bits and one more byte; EmitMatches ties it to the register |
| Bech32.Step | composables/utils.ts:89-97 | one value of the forEach; Consume is proved to perform it |
| Bech32.Packed | composables/utils.ts:81-104 | the bytes `bech32To8BitArray` returns; PackedLength, PackedBits and UnpackPacked give its meaning |
| Bech32.Drain | composables/utils.ts:93-96 | the inner loop stops with fewer than eight bits pending |
| Bech32.DrainLength | composables/utils.ts:93-96 | the inner loop emits one byte per eight pending bits and keeps pending mod 8 bits |
| Bech32.DrainBits | composables/utils.ts:93-96 | the inner loop loses no bit and keeps the order: output bits followed by pending bits are unchanged |
| Bech32.Feed | composables/utils.ts:89-97 | after the forEach loop fewer than eight bits are pending |
| Bech32.FeedLength | composables/utils.ts:89-97 | after n values, 5n mod 8 bits are pending and 5n div 8 bytes have been emitted |
| Bech32.PushGroup | composables/utils.ts:90 | pushing a 5-bit group appends its five bits to the pending bits |
| Bech32.FeedBits | composables/utils.ts:89-97 | for 5-bit groups, the emitted bytes' bits followed by the pending bits are the groups' bits, in order |
| Bech32.Flush | composables/utils.ts:99-101 | the final push adds one byte exactly when bits are pending |
| Bech32.FlushBits | composables/utils.ts:99-101 | the final byte holds the pending bits followed by zero padding |
| Bech32.PackedLength | composables/utils.ts:81-104 | n characters give ceil(5n/8) bytes |
| Bech32.PackedBits | composables/utils.ts:81-104 | for 5-bit groups, the bytes' bits are the groups' bits followed by fewer than eight zero bits |
| Bech32.UnpackPacked | composables/utils.ts:81-104 | round trip: reading 5-bit groups back from the packed bytes gives the groups |
| Bech32.InvalidCharacterAliases | composables/utils.ts:83-90 | "qb" is not a bech32 string and "ll" is, yet both pack to the same bytes |
| Bech32.Bech32ToBytes | composables/utils.ts:81-104 | the corrected decoder returns bytes exactly when every character is in the alphabet |
| Bech32.Bech32ToBytesBits | composables/utils.ts:81-104 | the corrected decoder's bytes hold the characters' 5-bit values bit by bit, padded with fewer than eight zeros |
| Bech32.Bech32ToBytesInjective | composables/utils.ts:81-104 | two data parts of equal length that decode to the same bytes are equal |
| Signature.FindIndex | composables/utils.ts:107 | the position of the first section with the name, or None exactly when no section has it |
| Signature.Find | composables/utils.ts:107 | `find` returns None exactly when no section has the name; otherwise the first section with that name |
| Signature.UsableSignatureFirst | composables/utils.ts:107-111 | the signature check passes exactly when the first `signature` section has non-empty letters and value |
| Signature.UsableSignature | composables/utils.ts:107-111 | the first `signature` section when its letters and value are truthy; UsableSignatureFirst states it |
| Signature.Prefix | composables/utils.ts:113-120 | the joined letters of the prefix sections; PrefixAppend, PrefixEmpty, PrefixOfInvoice and PrefixOfAmountlessInvoice give its meaning |
| Signature.Separator | composables/utils.ts:126 | the letters of the first `separator` section; NotRecoverableCases uses it for the check at line 128 |
| Signature.DataPartOf | composables/utils.ts:132-134 | `split(marker)[1].split(letters)[0]`, None when `[1]` is undefined; DataPartMissing, DataPartPlace and DataPartExact give its meaning |
| Signature.RecoveryId | composables/utils.ts:140 | `parseInt(value.slice(-2), 16)`; RecoverySplit states it |
| Signature.SignatureValue | composables/utils.ts:141 | `value.slice(0, -2)`; RecoverySplit states it |
| Signature.PrefixAppend | composables/utils.ts:115-120 | the prefix of a concatenation of sections is the concatenation of their prefixes |
| Signature.PrefixEmpty | composables/utils.ts:115-124 | the prefix is empty exactly when no section contributes letters |
| Signature.PrefixOfInvoice | composables/utils.ts:113-120 | network, coin network and amount sections, whatever their values, followed by sections of other names give the three letters joined |
| Signature.PrefixOfAmountlessInvoice | composables/utils.ts:113-120 | an invoice without an amount section: network and coin network sections, whatever their values, followed by sections of other names give the two letters joined |
| Signature.RecoveryCut | composables/utils.ts:140-141 | `slice(-2)` keeps the last two characters, or the whole string when it is shorter |
| Signature.RecoverySplit | composables/utils.ts:140-141 | the compact signature and the last two characters rebuild the value; two trailing hex digits parse to the recovery id |
| Signature.SigningData | composables/utils.ts:106-136 | a rebuilt signing datum has a non-empty prefix, equal to the prefix of the sections, and its hex is at least as long as the prefix's hex |
| Signature.NotRecoverableCases | composables/utils.ts:107-130 | `null` comes back exactly when the signature section is unusable, the prefix is empty, or the separator is missing or empty |
| Signature.MissingDataPartCase | composables/utils.ts:132-134 | past the null checks, the call throws exactly when `prefix + separator` does not occur in the payment request |
| Signature.DataPartMissing | composables/utils.ts:132-134 | the data part is missing exactly when the marker does not occur |
| Signature.DataPartPlace | composables/utils.ts:132-134 | the data part is the piece of the letters-split that starts the piece of the marker-split right after the first occurrence of the marker: it starts there, runs up to the first occurrence of the signature letters, the next marker or the end, and contains no occurrence of the letters |
| Signature.DataPartExact | composables/utils.ts:132-134 | conversely, text placed that way is the data part, so the placement fixes it |
| Signature.SignedData | composables/utils.ts:132-134 | the data of a rebuilt signing datum is the data part cut from the payment request |
| Signature.SigningDataBytes | composables/utils.ts:136-138 | for prefix codes 0x10..0xFF, the signing data decodes to the prefix's character codes followed by the packed data part; for a bech32 data part those are the corrected decoder's bytes |
| Signature.SigningDataInjective | composables/utils.ts:134-136 | with the same prefix, bech32 data parts of the same length that give the same signing data are the same |
| Signature.SignedSignature | composables/utils.ts:140-141 | the recovery id and compact signature come from the usable signature section's value |
| Signature.CheckedSigningData | composables/utils.ts:83-136 | the corrected reconstruction fails with InvalidEncoding exactly when the code as written succeeds with a data part that is not bech32; a success always has a bech32 data part |
| Signature.CheckedAgrees | composables/utils.ts:106-136 | the corrected reconstruction equals the code as written exactly when that fails or the data part is bech32 |
| Signature.CheckedInjective | composables/utils.ts:134-136 | with the corrected reconstruction, same prefix, same data-part length and same signing data mean the same data part |
| Signature.GetPubkeyFromSignature | composables/utils.ts:106-147 | a key comes back only when the signing data was rebuilt, and it is all hex digits |
| Signature.PubkeyOutcome | composables/utils.ts:138-146 | earlier failures pass through unchanged; a key comes back exactly when the curve library recovers one, and it is that key's bytes in hex; otherwise the failure is RecoveryFailed |

## Left out

- SHA-256 (`crypto.subtle.digest`) and secp256k1 recovery (`Signature.fromCompact`, `addRecoveryBit`, `recoverPublicKey`, `toRawBytes`) are function parameters. The model does not say what they compute.
- The `await` on the digest is not modelled. The function is evaluated as if the digest were returned at once.
- Strings are Dafny strings, whose characters are Unicode scalar values, while JavaScript strings are UTF-16 code units. The model matches the code only for characters up to U+FFFF. A character above U+FFFF is one character here, but two surrogate code units in `split('')`, `charCodeAt` and `indexOf`. Lone surrogates cannot be written at all.
- Hex.StrToHexCodes: proved to round-trip only for codes 0x10..0xFF, because a code below 0x10 gives one digit and a code above 0xFF gives three or four.
- `hexToArrayBuffer` returns `bytes.buffer`. The model returns the byte array itself. There is no view aliasing.
- `Uint8Array.from(byteArray)` is the sequence of bytes. The values are already 0..255, so nothing is truncated.
- Signature.GetPubkeyFromSignature: decodes the signing data with the function `DecodeHex`, not the method `HexToArrayBuffer`. The method is proved to compute `DecodeHex`.
- Bech32.InvalidCharacterAliases: states that the two inputs collide. It does not state the bytes they pack to.
- The BOLT11 decoder that produces the sections is not part of this model. Its output is the input datatype `DecodedInvoice`.
- The rest of the repository is not part of this model: the UI helpers in `composables/utils.ts` (`cn`, the clipboard and form helpers), the middleware, the server routes and the page components.

## Findings

| source | as written | input that shows it | evidently intended | confidence | as-written member | corrected member |
|---|---|---|---|---|---|---|
| composables/utils.ts:83-90 | `indexOf` gives -1 for a character outside the bech32 alphabet, and `(buffer << 5) + value` adds that -1 into the register, borrowing from the bits already pending | the data parts "qb" and "ll": 'b' is not in the alphabet and "qb" gives the values [0, -1], which pack to the same bytes as [31, 31] from "ll" | reject a data part with a character outside the alphabet; distinct data parts of one length then give distinct bytes | not executed | Bech32.InvalidCharacterAliases | Bech32.Bech32ToBytes (with Bech32.Bech32ToBytesInjective; used by Signature.CheckedSigningData, with Signature.CheckedInjective) |
