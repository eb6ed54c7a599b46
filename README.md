# NFC scanner plugin: a verified model of its codecs and dispatcher

The plugin connects a hybrid web application to the phone's NFC radio.
This project models its two parts that carry logic:

- **`util` of the JavaScript side (`www/NFCScanner.js`).**
  - A UTF-8 encoder (`stringToBytes`) and decoder (`bytesToString`) for strings of 16-bit code units. They use the one-, two- and three-byte forms of section 3 of RFC 3629, and the decoder skips a leading byte-order mark (section 6 of RFC 3629).
  - Three lowercase hex formatters: `toHex`, `bytesToHexString` and `arrayBufferToHexString`.
  - A hex parser, `hexStringToArrayBuffer`.
  - A printable-character filter, `toPrintable`.
- **The Android plugin class (`src/android/NfcScanner.java`).**
  - The NFC status check.
  - The gate and case-insensitive dispatch of `execute`.
  - The `readerModeCallback` field that register and unregister change, and that `onTagDiscovered` delivers to.
  - The uppercase hex encoder `bytesToHex`.

Files:

- `Wrappers.dfy`: `Option` and `Result`.
- `Bits.dfy`: the JavaScript and Java bitwise operators on non-negative integers.
  - `&` and `|` are defined bit by bit.
  - `>>`, `>>>` and `<<` are defined as repeated halving and doubling. Lemmas prove them equal to division and multiplication by 2^k.
  - Further lemmas relate `&` and `|` to `%`, `/`, `*` and `+`.
- `NfcUtil.dfy`: the `util` functions. The loops of `bytesToString`, `stringToBytes` and `bytesToHexString` are methods proved against recursive specification functions. The expression-only helpers are functions.
- `NfcScanner.dfy`: the Android plugin.
  - `NfcScanner` is a class with the `readerModeCallback` field.
  - `CallbackContext` is a class that records every result sent to it.
  - The NFC adapter is an abstract value: missing, disabled or enabled.
  - What `enableReaderMode`/`disableReaderMode` do is a parameter: either nothing, or the message of the exception they throw.
  - `bytesToHex` is a method that fills a fresh `char` array.

Numbers and strings:

- JavaScript numbers are integers here.
- The codec's strings are sequences of UTF-16 code units (0..0xFFFF, surrogates included).
- `bytes[i] & 0xff` on any integer is its remainder mod 256. That is the two's-complement low byte, which `ToInt32` keeps. `Bits.MaskByteFF` proves it.
- `String.fromCharCode(n)` is `n mod 2^16`.

The main results:

- `bytesToString(stringToBytes(s))` is `s` for every string of code units, except that a leading U+FEFF or U+FFFF is lost. Those two are the only first units whose encoding passes the masked byte-order-mark test.
- An explicit byte-order mark in front is dropped.
- Decoding fails exactly when it reaches a lead byte that announces more bytes than remain.
- `hexStringToArrayBuffer` inverts `arrayBufferToHexString` on non-empty buffers. It also reads back what the Java `bytesToHex` writes.
- The two JavaScript hex encoders agree on buffers.
- Every outcome of `execute` is tied to specification functions of the adapter state, the routed action and the callback state. Lemmas state the gate, the routing and how the callback changes.

## Model

| member | source | states |
|---|---|---|
| NfcUtil.HexNumeral | www/NFCScanner.js:21 | `n.toString(16)` for n ≥ 0 is a non-empty string of lowercase hex digits. It has no leading zero and denotes n. It has one digit exactly when n < 16 and at most two exactly when n < 256. |
| NfcUtil.HexDigitValue | www/NFCScanner.js:201 | The value `parseInt` gives one hex digit, in either case, is below 16. |
| NfcUtil.LowerPairIsHex | www/NFCScanner.js:14-29 | The two-digit form of a byte is two lowercase hex digits denoting the byte. |
| NfcUtil.ToHex | www/NFCScanner.js:14-29 | `toHex(i)` is the two lowercase digits of i mod 256 on -256..255. For i ≥ 256 it is the unpadded numeral, three digits or more. Below -256 it is '-' followed by the numeral of -(i + 256). |
| NfcUtil.ToPrintable | www/NFCScanner.js:31-38 | The result is one character with code in 0x20..0x7F or '.'. It is the character with code i exactly when 0x20 ≤ i ≤ 0x7F; otherwise it is '.'. |
| NfcUtil.PadOne | www/NFCScanner.js:24-26 | The zero padding, also used by `bytesToHexString` (lines 126-128): a one-character numeral gets one "0" in front, and every other string is kept. A non-empty numeral comes out with at least two characters. |
| NfcUtil.IsHexOfUnique | www/NFCScanner.js:116-132 | The lowercase hex of a byte sequence is unique. |
| NfcUtil.HexJoinOfBytes | www/NFCScanner.js:116-132 | Joining `toHex` of every element in -256..255 gives 2·n characters. Characters 2k and 2k+1 are the lowercase digits of element k mod 256. |
| NfcUtil.BytesToHexString | www/NFCScanner.js:116-132 | The loop's result is `toHex` of each element, concatenated in order. Hence it has two digits per element of -256..255, denoting it mod 256. |
| NfcUtil.RadixHex | www/NFCScanner.js:21 | `n.toString(16)` starts with '-' exactly for negative n. The rest is a non-empty string of hex digits denoting the absolute value. |
| NfcUtil.LastTwo | www/NFCScanner.js:163 | `slice(-2)` is the last two characters, or the whole string when it is shorter. |
| NfcUtil.ByteToHexString | www/NFCScanner.js:162-164 | `('0' + (byte & 0xFF).toString(16)).slice(-2)` is the two lowercase digits of the byte. |
| NfcUtil.ArrayBufferToHexString | www/NFCScanner.js:161-170 | The result has 2·n characters. Characters 2k and 2k+1 are the lowercase digits of byte k. |
| NfcUtil.HexEncodersAgree | www/NFCScanner.js:116-170 | On a buffer, `bytesToHexString` and `arrayBufferToHexString` give the same string. |
| NfcUtil.IsJsWhitespace | www/NFCScanner.js:181 | The characters `\s` matches. None is a hex digit, 'x', '-' or ':'. Space, tab, line feed and carriage return are among them. |
| NfcUtil.IsDelimiter | www/NFCScanner.js:181 | The class `[\s-:]`. No delimiter is a hex digit or 'x'. Dash, colon and space are delimiters. |
| NfcUtil.RemoveDelimiters | www/NFCScanner.js:181 | Removing `[\s-:]` keeps exactly the non-delimiter characters. It never lengthens the string. |
| NfcUtil.RemoveDelimitersAppend | www/NFCScanner.js:181 | The removal works piecewise: removing from a + b gives the removal from a followed by the removal from b. |
| NfcUtil.InsertDelimiter | www/NFCScanner.js:181 | A space, dash, colon or other whitespace inserted anywhere is removed again. |
| NfcUtil.RemoveHexPrefix | www/NFCScanner.js:184 | A leading lowercase "0x" is dropped and the rest is kept. Any other string is unchanged. |
| NfcUtil.Cleaned | www/NFCScanner.js:181-184 | The two replacements in turn. The result is the string without delimiters, or that string without a leading "0x". It contains no delimiter and no character the input lacks, and is no longer than the input. |
| NfcUtil.HexPairs | www/NFCScanner.js:198 | The global match yields at most ⌊n/2⌋ matches, each of two hex digits. |
| NfcUtil.HexPairsAt | www/NFCScanner.js:198 | Match k is the two characters of the string at position `PairStarts(s)[k]`. Successive positions are at least 2 apart. Every two adjacent hex digits of the string lie within one match. |
| NfcUtil.HexPairsEmpty | www/NFCScanner.js:198 | The match finds nothing exactly when no two hex digits are adjacent. |
| NfcUtil.HexStringToArrayBufferFails | www/NFCScanner.js:178-205 | `hexStringToArrayBuffer` throws (`null.map`) exactly when the string has no two adjacent hex digits after delimiters and a leading `0x` are removed. |
| NfcUtil.HexPairsOfDigits | www/NFCScanner.js:198 | On a string of hex digits the match takes the consecutive pairs and drops a trailing odd digit. |
| NfcUtil.CleanedOfDigits | www/NFCScanner.js:180-184 | Neither replacement changes a string of two or more hex digits. |
| NfcUtil.HexDigitsToArrayBuffer | www/NFCScanner.js:178-205 | A non-empty, even-length string of hex digits, in either case, succeeds. Byte k is 16·digit(2k) + digit(2k+1). |
| NfcUtil.ParseHexOf | www/NFCScanner.js:178-205 | Any lowercase hex string of a non-empty byte sequence parses back to that sequence. |
| NfcUtil.ParseHexPair | www/NFCScanner.js:201 | `parseInt(pair, 16)` on two hex digits is the byte whose high and low hex digits have the values of the first and the second character. |
| NfcUtil.HexStringToArrayBuffer | www/NFCScanner.js:178-205 | A failure is the `null.map` TypeError. A success is a non-empty buffer of at most half as many bytes as the input has characters. |
| NfcUtil.DelimitedHexParses | www/NFCScanner.js:178-205 | The hex of a non-empty byte sequence parses back to it after delimiters are inserted into it, or with "0x" in front. |
| NfcUtil.HexRoundTrip | www/NFCScanner.js:161-205 | `hexStringToArrayBuffer(arrayBufferToHexString(b))` is b for every non-empty buffer. For the empty buffer it throws. |
| NfcUtil.EncodeUnit | www/NFCScanner.js:94-109 | The bytes pushed for one code unit. No contract of its own: `EncodeUnitShape` and `EncodeIsBytes` state its properties. |
| NfcUtil.Width | www/NFCScanner.js:94-109 | The number of bytes pushed for one code unit: 1, 2 or 3, exactly the length of `EncodeUnit`. |
| NfcUtil.EncodeUnitShape | www/NFCScanner.js:94-109 | A code unit below 0x80 is one byte. Below 0x800 it is `110xxxxx 10xxxxxx`. Otherwise it is `1110xxxx 10xxxxxx 10xxxxxx`. The x bits are the unit's bits, high first. |
| NfcUtil.Encode | www/NFCScanner.js:86-114 | The output length is the sum of the per-unit widths 1/2/3. It lies between n and 3·n. |
| NfcUtil.EncodeAppend | www/NFCScanner.js:90-111 | Encoding a concatenation is concatenating the encodings. |
| NfcUtil.StringToBytes | www/NFCScanner.js:86-114 | The loop's bytes are the per-unit encodings in order. |
| NfcUtil.EncodeIsBytes | www/NFCScanner.js:94-109 | Every emitted value is a byte, 0..255. |
| NfcUtil.DecodeUnits | www/NFCScanner.js:54-82 | A successful decode yields between n/3 and n code units. A failure carries the truncation message. |
| NfcUtil.Octet | www/NFCScanner.js:55 | `bytes[i] & 0xff` is the byte congruent to the value mod 256. A value that already is a byte is unchanged. |
| NfcUtil.LeadWidth | www/NFCScanner.js:57-79 | The number of bytes one loop step consumes, chosen by the masked lead byte: 1, 2 or 3. |
| NfcUtil.LeadWidthOfEncoding | www/NFCScanner.js:57-79 | The lead byte `stringToBytes` writes for a code unit makes the decoder step over exactly that unit's bytes. |
| NfcUtil.DecodeUnitsStep | www/NFCScanner.js:55-79 | One loop iteration at index i reads 1, 2 or 3 bytes, chosen by the masked lead byte, or throws when too few remain. |
| NfcUtil.Decode | www/NFCScanner.js:40-84 | A successful decode has at most as many units as there are bytes. A failure carries the truncation message. |
| NfcUtil.HasBom | www/NFCScanner.js:47-48 | The masked test on the first three bytes. No contract of its own: `EncodedBomExactly`, `BomPrefixPasses` and `FirstMaskFails` state its properties. |
| NfcUtil.FromCharCode | www/NFCScanner.js:59 | `String.fromCharCode(n)` is n below 2^16, and otherwise agrees with n mod 2^16. |
| NfcUtil.Unit2 | www/NFCScanner.js:68 | `((c & 31) << 6) \| (c2 & 63)` is (c mod 32)·64 + c2 mod 64. |
| NfcUtil.Unit2Value | www/NFCScanner.js:68 | The same identity, proved from the bitwise definitions. |
| NfcUtil.Unit3 | www/NFCScanner.js:78 | `((c & 15) << 12) \| ((c2 & 63) << 6) \| (c3 & 63)` is (c mod 16)·4096 + (c2 mod 64)·64 + c3 mod 64. |
| NfcUtil.Unit3Value | www/NFCScanner.js:78 | The same identity, proved from the bitwise definitions. |
| NfcUtil.BytesToString | www/NFCScanner.js:40-84 | The loop returns the decoding of the bytes from index 3 when the masked BOM test passes, else from index 0. It throws exactly where that decoding fails. |
| NfcUtil.Unit2Of | www/NFCScanner.js:67-68 | The two-byte formula recovers the code unit from its two-byte form. |
| NfcUtil.Unit3Of | www/NFCScanner.js:76-78 | The three-byte formula recovers the code unit from its three-byte form. |
| NfcUtil.DecodeEncodeUnit | www/NFCScanner.js:54-82 | Decoding one unit's bytes followed by anything yields that unit first, then decodes the rest. |
| NfcUtil.DecodeUnitsEncode | www/NFCScanner.js:54-113 | Decoding from index 0 undoes encoding exactly, for every string of code units. |
| NfcUtil.DecodeUnitsShape | www/NFCScanner.js:54-82 | Each step consumes the lead byte's width (1, 2 or 3), or fails when fewer bytes remain. |
| NfcUtil.DecodeUnitsAppend | www/NFCScanner.js:54-82 | Decoding a concatenation whose first part decodes is decoding each part in turn. |
| NfcUtil.DecodeUnitsFails | www/NFCScanner.js:64-75 | Decoding throws exactly when some position k is reached by whole steps and the lead byte at k announces more bytes than remain. |
| NfcUtil.FailurePoint | www/NFCScanner.js:64-75 | A failing decode has such a stopping position. |
| NfcUtil.FirstMaskFails | www/NFCScanner.js:48 | A byte below 0xEF fails `(b & 0xef) == 0xef`. |
| NfcUtil.EncodedBomLead | www/NFCScanner.js:47-52 | Encoded text passes the BOM test only when its first unit is 0xF000 or more. The bytes after the BOM are then the encoding of the remaining units. |
| NfcUtil.RoundTrip | www/NFCScanner.js:40-114 | `bytesToString(stringToBytes(s))` is s, minus its first unit exactly when the encoding passes the BOM test. |
| NfcUtil.RoundTripExact | www/NFCScanner.js:40-114 | The round trip is exact when s is empty or its first unit is below 0xF000. |
| NfcUtil.BomPrefixPasses | www/NFCScanner.js:47-48 | The bytes EF BB BF pass the masked BOM test. |
| NfcUtil.DecodeSkipsBom | www/NFCScanner.js:47-52 | A leading EF BB BF is skipped and the rest is decoded. |
| NfcUtil.BomOfUnit | www/NFCScanner.js:47-48 | The three bytes of a code unit of 0x800 or more pass the masked BOM test exactly when the unit is U+FEFF or U+FFFF. |
| NfcUtil.EncodedBomExactly | www/NFCScanner.js:47-48 | Encoded text passes the masked BOM test exactly when its first unit is U+FEFF or U+FFFF. |
| NfcUtil.RoundTripMarks | www/NFCScanner.js:40-114 | `bytesToString(stringToBytes(s))` is s without its first unit when that unit is U+FEFF or U+FFFF, and s otherwise. |
| NfcUtil.RoundTripDropsBom | www/NFCScanner.js:40-114 | U+FEFF encodes as EF BB BF, so a leading U+FEFF does not survive the round trip. |
| Bits.And | www/NFCScanner.js:106-107 | `x & y` on non-negative integers, bit by bit. No contract of its own: `AndLowMask`, `AndSplit` and `MaskByteFF` state its properties. |
| Bits.Or | www/NFCScanner.js:100-107 | `x \| y` on non-negative integers, bit by bit. No contract of its own: `OrDisjoint` states its properties. |
| Bits.ShiftRight | www/NFCScanner.js:105-106 | `x >> k` on a non-negative value, as k halvings. No contract of its own: `ShiftRightDiv` states its value. |
| Bits.ShiftLeft | www/NFCScanner.js:78 | `x << k`, as k doublings. No contract of its own: `ShiftLeftMul` states its value. |
| Bits.MaskByte | www/NFCScanner.js:48 | `b & m` on the low byte of any integer b. No contract of its own: `MaskByteFF` states its value for m = 0xFF. |
| Bits.AndLowMask | www/NFCScanner.js:106-107 | `x & (2^k - 1)` is x mod 2^k. |
| Bits.AndSplit | www/NFCScanner.js:48 | `&` acts on the bits at and above 2^k and on the bits below it separately. |
| Bits.ShiftLeftMul | www/NFCScanner.js:78 | `x << k` is x·2^k. |
| Bits.MaskByteFF | www/NFCScanner.js:55 | `x & 0xff` is x mod 256 for every integer x. |
| Bits.ShiftRightDiv | src/android/NfcScanner.java:203 | `x >>> k` on a non-negative value is x / 2^k. |
| Bits.OrDisjoint | www/NFCScanner.js:100-107 | The bitwise or of a value shifted past the bits of another is their sum. |
| NfcScanner.GetNfcStatus | src/android/NfcScanner.java:186-195 | The status is `NO_NFC` exactly without an adapter, `NFC_DISABLED` exactly when it is off, and `NFC_OK` exactly when it is on. |
| NfcScanner.ActionName | src/android/NfcScanner.java:50-54 | The five action strings are non-empty and ASCII. |
| NfcScanner.NameLengths | src/android/NfcScanner.java:50-54 | The five action strings have five different lengths, so no string equals two of them ignoring case. |
| NfcScanner.JavaUpper | src/android/NfcScanner.java:86-95 | `Character.toUpperCase` on the characters whose upper case is ASCII. No contract of its own: `AsciiCaseInverse` states its properties. |
| NfcScanner.JavaLower | src/android/NfcScanner.java:86-95 | `Character.toLowerCase` on the characters whose lower case is ASCII. No contract of its own: `AsciiCaseInverse` states its properties. |
| NfcScanner.AsciiCaseInverse | src/android/NfcScanner.java:86-95 | On ASCII letters the two case mappings are inverse to each other. Other ASCII characters keep their case. |
| NfcScanner.EqualsIgnoreCase | src/android/NfcScanner.java:86-95 | `String.equalsIgnoreCase`. No contract of its own: `EqualsIgnoreCaseAscii` and `NonAsciiMatches` state its properties. |
| NfcScanner.EqualsIgnoreCaseAscii | src/android/NfcScanner.java:86-95 | On ASCII strings the test holds exactly when the lengths agree and each character pair agrees after ASCII lower-casing. |
| NfcScanner.CharEqualsIgnoreCaseOfAscii | src/android/NfcScanner.java:86-95 | Against an ASCII character b, a character matches exactly when it is b, b in the other case, or one of U+0131, U+0130 (for i), U+017F (for s) and U+212A (for k). |
| NfcScanner.EqualsIgnoreCaseOneAscii | src/android/NfcScanner.java:86-95 | Against an ASCII string t, the test holds exactly when the lengths agree and every character matches the one of t in that sense. |
| NfcScanner.NonAsciiMatches | src/android/NfcScanner.java:86-95 | Dotless i matches "i" and the Kelvin sign matches "K", but dotless i does not match "j". |
| NfcScanner.Route | src/android/NfcScanner.java:86-99 | A routed action's name equals the action string, ignoring case. |
| NfcScanner.RouteIff | src/android/NfcScanner.java:86-99 | The string routes to action a exactly when it equals a's name, ignoring case. |
| NfcScanner.RouteOfName | src/android/NfcScanner.java:86-97 | Every action name, in any letter case, routes to its action. |
| NfcScanner.TagPayload | src/android/NfcScanner.java:107-113 | The choice between the NDEF and the tag JSON builder. No contract of its own: `TagResult` states it. |
| NfcScanner.TagResult | src/android/NfcScanner.java:107-116 | The result is OK and keeps the callback. It carries the NDEF JSON exactly when the tech list contains `android.nfc.tech.Ndef`, and otherwise the tag JSON. |
| NfcScanner.NotOkGate | src/android/NfcScanner.java:74-78 | When the status is not `NFC_OK`, whatever the action, execute: sends that status as the one error, returns true (or throws on a null context), and keeps the callback. |
| NfcScanner.KnownActionsReturnTrue | src/android/NfcScanner.java:86-99 | With NFC on, execute returns true exactly for a known action. |
| NfcScanner.UnknownActionIsInert | src/android/NfcScanner.java:99 | An unknown action sends nothing and keeps the callback. |
| NfcScanner.RepliesOfKnownActions | src/android/NfcScanner.java:86-96 | `nfcEnabled` answers `NFC_OK`. Every known action except register sends exactly one reply. Start reading replies with the exception's message or "Reader Mode started.". |
| NfcScanner.CallbackChanges | src/android/NfcScanner.java:169-184 | The callback changes only with NFC on, and only by unregister or by register with a non-null context. |
| NfcScanner.OkMessage | src/android/NfcScanner.java:87 | `success(m)` is an OK result carrying m that does not keep the callback. |
| NfcScanner.ErrorMessage | src/android/NfcScanner.java:76 | `error(m)` is an error result carrying m that does not keep the callback. |
| NfcScanner.ReaderReply | src/android/NfcScanner.java:130-140 | The reply of start or stop reading is OK exactly when there is an adapter and the reader-mode call did not throw; it then carries the done message. Without an adapter it carries "NFC not supported on this device", and after a throw the exception's message. It never keeps the callback. |
| NfcScanner.CallbackContext.constructor | src/android/NfcScanner.java:71 | A fresh callback context has received nothing. |
| NfcScanner.CallbackContext.SendPluginResult | src/android/NfcScanner.java:118 | Sending appends the result to what the context received. |
| NfcScanner.CallbackContext.SendSuccess | src/android/NfcScanner.java:87 | `success(m)` appends an OK message result. |
| NfcScanner.CallbackContext.SendError | src/android/NfcScanner.java:76 | `error(m)` appends an error message result. |
| NfcScanner.NfcScanner.constructor | src/android/NfcScanner.java:60 | A new plugin has no reader-mode callback. |
| NfcScanner.Replies | src/android/NfcScanner.java:70-100 | The results a non-null context receives from one execute. No contract of its own: `NotOkGate`, `UnknownActionIsInert` and `RepliesOfKnownActions` state its properties. |
| NfcScanner.ExecuteOutcome | src/android/NfcScanner.java:70-100 | Whether execute returns true, returns false or throws. No contract of its own: `NotOkGate` and `KnownActionsReturnTrue` state its properties. |
| NfcScanner.NextCallback | src/android/NfcScanner.java:169-184 | The callback after one execute. No contract of its own: `CallbackChanges` states its properties. |
| NfcScanner.NfcScanner.Execute | src/android/NfcScanner.java:70-100 | Execute ends as `ExecuteOutcome` says and leaves the callback as `NextCallback` says. A non-null context receives exactly `Replies`. |
| NfcScanner.NfcScanner.DoStartReading | src/android/NfcScanner.java:127-146 | It returns true. A non-null context receives one reply: not supported without an adapter, the exception's message on failure, else "Reader Mode started.". |
| NfcScanner.NfcScanner.DoStopReading | src/android/NfcScanner.java:148-167 | The same as start, with "Reader Mode stopped.". |
| NfcScanner.NfcScanner.DoRegisterReaderModeCallback | src/android/NfcScanner.java:169-176 | It returns true. The callback becomes the context when that is non-null and is kept otherwise. Nothing is sent. |
| NfcScanner.NfcScanner.DoUnregisterReaderModeCallback | src/android/NfcScanner.java:178-184 | It returns true and the callback becomes null. A non-null context receives one success message. |
| NfcScanner.NfcScanner.OnTagDiscovered | src/android/NfcScanner.java:102-125 | A non-null callback receives exactly the tag's result. Nothing else is modified. A null callback means nothing is sent. |
| NfcScanner.HexArrayDigit | src/android/NfcScanner.java:197 | Entry d of `hexArray` is the uppercase hex digit whose value is d. |
| NfcScanner.HexArrayPair | src/android/NfcScanner.java:202-204 | `hexArray[(b & 0xFF) >>> 4]` and `hexArray[b & 0x0F]` are the uppercase digits of b mod 256. |
| NfcScanner.BytesToHex | src/android/NfcScanner.java:199-207 | The result has 2·n characters. Characters 2j and 2j+1 are the uppercase hex digits of byte j mod 256. |
| NfcScanner.UpperHexUnique | src/android/NfcScanner.java:199-207 | The uppercase hex of a byte array is unique, so the loop's result is fixed. |
| NfcScanner.UpperHexParses | src/android/NfcScanner.java:199-207 | For a non-empty array, the JavaScript `hexStringToArrayBuffer` reads `bytesToHex` back as the unsigned bytes. |

## Left out

- Non-integer JavaScript numbers (fractions, NaN, infinities) are not modelled. The helpers are applied to byte values.
- The `ToInt32` wrap-around of `<<`, `>>`, `&` and `|` is not modelled beyond what the codec needs. Their operands are code units below 2^16 and masked bytes, where the operators act as on unbounded integers.
- The `>>` of `stringToBytes` is applied only to code units, which are non-negative. Its sign extension never arises.
- `NfcUtil.HexStringToArrayBuffer` reads strings of Dafny characters, which have no lone surrogates. Such a character is neither a delimiter nor a hex digit, so it would be skipped like any other.
- The regular expressions are written as explicit character filters and scans: `[\s-:]`, `^0x` (lowercase x only) and the global `[\dA-F]{2}` with the `i` flag.
- The two `console.log` warnings of `hexStringToArrayBuffer` are left out: they do not affect its result.
- `util.isType` is left out. It calls a global `nfc` that the file does not define.
- The `cordova.exec` wrappers of the JavaScript `NfcScanner` object are left out. They only pass calls to the host bridge.
- `ArrayBuffer`/`Uint8Array` views are byte sequences. Copying and aliasing of buffers is not modelled.
- The JSON argument handling of `execute` is left out. `args.getJSONObject(0)` may throw `JSONException`, and `opts` is never used by the actions.
- `initialize` is left out: it only wires the host framework.
- The device adapter is one value per call. It stands both for the `nfcAdapter` field and for the fresh `getDefaultAdapter` lookup in `getNfcStatus`, so they are treated as the same device.
- `runOnUiThread` is left out. The replies of start and stop reading are posted to the UI thread in the source, and are modelled as sent before `execute` returns.
- The reader flags and the effect on the radio of `enableReaderMode`/`disableReaderMode` are left out. Only whether those calls throw, and with which message, is a parameter.
- A null `getMessage()` of that exception is not modelled. The message is a string.
- With a null context, start and stop reading throw a `NullPointerException` inside their handler. The handler swallows and logs it, so nothing is sent and true is returned.
- `Util.ndefToJSON`, `Util.tagToJSON` and `Ndef.get` are not part of this model. The payload records which builder was chosen and for which tag.
- The exceptions those builders may throw inside `onTagDiscovered`, which the source catches and logs, are left out.
- Logging (`LOG.d`, `LOG.e`, `Log.i`) is left out.
- `String.equalsIgnoreCase` follows Java's rule: equal characters, or equal upper cases, or equal lower cases of the upper cases. It is modelled with the case mappings that reach ASCII, which makes it exact whenever one side is ASCII. `NfcScanner.EqualsIgnoreCaseOneAscii` states the resulting test against an ASCII string character by character. The action names always are ASCII (`NfcScanner.ActionName`).
- `STATUS_NDEF_PUSH_DISABLED` is declared in the source but never used.
- `NfcScanner.NfcScanner.OnTagDiscovered` is modelled as one atomic step. In the source it runs on the NFC thread. It reads `readerModeCallback` twice without synchronisation (src/android/NfcScanner.java:117-118). An unregister between the two reads makes the second read null. The `NullPointerException` that follows is caught at line 122, so nothing is sent. The model does not capture this interleaving, nor any other concurrent access to the field.
- The set of all three-byte prefixes the masked BOM test accepts is not listed. `NfcUtil.EncodedBomExactly` states which encoded strings pass it.
