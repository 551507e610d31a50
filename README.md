# Link and physical layers of a teaching network simulator, in Dafny

The simulator sends a typed ASCII message through two layers, each with its own encoder and decoder.

**Link layer.** Its transmitter:
- turns the text into bits;
- frames the bits with one of three methods:
  - a character count;
  - byte insertion with flag `01111110` and escape `01111011`;
  - "bit insertion", which writes every flag-valued window as `011111010`;
- protects them with an even parity bit or a 3-bit CRC with generator `1101` (x³ + x² + 1);
- optionally adds a Hamming(12,8) code.

Its receiver undoes the stages in reverse order:
- Hamming syndrome correction;
- the parity or CRC check;
- deframing;
- the bits back to text.

**Physical layer.** It turns the bits into levels with one of three line codes: NRZ-Polar, Manchester or Bipolar (AMI). Its 8-QAM stage pads the levels and cuts them into 3-level constellation symbols. The receiver's line decoders turn the levels back into bits.

**Older copies.** An older transmitter and an older receiver are kept beside the current ones, and they behave differently:
- the older transmitter frames whole 8-bit groups;
- the older receiver checks no flags;
- the older Hamming decoder keeps only the last byte.

## Layout

Each Python file becomes one module.

| File | Module | Models |
|---|---|---|
| `common.dfy` | `Common` | bits, bytes, the error kinds the source raises (`Result`), Python slicing (`Slice`, `Window`), the flag constants, and `MutableList`, a Python list shared with the caller |
| `binary.dfy` | `Binary` | the Python builtins the codec leans on: `int(bits, 2)`, `bin`, `str.zfill`, `format(n, "08b")` and `int2bytes` |
| `link_encoder.dfy` | `LinkEncoder` | `camada_enlace.py` |
| `link_decoder.dfy` | `LinkDecoder` | `Servidor/decode_camada_enlace.py` |
| `legacy_link_encoder.dfy` | `LegacyLinkEncoder` | `camada-enlace.py` |
| `legacy_link_decoder.dfy` | `LegacyLinkDecoder` | `decode_camada_enlace.py` |
| `line_coder.dfy` | `LineCoder` | `camada_fisica.py` |
| `line_decoder.dfy` | `LineDecoder` | `Servidor/decode_camada_fisica.py` |

How the Python code maps to Dafny:
- Each Python loop is a `method` with loop invariants, proved equal to a specification function. The properties are then proved about that function.
- Three loops iterate over `range(len(seq))` while the body reassigns `seq`: byte insertion, bit insertion and their decoders. These become scan functions whose loop bound is fixed at the original length, as Python fixes it.
- `parity_bit` appends to the caller's list. So does `qam8_modulation`, which also rewrites that list in place. Both take a `MutableList`.
- The long division of `crc` and `decode_crc` runs in place on an `array`.
- Exceptions become `Err` values of a `Result`.

## Model

| member | source | states |
|---|---|---|
| Binary.BinaryDigits | camada_enlace.py:4 | `bin(n)[2:]`: at least one digit, big-endian value n, a leading 1 for n ≥ 1 |
| Binary.BinaryDigitsLength | camada_enlace.py:4-5 | the digit count of n is its binary magnitude: 2^(d-1) ≤ n < 2^d |
| Binary.ZFill | camada_enlace.py:5 | `zfill(w)`: length max(len, w), same value, zeros in front only when shorter |
| Binary.Binary08 | camada_enlace.py:134 | `format(n, "08b")`: value n, at least 8 bits, exactly 8 below 256 |
| Binary.IntToBytes | Servidor/decode_camada_enlace.py:8-11 | `int2bytes(n)`: a non-empty byte string worth n with no leading zero byte (one byte for n < 256) |
| Binary.IntToBytesOfBytesValue | Servidor/decode_camada_enlace.py:8-11 | `int2bytes` inverts the big-endian value of any byte string without a leading zero byte |
| Binary.BytesBitsValue | Servidor/decode_camada_enlace.py:5 | `int(bits, 2)` of the 8-bit groups of a byte string is the big-endian value of the bytes |
| Binary.ValueInjective | Servidor/decode_camada_enlace.py:5 | two bit strings of one length and one value are equal |
| LinkEncoder.Utf8 | camada_enlace.py:4 | UTF-8 of one character: 1 to 4 bytes, the code itself below 128, only bytes ≥ 128 otherwise |
| LinkEncoder.Utf8EncodeAscii | camada_enlace.py:4 | an ASCII text encodes to its character codes |
| LinkEncoder.PackedBits | camada_enlace.py:4-5 | the zero-filled binary digits are a non-empty whole number of bytes with the value of the byte string |
| LinkEncoder.TextToBits | camada_enlace.py:3-5 | the empty text raises ValueError; any other gives a whole number of bytes, at least one |
| LinkEncoder.TextToBitsOfAscii | camada_enlace.py:3-5 | for ASCII text without a leading NUL the bits are exactly the character codes, 8 bits each, in order |
| LinkEncoder.Digits | camada_enlace.py:14 | the decimal digits of `str(n)`: each below 10, one exactly when n < 10, `[n/10, n%10]` for 10..99, no leading zero |
| LinkEncoder.DigitCodes | camada_enlace.py:14 | the ASCII codes of those digits, 48 + digit |
| LinkEncoder.CharCount | camada_enlace.py:7-20 | the 8-bit ASCII codes of the decimal length, then the payload unchanged; length \|s\| + 8·(number of digits) |
| LinkEncoder.ByteStuffScan | camada_enlace.py:32-34 | the loop with its bound fixed at the original length grows the list by exactly 8 bits for each flag or escape window it meets (`ByteStuffHits`), counting the escapes it has itself inserted |
| LinkEncoder.ByteStuffScanSkip | camada_enlace.py:32-34 | indices whose window is neither the flag nor the escape leave the scan as it is |
| LinkEncoder.ByteInsertion | camada_enlace.py:22-36 | the loop computes the scan, then wraps the result in flags |
| LinkEncoder.ByteStuffedShape | camada_enlace.py:22-36 | the output starts and ends with the flag and is the input plus 16 bits plus a multiple of 8 |
| LinkEncoder.ByteStuffScanUntouched | camada_enlace.py:32-34 | a scan that meets no flag or escape window leaves the list as it is |
| LinkEncoder.ByteStuffedPlain | camada_enlace.py:22-36 | a payload with no flag or escape window at any bit offset comes out exactly as flag + payload + flag |
| LinkEncoder.CharStuffScan | camada_enlace.py:52-54 | the list grows by exactly one bit for each flag window replaced by `011111010` (`CharStuffHits`) |
| LinkEncoder.CharStuffHits | camada_enlace.py:52-54 | at most one replacement per index scanned |
| LinkEncoder.CharInsertion | camada_enlace.py:38-61 | the loop computes the scan between an opening and a closing flag |
| LinkEncoder.CharStuffedShape | camada_enlace.py:38-61 | the output starts and ends with the flag; its length is between \|s\| + 16 and 2\|s\| + 16 |
| LinkEncoder.CharStuffScanUntouched | camada_enlace.py:52-54 | a scan that meets no flag window leaves the list as it is |
| LinkEncoder.CharStuffedPlain | camada_enlace.py:38-61 | a payload with no flag window comes out exactly as flag + payload + flag |
| LinkEncoder.WithParity | camada_enlace.py:63-71 | the payload followed by one bit, with an even number of ones in all |
| LinkEncoder.ParityBit | camada_enlace.py:63-71 | appends the parity bit to the caller's list in place and returns that same list |
| LinkEncoder.DivideInPlace | camada_enlace.py:88-93 | the in-place long division leaves the remainder of the whole original list by `1101` in its last three cells |
| LinkEncoder.XorGenerator | camada_enlace.py:91-93 | `1101` is XORed into the four cells from i on; no other cell changes |
| LinkEncoder.DivideStep | camada_enlace.py:89-93 | one step of the division shifts the next bit into the running remainder |
| LinkEncoder.Crc | camada_enlace.py:73-96 | the payload followed by the remainder of s(x)·x³ by x³ + x² + 1 |
| LinkEncoder.PolyModLinear | camada_enlace.py:88-93 | the remainder is linear over GF(2): the remainder of an XOR is the XOR of the remainders |
| LinkEncoder.PolyModWithTail | camada_enlace.py:86-96 | the remainder of a payload followed by three bits t is its CRC XOR t |
| LinkEncoder.PolyModAfterDivisible | camada_enlace.py:86-96 | three bits after a multiple of the generator are their own remainder |
| LinkEncoder.CrcCodewordDivisible | camada_enlace.py:73-96 | every CRC codeword is divisible by `1101` |
| LinkEncoder.Codeword | camada_enlace.py:116-123 | a 12-bit codeword carrying the data at 1-based positions 3, 5, 6, 7, 9, 10, 11 and 12 |
| LinkEncoder.CodewordParity | camada_enlace.py:117-123 | each of the four parity checks (positions with bit 1, 2, 4 or 8 set) sums evenly over a codeword |
| LinkEncoder.HammingEncoded | camada_enlace.py:98-128 | length 12·⌊n/8⌋ + n mod 8: full bytes become codewords, a short tail is copied |
| LinkEncoder.Hamming | camada_enlace.py:98-128 | the loop over 8-bit groups computes the encoding |
| LinkEncoder.HammingEncodeStep | camada_enlace.py:108-126 | one group from index i on extends the output by its codeword, or by itself when short |
| LinkEncoder.AsciiToBinary | camada_enlace.py:130-135 | the loop computes `format(ord(c), "08b")` for each character, in order |
| LinkEncoder.AsciiBitsOfBytes | camada_enlace.py:130-135 | characters below 256 take exactly 8 bits each: the bits of their codes as bytes, in order |
| LinkEncoder.Framed | camada_enlace.py:142-148 | an unknown framing selector leaves the bits unchanged |
| LinkEncoder.Detected | camada_enlace.py:150-154 | an unknown detection selector leaves the bits unchanged |
| LinkEncoder.Protected | camada_enlace.py:156-158 | an unknown correction selector leaves the bits unchanged |
| LinkEncoder.EncodeLink | camada_enlace.py:137-160 | returns the message bits, and the coded bits after framing, then detection, then correction |
| LinkDecoder.TextFromBits | Servidor/decode_camada_enlace.py:4-11 | ValueError exactly for no bits; otherwise ASCII text of at least one character, or UnicodeDecodeError |
| LinkDecoder.TextFromByte | Servidor/decode_camada_enlace.py:4-11 | one byte below 0x80 decodes to its character |
| LinkDecoder.TextRoundTrip | Servidor/decode_camada_enlace.py:4-11 | `text_from_bits` inverts `text_to_bits` on ASCII text without a leading NUL |
| LinkDecoder.AsciiRoundTrip | Servidor/decode_camada_enlace.py:4-11 | `text_from_bits` inverts `ascii_to_binary` on ASCII text without a leading NUL |
| LinkDecoder.Syndrome | Servidor/decode_camada_enlace.py:28-34 | the syndrome of a 12-bit group is below 16 |
| LinkDecoder.CorrectGroup | Servidor/decode_camada_enlace.py:26-39 | a group fails with IndexError exactly when its syndrome is 13 to 15; otherwise it gives 8 data bits |
| LinkDecoder.CorrectInPlace | Servidor/decode_camada_enlace.py:28-39 | flipping the bit at the syndrome in a copy of the group and reading the data bits computes the group's correction |
| LinkDecoder.HammingDecoded | Servidor/decode_camada_enlace.py:13-45 | on success, length 8·⌊n/12⌋ + n mod 12; a failure is IndexError |
| LinkDecoder.DecodeHamming | Servidor/decode_camada_enlace.py:13-45 | the loop over 12-bit groups computes the decoding |
| LinkDecoder.HammingGroupStep | Servidor/decode_camada_enlace.py:24-40 | one full group either fails the whole decoding or extends the output by its data bits |
| LinkDecoder.HammingTailStep | Servidor/decode_camada_enlace.py:41-43 | a trailing group shorter than 12 bits is copied as it is |
| LinkDecoder.CodewordDecodes | Servidor/decode_camada_enlace.py:26-39 | a codeword has syndrome 0 and decodes to its data |
| LinkDecoder.SyndromeOfFlip | Servidor/decode_camada_enlace.py:28-34 | flipping 0-based bit k of a group with syndrome 0 gives syndrome k + 1 |
| LinkDecoder.CodewordCorrectsOneFlip | Servidor/decode_camada_enlace.py:26-39 | a codeword with any one of its 12 bits flipped still decodes to its data |
| LinkDecoder.HammingRoundTrip | Servidor/decode_camada_enlace.py:13-45 | `decode_hamming(hamming(s)) == s` for every payload, short tail included |
| LinkDecoder.HammingCorrectsOneFlip | Servidor/decode_camada_enlace.py:13-45 | one flipped bit anywhere in the codewords of `hamming(s)` is corrected |
| LinkDecoder.HammingDecodedFront | Servidor/decode_camada_enlace.py:21-45 | the decoding of a group followed by the rest is that group's correction followed by the decoding of the rest |
| LinkDecoder.HammingDoubleFlipOverruns | Servidor/decode_camada_enlace.py:34-36 | two flips (positions 1 and 12) make the syndrome 13, past the 12-bit group, which raises IndexError |
| LinkDecoder.DecodeCrc | Servidor/decode_camada_enlace.py:47-70 | dividing a copy of the input fails unless the remainder is 000; otherwise the input without its last three bits |
| LinkDecoder.CrcRoundTrip | Servidor/decode_camada_enlace.py:47-70 | `decode_crc(crc(s)) == s` |
| LinkDecoder.CrcDetectsOneFlip | Servidor/decode_camada_enlace.py:47-70 | any one flipped bit of `crc(s)` raises a transmission error |
| LinkDecoder.DecodeParityBit | Servidor/decode_camada_enlace.py:72-85 | a transmission error exactly when the number of ones is odd; otherwise the list without its last bit |
| LinkDecoder.ParityRoundTrip | Servidor/decode_camada_enlace.py:72-85 | `decode_parity_bit(parity_bit(s)) == s` |
| LinkDecoder.SumFlip | Servidor/decode_camada_enlace.py:79 | one flip changes the number of ones by exactly one |
| LinkDecoder.ParityDetectsOneFlip | Servidor/decode_camada_enlace.py:72-85 | any one flipped bit of `parity_bit(s)` raises a transmission error |
| LinkDecoder.Trimmed | Servidor/decode_camada_enlace.py:95 | `s[8:-8]`: the middle of a list longer than 16 bits, else empty |
| LinkDecoder.CharUnstuffed | Servidor/decode_camada_enlace.py:87-107 | a transmission error exactly when the first or last 8 bits are not the flag; otherwise at most \|s\| − 16 bits |
| LinkDecoder.Unstuff | Servidor/decode_camada_enlace.py:103-106 | the loop, with its bound fixed at the trimmed length, computes the scan |
| LinkDecoder.DecodeCharInsertion | Servidor/decode_camada_enlace.py:87-107 | checks the flags, then the loop computes the deframed payload |
| LinkDecoder.UnstuffScanUntouched | Servidor/decode_camada_enlace.py:104-106 | a scan that meets no `011111010` window leaves the list as it is |
| LinkDecoder.CharInsertionRoundTrip | Servidor/decode_camada_enlace.py:87-107 | inverts `char_insertion` for payloads with neither a flag nor a `011111010` window |
| LinkDecoder.CharInsertionLossy | Servidor/decode_camada_enlace.py:104-106 | a payload equal to `011111010` comes back as the flag: the framing is not injective |
| LinkDecoder.ByteDestuffed | Servidor/decode_camada_enlace.py:109-137 | a transmission error exactly when the first or last 8 bits are not the flag; otherwise at most \|s\| − 16 bits |
| LinkDecoder.Destuff | Servidor/decode_camada_enlace.py:129-136 | the loop with the one-shot latch computes the scan |
| LinkDecoder.DecodeByteInsertion | Servidor/decode_camada_enlace.py:109-137 | checks the flags, then the loop computes the deframed payload |
| LinkDecoder.DestuffScanUntouched | Servidor/decode_camada_enlace.py:130-136 | a scan that meets no escape window leaves the list as it is, whatever the latch |
| LinkDecoder.ByteInsertionRoundTrip | Servidor/decode_camada_enlace.py:109-137 | inverts `byte_insertion` for payloads with neither a flag nor an escape window |
| LinkDecoder.ByteInsertionCascade | camada_enlace.py:22-36 | the payload flag + `00000000` is sent with two escapes before the flag, and the receiver, dropping only the first, returns escape + payload: the round trip fails |
| LinkDecoder.ByteStuffCascade | camada_enlace.py:32-34 | the loop meets the flag at index 0 and again at index 8, behind the escape it inserted |
| LinkDecoder.CascadeDestuffed | Servidor/decode_camada_enlace.py:128-136 | removing the escape at index 0 moves the second escape to index 0, behind the loop, so it stays in the output |
| LinkDecoder.FramedTrim | Servidor/decode_camada_enlace.py:95-100 | flag + s + flag passes the flag check and trims back to s |
| LinkDecoder.ParseInt | Servidor/decode_camada_enlace.py:160 | `int(t)` on ASCII text either gives a value or raises ValueError |
| LinkDecoder.ParseTwoDigits | Servidor/decode_camada_enlace.py:155-160 | two digit characters parse to their two-digit value |
| LinkDecoder.DecodeCharCount | Servidor/decode_camada_enlace.py:139-163 | on success, the data after one or two count bytes |
| LinkDecoder.DecodeCountOneDigit | Servidor/decode_camada_enlace.py:146-161 | with one digit byte and at most 16 bits in all, the data is accepted exactly when its length is that digit |
| LinkDecoder.DecodeCountTwoDigits | Servidor/decode_camada_enlace.py:146-161 | with two digit bytes and more than 16 bits, the data is accepted exactly when its length is the two-digit number |
| LinkDecoder.CharCountRoundTrip | Servidor/decode_camada_enlace.py:139-163 | `decode_char_count(char_count(s)) == s` for lengths 1 to 7, 10 to 99, and 8 when the payload starts with 0 |
| LinkDecoder.CharCountEmptyFails | Servidor/decode_camada_enlace.py:146-160 | the count frame of an empty payload raises ValueError |
| LinkDecoder.CharCountLongFails | Servidor/decode_camada_enlace.py:146-161 | a payload of 100 bits or more is rejected, since at most two count digits are read |
| LinkDecoder.DecodeLink | Servidor/decode_camada_enlace.py:165-193 | the message `main` recovers: correction, then detection, then deframing, then text |
| LinkDecoder.DeframeRoundTrip | Servidor/decode_camada_enlace.py:184-190 | each deframer inverts its framer under that framer's condition |
| LinkDecoder.CheckRoundTrip | Servidor/decode_camada_enlace.py:178-182 | each check inverts its code; an unknown selector passes the bits through |
| LinkDecoder.ProtectRoundTrip | Servidor/decode_camada_enlace.py:174-176 | Hamming decoding inverts Hamming encoding; an unknown selector passes the bits through |
| LinkDecoder.LinkRoundTrip | Servidor/decode_camada_enlace.py:165-193 | the receiver's `main` recovers the text the transmitter's `main` encoded, for any selectors, ASCII text and deframable message |
| LinkDecoder.CountFramingOfAscii | Servidor/decode_camada_enlace.py:139-163 | every ASCII message of 1 to 12 characters survives the character count |
| LegacyLinkDecoder.LastGroupData | decode_camada_enlace.py:14-29 | a group shorter than 12 bits or a syndrome past the group raises IndexError; otherwise 8 data bits |
| LegacyLinkDecoder.LastGroupDataIsLast | decode_camada_enlace.py:16-29 | on success the result is the correction of the last 12 bits: every earlier group is corrected and discarded |
| LegacyLinkDecoder.OldHammingDecoded | decode_camada_enlace.py:13-29 | UnboundLocalError exactly for empty input; otherwise IndexError, or the 8 corrected data bits of the last 12-bit group |
| LegacyLinkDecoder.OldDecodeHamming | decode_camada_enlace.py:13-29 | the loop over the groups computes the older decoding |
| LegacyLinkDecoder.OldHammingRejectsPartial | decode_camada_enlace.py:14-21 | a list that is not a whole number of 12-bit groups raises IndexError |
| LegacyLinkDecoder.OldHammingKeepsLastByte | decode_camada_enlace.py:16-29 | on `hamming` of whole bytes only the last byte comes back; the earlier ones are dropped |
| LegacyLinkDecoder.OldHammingCorrectsLastFlip | decode_camada_enlace.py:16-29 | one flipped bit anywhere in the last codeword of `hamming` of whole bytes is corrected: the last byte still comes back |
| LegacyLinkDecoder.OldCharUnstuffed | decode_camada_enlace.py:59-68 | agrees with the server's `decode_char_insertion` exactly when the flags match; whatever the first and last 8 bits are, it is what the server's decoder returns for the same middle between two flags; at most \|s\| − 16 bits long |
| LegacyLinkDecoder.OldDecodeCharInsertion | decode_camada_enlace.py:59-68 | the loop computes the older deframing |
| LegacyLinkDecoder.OldByteDestuffed | decode_camada_enlace.py:70-84 | agrees with the server's `decode_byte_insertion` exactly when the flags match; whatever the first and last 8 bits are, it is what the server's decoder returns for the same middle between two flags; at most \|s\| − 16 bits long |
| LegacyLinkDecoder.OldDecodeByteInsertion | decode_camada_enlace.py:70-84 | the loop computes the older deframing |
| LegacyLinkDecoder.OldDecodersIgnoreFlags | decode_camada_enlace.py:59-84 | 24 zero bits are accepted by the older deframers and rejected by the server's |
| LegacyLinkEncoder.OldCharCount | camada-enlace.py:7-22 | ValueError exactly when the length is not a multiple of 8; otherwise the count prefix of `char_count` |
| LegacyLinkEncoder.OldCharCountRoundTrip | camada-enlace.py:7-22 | whole-byte payloads of 2 to 12 bytes come back through the receiver's count decoder |
| LegacyLinkEncoder.OldByteStuffGroups | camada-enlace.py:36-45 | each escaped 8-bit group adds exactly 8 bits |
| LegacyLinkEncoder.OldByteStuffed | camada-enlace.py:24-50 | starts and ends with the flag; length n + 16 + 8·(number of escaped groups) |
| LegacyLinkEncoder.OldByteInsertion | camada-enlace.py:24-50 | the loop over the groups computes the stuffing |
| LegacyLinkEncoder.ByteStuffStep | camada-enlace.py:40-45 | one group extends the output by an escape, when it is the flag or the escape, and by the group itself |
| LegacyLinkEncoder.OldUnescapeStuffed | camada-enlace.py:36-45 | reading escape + byte as that byte recovers the groups, a short trailing group included |
| LegacyLinkEncoder.OldByteInsertionRoundTrip | camada-enlace.py:24-50 | the older byte stuffing is injective, witnessed by a group-wise reader that is not in the source; the older receiver's `decode_byte_insertion` (decode_camada_enlace.py:73) looks for the escape `01111011`, not this sender's `01111101`, so it is not that reader |
| LegacyLinkEncoder.FlagPattern | camada-enlace.py:65-69 | one entry per 8-bit group, a short tail included |
| LegacyLinkEncoder.PatternFrame | camada-enlace.py:68-73 | 8 bits per group, plus one per flag-valued group |
| LegacyLinkEncoder.OldCharStuffed | camada-enlace.py:52-75 | starts with the flag |
| LegacyLinkEncoder.OldCharInsertion | camada-enlace.py:52-75 | the loop over the groups computes the framing |
| LegacyLinkEncoder.OldCharStuffedIsPattern | camada-enlace.py:52-75 | the output is the flag, then `011111010` for each flag-valued group and a flag for every other; length 8 + 8·groups + flag groups |
| LegacyLinkEncoder.OldCharInsertionLossy | camada-enlace.py:68-73 | two different non-flag bytes are framed alike, so the payload is lost |
| LineCoder.NrzLevels | camada_fisica.py:4-21 | one level per bit: +1 for a 1, −1 otherwise |
| LineCoder.NrzPolarModulation | camada_fisica.py:4-21 | the loop computes the NRZ-Polar levels |
| LineCoder.ManchesterLevels | camada_fisica.py:23-40 | two levels per bit: bit b becomes (b, 1 − b) |
| LineCoder.ManchesterModulation | camada_fisica.py:23-40 | the loop computes the Manchester levels |
| LineCoder.AmiLevelAt | camada_fisica.py:42-65 | level k is 0 for a 0, and for a 1 it is +1 after an even number of earlier ones and −1 after an odd number |
| LineCoder.BipolarModulation | camada_fisica.py:42-65 | the loop, with its last-polarity state, computes the AMI levels |
| LineCoder.AmiBalance | camada_fisica.py:42-65 | one non-zero level per 1; the levels add up to the number of ones mod 2 |
| LineCoder.AmiAlternates | camada_fisica.py:52-60 | two ones with only zeros between them are sent with opposite levels |
| LineCoder.BitZero | camada_fisica.py:137-139 | the padding level is −1 after NRZ-Polar and 0 otherwise |
| LineCoder.Rewritten | camada_fisica.py:140-143 | after Bipolar every −1 becomes 1 and nothing else changes; any other mode leaves the list alone |
| LineCoder.RewriteNegatives | camada_fisica.py:140-143 | the caller's list is rewritten in place |
| LineCoder.Padded | camada_fisica.py:146-147 | the list, then fewer than three padding levels up to a multiple of three |
| LineCoder.PadToTriples | camada_fisica.py:146-147 | the caller's list is padded in place |
| LineCoder.Constellation | camada_fisica.py:154-163 | a triple is a key exactly when each level is the padding level or 1; the first selects the amplitude, the others one of four phases |
| LineCoder.ConstellationInverse | camada_fisica.py:154-163 | every key is recovered from its symbol, so the eight keys have eight different symbols |
| LineCoder.Qam8Symbols | camada_fisica.py:149-172 | a key lookup that fails raises ValueError; otherwise one symbol per three levels |
| LineCoder.Qam8SymbolsAccepts | camada_fisica.py:165-169 | the lookup succeeds exactly when every level is the padding level or 1 |
| LineCoder.Qam8SymbolsTriples | camada_fisica.py:165-172 | symbol k stands for levels 3k to 3k + 2 |
| LineCoder.LookupSymbols | camada_fisica.py:165-172 | the loop over the triples computes the lookup |
| LineCoder.Qam8Modulation | camada_fisica.py:128-172 | the caller's list is rewritten and padded in place, then cut into symbols |
| LineCoder.Qam8AcceptsLineCodes | camada_fisica.py:128-172 | whatever bits a line code sent, 8-QAM accepts its levels |
| LineDecoder.NrzBits | Servidor/decode_camada_fisica.py:100-114 | one bit per level: 1 exactly for level 1 |
| LineDecoder.DemodulateNrzPolar | Servidor/decode_camada_fisica.py:100-114 | the loop computes the NRZ-Polar bits |
| LineDecoder.NrzRoundTrip | Servidor/decode_camada_fisica.py:100-114 | the NRZ-Polar decoder inverts the coder |
| LineDecoder.BipolarBits | Servidor/decode_camada_fisica.py:134-149 | one bit per level: 1 exactly for +1 or −1 |
| LineDecoder.DemodulateBipolar | Servidor/decode_camada_fisica.py:134-149 | the loop computes the bipolar bits |
| LineDecoder.BipolarRoundTrip | Servidor/decode_camada_fisica.py:134-149 | the bipolar decoder inverts the AMI coder |
| LineDecoder.ManchesterBits | Servidor/decode_camada_fisica.py:116-132 | IndexError exactly when an odd list ends in 0 or 1; otherwise at most n/2 bits |
| LineDecoder.DemodulateManchester | Servidor/decode_camada_fisica.py:116-132 | the loop, stepping by two, computes the Manchester bits |
| LineDecoder.PairBitsOfManchester | Servidor/decode_camada_fisica.py:125-130 | reading the pairs the Manchester coder sent gives the complement of the bits |
| LineDecoder.ManchesterRoundTrip | Servidor/decode_camada_fisica.py:116-132 | decoding the Manchester levels of b gives the bitwise complement of b, not b |
| LineDecoder.ManchesterOddFails | Servidor/decode_camada_fisica.py:127-129 | `[0, 1, 1]` raises IndexError; `[0, 1, 5]` decodes to `[1]` |

## Left out

- The floating-point carrier work of the physical layer is not modelled: ASK, FSK, the 8-QAM sine samples, and the ASK and FSK demodulators. Each is numeric code over `np.sin`, means and correlations. 8-QAM keeps its integer part. A symbol is its amplitude (A/2 or A) and its phase in quarters of π.
- Time axes, plotting and `savefig` in every `main` are rendering side effects and are not modelled.
- The `main` of camada_fisica.py and of Servidor/decode_camada_fisica.py only dispatch on a selector and plot. The dispatch is not modelled as an operation. `LineCoder.LineLevels` states it for the three known line codes. The unbound `signal` that an unknown mode leaves behind is not modelled.
- The user interface, the WebSocket transport and the prototype camada-fisica.py are not part of this model.
- Exception messages are not modelled: every `raise Exception(...)` is the same `TransmissionError`. So the older files' `text_from_bits`, `int2bytes`, `decode_crc`, `decode_parity_bit` and `decode_char_count` are the members of `LinkDecoder`. camada-enlace.py's `text_to_bits` and `parity_bit` are the members of `LinkEncoder`.
- LinkDecoder.TextFromBits: every byte from 0x80 up is reported as `UnicodeDecodeError`. This is exact for a single such byte. UTF-8 multi-byte decoding with `surrogatepass` is not modelled, so a valid multi-byte sequence is rejected where Python would decode it.
- LinkDecoder.ParseInt: `int()` is modelled on ASCII text only: whitespace, a sign and decimal digits. Non-ASCII digits and whitespace cannot come out of `LinkDecoder.TextFromBits`. Underscores are not modelled, and they can never be valid in the one- or two-character strings the count decoder parses.
- LinkDecoder.DecodeLink: the second result of the receiver's `main`, the bits shown as space-separated 8-bit groups, is a display string and is not modelled.
- The `'0'`/`'1'` strings the source builds (`bin`, `zfill`, `format`, `''.join(map(str, ...))`, `int(bit)`) are modelled directly as bit sequences. The link-layer operations and the line coders (`NrzLevels`, `ManchesterLevels`, `AmiLevels`; camada_fisica.py:4-65) take bits (0 or 1) where Python would accept any integers. The line decoders and the 8-QAM stage take arbitrary integers, as the source does.
- `LinkEncoder.Hamming` accumulates the codewords in a string, and `LinkEncoder.AsciiToBinary` does the same with its output. Both build a sequence instead, with the same contents.
