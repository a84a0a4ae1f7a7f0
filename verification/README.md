# Proofs about srsLTE's codecs, ciphers, MAC multiplexing and socket polling

This project models four parts of srsLTE in Dafny and proves what they are for. Code that
works in place is modelled in place: the bit cursor, the guards, the PDU builders, the cipher
state and the socket handler are classes with the fields of the original, buffers are arrays
written through a moving pointer, and every method is proved against a specification on values
about which the lemmas speak.

1. **ASN.1 packed encoding.** `Bits`, `BitRefs` (the bit cursor over a byte buffer), `PerSpec`
   and `PerCodec` (constrained integers, length determinants, small numbers and enumerations
   in the aligned and the unaligned variant of X.691), `PerAccepts` (the encodings in the terms of
   X.691, and what the decoder takes from any memory), `PerStrings`, `ExtGroups`, `OpenTypes`
   (length-prefixed nested content) and `LiblteBits` (the older bit-array codec). Memory is seen
   as a sequence of bits, and a packer is described by the bits it lays over the old memory.
2. **SNOW 3G, AES and the integrity algorithms.** `XorWords`, `ByteNumbers` and `WordBits` (the
   laws and bits of single words, kept apart), `ByteTables` and `TableAlgebra` (the tables and
   what they compute), `GfBytes`, `Gf64`, `Snow3g` (the generator on values), `Snow3gStream` (its
   recurrences), `Snow3gGenerators` (the nineteen globals and the heap arrays, both tied to it),
   `OctetBits`, `Eea1`, `F9` and `F9Fields`, `SnowBits` (from inputs to outputs), `Eia2` and `CmacBits`, `Eia3`, `Rijndael` with
   `InverseCipher` and `KeyExpansion`.
3. **MAC PDUs.** `ByteSpans` (bytes at a place), `FieldBits` (fields of a few bits), `SchWire`
   (what an LTE PDU must look like and what its reader makes of any bytes), `SchPdu` (the builder,
   the writer and the reader), `SchFields` (its fields in bits), `Bsr`, and `NrPdu` and `NrFields`
   for NR.
4. **The socket poll set.** `PollSet`: clients, the polling thread and the command pipe as a
   transition system, and the handler class whose methods take its steps.

Each operation is proved against a function on values. What these functions mean is proved
apart from them, in bits and fields or against a second description: an inverse cipher, a key
expansion, a list of recurrences, a run of the block cipher, a polynomial, a table's rule.

`dafny verify dfyconfig.toml` checks everything.

## Reading the main results

- Every message of constrained integers, lengths, enumerations, octet strings, bit strings,
  extension group flags and open types nested to any depth comes back unchanged from any bit
  offset in both variants (`PackThenUnpack`), and the repository's own consistency check never
  fails for such a message (`TestPackUnpackConsistency`).
- `MUL64` is a commutative ring multiplication for every reduction constant
  (`ProductAssociates`, `ProductCommutes`, `ProductIsConvolution`), `f9` is a polynomial in it
  (`Evaluate`) and affine (`MacAffine`).
- No two pairs of key and initialisation vector of SNOW 3G lead to the same state after
  equally many clocks (`StatesDistinct`); the two implementations cipher alike (`CiphersAgree`).
- The generator follows the recurrences of SNOW 3G (`KeystreamOfRun`), and its tables are the
  algebra they come from (`SBoxIsAffineInverse`, `SQBoxIsDickson`).
- The encryptor is undone by the inverse cipher of FIPS 197 (`DecryptsEncrypted`) and its round
  keys are that standard's key expansion (`RoundKeyWords`).
- Both EIA2 overloads are AES-CMAC (`Eia2Octets`, `Eia2Bits`), said in bits by `CmacOfRun`; every
  bit of an EIA3 tag and of an f9 code is given by `TagBit` and `MacBit`.
- An LTE MAC PDU has exactly its length (`WritePacket`) and parses back at a receiver
  (`WriteAndParse`); an NR PDU does so too (`PackAndUnpack`).
- Every registered socket is polled or about to be, in every interleaving from the start
  (`ReachableCovered`), and a written removal or stop takes effect and touches nothing else
  (`RemovalTakesEffect`, `StopTakesEffect`).

## Where the code does less than its description

The model follows the code. These are the places where that matters, each with the exact
condition proved.

- The unaligned constrained integer packer drops the cursor's return code: without room it
  reports success (`PerCodec.PackConstrainedWholeNumber`).
- A constrained integer past its range is refused by the unaligned unpacker alone, and only when
  the lower bound plus the offset fits the C++ type; the aligned one accepts any offset. An
  enumeration accepts an extension in the place of a root option (`PerAccepts.ConstrainedAccepts`,
  `PerAccepts.EnumeratedAccepts`).
- Aligned lengths of 16384 to 65536 are written, in a form the decoder always refuses
  (`PerCodec.PackLength`, `PerCodec.FragmentedRefused`).
- An open type is left behind correctly only while at most 32 bits of it are unread
  (`OpenTypes.VarlengthFieldUnpackGuard.Close`).
- An open type without content is sent with length 0, where section 10.1.3 of X.691 asks for one
  octet; the decoder here reads it back (`OpenTypes.DeliveredOpen`).
- `liblte_pack` puts a remainder of fewer than eight bits at the low end of the last octet, so
  old and new codec agree exactly when those bits are clear (`LiblteBits.SameOctets`).
- EIA3 writes its tag but returns the error status on every path (`Eia3.Eia3Tag`).
- The bit-array form of EIA2 reads the message structure before it compares the pointer with
  null, so that pointer is never null in `Eia2.Eia2Bits`.
- Reading an NR PDU takes the zeros behind the padding header for further subPDUs, so the
  subPDUs read are the ones sent, plus the padding, exactly when at most one byte was left
  (`NrPdu.UnpackPacked`). An uplink CCCH message of the wrong size is charged with one size and
  written with another (`NrPdu.SizesAgree`, `NrPdu.WrongSizeOverruns`).
- The LTE reader stops one subheader before its table is full; a PDU parses back exactly when
  its list of subheaders is no longer than that (`SchWire.PduParsesBack`).
- The NR test for reserved identifiers lets 47 to 51 pass in the uplink too
  (`NrFields.ValidIdentifiers`).
- Entry 41 of the buffer size table is 4667; the rule that gives every other entry gives 4677
  (`Bsr.TableGeometric`).
- A short buffer status report names the last group with data and only that, and from 150000
  bytes on reports 150000 (`Bsr.ReportNeverShort`).
- A socket whose registration could not be written to the pipe stays unpolled
  (`PollSet.StepKeeps`). A removal still in the pipe when its descriptor is registered again
  removes the new socket (`PollSet.RegistrationSurvives`). An addition read after its socket is
  gone leaves a descriptor watched that nobody serves (`PollSet.TidyStep`), until that
  descriptor is registered again (`PollSet.StaleStep`, `PollSet.ReuseLosesSocket`).

## Model

| member | source | states |
|---|---|---|
| BitRefs.BitRef.Pack | lib/src/asn1/asn1_utils.cc:126-155 | succeeds exactly when the n < 32 bits fit before the limit; then the n low bits stand at the cursor most significant first, earlier bits and later bytes are unchanged, the rest of the last byte is clear and the cursor moved n bits; otherwise the leading bits that fit are written and the cursor stands at the limit |
| BitRefs.BitRef.Unpack | lib/src/asn1/asn1_utils.cc:178-204 | for n up to 32, reads exactly the number the n bits at the cursor spell, and fails exactly when they do not end before the limit |
| BitRefs.BitRef.PackBytes | lib/src/asn1/asn1_utils.cc:157-176 | the room check makes every ignored return code of the unaligned loop a success: with and without alignment the same bits are written, those of packing each octet; on refusal nothing changes |
| BitRefs.BitRef.UnpackBytes | lib/src/asn1/asn1_utils.cc:206-225 | with and without alignment the octets read spell the bits at the cursor; on refusal the destination is untouched |
| BitRefs.BitRef.AlignBytes | lib/src/asn1/asn1_utils.cc:227-238 | moves to the next octet boundary |
| BitRefs.BitRef.AlignBytesZero | lib/src/asn1/asn1_utils.cc:240-253 | the same, with the skipped bits cleared and no other bit changed |
| BitRefs.BitRef.AdvanceBits | lib/src/asn1/asn1_utils.cc:255-268 | skips n bits exactly when the octet they end in lies below the limit by one octet, else stays |
| BitRefs.StoreOverlay | lib/src/asn1/asn1_utils.cc:140-150 | one store of the packing loop writes a field of k bits inside one octet and clears the rest of that octet |
| BitRefs.OverlayCompose | lib/src/asn1/asn1_utils.cc:137-152 | two writes in a row are the write of the concatenation |
| Bits.BitsNatOfNatBits | lib/src/asn1/asn1_utils.cc:139-199 | reading back n written bits gives the number modulo 2^n, for every n |
| Bits.NatBitsOfBitsNat | lib/src/asn1/asn1_utils.cc:139-199 | writing the number a bit string spells gives the bit string back |
| Bits.BytesBitsInjective | lib/src/asn1/asn1_utils.cc:126-204 | octets of equal number that spell the same bits are the same octets |
| PerSpec.CeilLog2 | lib/src/asn1/asn1_utils.cc:330-331 | the exact ceiling of the binary logarithm: 2^(k-1) < n <= 2^k |
| PerSpec.ReadEncoded | lib/src/asn1/asn1_utils.cc:346-505 | the decoder, on memory that holds the encoding of a constrained integer, a length below 16384 or an enumerated value at any bit offset, in either variant, gives the value and the position behind it |
| PerSpec.ReadRelocated | lib/src/asn1/asn1_utils.cc:346-505 | decoding depends on the bits alone: the same bits at another offset (of the same phase when aligned) give the same value and the same extent |
| PerSpec.WrapOffset | lib/src/asn1/asn1_utils.cc:391-505 | subtracting the lower bound and adding it again in the C++ integer type of any width and sign gives the value back, wrap-around included |
| PerAccepts.ConstrainedFields | lib/src/asn1/asn1_utils.cc:391-432 | section 10.5 of X.691: no bits for one value, the least width, in the aligned variant one octet for 256 values and two for more, and the bits spell the offset from the lower bound |
| PerAccepts.LengthFields | lib/src/asn1/asn1_utils.cc:662-682 | section 10.9: a clear bit and seven bits, or 10 and fourteen bits, spelling the length |
| PerAccepts.EnumeratedFields | lib/src/asn1/asn1_utils.cc:313-344 | section 13: the extension bit, then the least width for a root option or a normally small number of six bits for an extension |
| PerAccepts.StartAligned | lib/src/asn1/asn1_utils.cc:412-414 | in the aligned variant a length, and an integer of 256 values or more, starts at an octet boundary; everything else where the field before it ended |
| PerAccepts.SkippedBits | lib/src/asn1/asn1_utils.cc:227-253 | of the bits skipped to get there, those before an integer are cleared and those before a length keep what they held |
| PerAccepts.FragmentedFields | lib/src/asn1/asn1_utils.cc:683-689 | the 24 bits for an aligned length of 16384 and more: 11, the number of 16384s in six bits, the rest in sixteen |
| PerAccepts.ConstrainedAccepts | lib/src/asn1/asn1_utils.cc:459-505 | on any memory, an offset below the number of values decodes to the value whose encoding stands there; a larger one is refused exactly by the unaligned variant and exactly when lower bound plus offset fits the C++ type, and what is accepted otherwise is outside the range; so nothing above the upper bound is accepted unaligned |
| PerAccepts.LengthAccepts | lib/src/asn1/asn1_utils.cc:696-736 | on any memory, a length is refused exactly when it is marked as fragmented or cut off; accepted, it stands there as encoded or is below 128 in the long form |
| PerAccepts.EnumeratedAccepts | lib/src/asn1/asn1_utils.cc:346-374 | on any memory, an accepted option is one of the type, and stands there as encoded unless it is an extension in the place of a root option |
| PerCodec.PackedReads | lib/src/asn1/asn1_utils.cc:391-505 | what a packer leaves in memory is what the decoder reads, and nothing before it has changed |
| PerCodec.PackConstrainedWholeNumber | lib/src/asn1/asn1_utils.cc:391-432 | a value outside the bounds is refused with nothing written; one that fits is written as section 10.5 of X.691 says; without room the aligned variant reports failure, while the unaligned variant ignores the return code, reports success and leaves the leading bits that fit |
| PerCodec.UnpackConstrainedWholeNumber | lib/src/asn1/asn1_utils.cc:459-505 | returns exactly what the decoder specification reads at the cursor, for every memory, bounds and variant |
| PerCodec.PackSmall | lib/src/asn1/asn1_utils.cc:532-542 | the short form only: 7 bits for n up to 63, failure for larger n or without room |
| PerCodec.UnpackSmall | lib/src/asn1/asn1_utils.cc:544-556 | reads the short form, refuses the long form |
| PerCodec.PackLength | lib/src/asn1/asn1_utils.cc:662-694 | below 16384 the determinant of section 10.9; from 16384 up to 65536 the aligned variant writes 24 bits that the decoder always refuses, the unaligned variant and larger values fail with nothing written |
| PerCodec.FragmentedRefused | lib/src/asn1/asn1_utils.cc:683-736 | the three octets written for aligned lengths of 16384 and more decode to an error, whatever the length and the offset |
| PerCodec.UnpackLength | lib/src/asn1/asn1_utils.cc:696-736 | returns exactly what the decoder specification reads, in both variants |
| PerCodec.LeadingOctet | lib/src/asn1/asn1_utils.cc:718-735 | comparing the first octet with 128 and 192 is looking at its two leading bits |
| PerCodec.PackEnum | lib/src/asn1/asn1_utils.cc:313-344 | an option of the type is written when it is encodable (extension index at most 63) and fits; any other call fails, and an option beyond the type leaves memory alone |
| PerCodec.UnpackEnum | lib/src/asn1/asn1_utils.cc:346-374 | returns exactly what the decoder specification reads, refusing options outside the type |
| PerCodec.PackItem | lib/src/asn1/asn1_utils.cc:307-432 | every packer, called on an encodable value with room, writes its encoding |
| PerCodec.UnpackItem | lib/src/asn1/asn1_utils.cc:346-505 | every unpacker returns what the decoder specification reads |
| PerStrings.PackUnboundedOctstring | lib/src/asn1/asn1_utils.cc:955-962 | below 16384 octets: succeeds exactly when determinant and octets fit, and then writes exactly the filler, the determinant and the octets, at any offset in either variant; longer strings than the length packer takes are refused with nothing written |
| PerStrings.OctetsPackedRead | lib/src/asn1/asn1_utils.cc:955-974 | an octet string packed anywhere is read back, with nothing before it changed |
| PerStrings.UnpackUnboundedOctstring | lib/src/asn1/asn1_utils.cc:965-974 | succeeds exactly when a length and that many octets stand in memory at the cursor, and returns them |
| PerStrings.PackCommonBitstring | lib/src/asn1/asn1_utils.cc:997-1010 | succeeds exactly when n > 0 and the n bits fit, and writes the top octet's significant bits, then whole octets downwards |
| PerStrings.UnpackCommonBitstring | lib/src/asn1/asn1_utils.cc:1012-1025 | succeeds exactly when n > 0 and the n bits end before the limit; the octets stored spell the bits read and have clear unused bits |
| PerStrings.CanonicalOctets | lib/src/asn1/asn1_utils.cc:997-1025 | octets with clear unused bits are determined by the bits they go out as |
| PerStrings.BitStringRead | lib/src/asn1/asn1_utils.cc:997-1025 | a bit string packed anywhere is read back |
| PerStrings.NumberToBitstring | lib/src/asn1/asn1_utils.cc:1040-1054 | stores the octets of the n low bits of a number, least significant first, spare bits clear, and nothing behind them |
| PerStrings.NumberOctetsAt | lib/src/asn1/asn1_utils.cc:1040-1054 | octet k holds bits 8 k and following of the number, as many as the bit string has |
| PerStrings.BitstringBit | lib/src/asn1/asn1_utils.cc:997-1010 | the bit sent m places before the end is bit m % 8, from below, of octet m / 8 |
| PerStrings.NumberAsBitstring | lib/src/asn1/asn1_utils.cc:997-1054 | a bit string made from a number puts the same bits on the wire as packing the number directly |
| ExtGroups.ExtGroupsPackerGuard.Set | lib/src/asn1/asn1_utils.cc:1348-1356 | grows the flags with absent groups and sets the one asked for |
| ExtGroups.ExtGroupsPackerGuard.Pack | lib/src/asn1/asn1_utils.cc:1358-1375 | succeeds exactly with 1 to 64 groups and room, and writes the count and the flags up to the last group present |
| ExtGroups.ExtGroupsUnpackerGuard.Resize | lib/src/asn1/asn1_utils.cc:1392-1398 | the flag list keeps its flags and has at least the supported groups |
| ExtGroups.ExtGroupsUnpackerGuard.Unpack | lib/src/asn1/asn1_utils.cc:1410-1423 | reads the count and as many flags as it says, padded with absent groups to the supported number |
| ExtGroups.GroupsReadBack | lib/src/asn1/asn1_utils.cc:1358-1423 | the flags written at any offset are read back, up to the last group present |
| ExtGroups.GroupFields | lib/src/asn1/asn1_utils.cc:1358-1375 | on the wire: a clear bit, the number of flags less one in six bits, the flags up to the last group present |
| ExtGroups.GroupsRead | lib/src/asn1/asn1_utils.cc:1358-1423 | a list of the supported groups with one present, and no absent group more, comes back as it is |
| OpenTypes.VarlengthFieldPackGuard.constructor | lib/src/asn1/asn1_utils.cc:1429-1435 | diverts the caller's cursor to the scratch buffer and remembers where it was |
| OpenTypes.VarlengthFieldPackGuard.Close | lib/src/asn1/asn1_utils.cc:1437-1461 | with room, the content is padded to octets and stands behind its length at the remembered place, to which the cursor returns; nothing before it changes |
| OpenTypes.VarlengthFieldUnpackGuard.constructor | lib/src/asn1/asn1_utils.cc:1463-1468 | reads the length and remembers where the content starts |
| OpenTypes.VarlengthFieldUnpackGuard.Close | lib/src/asn1/asn1_utils.cc:1470-1474 | the cursor reaches the end of the open type exactly when at most 32 bits of it are left |
| OpenTypes.EnclosedBy | lib/src/asn1/asn1_utils.cc:1437-1461 | after closing, the length is readable at the old cursor and the scratch bits, then clear bits, stand behind it |
| OpenTypes.ContentRelocated | lib/src/asn1/asn1_utils.cc:307-1474 | reading fields, strings, flags and open types nested to any depth depends on the bits alone, not on where they stand |
| OpenTypes.DeliveredOpen | lib/src/asn1/asn1_utils.cc:1429-1474 | content delivered to the scratch buffer is delivered, inside its open type, to the outer cursor, at any offset and any depth |
| OpenTypes.PackContents | lib/src/asn1/asn1_utils.cc:307-1461 | any sequence of fields, octet strings, bit strings, extension group flags and open types nested to any depth, given room, packs successfully and is what the decoder specification reads at the old cursor, with the same final cursor |
| OpenTypes.UnpackContents | lib/src/asn1/asn1_utils.cc:346-1474 | unpacking gives exactly what the decoder specification reads in memory |
| OpenTypes.PackThenUnpack | lib/src/asn1/asn1_utils.cc:307-1474 | a message packed at any bit offset in either variant unpacks to the same message with the same final cursor, and the bits before it are unchanged |
| OpenTypes.TestPackUnpackConsistency | lib/include/srslte/asn1/asn1_utils.h:1323-1363 | the repository's generic consistency check never fails: for every message of fields, strings, flags and nested open types that fits, pack, unpack and pack again agree on the message, the three cursors and every octet |
| LiblteBits.LiblteValue2Bits | lib/src/asn1/liblte_common.cc:59-67 | writes the n low bits, one per element, most significant first, and advances the pointer by n |
| LiblteBits.ElementOfNumber | lib/src/asn1/liblte_common.cc:59-67 | the element written for place i of n is the digit of weight 2^(n-1-i) |
| LiblteBits.LiblteBits2Value | lib/src/asn1/liblte_common.cc:74-85 | reads the number that n elements spell |
| LiblteBits.LibltePack | lib/src/asn1/liblte_common.cc:128-139 | packs eight elements per octet and a remainder of fewer into one more octet |
| LiblteBits.LiblteUnpack | lib/src/asn1/liblte_common.cc:146-154 | spreads octets over elements, eight each |
| LiblteBits.LibltePackedExact | lib/src/asn1/liblte_common.cc:128-139 | the octets are the bits followed by zeros if and only if the bits of the remainder are all clear: the remainder is right-justified |
| LiblteBits.UnpackPackRoundTrip | lib/src/asn1/liblte_common.cc:128-154 | packing what was unpacked gives the octets back; unpacking what was packed gives the bits back exactly when their number is a multiple of 8 |
| LiblteBits.WriteBitArray | lib/src/asn1/liblte_common.cc:59-67 | a list of fields written one after the other |
| LiblteBits.WriteBitRef | lib/src/asn1/asn1_utils.cc:126-155 | the same list packed through the bit cursor |
| LiblteBits.SameOctets | lib/src/asn1/liblte_common.cc:59-139 | the old and the new codec give the same octets if and only if the bits of the remainder are all clear, hence whenever the widths total a multiple of 8 |
| ByteTables.SBoxInverts | lib/src/common/liblte_security.cc:67-80 | the Rijndael table is a permutation: every entry is undone by the inverse table |
| ByteTables.SQBoxInverts | lib/src/common/liblte_security.cc:82-96 | the table of S2 is a permutation too |
| ByteTables.XTimeShifts | lib/src/common/liblte_security.cc:98-115 | the multiplication table is shifting and reducing by 0x1b |
| TableAlgebra.SBoxIsAffineInverse | lib/src/common/liblte_security.cc:67-80 | every entry of the Rijndael table is the affine image (section 5.1.1 of FIPS 197) of the inverse of its index |
| TableAlgebra.SQBoxIsDickson | lib/src/common/liblte_security.cc:82-96 | every entry of the table of S2 is x + x^9 + x^13 + x^15 + x^33 + x^41 + x^45 + x^47 + x^49 + 0x25 modulo x^8 + 0x69 at its index |
| WordBits.OctetBit | lib/src/common/snow_3g.cc:137-150 | bit r of octet k of a word is bit 8 k + r of the word |
| WordBits.JoinedBit | lib/src/common/snow_3g.cc:327-328 | bit 8 k + r of four joined octets is bit r of octet k |
| GfBytes.MulXLinear | lib/src/common/snow_3g.cc:83-89 | MULx is additive, for any reduction constant |
| TableAlgebra.MulXBits | lib/src/common/snow_3g.cc:83-89 | MULx moves every coefficient up and adds the reduction when the top one leaves |
| GfBytes.MulXPowAdds | lib/src/common/snow_3g.cc:99-105 | exponents of MULxPOW add |
| GfBytes.MulXPowPeriod | lib/src/common/snow_3g.cc:99-105 | MULxPOW(v, 255, 0xa9) is v, for every byte |
| GfBytes.MulXPowWraps | lib/src/common/snow_3g.cc:99-129 | exponents count modulo 255 |
| GfBytes.MixedFourTimes | lib/src/common/liblte_security.cc:1608-1631 | mixing a column four times is the identity, for any reduction constant |
| GfBytes.MixedInjective | lib/src/common/liblte_security.cc:1608-1631 | mixing columns is injective |
| Gf64.Mul64 | lib/src/common/snow_3g.cc:400-410 | the loop computes the sum over the set bits i of P of V times x^i |
| F9Fields.Mul64xBits | lib/src/common/snow_3g.cc:367-373 | MUL64x moves every coefficient up and adds the reduction when the top one leaves |
| Gf64.ProductLinearLeft | lib/src/common/snow_3g.cc:367-410 | MUL64 is additive in its first argument, for any reduction constant |
| Gf64.ProductLinearRight | lib/src/common/snow_3g.cc:400-410 | and in its second |
| Gf64.ProductExchange | lib/src/common/snow_3g.cc:400-410 | (a b) d = (a d) b |
| Gf64.ProductOfOne | lib/src/common/snow_3g.cc:400-410 | 1 is neutral on the left |
| Gf64.ProductCommutes | lib/src/common/snow_3g.cc:400-410 | MUL64 is commutative |
| Gf64.ProductAssociates | lib/src/common/snow_3g.cc:400-410 | MUL64 is associative |
| Gf64.ProductIsConvolution | lib/src/common/snow_3g.cc:367-410 | MUL64 of V and P is the sum over all set bits i of P and j of V of MUL64xPOW(1, i + j) |
| Gf64.PowAdds | lib/src/common/snow_3g.cc:383-389 | exponents of MUL64xPOW add |
| Snow3g.AlphaInverts | lib/src/common/snow_3g.cc:113-196 | division by alpha undoes multiplication by alpha on every word |
| Snow3gStream.AlphaRoot | lib/src/common/snow_3g.cc:113-125 | multiplying a constant by alpha four times gives the coefficients x^23, x^245, x^48 and x^239 of the polynomial that defines alpha |
| Snow3gStream.AlphaLinear | lib/src/common/snow_3g.cc:113-125 | multiplication by alpha is additive |
| Snow3gStream.S1Column | lib/src/common/snow_3g.cc:137-150 | S1 is the Rijndael table and the column mixing of the encryptor, bytes from the other end |
| Snow3gStream.S2Column | lib/src/common/snow_3g.cc:158-170 | S2 is the same with its own table, modulo x^8 + 0x69 |
| Snow3g.S1Injective | lib/src/common/snow_3g.cc:137-150 | S1 is injective |
| Snow3g.S2Injective | lib/src/common/snow_3g.cc:158-170 | S2 is injective |
| Snow3g.ClockLfsrInjective | lib/src/common/snow_3g.cc:178-225 | the registers before a clock follow from those after it and the word fed in |
| Snow3g.InitStepsInjective | lib/src/common/snow_3g.cc:268-276 | any number of initialisation clocks of LFSR and FSM together is injective |
| Snow3g.StreamStepsInjective | lib/src/common/snow_3g.cc:287-300 | any number of keystream clocks is injective |
| Snow3g.StatesDistinct | lib/src/common/snow_3g.cc:250-300 | two different pairs of key and vector never lead to the same state after equally many clocks |
| Snow3gStream.KeystreamOfRun | lib/src/common/snow_3g.cc:178-300 | the generator is the recurrences a(t+16) = alpha a(t) + a(t+2) + a(t+11) / alpha (plus the machine's word for the first 32 clocks), R1 = R2 + (R3 xor a(t+5)), R2 = S1(R1), R3 = S2(R2), and keystream word t is the machine's word of clock 33 + t plus a(33+t), for any lists that follow them |
| Snow3gStream.RunExists | lib/src/common/snow_3g.cc:250-300 | there are such lists for every key, vector and length |
| Snow3gGenerators.GlobalRegisters.ClockLfsrInitializationMode | lib/src/common/snow_3g.cc:178-198 | the nineteen globals after the clock are the specified step of those before |
| Snow3gGenerators.GlobalRegisters.ClockLfsrKeyStreamMode | lib/src/common/snow_3g.cc:205-225 | the same with the word zero |
| Snow3gGenerators.GlobalRegisters.ClockFsmOnce | lib/src/common/snow_3g.cc:233-241 | output and new registers of the FSM |
| Snow3gGenerators.GlobalRegisters.Initialize | lib/src/common/snow_3g.cc:250-277 | the result depends on key and vector alone, not on what the globals held |
| Snow3gGenerators.GlobalRegisters.GenerateKeystream | lib/src/common/snow_3g.cc:287-300 | writes the first n words of the keystream of the current state, and nothing behind them |
| Snow3gGenerators.S3gState.ClockLfsrOnce | lib/src/common/liblte_security.cc:1775-1786 | the array after the clock is the same specified step |
| Snow3gGenerators.S3gState.ClockFsmOnce | lib/src/common/liblte_security.cc:1797-1807 | output and new registers of the FSM |
| Snow3gGenerators.S3gState.constructor | lib/src/common/liblte_security.cc:1818-1851 | reaches the same initial state as the globals |
| Snow3gGenerators.S3gState.GenerateKeystream | lib/src/common/liblte_security.cc:1876-1892 | writes the same keystream |
| Eea1.EncryptionEea1 | lib/src/common/liblte_security.cc:917-982 | the first ceil(len / 8) octets of the output are the message plus keystream with the bits past len cleared, also when output and message are the same buffer; null inputs are refused with nothing written |
| Eea1.DecryptionEea1 | lib/src/common/liblte_security.cc:994-1003 | the same function of its input |
| Eea1.Snow3gF8 | lib/src/common/snow_3g.cc:316-357 | in place, the first ceil(len / 8) octets are the same ciphertext; the rest of the last word is masked with keystream too |
| Eea1.CipheredBits | lib/src/common/liblte_security.cc:917-982 | bit j of the ciphertext is message bit plus keystream bit below len and clear from there on |
| Eea1.CipheredTwice | lib/src/common/liblte_security.cc:917-1003 | decryption after encryption is the message with the bits past len cleared |
| Eea1.CiphersAgree | lib/src/common/liblte_security.cc:917-982 | the two independent implementations write the same octets, whatever the globals held before |
| Eea1.KeyWordsBits | lib/src/common/snow_3g.cc:326-328 | the key words are the key read as bits, 32 at a time, the last word first |
| Eea1.CipherIvBits | lib/src/common/snow_3g.cc:331-335 | count, five bits of bearer, one of direction and zeros, twice |
| SnowBits.CipherBitOfRun | lib/src/common/snow_3g.cc:316-357 | from inputs to outputs: bit j of a ciphertext is message bit j plus bit j % 32 of word j / 32 of the recurrences started from the key bits, count, bearer and direction |
| OctetBits.ZeroTailingBits | lib/src/common/liblte_security.cc:1640-1644 | clears exactly the bits past the length in the last octet |
| OctetBits.TrimmedBits | lib/src/common/liblte_security.cc:1640-1644 | bit j of a trimmed message is the message's below the length, clear from there on |
| F9.Evaluate | lib/src/common/snow_3g.cc:466-504 | the in-place loop computes Q (LENGTH + sum of M_i P^(D-1-i)) in the ring of MUL64, M_i being the blocks of the message with the bits past the length cleared |
| F9.HornerStep | lib/src/common/snow_3g.cc:475-480 | one round of the loop raises every exponent and adds the next block |
| F9.PolynomialTimesP | lib/src/common/snow_3g.cc:475-498 | multiplying the polynomial by P raises every exponent by one |
| F9.WholeBlock | lib/src/common/snow_3g.cc:476-478 | the eight octets of a whole block, most significant first |
| F9.LastBlock | lib/src/common/snow_3g.cc:482-495 | gathering the last block octet by octet with mask8bit gives the block of the trimmed message |
| F9.Snow3gF9 | lib/src/common/snow_3g.cc:432-515 | the four octets returned are the code of the message, its key and header words |
| F9.MacIgnoresRest | lib/src/common/snow_3g.cc:432-515 | the code does not depend on any bit past the length |
| F9.MacAffine | lib/src/common/snow_3g.cc:432-515 | MAC(m) + MAC(m') = MAC(m + m') + MAC(0) for messages of equal length |
| F9.Mask8BitIs | lib/src/common/snow_3g.cc:417-420 | the mask keeps the n upper bits of an octet |
| F9Fields.KeyBits | lib/src/common/snow_3g.cc:463-464 | bit j of P is keystream bit j and bit j of Q is keystream bit 64 + j |
| F9Fields.BlockBit | lib/src/common/snow_3g.cc:475-495 | bit j of block i is bit 64 i + j of the message, clear after its end |
| F9Fields.EvaluatedIsValue | lib/src/common/snow_3g.cc:466-504 | the evaluated word is the value at P of the polynomial whose coefficients are the blocks and, last, the length, times Q |
| F9Fields.MacBit | lib/src/common/snow_3g.cc:506-513 | bit j of the code is bit j of that word plus keystream bit 128 + j |
| F9Fields.MacIvBits | lib/src/common/snow_3g.cc:450-455 | fresh and count twice, the direction added to bit 16 of the first word and to bit 0 of the second |
| SnowBits.MacWordOfRun | lib/src/common/snow_3g.cc:446-464 | the five words of f9 are those of the recurrences started from the key bits, count, fresh and direction |
| Eia2.DoubledIsDouble | lib/src/common/liblte_security.cc:656-672 | shifting octet by octet with the conditional 0x87 is doubling in GF(2^128) (section 2.3 of RFC 4493) |
| Eia2.DoubleBlock | lib/src/common/liblte_security.cc:656-672 | a subkey is the doubled block |
| Eia2.PadBuffer | lib/src/common/liblte_security.cc:702-704 | sets exactly the bit after the message in its last block: the buffer then holds the message padded with a one and zeros |
| Eia2.PaddedInjective | lib/src/common/liblte_security.cc:696-709 | two messages that need padding pad alike only when they are the same |
| Eia2.MacOfBuffer | lib/src/common/liblte_security.cc:652-709 | the chaining over a buffer is AES-CMAC of the bits it holds, with the first or second subkey as the length demands |
| Eia2.Eia2Octets | lib/src/common/liblte_security.cc:629-719 | the four octets are the first of AES-CMAC of header and message; null inputs are refused with nothing written |
| Eia2.Eia2Bits | lib/src/common/liblte_security.cc:720-818 | the same for a message of unpacked bits of any bit length |
| Eia2.OverloadsAgree | lib/src/common/liblte_security.cc:629-818 | on an octet message and on its unpacked bits the two overloads give the same code |
| Eia2.OctetOfBit | lib/src/common/liblte_security.cc:771-782 | bit r of packed octet k is bit 8 k + r of the message |
| CmacBits.CmacOfRun | lib/src/common/liblte_security.cc:652-709 | in bits: whatever blocks go through the cipher one after the other, each the last output plus its block of the message followed by a one and zeros, with twice the cipher of zero added to a whole last block and four times it to a padded one, the last output is the code |
| CmacBits.RunExists | lib/src/common/liblte_security.cc:652-709 | there is such a sequence of blocks for every message |
| CmacBits.HeaderBits | lib/src/common/liblte_security.cc:674-684 | the header is the count, five bits of bearer, one of direction and 26 zeros |
| Eia3.GetWordIsWindow | lib/src/common/liblte_security.cc:820-829 | GET_WORD(ks, i) is the 32-bit window at bit i of the concatenated keystream |
| Eia3.GetBit | lib/src/common/liblte_security.cc:831-834 | bit i of the message, most significant first |
| Eia3.WindowsFit | lib/src/common/liblte_security.cc:836-905 | no window for i up to the message length reaches past the ceil((len + 64) / 32) keystream words |
| Eia3.WindowSumBit | lib/src/common/liblte_security.cc:886-891 | each bit of the sum is a parity of message and keystream bits |
| Eia3.Eia3Tag | lib/src/common/liblte_security.cc:836-905 | the tag is the sum of the windows at the set message bits, the window at the end and the last word; the status returned is never success |
| Eia3.TagBit | lib/src/common/liblte_security.cc:884-900 | bit j of the four octets is the parity of the message windows, keystream bit length + j and bit j of the last keystream word |
| Eia3.Eia3IvBits | lib/src/common/liblte_security.cc:852-876 | count, five bits of bearer and zeros, twice, the direction added to the first bit of octets 8 and 14 |
| Eia3.TagAffine | lib/src/common/liblte_security.cc:836-905 | T(m) + T(m') = T(m + m') + T(0) for messages of equal length |
| Rijndael.KeyAdd | lib/src/common/liblte_security.cc:1536-1546 | adds the round key, in place |
| Rijndael.ByteSub | lib/src/common/liblte_security.cc:1555-1565 | substitutes every byte, in place |
| Rijndael.ShiftRow | lib/src/common/liblte_security.cc:1574-1599 | the in-place rotations are the simultaneous row shift |
| Rijndael.MixColumn | lib/src/common/liblte_security.cc:1608-1631 | the in-place mixing is multiplication by the matrix |
| Rijndael.MixedInPlace | lib/src/common/liblte_security.cc:1616-1629 | the four sequential updates of a column equal the simultaneous matrix product |
| Rijndael.ShiftRowsFourTimes | lib/src/common/liblte_security.cc:1574-1599 | four row shifts are the identity |
| Rijndael.MixColumnsFourTimes | lib/src/common/liblte_security.cc:1608-1631 | four column mixings are the identity |
| Rijndael.SubBytesInverts | lib/src/common/liblte_security.cc:1555-1565 | byte substitution is undone by the inverse table |
| Rijndael.AddKeyTwice | lib/src/common/liblte_security.cc:1536-1546 | adding a round key twice changes nothing |
| Rijndael.Encrypt | lib/src/common/liblte_security.cc:1498-1527 | the output block is the ten-round composition on the input block, also when both are the same buffer |
| Rijndael.EncryptedInjective | lib/src/common/liblte_security.cc:1498-1527 | for every eleven round keys the composition is injective on states |
| Rijndael.BlocksEncryptApart | lib/src/common/liblte_security.cc:1498-1527 | two different 16-byte blocks never encrypt alike |
| InverseCipher.DecryptsEncrypted | lib/src/common/liblte_security.cc:1498-1527 | the inverse cipher of section 5.3 of FIPS 197, written on octets with its own matrix 0e 0b 0d 09, undoes encryption for every block and every eleven round keys |
| KeyExpansion.RoundKeyWords | lib/src/common/liblte_security.cc:1461-1489 | round key r is words 4 r to 4 r + 3 of the key expansion of section 5.2 of FIPS 197 |
| Rijndael.KeySchedule | lib/src/common/liblte_security.cc:1461-1489 | every round key is the specified one |
| Rijndael.NextKeyInjective | lib/src/common/liblte_security.cc:1471-1488 | a round key determines the one before it |
| Rijndael.RoundKeyInjective | lib/src/common/liblte_security.cc:1461-1489 | every round key determines the cipher key |
| PollSet.WatchingIsSelectable | lib/src/common/network_utils.cc:640-660 | a descriptor is polled exactly when select can report it |
| PollSet.StepKeeps | lib/src/common/network_utils.cc:577-707 | a step of a client or of the polling thread keeps every registered socket polled or with its command still in the pipe, and the pipe polled, if and only if it is not the registration of an unpolled descriptor whose command could not be written |
| PollSet.AlwaysCovered | lib/src/common/network_utils.cc:577-707 | every state of every interleaving in which the writes of registrations succeed has every registered socket polled or with its command still in the pipe, and the pipe polled |
| PollSet.ReachableCovered | lib/src/common/network_utils.cc:637-707 | the same for every run from the thread's start |
| PollSet.OnlyExitStops | lib/src/common/network_utils.cc:637-707 | only an EXIT command read from the pipe stops the thread |
| PollSet.DrainedSockets | lib/src/common/network_utils.cc:682-706 | after all commands are read, a socket is registered iff no removal was in the pipe, and watched iff an addition no removal follows was |
| PollSet.DrainedAllPolled | lib/src/common/network_utils.cc:637-707 | then every registered socket is polled |
| PollSet.RegistrationSurvives | lib/src/common/network_utils.cc:577-634 | a new registration ends up registered and polled if and only if no removal of the same descriptor was still in the pipe |
| PollSet.AdditionSparesOthers | lib/src/common/network_utils.cc:577-602 | a registration changes nothing for any other socket once the pipe is read |
| PollSet.RemovalTakesEffect | lib/src/common/network_utils.cc:604-634 | once the pipe is read, an accepted and written removal has taken exactly its socket out of the map and the watched set; otherwise the call has changed nothing |
| PollSet.ServingTakesEffect | lib/src/common/network_utils.cc:661-706 | a pass forgets exactly the closed sockets and reads the oldest command if the pipe was ready, no other |
| PollSet.StopTakesEffect | lib/src/common/network_utils.cc:532-542 | once the pipe is read, a written stop has stopped the thread, and has changed no socket |
| PollSet.TidyStep | lib/src/common/network_utils.cc:623-706 | a step leaves no unregistered descriptor watched without a command under way, except exactly when it reads an addition whose socket the peer has closed or a removal has erased |
| PollSet.StaleStep | lib/src/common/network_utils.cc:577-707 | a descriptor that is watched, unregistered and without a queued removal stays so through every step but its registration, which always ends it |
| PollSet.StaleLasts | lib/src/common/network_utils.cc:577-707 | so in every run it stays watched until the descriptor is registered again |
| PollSet.ReuseLosesSocket | lib/src/common/network_utils.cc:577-707 | for every descriptor: when the peer closes its socket while a removal is queued and the descriptor is registered again, the new registration is taken away and the descriptor stays watched, in every continuation that does not register it once more |
| PollSet.RxMultisocketHandler.AddSocketHandler | lib/src/common/network_utils.cc:577-602 | the state after is the step on values; true exactly for a new non-negative descriptor whose command was written |
| PollSet.RxMultisocketHandler.RemoveSocket | lib/src/common/network_utils.cc:604-621 | the state after is the step on values; true exactly for a registered descriptor whose command was written |
| PollSet.RxMultisocketHandler.SendExit | lib/src/common/network_utils.cc:532-542 | stop() sends EXIT to a running thread |
| PollSet.RxMultisocketHandler.RemoveSocketUnprotected | lib/src/common/network_utils.cc:623-635 | erases and clears one descriptor and recomputes the bound as the largest still registered, the pipe's at least |
| PollSet.RxMultisocketHandler.ServeSockets | lib/src/common/network_utils.cc:664-679 | one pass forgets exactly the ready sockets whose peer closed |
| PollSet.RxMultisocketHandler.HandleCommand | lib/src/common/network_utils.cc:682-705 | at most one command is read, and handled as the step on values |
| PollSet.RxMultisocketHandler.Poll | lib/src/common/network_utils.cc:661-706 | one turn of the loop is the step on values |
| NrPdu.ReadWritten | lib/src/common/mac_nr_pdu.cc:55-151 | reading at the place where an SDU was written gives its identifier, header and SDU length and payload place |
| NrPdu.ReadProgress | lib/src/common/mac_nr_pdu.cc:55-85 | on any bytes a subPDU takes at least one byte |
| NrPdu.MacNrSchPdu.WriteSubpdu | lib/src/common/mac_nr_pdu.cc:116-151 | writes the bytes of the subPDU and no others, and returns their number |
| NrPdu.MacNrSchPdu.AddSdu | lib/src/common/mac_nr_pdu.cc:283-308 | fails exactly when header and length exceed the space, changing nothing; otherwise one subPDU is appended, its bytes written and the account updated modulo 2^32 |
| NrPdu.MacNrSchPdu.Pack | lib/src/common/mac_nr_pdu.cc:210-223 | the space left becomes one padding subPDU, and none is left |
| NrPdu.MacNrSchPdu.Unpack | lib/src/common/mac_nr_pdu.cc:225-240 | on any bytes, ends and appends exactly the subPDUs up to the end or the first invalid identifier |
| NrPdu.MacNrSchPdu.InitTx | lib/src/common/mac_nr_pdu.cc:257-263 | the account starts with the PDU length; on an empty buffer with room this is the start of a transmission, with bytes written plus space left equal to the PDU length |
| NrPdu.SizesAgree | lib/src/common/mac_nr_pdu.cc:265-308 | the space checked is the space taken if and only if the SDU is not an uplink CCCH message of the wrong size |
| NrPdu.AccountKept | lib/src/common/mac_nr_pdu.cc:283-308 | bytes written plus space left is constant if and only if the space taken was there |
| NrPdu.WrongSizeOverruns | lib/src/common/mac_nr_pdu.cc:265-308 | a one-byte uplink CCCH message passes the check with three bytes of space and takes seven |
| NrPdu.AddRegular | lib/src/common/mac_nr_pdu.cc:283-308 | any run of calls, successful or not, keeps bytes written plus space left equal to the PDU length and the SDUs added at the start of the buffer, in order |
| NrPdu.ParseWritten | lib/src/common/mac_nr_pdu.cc:225-240 | the SDUs written are read back in order, before whatever follows them |
| NrPdu.UnpackPacked | lib/src/common/mac_nr_pdu.cc:210-240 | unpacking a packed PDU gives the SDUs in order, then the padding if space was left; nothing more if and only if at most one byte was left, because zeros behind the padding header read as further subPDUs |
| NrPdu.PayloadsInPlace | lib/src/common/mac_nr_pdu.cc:87-151 | the payload of every SDU is where the received subPDU points |
| NrPdu.PackAndUnpack | lib/src/common/mac_nr_pdu.cc:210-240 | the whole transmission: the PDU has its length, no space is left, and the receiver finds the SDUs as UnpackPacked says |
| NrFields.SizeofCeFields | lib/src/common/mac_nr_pdu.cc:55-85 | what has no length field has the size of its fields in bits |
| NrFields.ValidIdentifiers | lib/src/common/mac_nr_pdu.cc:42-47 | both directions accept exactly the identifiers up to 32 and from 47 to 63 |
| NrFields.HeaderBits | lib/src/common/mac_nr_pdu.cc:116-138 | a subheader is a clear bit, the format bit, six bits of identifier and eight, sixteen or no bits of length |
| NrFields.ReadSubheaderBits | lib/src/common/mac_nr_pdu.cc:55-85 | from any bytes exactly these fields are read |
| NrFields.ParseConsecutive | lib/src/common/mac_nr_pdu.cc:225-240 | on any bytes the subPDUs follow each other without a gap, and reading stops only at the end or at a reserved identifier |
| SchWire.WireHasPduLength | lib/src/common/pdu.cc:78-243 | in the zero-, one-, two- and multi-byte padding cases and for short and long last SDUs the PDU has exactly the demanded length |
| SchWire.WireHeadersSize | lib/src/common/pdu.cc:102-131 | the header size the writer computes is the size of the subheaders it writes |
| SchWire.HeadsRead | lib/include/srslte/common/pdu.h:126-145 | the reader finds all subheaders written, in order, if and only if its table has room for them |
| SchWire.SumOfExpected | lib/src/common/pdu.cc:45-70 | the sizes the reader adds up for all subheaders but the last are the bytes they took |
| SchWire.ParseWritten | lib/src/common/pdu.cc:45-70 | the base parse and the correction of the last size recover identifiers, sizes and places of any list of subheaders as written, if and only if the table has room |
| SchWire.PduParsesBack | lib/src/common/pdu.cc:45-243 | a PDU with at least one item, SDUs below 32768 bytes, parses back to padding, control elements and SDUs in wire order, if and only if the reader's table has room for its subheaders |
| SchWire.PduPayloads | lib/src/common/pdu.cc:45-243 | and every payload is found byte for byte |
| SchWire.WireOfNothing | lib/src/common/pdu.cc:96-166 | a PDU of at most two bytes without items is padding subheaders alone |
| SchWire.CePlace | lib/src/common/pdu.cc:133-166 | a control element stands behind padding of one or two bytes and the control elements added before it |
| SchWire.SduPlace | lib/src/common/pdu.cc:133-166 | an SDU stands behind that padding, all control elements and the SDUs added before it |
| SchFields.SizeofCeFields | lib/src/common/pdu.cc:355-392 | every control element has the size of its fields in bits (section 6.1.3 of TS 36.321) |
| SchFields.HeaderBits | lib/src/common/pdu.cc:696-715 | a subheader is two clear bits, whether another follows, five bits of identifier, and for an SDU that is not last a format bit and seven or fifteen bits of length |
| SchFields.ReadHeadBits | lib/src/common/pdu.cc:728-751 | from any bytes exactly these fields are read, and a control element has the size of its fields |
| SchFields.HeadsChain | lib/include/srslte/common/pdu.h:126-145 | on any bytes every subheader but the last announces another, the last does so only at the end of the bytes or of the table, and a table of two or more places keeps one free |
| SchFields.ParseBaseConsecutive | lib/include/srslte/common/pdu.h:126-150 | on any bytes every payload starts where the one before it ends, the first behind the subheaders |
| SchFields.ParseBaseDropped | lib/include/srslte/common/pdu.h:126-150 | on any bytes the PDU is dropped exactly when the last subheader announces another the PDU has no byte for |
| SchFields.ParseFillsPdu | lib/src/common/pdu.cc:45-70 | on any bytes whose length fields have the shortest form, the payloads end exactly where the PDU does |
| SchFields.LongReportThenSdu | lib/src/common/pdu.cc:45-70 | in every uplink PDU that starts with 3e 01 and has six bytes or more, a report of three bytes at 2 and an SDU at 5 |
| SchFields.ConResBits | lib/src/common/pdu.cc:588-604 | the six octets of a contention resolution identity are its 48 low bits |
| SchFields.ShortReportBits | lib/src/common/pdu.cc:549-573 | a short report is two bits of group and six of index |
| SchPdu.ChargeOfCe | lib/src/common/pdu.cc:264-283 | what update_space_ce deducts is the growth of the space the items need |
| SchPdu.ChargeOfSdu | lib/src/common/pdu.cc:296-309 | what update_space_sdu deducts, with the length field the SDU before now needs, is the growth of the space the items need |
| SchPdu.SchPdu.Init | lib/include/srslte/common/pdu.h:165-178 | starts an empty PDU with the whole length as space |
| SchPdu.SchPdu.InitTx | lib/include/srslte/common/pdu.h:73-76 | on an empty buffer establishes the invariant: charge plus space left is the PDU length, the table describes the items, the buffer holds the SDUs |
| SchPdu.SchPdu.NewSubh | lib/include/srslte/common/pdu.h:80-98 | a new entry exactly when table, space and headroom allow |
| SchPdu.SchPdu.Next | lib/include/srslte/common/pdu.h:90-98 | moves to the next entry if there is one |
| SchPdu.SchPdu.DelSubh | lib/include/srslte/common/pdu.h:100-108 | takes back an entry that was not set and keeps the invariant |
| SchPdu.SchPdu.UpdateSpaceCe | lib/src/common/pdu.cc:274-283 | deducts header and size if they fit; the space never becomes negative |
| SchPdu.SchPdu.SetCe | lib/src/common/pdu.cc:549-629 | a control element of the size its identifier and direction say is added exactly when it fits, keeping the invariant |
| SchPdu.SchPdu.SetCRnti | lib/src/common/pdu.cc:575-587 | adds the two octets of the identity |
| SchPdu.SchPdu.SetConResId | lib/src/common/pdu.cc:588-604 | adds the six octets of the identity |
| SchPdu.SchPdu.SetTaCmd | lib/src/common/pdu.cc:618-629 | adds the six bits of the command |
| SchPdu.SchPdu.SetBsr | lib/src/common/pdu.cc:549-573 | in the one-octet formats, adds group and index of the last group with data |
| SchPdu.SchPdu.UpdateSpaceSdu | lib/src/common/pdu.cc:296-309 | charges an SDU exactly when get_sdu_space allows it |
| SchPdu.SchPdu.SetSdu | lib/src/common/pdu.cc:646-676 | an error for a request beyond the space, a failed read or an answer beyond the request; otherwise the answer's bytes become the next SDU, keeping the invariant, and an empty answer changes nothing |
| SchPdu.SchPdu.WritePacket | lib/src/common/pdu.cc:78-243 | succeeds exactly with head and tail room; then the buffer is the PDU, exactly pdu_len bytes, and no byte outside it has changed; without headroom nothing changes |
| SchPdu.SchPdu.ParsePacket | lib/src/common/pdu.cc:45-70 | on any bytes, the table holds what the parse on values gives |
| SchPdu.SchPdu.ParseBasePacket | lib/include/srslte/common/pdu.h:126-150 | on any bytes, the table holds what the base parse on values gives |
| SchPdu.WriteAndParse | lib/src/common/pdu.cc:45-243 | the whole transmission: what the writer produces, carried to a receiver, parses there to padding, control elements and SDUs in wire order with every payload in place, if and only if the receiver's table has room |
| SchPdu.ReadSubheader | lib/src/common/pdu.cc:728-751 | on any bytes, identifier, size, extension bit and length of the subheader |
| SchPdu.WriteSubheader | lib/src/common/pdu.cc:696-715 | writes the subheader of an item: no length field for the last one and for control elements |
| Bsr.TableSorted | lib/src/common/pdu.cc:31-35 | the table of levels rises strictly |
| Bsr.TableGeometric | lib/src/common/pdu.cc:31-35 | from 10 to 150000 in 61 steps of one ratio: every level is the least number not below its step, except entry 41, which is 4667 where the rule gives 4677 |
| Bsr.BuffSizeTable | lib/src/common/pdu.cc:810-824 | the index returned is the one whose levels bracket the size |
| Bsr.BracketsUnique | lib/src/common/pdu.cc:810-824 | only one index brackets a size |
| Bsr.Index | lib/src/common/pdu.cc:810-824 | level k <= s < level k + 1 below 128125, the two special indices at both ends |
| Bsr.IndexMonotone | lib/src/common/pdu.cc:810-824 | larger buffers never get smaller indices |
| Bsr.ReportNeverShort | lib/src/common/pdu.cc:442-468 | the level decoded is the least one above the size, never below the size exactly up to 150000, and 150000 from there on |
| Bsr.ShortBsr | lib/src/common/pdu.cc:549-573 | one octet: the last group with data and its index |
| Bsr.GetShortBsr | lib/src/common/pdu.cc:442-468 | the group and the level, all other groups zero |
| Bsr.ShortBsrReported | lib/src/common/pdu.cc:442-573 | the receiver of a short report learns the group and a size that is not too small up to 150000 |

## Left out

- The M2AP codec: encoder and decoder use different layouts in places, and the rest is repetition.
- Constrained integers over more than 65536 values, and unconstrained integers: the length is read twice or the branch is marked unfinished, so they do not come back.
- Length prefixes of variable bit strings, printable strings, and the skipping of unknown extension groups: these do not come back in general as written.
- JSON output, logging, printing, pcap: text output.
- Logarithms of ranges are the exact integer ceiling; the single-precision form agrees with it up to 65536 values.
- EIA2 block counts use single precision in the original; the model's exact division agrees with it up to 2^24, which bounds the message length there.
- Message lengths are at least 1 bit for EEA1, f8 and f9, whose block count underflows at 0; upper bounds keep 32-bit length arithmetic from wrapping: 0xFFFFFFE0 bits for EEA1 and f8, 2^35 for f9, 0x7FFFFFA0 for EIA3.
- AES inside EIA2 is any function that gives 16 bytes, and ZUC is any keystream generator of the length asked for: no property here depends on their contents.
- Key derivation, Milenage, SHA-256, MD5, EEA2 and EEA3: wiring around foreign primitives.
- `f8` and `f9` keep their state in global variables: one object stands for them, so concurrent use of the globals is not modelled. The static result buffer of `f9` is a parameter.
- Exponents of MULxPOW and MUL64xPOW are naturals; the callers' constants and loop indices all fit the original's byte.
- The third field of the long buffer status report, the long format, MCH scheduling information, power headroom (floating point), the random access response PDU, and the overload of set_sdu that copies its payload.
- The logger pointer of write_packet is assumed to be there: the message before an early return goes through it.
- A received NR payload is a place in the buffer, and the two bytes behind a received NR PDU (three behind an LTE PDU) are readable, as the readers look at them before they compare with the length.
- NR lengths are below 2^31 where the original keeps them in a signed integer.
- Sockets, select and SCTP: which descriptors are ready, whether the peer closed and whether a write to the pipe succeeded are inputs. The pass over the sockets is over those registered at its start; the erasure during the pass is otherwise not modelled.
- The pipe holds any number of commands, and its reading end is not registered as a socket.
- PerCodec.PackItem: says nothing about a value without room, because PackConstrainedWholeNumber, PackLength and PackEnum say it case by case.
- PerStrings.PackUnboundedOctstring: says nothing about aligned strings of 16384 to 65536 octets, whose length no decoder here takes back (PackLength covers it).
- BitRefs.BitRef.AdvanceBits: divides exactly, while the original rounds in single precision, so beyond 2^24 bits the code may differ.
- PerStrings.PackCommonBitstring: counts octets exactly, while the original rounds in single precision, so beyond 2^24 bits the code may differ.
- PerStrings.UnpackCommonBitstring: counts octets exactly, while the original rounds in single precision, so beyond 2^24 bits the code may differ.
- LiblteBits.LiblteBits2Value: takes elements of 0 and 1, as every writer leaves them; the original shifts other values in unmasked.
- LiblteBits.LibltePack: takes elements of 0 and 1, as every writer leaves them.
- Eia2.Eia2Bits: takes elements of 0 and 1, and lengths up to the bound of single precision.
- Eia2.OverloadsAgree: covers lengths up to the bound of single precision.
- SchPdu.SchPdu.SetBsr: the formats of one octet only.
- OpenTypes.VarlengthFieldPackGuard.Close: requires room at the outer cursor, because the destructor drops all return codes.
- OpenTypes.UnpackContents: says nothing about memory on which the decoder specification fails, because the unpacking guard drops the code of a failed length.
- PollSet.AlwaysCovered: requires that the writes of registrations succeed; StepKeeps says exactly what happens otherwise.
- NrPdu.AddRegular: covers identifiers up to 32 with fewer than 65536 bytes and CCCH messages of the right size, which are the SDUs a receiver can read back; AddSdu covers every call.
