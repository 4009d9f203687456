# A model of wolfCOSE

wolfCOSE turns keys, claims and payloads into CBOR and back, over buffers that the caller owns, with the
cryptography left to wolfCrypt.  This project models what the library itself does with those bytes and proves what
its users rely on: that reading undoes writing, that decoding depends only on the bytes it consumes, that a size that
is predicted is the size that is written, and that a message that is edited in place keeps everything else.

The modules follow the files of the library, from the bottom up:

- `Wire`, `Bits`, `Memory`, `Utf8`: bytes, machine words, moves within a buffer, and the text validator.
- `Cbor`, `CborGrammar`, `CborRoundTrip`: the codec as functions of a byte string and an index, the grammar of nested
  items that skipping accepts, round trips and framing.  `CborContext` and `CborEncoder` hold the contexts as classes,
  proved against those functions.
- `Header`, `HeaderLemmas`, `HeaderState`, `HeaderContext`, `HeaderDecoders`, `HeaderFields`, `HeaderExact`: the two
  header buckets, the set of labels kept as bits and arrays, the critical labels, what the decoded record holds,
  and exactly which buckets are accepted.  `Recipients`,
  `RecipientGrammar` and `RecipientContext`: nested recipients, their grammar, the parser with its stack, and the mode
  that recipients share.
- `Countersign` and the modules named after it: the countersignature editor (RFC 9338), from parsing over planning to
  the chain of overlapping moves, what an edit keeps for everyone who parses or verifies afterwards, what verification
  covers under every label, and when adding succeeds.
- `Structures`: the structures that are signed, authenticated or used as additional data, which never coincide.
- `Sizes`, `MultiSign`, `SignReadback`: size arithmetic, COSE_Sign messages with one-time HSS/LMS keys, and how they are
  read back.
- `Messages`, `MessageShape`, `Mac`, `MacContext`, `MacExact`, `Encrypt`, `EncryptContext`, `EncryptExact`,
  `CreateExact`: messages for several recipients, created and read, and exactly when.
- `Eat`, `EatLemmas`, `EatDepth`, `EatMeaning`, `EatRoundTrip`, `EatLegacy`, `EatContext`, `EatPrint`: PSA attestation
  claims (RFC 9783), of the current and of the legacy profile.
- `Keys`, `KeyLoop`, `KeyRules`, `KeyWriting`, `KeyStore`, `KeyExact`, `KeyContext`, `KeyPrint`: COSE_Keys, read, measured
  and written; `KeyStore` relates measuring to writing, `KeyExact` what the caller holds to what is read back.
- `NestedArrays`: deeply nested values, for the examples at the depth limit.

The modules whose names end in `Exact`, with `CountersignWhen`, `SignReadback`, `EatMeaning`, `EatLegacy`, `KeyLoop` and
`KeyRules`, state the meaning of the others a second time, from the bytes and numbers of the standards, and prove that
the two agree.

In each pair of modules the first says what the bytes mean, as functions, and proves theorems about that; the second
has the methods, with the loops, indices and records of the library, each proved to do what the functions say, errors
included.  wolfCrypt appears as parameters: a signer, a MAC or a cipher is a function, and a theorem that needs more
than that asks for it by name (opening undoes sealing, unwrapping undoes wrapping, a tag has its size).

Four things the proofs brought out:

- A single countersignature that is as deep as the depth limit allows cannot be wrapped into a list: the edit succeeds
  and the message it leaves is one that the library no longer parses.  `CountersignDepth.DeepMessageBreaks` is such a
  message; `CountersignKeeps.FullAttachKeepsEarlier` gives the exact condition for all messages.
- An RSA modulus or private exponent of less than 24 bytes would be written behind a head that the strict decoder
  refuses; `KeyWriting.ReservedIffPreferred` gives the bound, and `KeyExact.EncodedIsRead` shows that nothing else
  keeps a written key from being read.  No RSA key in use is that short.
- An RSA key with a zero exponent is encoded, and the size query refuses it; `KeyStore.SizeOfEncoded` shows that this is
  the only key for which the two calls part.
- The scan for repeated claims skips what was decoded by type before, with a limit of its own: a list of components that
  was accepted can be too deep for it, and then no claim may follow.  `EatDepth.ClaimsScanExact` gives the exact
  condition, `EatDepth.OrderDecides` such a map.

`CBOR_MAX_DEPTH`, `MAX_MAP_ITEMS` and the limits of the claims parser are parameters: every theorem holds for every
value that the library can be built with.

## Model

| member | source | states |
|---|---|---|
| Utf8.CheckUtf8 | src/wolfcose_cbor.c:61-149 | The one-loop validator accepts exactly the byte strings that are concatenations of encoded Unicode scalar values (no overlong form, surrogate or value above 0x10FFFF) |
| Utf8.DecompositionUnique | src/wolfcose_cbor.c:61-149 | An accepted text has only one decomposition into scalar values |
| CborRoundTrip.HeadRoundTrip | src/wolfcose_cbor.c:175-248 | A written head of any argument is read back with that argument, strictly and tolerantly, wherever it stands |
| CborRoundTrip.IntRoundTrip | src/wolfcose_cbor.c:397-416 | Every int64 is written and read back, as an integer, as a label, and as an unsigned when it is one |
| CborRoundTrip.StringRoundTrip | src/wolfcose_cbor.c:419-468 | Every byte string and every UTF-8 text is written and read back |
| CborRoundTrip.StrictIsCanonical | src/wolfcose_cbor.c:262-381 | Bytes accepted strictly are exactly what the encoder would write for the decoded head |
| CborRoundTrip.StrictIffTolerantAndPreferred | src/wolfcose_cbor.c:262-381 | Strict mode accepts exactly what tolerant mode accepts in shortest form, with the same result |
| CborRoundTrip.HeadFraming | src/wolfcose_cbor.c:262-381 | Decoding a head depends only on the bytes it consumes |
| CborRoundTrip.LabelFraming | src/wolfcose_cbor.c:905-952 | Decoding a label depends only on the bytes it consumes |
| CborGrammar.SkipIffGrammar | src/wolfcose_cbor.c:800-876 | Skipping succeeds, and ends at e, exactly when the bytes up to e are the encodings of that many well-formed items whose non-empty arrays and maps nest no deeper than allowed; tags do not count |
| CborGrammar.SkipFraming | src/wolfcose_cbor.c:800-876 | Skipping depends only on the bytes it skips |
| CborGrammar.TreesUnique | src/wolfcose_cbor.c:800-876 | The items that stand at one place are determined by the bytes there |
| CborRoundTrip.SkipStrictIsTolerant | src/wolfcose_cbor.c:800-876 | Tolerant skipping agrees with strict skipping wherever the latter succeeds |
| CborRoundTrip.SkipDeeper | src/wolfcose_cbor.c:800-876 | What is skipped within one depth is skipped to the same end within any larger one |
| CborContext.Decoder.DecodeHead | src/wolfcose_cbor.c:262-381 | The head decoder over a context does what the specification of heads says: result, error and next index; it never passes the end of the buffer |
| CborContext.Decoder.Skip | src/wolfcose_cbor.c:800-876 | The iterative skip with its bounded stack refines the recursive one: same end, same errors; the stack index never leaves the stack and the loop ends |
| CborContext.Decoder.SkipItem | src/wolfcose_cbor.c:883-903 | A skipped item is handed out as exactly its bytes |
| CborContext.Decoder.DecodeInt | src/wolfcose_cbor.c:616-651 | Integers of both signs; values beyond int64 are an overflow, other types a type error |
| CborContext.Decoder.DecodeContainer | src/wolfcose_cbor.c:711-742 | Array and map heads that announce more items than the bytes left can hold are refused |
| CborContext.Decoder.DecodeLabel | src/wolfcose_cbor.c:905-952 | Integer and text labels, with the errors for values out of range and for other types |
| CborContext.LoadBE16 | src/wolfcose_internal.h:105-109 | The load is the big-endian value of its two bytes |
| CborContext.LoadBE32 | src/wolfcose_internal.h:111-117 | The load is the big-endian value of its four bytes |
| CborContext.LoadBE64 | src/wolfcose_internal.h:119-131 | The load is the big-endian value of its eight bytes |
| CborEncoder.StoreBE16 | src/wolfcose_internal.h:75-81 | The store writes the two low bytes, most significant first, and nothing else |
| CborEncoder.StoreBE32 | src/wolfcose_internal.h:83-91 | The store writes the four low bytes, most significant first, and nothing else |
| CborEncoder.StoreBE64 | src/wolfcose_internal.h:93-103 | The store writes eight bytes, most significant first, and nothing else |
| CborEncoder.Encoder.EncodeHead | src/wolfcose_cbor.c:175-248 | A head is written in shortest form behind what was written so far, or refused for lack of room with nothing written |
| CborEncoder.Encoder.EncodeInt | src/wolfcose_cbor.c:397-416 | Integers of both signs are written, or refused for lack of room |
| CborEncoder.Encoder.EncodeBytes | src/wolfcose_cbor.c:419-443 | A string is written whole, or refused for lack of room |
| CborEncoder.Encoder.EncodeTstr | src/wolfcose_cbor.c:451-468 | A text that is not UTF-8 is refused; any other is written whole or refused for lack of room |
| CborEncoder.Encoder.ValidIsConfined | src/wolfcose_cbor.c:156-172 | Whatever is written stays within the buffer of the context |
| Memory.MemMove | src/wolfcose_countersign.c:1255-1325 | A move within one buffer, overlapping or not, leaves the bytes that stood at the source at the destination and every other byte alone |
| Memory.RangesOverlap | src/wolfcose_countersign.c:1118-1142 | The address comparison of the library says exactly whether two ranges share a byte |
| HeaderState.LabelBitsDisjoint | src/wolfcose_hdr.c:62-81 | Labels that have a bit have different bits |
| HeaderState.InBitsAfterAdd | src/wolfcose_hdr.c:119-143 | Setting the bit of a label adds that label to the set and no other |
| HeaderState.HdrState.Contains | src/wolfcose_hdr.c:94-117 | The bits and the array answer whether an integer label is in the mathematical set they stand for |
| HeaderState.HdrState.Add | src/wolfcose_hdr.c:119-143 | An integer label is added to the set, unless it needs an array slot and there is none |
| HeaderState.HdrState.CheckAndAdd | src/wolfcose_hdr.c:145-158 | A label that is in the set is refused, any other is added |
| HeaderState.TextLabelEquals | src/wolfcose_hdr.c:161-217 | Comparing a stored encoding with a decoded text label compares their texts |
| HeaderState.HdrState.ContainsLabel | src/wolfcose_hdr.c:219-244 | Membership in the set, for integer and text labels |
| HeaderState.HdrState.AddLabel | src/wolfcose_hdr.c:246-277 | A label of either kind is added to the set |
| HeaderState.HdrState.MergeBits | src/wolfcose_hdr.c:743-749 | Taking over the bits of another state adds its labels that have a bit |
| HeaderContext.CritInside | src/wolfcose_hdr.c:537-541 | The bit test of the critical labels says that every critical label is among the labels of the map |
| HeaderContext.DecodeCrit | src/wolfcose_hdr.c:424-464 | The bits collected from a crit array are those of its labels; an empty array, a label the library does not process and a malformed one are refused as the specification says |
| HeaderLemmas.BucketsDisjoint | src/wolfcose_hdr.c:352-752 | When both buckets decode, integer and text labels are pairwise distinct across the two, IV and Partial IV never both appear, and every critical label is in 1..6 and in the protected map |
| HeaderLemmas.FindUnique | src/wolfcose_hdr.c:352-752 | The entry found for a label is its only entry |
| HeaderLemmas.WalkFraming | src/wolfcose_hdr.c:352-752 | A header map is walked to the same entries wherever its bytes stand |
| HeaderLemmas.WalkMapFraming | src/wolfcose_hdr.c:352-752 | So is a whole map with its head |
| HeaderDecoders.DecodeProtectedHdr | src/wolfcose_hdr.c:352-573 | The loop over the protected bucket refines the specification: status, labels collected, and each field of the record equal to the lookup of its label |
| HeaderDecoders.DecodeUnprotectedHdr | src/wolfcose_hdr.c:585-765 | The same for the unprotected bucket, next to the labels of the protected one |
| HeaderDecoders.ProtectedRules | src/wolfcose_hdr.c:535-571 | The rules checked after the loop, in the order of the library |
| HeaderFields.FieldsAreLookups | src/wolfcose_hdr.c:352-752 | In the record that both decoders leave when it was blank, key identifier, IV and Partial IV are the byte string of the only entry with that label in either bucket, and absent exactly when neither has it; the algorithm is the value of its only entry, zero when there is none or it is a text |
| HeaderExact.ProtectedExactly | src/wolfcose_hdr.c:352-573 | A protected bucket is accepted, with its entries, if and only if it is empty, or one map to its end whose values have the types of their labels, whose labels are distinct, with every critical label there and a critical content type a number, no countersignature, and not both IV and Partial IV |
| HeaderExact.UnprotectedExactly | src/wolfcose_hdr.c:585-765 | An unprotected bucket is accepted, with its entries and up to e, if and only if it is a map whose values have the types of their labels, whose labels are distinct and not protected and not the critical labels, with not both IV and Partial IV in the two buckets |
| RecipientGrammar.ListIffGrammar | src/wolfcose_hdr.c:983-1058 | A list of recipients is accepted, up to e, exactly when the bytes up to e are the encodings of that many trees of recipients (three fields in order, or four with a non-empty list as the last, a Direct one with nothing nested) no deeper than allowed |
| RecipientGrammar.FieldsExactly | src/wolfcose_hdr.c:868-966 | The three fields of a recipient are read exactly when they are a byte string, a whole map and null or a byte string, with one algorithm at most, and for a Direct recipient nothing protected, an empty value and nothing nested |
| RecipientGrammar.RecipientListFraming | src/wolfcose_hdr.c:983-1058 | A list of nested recipients is accepted wherever its bytes stand |
| RecipientContext.DecodeSkippedHdrAlg | src/wolfcose_hdr.c:787-866 | The algorithm of a header map whose other entries are skipped, with its errors |
| RecipientContext.DecodeSkippedRecipientEntry | src/wolfcose_hdr.c:868-966 | One recipient up to its nested list: three or four fields, and the restrictions of a Direct recipient |
| RecipientContext.DecodeSkippedSignature | src/wolfcose_hdr.c:970-981 | A signature that is not selected is skipped as its structure |
| RecipientContext.DecodeSkippedRecipient | src/wolfcose_hdr.c:983-1058 | The stack-based parser accepts exactly the recursive grammar (three fields, or four with a non-empty nested list, Direct restrictions at every level) up to the depth limit, consumes exactly one recipient, and reports the outermost algorithm |
| RecipientContext.UpdateRecipientMode | src/wolfcose_recipient.c:917-958 | One recipient more: the common mode, or a refusal that leaves it as it was |
| RecipientContext.FoldIffCompatible | src/wolfcose_recipient.c:917-958 | Folding over a list succeeds exactly when no algorithm is unset and all have one mode, direct agreement only alone |
| RecipientContext.ModesExactly | src/wolfcose_recipient.c:911-958 | By algorithm number: a list goes together if and only if no algorithm is unset and all encrypt directly, or one alone agrees on a key, or none does either |
| RecipientContext.OrderDoesNotMatter | src/wolfcose_recipient.c:917-958 | Acceptance of a list does not depend on its order |
| CountersignContext.ParseCounterMap | src/wolfcose_countersign.c:97-211 | The locating pass over the unprotected map finds the count, the ends and the value under each countersignature label, or the error |
| CountersignContext.ParseCounterTarget | src/wolfcose_countersign.c:213-353 | Parsing a message into its signed fields and offsets refines the specification, errors included |
| CountersignContext.ValidateFullCounter | src/wolfcose_countersign.c:355-394 | A full countersignature is validated as its structure says |
| CountersignContext.CounterListInfo | src/wolfcose_countersign.c:396-458 | Count, start and kind of a value that holds one or several countersignatures, each validated |
| CountersignContext.SelectFullCounter | src/wolfcose_countersign.c:460-501 | The bytes of the countersignature with an index, or the error |
| CountersignContext.DecodeFullCounter | src/wolfcose_countersign.c:1539-1578 | The parts of a full countersignature that verification needs |
| CountersignBuild.BuildCounterStructure | src/wolfcose_countersign.c:503-595 | The Countersign_structure is built in scratch, exactly, or refused for lack of room |
| CountersignBuild.EncodeFullCounter | src/wolfcose_countersign.c:632-662 | A full countersignature is written exactly, or refused for lack of room |
| CountersignBuild.EncodeProtectedHdr | src/wolfcose_hdr.c:321-350 | The protected bucket {1: alg} is written exactly, or refused for lack of room |
| CountersignPlan.FullCounterSize | src/wolfcose_countersign.c:597-630 | The planned size of a full countersignature, with its overflow refusals |
| CountersignPlan.AttachedLenIs | src/wolfcose_countersign.c:1144-1241 | Whatever is attached, the message has exactly the planned size |
| CountersignPlan.PlanAttachCounter | src/wolfcose_countersign.c:1144-1241 | Planning fails exactly as specified; on success every planned offset and size is that of the message to be written, and fits the output |
| CountersignAttach.AttachCounter | src/wolfcose_countersign.c:1243-1351 | The chain of overlapping moves: with a successful plan attaching cannot fail, in place or into another buffer; the output is the input with its unprotected map rewritten (one entry more, or the value under label 11 grown into or within a list), prefix, other entries and suffix byte for byte, and nothing behind the planned length is touched |
| CountersignAttach.AttachInside | src/wolfcose_countersign.c:1243-1351 | The same edit on a message that stands in the output buffer |
| CountersignAttach.MoveSuffix | src/wolfcose_countersign.c:1253-1260 | What follows the map lands where the plan puts it, overlapping or not |
| CountersignAdd.CounterSignTbs | src/wolfcose_countersign.c:664-892 | A signature of another length than predicted is an error; nothing before the structure is touched |
| CountersignAdd.AddCounterCommon | src/wolfcose_countersign.c:1353-1480 | Adding is atomic: it fails before the signer exactly as specified, afterwards only when the signer fails or returns another length; on success the output is the attached message of the planned length; on every failure the output buffer and the input are unchanged |
| CountersignLists.GrownCounters | src/wolfcose_countersign.c:1243-1351 | A grown value holds the countersignatures it held, at the same indices, and the new one last |
| CountersignReparse.EntryReparse | src/wolfcose_countersign.c:1243-1351 | The message with one entry more parses to the same signed fields |
| CountersignReparse.GrowReparse | src/wolfcose_countersign.c:1243-1351 | The message whose value grew parses to the same signed fields |
| CountersignKeeps.FullAttachKeepsEarlier | src/wolfcose_countersign.c:213-501 | After a full countersignature was attached, the message parses again if and only if the old value leaves room for one more level of nesting; then all signed fields are the same, the countersignatures are the old ones in order and the new one at index old-count, every other entry and the abbreviated value keep their bytes |
| CountersignKeeps.AbbreviatedAttachKeepsEarlier | src/wolfcose_countersign.c:213-501 | After an abbreviated countersignature was attached the message always parses again, with the same fields, the same full countersignatures and the new value |
| CountersignKeeps.TooDeep | src/wolfcose_countersign.c:396-458 | When the grown message parses, the old value was one that could go one level deeper |
| CountersignDepth.DeepMessageBreaks | src/wolfcose_countersign.c:1243-1351 | A concrete message with one countersignature as deep as the limit allows: it parses, and after a second one is attached it does not |
| CountersignVerify.VerifyAfterFullAttach | src/wolfcose_countersign.c:1580-1677 | Earlier full countersignatures verify exactly as before; the new one verifies as the signature over the same structure does |
| CountersignVerify.VerifyAfterAbbreviatedAttach | src/wolfcose_countersign.c:1679-1760 | The new abbreviated countersignature verifies exactly as its signature over the structure does |
| CountersignAdd.AddedFullVerifies | src/wolfcose_countersign.c:1353-1480 | From call to check: what a successful call writes verifies at every earlier index as the input did, and at the new index as the signature does |
| CountersignAdd.AddedAbbreviatedVerifies | src/wolfcose_countersign.c:1353-1480 | The same for an abbreviated countersignature |
| CountersignCheck.VerifyCounterSignature | src/wolfcose_countersign.c:1580-1677 | Verifying by index does what the specification of full countersignatures says, errors included, and writes only scratch |
| CountersignCheck.VerifyCounterSignature0 | src/wolfcose_countersign.c:1679-1760 | Verifying the abbreviated one does what its specification says |
| CountersignExact.VerifiesLabel11 | src/wolfcose_countersign.c:1580-1677 | With a value under label 11, verification at an index is the check of the selected item: refused when its algorithm is not protected and the key does not name it, else the signature decides over five items, or over six with the other field when the message has one, written out |
| CountersignExact.VerifiesLabel7 | src/wolfcose_countersign.c:1644-1667 | With a value under label 7 and none under label 11: the same over the five items of the older structure, whatever other field the message has |
| CountersignExact.VerifiesLabel12 | src/wolfcose_countersign.c:1679-1760 | With a value under label 12, the abbreviated countersignature is checked over four items, or five with the other field, written out |
| CountersignExact.VerifiesLabel9 | src/wolfcose_countersign.c:1679-1760 | With a value under label 9 and none under label 12: over the four items of the older structure |
| CountersignExact.NothingToVerify | src/wolfcose_countersign.c:1580-1760 | Without those labels both calls end with a bad header |
| CountersignExact.TargetShape | src/wolfcose_countersign.c:213-353 | A parsed message is its fields in order, and the signed fields are those bytes |
| CountersignExact.CountersStand | src/wolfcose_countersign.c:396-501 | A value that is accepted is one countersignature, or an array of the countersignatures that are selected by index |
| CountersignWhen.AddsExactly | src/wolfcose_countersign.c:1144-1480 | Nothing refuses adding before the signer if and only if buffers do not overlap and, from the entries of the message: the arguments are allowed, the message parses, what is covered and the signature fit scratch, no label excludes it, no limit of map or list is reached, and the edited message fits |
| CountersignWhen.SucceedsExactly | src/wolfcose_countersign.c:1243-1480 | Adding succeeds if and only if it can be carried out and the signer makes a signature of the promised length over the covered bytes; the output is then the message with one more entry, or one more item in the value under label 11, written out |
| Structures.BuildToBeSignedMaced | src/wolfcose_struct.c:65-111 | Sig_structure and MAC_structure are built exactly, or refused; nothing outside the buffer given is written |
| Structures.BuildEncStructure | src/wolfcose_struct.c:121-155 | Enc_structure is built exactly, or refused; nothing outside the buffer given is written |
| Structures.SignedInjective | src/wolfcose_struct.c:65-111 | Equal bytes of Sig or MAC structures mean the same context, the same arity and the same fields, of any length |
| Structures.EncInjective | src/wolfcose_struct.c:121-155 | Equal bytes of Enc structures mean the same context and fields |
| Structures.SignedIsNotEnc | src/wolfcose_struct.c:65-155 | What is signed or authenticated is never what is used as additional data |
| Structures.CounterInjective | src/wolfcose_countersign.c:503-595 | Equal Countersign_structures cover the same fields in the same way |
| Structures.CounterIsSeparate | src/wolfcose_countersign.c:503-595 | A countersignature never covers the bytes that a message signature, MAC or encryption does |
| Sizes.SizeAdd | src/wolfcose_key.c:345-356 | The sum, or a refusal exactly when it would wrap |
| Sizes.CborHeadSize | src/wolfcose_key.c:358-378 | The predicted size is the length of the head that is written, for every major type |
| Sizes.CborStringSize | src/wolfcose_key.c:380-392 | The predicted size of a string, or a refusal when it would wrap |
| MultiSign.SignEncodedSize | src/wolfcose_sign.c:68-141 | The predicted size of a COSE_Sign; it fails only for a key that refuses or a sum that does not fit |
| MultiSign.SizeIsExact | src/wolfcose_sign.c:68-141 | When every signature has its predicted length, the message has exactly the predicted size |
| MultiSign.LmsRule | src/wolfcose_sign.c:329-343 | The count test of the library says exactly that an HSS/LMS signer is the only one and comes last |
| MultiSign.Preflight | src/wolfcose_sign.c:321-433 | The checks before any signer pass exactly when the rule is kept and, with an HSS/LMS signer, output and every scratch layout fit and the key is ready |
| MultiSign.SignOne | src/wolfcose_sign.c:480-771 | One signer succeeds exactly when its structure fits, its key can be used and yields an acceptable signature; once the key was used only the signer itself can fail |
| MultiSign.CoseSign | src/wolfcose_sign.c:166-808 | The call succeeds exactly when its arguments, preflight and signers allow it, with the message and its length as specified; an HSS/LMS signature is spent only on a call that succeeds or whose signer itself fails, given signatures no longer than predicted; scratch is erased in any case, the output on every refusal |
| SignReadback.SignedIsReadBack | src/wolfcose_sign.c:440-808 | What is written parses: tag 98, an empty protected bucket, an empty map, the payload embedded or detached; the array behind it holds one signature for every signer in order, with its algorithm protected, its key identifier, and the signature that its key makes of the Sig_structure, written out, of the parsed fields |
| Messages.RecipientsSkipped | src/wolfcose_mac.c:534-628 | Written recipients of one mode are skipped to their end and share the mode |
| MacContext.MacCreate | src/wolfcose_mac.c:83-370 | Creating ends exactly as specified: the refusals in their order, or the message in the output buffer; scratch is erased in any case, the output on every refusal |
| MacContext.DecodeMac | src/wolfcose_mac.c:433-626 | Parsing with one recipient selected refines the specification, errors included |
| MacContext.VerifyMac | src/wolfcose_mac.c:376-785 | Verifying does what the specification says: every error, or the embedded payload |
| MacExact.MacShape | src/wolfcose_mac.c:433-626 | A parsed message is its fields in order; its tag is the byte string behind the content |
| MacExact.VerifiesExactly | src/wolfcose_mac.c:376-785 | Verification succeeds if and only if the message parses with a direct recipient at the index, key and policy agree, the structure fits scratch, and the tag in the message is the one that the key makes of the MAC_structure, written out |
| MacExact.WrongTagRefused | src/wolfcose_mac.c:740-758 | A written message with any other tag ends with MacFail at every recipient index |
| CreateExact.MacCreatesExactly | src/wolfcose_mac.c:83-370 | A message is created if and only if the call is allowed and everything fits, by the algorithm numbers and limits; and it is exactly the bytes written out |
| Mac.MacParses | src/wolfcose_mac.c:433-671 | A written message parses at every recipient index to what it was written from |
| Mac.MacRoundTrip | src/wolfcose_mac.c:310-354 | For any number of recipients, key identifiers, payload and external data, a message verifies at every recipient index and gives back its payload |
| MacContext.CreatedVerifies | src/wolfcose_mac.c:83-785 | What a successful call creates verifies at every recipient index |
| EncryptContext.CheckEncryption | src/wolfcose_encrypt.c:162-232 | The argument checks pass exactly for acceptable arguments |
| EncryptContext.CheckWrapKeys | src/wolfcose_encrypt.c:314-342 | The key checks pass exactly when every recipient wraps with a key of the right size and algorithm |
| EncryptContext.CheckDirectKeys | src/wolfcose_encrypt.c:359-395 | The key checks pass exactly when every recipient is direct and the shared key has the content size |
| EncryptContext.SealInPlace | src/wolfcose_encrypt.c:445-553 | The ciphertext is written in place behind its head exactly when sealing succeeds and there is room |
| EncryptContext.EncodeAllWrapped | src/wolfcose_encrypt.c:555-742 | Every recipient is written with its own wrapped key exactly when all keys wrap and there is room |
| EncryptContext.CreateEncrypted | src/wolfcose_encrypt.c:105-747 | The call succeeds exactly when the specified message exists and fits, and then the output is that message; scratch is erased in any case, the output on every refusal |
| EncryptContext.SelectRecipient | src/wolfcose_encrypt.c:979-1362 | The selected recipient: structure, early and late policy, mode and value, with every error |
| EncryptContext.DecodeEncrypt | src/wolfcose_encrypt.c:867-1376 | Parsing with one recipient selected refines the specification, errors included |
| EncryptContext.DecryptMessage | src/wolfcose_encrypt.c:783-1628 | Decrypting does what the specification says: every error, or the plaintext |
| EncryptExact.EncryptShape | src/wolfcose_encrypt.c:867-976 | A parsed message is its fields in order |
| EncryptExact.SelectedExactly | src/wolfcose_encrypt.c:979-1362 | A recipient is selected if and only if it protects nothing, is direct with an empty value or wraps in 24 bytes at least, is of the common mode, and goes together with the key, the policy and the protection of the content algorithm |
| EncryptExact.DecryptsExactly | src/wolfcose_encrypt.c:783-1628 | Decryption gives a plaintext if and only if the message parses with such a recipient, nonce and ciphertext have their sizes, and the content key opens the ciphertext to it with the Enc_structure, written out; every other input is refused |
| CreateExact.EncryptsExactly | src/wolfcose_encrypt.c:105-747 | A message is created if and only if the call is allowed, there is a content key, the payload is sealed, every key wraps and the message fits; and it is exactly the bytes written out |
| Encrypt.EncryptParses | src/wolfcose_encrypt.c:867-1376 | A written message parses at every recipient index for a reader that agrees with it |
| Encrypt.EncryptRoundTrip | src/wolfcose_encrypt.c:313-1496 | For any number of recipients, direct or key wrap, what is encrypted decrypts at every recipient index to the same plaintext |
| EatContext.MapHasPriorLabel | src/wolfcose_eat_psa.c:707-746 | The second scan finds a label among the entries before an index as specified, errors included |
| EatLemmas.PriorSees | src/wolfcose_eat_psa.c:707-746 | A scan that finds no label has compared it with every earlier entry of the forward pass, although it skips values the forward pass decoded by type |
| EatDepth.ScanExact | src/wolfcose_eat_psa.c:707-746 | The scan over entries that were accepted is refused exactly when a value in front of the label cannot be skipped; otherwise it answers whether the label is there |
| EatDepth.ClaimsScanExact | src/wolfcose_eat_psa.c:707-746 | Over claims that were read, the scan is refused if and only if the list of components, accepted before, cannot be skipped within the depth limit and the label is not found up to there |
| EatDepth.ComponentScanExact | src/wolfcose_eat_psa.c:707-746 | Over the entries of a component the scan is never refused: it answers whether the label was read |
| EatDepth.OrderDecides | src/wolfcose_eat_psa.c:1049-1100 | Two claims that are both accepted with the nonce in front are refused when the deep list of components comes first |
| EatContext.SetProfile | src/wolfcose_eat_psa.c:893-937 | The profile is set when the text names the profile of the namespace, any other text is refused |
| EatContext.DecodeComponent | src/wolfcose_eat_psa.c:748-857 | A component is decoded into the record as specified, errors included |
| EatContext.DecodeComponents | src/wolfcose_eat_psa.c:859-891 | The array of components: bounds, every component, and the slice that is kept |
| EatContext.ParseClaims | src/wolfcose_eat_psa.c:1049-1313 | The claims parser refines the specification: status, token and profile; on failure the token is cleared |
| EatContext.CheckClaims | src/wolfcose_eat_psa.c:1223-1307 | The checks after the loop: namespaces, required claims, lengths, and the profile settled on |
| EatLemmas.PairsDistinct | src/wolfcose_eat_psa.c:676-746 | The labels of an accepted map are pairwise distinct by value, under any encoding and also when unknown |
| EatLemmas.MaskIsRedundant | src/wolfcose_eat_psa.c:941-1047 | Within one namespace different labels name different claims: the mask of seen claims adds nothing to the scan |
| EatLemmas.AcceptedClaims | src/wolfcose_eat_psa.c:1049-1313 | An accepted token: all its entries, distinct labels, one namespace only, all required claims, and components or else the legacy statement that there are none |
| EatMeaning.AcceptsExactly | src/wolfcose_eat_psa.c:1049-1313 | A token is accepted if and only if its entries are read to its end and are, by label number, a complete token of the current or of the legacy profile with fields of the right sizes; its fields are the values under those labels |
| EatMeaning.ClaimExactly | src/wolfcose_eat_psa.c:893-1222 | The value of an entry of the claims map is taken if and only if its label is unknown and any item stands there, or the label, by number, may follow the ones before and the value is of its type: the profile texts, a client of 32 bits that is not zero, a lifecycle state, byte strings, texts, components |
| EatLegacy.LegacyRoundTrip | src/wolfcose_eat_psa.c:1049-1313 | For every valid legacy record, with components or with the statement that there are none, the map of its claims under -75000 to -75010 parses to the same fields, and iterating gives the same components |
| EatLemmas.KeptComponents | src/wolfcose_eat_psa.c:859-891 | The components are read again, the same, from the slice that is kept of them |
| EatLemmas.IterationReachesAll | src/wolfcose_eat_psa.c:1569-1612 | Iterating over an accepted token reaches every component the parser read, in order, and refuses none |
| EatContext.ForEachComponent | src/wolfcose_eat_psa.c:1569-1612 | The iterator hands out the stored components in order; for components that can be read it fails only when, and as, the callback does |
| EatPrint.ValidateClaims | src/wolfcose_eat_psa.c:383-436 | Claims are accepted exactly when every required field and component is in order |
| EatPrint.EncodeComponent | src/wolfcose_eat_psa.c:438-491 | A component is written exactly, or refused for lack of room or for text that is not UTF-8 |
| EatPrint.EncodeClaims | src/wolfcose_eat_psa.c:494-610 | Claims are refused, or written exactly; the only refusals of valid claims are lack of room and text that is not UTF-8 |
| EatRoundTrip.ClaimsRoundTrip | src/wolfcose_eat_psa.c:400-610 | Printing and then parsing gives the same claims, and iterating gives the same components in order |
| Keys.PartsIffPeek | src/wolfcose_key.c:1849-1978 | The label loop of the decoder accepts exactly the keys that can be peeked at and whose coordinates are byte strings, and the two find the same fields |
| Keys.PeekAgrees | src/wolfcose_key.c:2001-2215 | Whenever a key is decoded, peeking succeeds with the same key type, algorithm, curve and identifier |
| KeyContext.PeekInfo | src/wolfcose_key.c:1849-1978 | Peeking refines its specification; on failure nothing of a key is left in the record |
| KeyContext.ReadParts | src/wolfcose_key.c:2066-2197 | The label loop of the decoder refines its specification, errors included |
| KeyContext.Decode | src/wolfcose_key.c:2001-2413 | Decoding: the loop, the validation in its order, and the import, as specified |
| KeyRules.RulesExactly | src/wolfcose_key.c:2197-2413 | The checks behind the loop pass exactly for keys that keep the rule of their type, with curves, widths and algorithms by number, and fit the attached object |
| KeyRules.DecodesExactly | src/wolfcose_key.c:2001-2413 | A key is decoded if and only if its loop ends with its bytes, it names a type, keeps the rule of its type, and the import succeeds |
| KeyLoop.LoopExactly | src/wolfcose_key.c:2066-2197 | A key is taken apart if and only if it begins with a map of distinct integer labels whose values have the types of their labels, without key operations; every part is the value under its label, or missing |
| KeyWriting.SizeIsExact | src/wolfcose_key.c:1461-1788 | For every type of key the predicted size is the length of what is written |
| KeyWriting.ReservedIffPreferred | src/wolfcose_key.c:513-535 | The reserved head is the shortest one, and the byte string can be read back, if and only if there are 24 bytes at least |
| KeyWriting.KeyPartsRoundTrip | src/wolfcose_key.c:641-1289 | Every written key is taken apart by the decoder into what it was written from |
| KeyWriting.KeyRoundTrip | src/wolfcose_key.c:641-1289 | Peeking at a written key gives its routing fields, and decoding it ends as validation and import of exactly its parts do |
| KeyPrint.KeyCommonSize | src/wolfcose_key.c:1399-1439 | The size of head, type, identifier and algorithm, or a refusal when it would wrap |
| KeyPrint.KeyTypeSize | src/wolfcose_key.c:1476-1781 | The size of the entries of every key type, or a refusal when it would wrap |
| KeyStore.SizeOfEncoded | src/wolfcose_key.c:641-1788 | Call to call, for every key and the same flags: when encoding succeeds, the size query succeeds with the length of what was written, if and only if the key is not an RSA key with a zero exponent; that key is encoded and its size is refused |
| KeyStore.ZeroExponentParts | src/wolfcose_key.c:494-509 | A concrete RSA key with a zero exponent that is encoded and whose size is refused |
| KeyStore.RefusedOnlyForZero | src/wolfcose_key.c:1461-1788 | The size query refuses a key that can be encoded in that one case only, and then as a wolfCrypt failure |
| KeyStore.MeasuresAgree | src/wolfcose_key.c:1461-1788 | What the size query measures of a key is what encoding writes of it, for the same flags |
| KeyStore.PublicOnly | src/wolfcose_key.c:403-421 | With the public-only flag, a delegated signer or no private half, no private part of an asymmetric key is written |
| KeyExact.EncodesExactly | src/wolfcose_key.c:641-1289 | By curve, width, algorithm and flag: which keys are encoded, if and only if, given room |
| KeyExact.KeyBytesAre | src/wolfcose_key.c:541-1289 | What is written of a key are the bytes of its map, labels and all, written out for every type |
| KeyExact.EncodedIsRead | src/wolfcose_key.c:641-1289 | For every key that is encoded, a reader finds the fields of its object under their labels, the private part exactly when there is one, it was not left out, no callback signs, and the type allows it; the reader takes the key if and only if it accepts that many entries and no modulus is shorter than 24 bytes |
| KeyExact.RoomExactly | src/wolfcose_key.c:641-1289 | The room that encoding takes, with the working room of a private RSA exponent |
| KeyPrint.EncodeSize | src/wolfcose_key.c:1461-1788 | The size query gives the predicted size or the refusal, for every key and both flags |
| KeyPrint.FinalizeRsaBstr | src/wolfcose_key.c:513-535 | The in-place shift leaves head and payload where they belong and every other byte alone |
| KeyPrint.ExportReserved | src/wolfcose_key.c:772-797 | A direct export takes three bytes of head while it is made, and ends as the byte string behind its head |
| KeyPrint.PadInPlace | src/wolfcose_key.c:866-878 | A number exported too short is moved up and padded on the left to its width |
| KeyPrint.ExportExponent | src/wolfcose_key.c:806-890 | The private exponent: succeeds exactly when the working room is there, ends as the padded number behind its head, with what the export left behind erased |
| KeyPrint.EncodeKey | src/wolfcose_key.c:641-1289 | Encoding succeeds exactly when the key and the flags allow it and there is room, the working room of direct exports included; then it has written exactly the specified key, otherwise the whole buffer is erased |

## Left out

- All of wolfCrypt: hashing, signing, verification, MACs, ciphers, key wrap, random numbers and the import and export of
  keys are parameters; the rollback of a failed import and the layout of big integers are not modelled.
- NULL pointer arguments, except where an absent argument differs from an empty one; secure erasure of temporaries,
  constant-time comparison and failure injection.
- The other builds of the preprocessor: the model has countersignatures with both label sets, text labels, HSS/LMS and
  delegated signing, AES key wrap, RSA private keys and both claim profiles, and a machine word of 64 bits; ECDH-ES and
  HPKE recipients are not part of it, so their algorithms are refused where the library would look at them.
- Floating point items, and the simple values true and false: they would only add easy members.
- A decoder's buffer is a byte string here, because a decoder never writes it; the index after a failed call is not
  stated, the library leaves it unspecified.
- COSE_Sign1, COSE_Mac0 and COSE_Encrypt0 messages, and `wc_CoseSign_Verify`: their parsing and structures are the ones
  modelled here for the multi-signer and multi-recipient messages and for countersignatures.
- The envelope of a PSA token and the comparison of its nonce; the aliasing check of the claims printer, whose output
  buffer is a fresh object here.
- The tables of algorithms and of tag sizes, single switches, are parameters too.
- CborEncoder.Encoder.EncodeHead: a context whose index was set past its buffer by hand, which the library would refuse,
  is not one of the contexts modelled.
- HeaderDecoders.DecodeProtectedHdr: the record that is filled has no IV and no Partial IV before the call, as at every
  call of the library.
- EncryptContext.CreateEncrypted: does not state which error is reported when several reasons to refuse coincide, only
  exactly when the call succeeds and what it writes; the ciphers give ciphertexts and wrapped keys of the sizes they
  promise.
- EncryptContext.CheckEncryption: does not state which error is reported, only exactly when the checks pass.
- EncryptContext.CheckWrapKeys: does not state which error is reported, only exactly when the checks pass.
- EncryptContext.CheckDirectKeys: does not state which error is reported, only exactly when the checks pass.
- EncryptContext.SealInPlace: does not state which error is reported, only exactly when it succeeds and what it writes.
- EncryptContext.EncodeAllWrapped: does not state which error is reported, only exactly when it succeeds and what it
  writes.
- EncryptContext.DecryptMessage: the header record that is handed out besides the plaintext is not stated; what the header
  decoders leave in it is.
- MacContext.VerifyMac: the header record that is handed out besides the payload is not stated; what the header decoders
  leave in it is.
- EatPrint.EncodeComponent: does not state which of the two errors is reported when a text is not UTF-8 and the buffer is
  too small as well.
- EatPrint.EncodeClaims: does not state which of the two errors is reported when a text is not UTF-8 and the buffer is
  too small as well.
- KeyPrint.EncodeKey: does not state which error is reported for an RSA or an Edwards key that the flags refuse, or when
  there is no room; what wolfCrypt exports of an object is part of the key.
- KeyPrint.EncodeSize: what wolfCrypt measures is a parameter that agrees with what it exports.
- KeyPrint.ExportReserved: does not state which error is reported for lack of room.
- KeyPrint.ExportExponent: does not state which error is reported for lack of room.
- KeyContext.Decode: how the import into an attached wolfCrypt object ends is a parameter, and the record after a failed
  call is not stated.
- MultiSign.CoseSign: which error a refused call reports is not stated; the two phases of RSA-PSS and of the local
  hashes are one check of the signer.
- MultiSign.SignEncodedSize: which error a refusal reports is not stated, only exactly when there is a size.
- MultiSign.Preflight: which error a refusal reports is not stated, only exactly when the checks pass.
- MultiSign.SignOne: which error a refusal reports is not stated; the phases of signing are one check of the signer.
- CountersignAdd.CounterSignTbs: the algorithm-specific signing code is one function of the bytes to sign.
- CountersignCheck.VerifyCounterSignature: the algorithm-specific checks behind the structure are one function of the
  algorithm, the bytes and the signature.
- CountersignCheck.VerifyCounterSignature0: the same for the abbreviated form; the header record that verification of a
  full one hands out is not stated.
- EatContext.DecodeEntry: the mask of claims that were seen is a set; its bits are not modelled.
