# Verification model of the Godot Solana SDK

This project models the parts of the SDK whose correctness is hardest to see by
reading, and proves what they promise.

* **Curve arithmetic.** Elements of GF(2^255 - 19) as five 64-bit limbs with
  128-bit products (`FieldLimbs`, `FieldProofs`, `PowerChain`, `ByteDecoding`,
  `CurvePoint`, `CanonicalForm`), and the mutable element class with its limb
  bounds followed from the byte decoder to the end of the curve test
  (`FieldElement`). Every word operation is written with its truncation; the proofs
  show which ones lose nothing. Which limbs come out, and so what the comparisons of
  the test see, is the subject of `ExactLimbs`; when the test accepts, that of
  `CurveAnswers`. Primality of p is used only by `CurveMembers`, where it is a premise:
  there, Fermat's little theorem (`Primes`, `PrimeField`) makes the test accept
  exactly the ordinates of curve points.
* **SHA-256 and program addresses.** The hash of FIPS 180-4 (`Sha256`), its
  constants from the primes (`Sha256Origins`), its functions bit by bit
  (`Sha256Bits`) and its rounds as two recurrences (`Sha256Standard`), the
  buffering object that must agree with it (`Sha256Stream`), and every copy of the
  bump-seed search (`Pubkey`).
* **Text codecs.** Base58 as change of base (`Positional`, `Base58`) and as the
  in-place buffer algorithms (`Base58Buffers`); base64 against RFC 4648 (`Base64`,
  `Base64Buffers`), including the rounding of `float(i)`. `Base58Meaning` and
  `Base64Meaning` say what the texts stand for.
* **Binary codecs.** The Anchor value codec (`AnchorModel`, `AnchorRoundTrip`,
  `AnchorWire`, `AnchorCodec`, `AnchorAccount`), the candy machine account
  (`CandyMachine`, `CandyLayout`, `CandyMachineData`), compact-u16 and compiled
  instructions (`CompactU16`, `CompiledInstruction`).
* **The RPC client.** The queue as a state machine (`RpcModel`), its safety over
  whole runs (`RpcSafety`), bounded waiting (`RpcWaiting`), what every request
  gets (`RpcAnswers`), the client class (`RpcClient`), and the list of clients that
  shrinks while it is walked (`RpcMulti`).

Shared helpers are in `Words`, `Options`, `Powers`, `Modular`, `LittleEndian`,
`Text` and `ByteCursor`.

Code that updates state in place is a class or a method with loops, proved equal
to a function; the promises are lemmas about that function. `Crash` and `None` stand
for a read or write outside an array, `ReadEmptyFront` for the front of an empty queue.

Where the code does not do what one would expect, the model follows the code and
says exactly when it does:

* comparing field elements limb by limb is always sound, and decides congruence
  with canonical elements exactly for canonical elements;
* the byte decoder accepts y >= p, which section 5.1.3 of RFC 8032 rejects; its
  result is canonical exactly for y < p;
* a refused connection makes one tick finish two requests, or read an empty queue;
* base64 decoding is right for every byte string of a length only while the text has
  at most 2^24 characters, and it never looks at a lone last character;
* a struct whose dictionary has both a "dataType" and a "value", or is tagged as an
  option, is serialised as something else;
* a compiled instruction that is cut short is always refused exactly when it has
  fewer than 128 accounts and fewer than 128 bytes of data;
* an Anchor string loses what stands behind a zero;
* a candy machine loses fees of 65536 and more, shares of 256 and more, and text
  behind a zero.

`dafny verify dfyconfig.toml` checks the whole project.

## Model

| member | source | states |
|---|---|---|
| FieldProofs.MulExact | src/curve25519.cpp:252-293 | operands with limbs below 2^54: the limbs of the product are below 2^52 and stand for the product modulo 2^255 - 19; no 64- or 128-bit step loses a bit |
| FieldProofs.ProductColumnsExact | src/curve25519.cpp:256-266 | the five 128-bit coefficients, factors `* 19` included, equal the unbounded sums of products |
| FieldProofs.CarryChainExact | src/curve25519.cpp:268-292 | carrying, through the 64-bit casts and the final `carry * 19`, keeps the value modulo 2^255 - 19 and leaves limbs below 2^52 |
| FieldProofs.SquaringExact | src/curve25519.cpp:40-78 | one turn of the squaring loop is an exact multiplication of the element by itself |
| FieldProofs.Pow2kExact | src/curve25519.cpp:34-82 | k squarings give x^(2^k) for every k, each starting from and ending in limbs that fit |
| FieldProofs.SquareExact | src/curve25519.cpp:246-250 | `square` is x^2, with limbs below 2^52 |
| FieldProofs.ReduceExact | src/curve25519.cpp:84-106 | `reduce` keeps the value modulo 2^255 - 19 for all 64-bit limbs and returns limbs below 2^52 |
| FieldProofs.NegExact | src/curve25519.cpp:295-304 | negation against 16 p never underflows and stands for -x |
| FieldProofs.SubExact | src/curve25519.cpp:306-317 | subtraction against 16 p neither overflows nor underflows and stands for x - y |
| FieldProofs.AddExact | src/curve25519.cpp:319-327 | the sum of reduced elements is exact and may be multiplied without carrying |
| ExactLimbs.MulLimbs | src/curve25519.cpp:252-293 | which limbs a product has: the radix-2^51 digits of its coefficient sum, what lies above 2^255 folded back into the two lowest; that sum stands for the product |
| ExactLimbs.FoldedUnique | src/curve25519.cpp:268-292 | no other limbs have these digits |
| ExactLimbs.SquareIsMul | src/curve25519.cpp:34-82 | the squaring loop, symmetric terms added once, returns limb by limb what multiplying an element by itself returns |
| ExactLimbs.SubValue | src/curve25519.cpp:306-317 | the integer a difference stands for: 16 p too large, less p for every carry out of the top limb |
| ExactLimbs.ReduceValue | src/curve25519.cpp:84-106 | `reduce` takes off exactly p times the carry out of the top limb |
| FieldProofs.NegIsSub | src/curve25519.cpp:295-304 | negation has the limbs of the subtraction from zero |
| PowerChain.ChainLink | src/curve25519.cpp:333-354 | each link of the addition chain adds its exponents of ones |
| PowerChain.Pow22501Correct | src/curve25519.cpp:333-354 | the chain gives x^11 and x^(2^250 - 1) |
| PowerChain.ExponentP58 | src/curve25519.cpp:356-365 | the exponent reached is (p - 5) / 8 |
| PowerChain.PowP58Correct | src/curve25519.cpp:356-365 | `pow_p58` is x^((p - 5) / 8) |
| ByteDecoding.FromBytesExact | src/curve25519.cpp:141-225 | for all 32 bytes the limbs are below 2^51 and stand for the little-endian integer modulo 2^255; no cast to a byte loses a bit, and values from p on are accepted, unlike in section 5.1.3 of RFC 8032 |
| CurvePoint.CheckIsEulerPower | src/curve25519.cpp:367-373 | for all u and v, p not assumed prime, `check` stands for u (u v^7)^((p - 1) / 4) |
| CurvePoint.RootCases | src/curve25519.cpp:374-388 | the case analysis over the three comparisons, any number of which may hold at once |
| CurvePoint.TurnedSound | src/curve25519.cpp:374-384 | the conditionally turned root is a root of u / v whenever the flag is set, and of u sqrt(-1) / v when only the third comparison holds |
| CurvePoint.SqrtRatioSound | src/curve25519.cpp:367-388 | whenever the flag is set the returned r satisfies v r^2 = u, after the conditional assignment and negation |
| CurvePoint.EdwardsD | src/curve25519.cpp:26-32 | the constant is d = -121665/121666 of section 5.1 of RFC 8032 |
| CurvePoint.CurveTestSound | src/curve25519.cpp:390-416 | 32 bytes the test accepts have an x with y^2 - x^2 - (1 + d x^2 y^2) divisible by 2^255 - 19, y their decoded value |
| CurveAnswers.PlainSquareFlagged | src/curve25519.cpp:374-388 | u (u v^7)^((p - 1) / 4) congruent to u sets the flag, for all u and v with `check` and u canonical |
| CurveAnswers.TurnedSquareFlagged | src/curve25519.cpp:374-388 | that power congruent to -u sets the flag as well, for all u and v with `check` and -u canonical |
| CurveAnswers.FlagMeansRoot | src/curve25519.cpp:374-388 | a flag that is set, whatever the limbs, means that the power is congruent to u or to -u |
| CurveAnswers.FlagIff | src/curve25519.cpp:367-388 | on canonical limbs the flag is set if and only if the power is congruent to u or to -u |
| CurveAnswers.AcceptedIff | src/curve25519.cpp:390-416 | 32 bytes are accepted if and only if the power at y^2 - 1 and d y^2 + 1 is congruent to plus or minus y^2 - 1, when the limbs compared are canonical |
| CurveMembers.AcceptsThePoints | src/curve25519.cpp:404-416 | for p prime, 32 bytes are accepted if and only if some x puts (x, y) on the curve, when the limbs compared are canonical; bytes without such an x are never accepted, whatever p and the limbs |
| CurveMembers.RootMeetsCriterion | src/curve25519.cpp:367-388 | for p prime, u / v with a square root meets the power criterion, for all u and v, zero included |
| CurveAnswers.ComparedStand | src/curve25519.cpp:404-416 | what the test compares stands for y^2 - 1 and d y^2 + 1, y the decoded value of any 32 bytes |
| CurveAnswers.NegativeIsOdd | src/curve25519.cpp:329-331 | `is_negative` is the parity of the number the limbs are |
| CurveAnswers.RootIsEven | src/curve25519.cpp:382-383 | of two opposite roots the even one is returned |
| CurveAnswers.SqrtM1IsEvenRoot | src/curve25519.cpp:15-21 | the constant is the even square root of -1 |
| CanonicalForm.CanonicalDecides | src/curve25519.cpp:237-244 | between canonical elements, digits below 2^51 of a number below p, comparing limbs is comparing modulo p |
| CanonicalForm.LimbEqualityDecidesIff | src/curve25519.cpp:237-244 | comparing an element limb by limb with canonical ones decides congruence if and only if the element is canonical |
| CanonicalForm.LimbEqualityIncomplete | src/curve25519.cpp:404-416 | the numerator the test compares with for y = 1 has the limbs of p: congruent to 0, and unequal to it |
| CanonicalForm.DecodedCanonicalIff | src/curve25519.cpp:141-225 | the decoder gives a canonical element if and only if the low 255 bits are below p |
| CanonicalForm.UnreducedDecoded | src/curve25519.cpp:141-225 | every number from p up to 2^255 - 1 is accepted and decoded to other limbs than the same number reduced |
| CanonicalForm.PrimeDecoded | src/curve25519.cpp:141-225 | the 32 bytes of p are decoded to the limbs of p |
| FieldElements.FieldElement.Pow2k | src/curve25519.cpp:34-82 | the loop over a local limb array; limbs below 2^54 at every turn |
| FieldElements.FieldElement.Reduce | src/curve25519.cpp:84-106 | the in-place update is the reduced element |
| FieldElements.FieldElement.ConditionalAssign | src/curve25519.cpp:108-112 | replaces the limbs or leaves them alone |
| FieldElements.FieldElement.ConditionalNegate | src/curve25519.cpp:114-118 | negates in place or leaves the limbs alone |
| FieldElements.FieldElement.Decode | src/curve25519.cpp:141-225 | the byte constructor: the decoded limbs, each below 2^51 |
| FieldElements.FieldElement.Negate | src/curve25519.cpp:295-304 | operand bound in, result bound out |
| FieldElements.FieldElement.Subtract | src/curve25519.cpp:306-317 | operand bounds in, result bound out |
| FieldElements.FieldElement.Plus | src/curve25519.cpp:319-327 | reduced operands in, a result that may be multiplied out |
| FieldElements.FieldElement.Multiply | src/curve25519.cpp:252-293 | operand bounds in, result bound out |
| FieldElements.FieldElement.Pow22501 | src/curve25519.cpp:333-354 | every squaring and multiplication of the chain gets limbs that fit |
| FieldElements.SqrtRatio | src/curve25519.cpp:367-388 | every operation reached from it gets operands within bounds |
| FieldElements.CurveTest | src/curve25519.cpp:404-416 | from any 32 bytes on, every multiplication, squaring, subtraction and negation of the test gets limbs below 2^54 |
| LittleEndian.FromToLE | src/anchor/idl_utils.cpp:195-234 | writing and reading an integer keeps it modulo 256^width |
| LittleEndian.ToLEDigit | src/anchor/idl_utils.cpp:195-234 | byte i of an integer is its digit of weight 256^i, in two's complement |
| LittleEndian.DecodesUnsigned | src/anchor/anchor_program.cpp:165-180 | an unsigned integer that fits its width is read back at any position |
| LittleEndian.DecodesSigned | src/anchor/anchor_program.cpp:181-196 | the same for two's complement |
| Positional.ConvertRoundTrip | src/solana_utils.cpp:73-164 | change of base, leading zeros kept, is a bijection between digit strings |
| Positional.RepStep | src/solana_utils.cpp:84-99 | one pass of the carry loop turns the buffer of n into that of n * mul + d |
| Positional.NumberBounds | src/solana_utils.cpp:124-164 | between which powers the number of a digit string lies |
| Base58.DecodeEncode | src/solana_utils.cpp:73-164 | decode(encode(b)) = b for exactly the nonempty byte strings |
| Base58.EncodeDecode | src/solana_utils.cpp:73-164 | encode(decode(s)) = s for exactly the nonempty strings over the alphabet |
| Base58.DigitsFit | src/solana_utils.cpp:127-147 | n bytes never need more than floor(138 n / 100) + 1 base-58 digits, for every n |
| Base58.BytesFit | src/solana_utils.cpp:80-104 | k base-58 digits never need more than k bytes |
| Base58.EncodeLength | src/solana_utils.cpp:124-164 | the text is at least as long as the bytes and fits the buffer |
| Base58.KeyLength | include/pubkey.hpp:38 | 32 bytes are written in 32 to 44 characters |
| Base58Meaning.DigitsInOrder | src/solana_utils.cpp:19-27 | the character of digit d is the d-th of 123456789ABC..xyz |
| Base58Meaning.DigitsAreTheAlphabet | src/solana_utils.cpp:29-46 | a byte maps to a digit if and only if it is in that alphabet, and then to its place |
| Base58Meaning.EncodesNumber | src/solana_utils.cpp:124-164 | the text is the number of the bytes in base 58, behind as many ones as there are leading zero bytes |
| Base58Meaning.DecodesNumber | src/solana_utils.cpp:73-122 | the bytes are the number of the text in base 256, behind as many zeros as there are leading ones |
| Base58Meaning.NumberAndLeadDecide | src/solana_utils.cpp:73-164 | number and leading zeros determine a digit string |
| Positional.NumberStep | src/solana_utils.cpp:84-93 | a digit appended is added to the base times the number |
| Base58Buffers.Pass | src/solana_utils.cpp:134-146 | the inner carry loops, in place, multiply and add |
| Base58Buffers.AppendCarry | src/solana_utils.cpp:95-98 | the rest of the carry becomes new digits |
| Base58Buffers.EncodeDigits | src/solana_utils.cpp:127-147 | no pass writes past the buffer, and the buffer holds the digits of the number |
| Base58Buffers.Bs58Encode | src/solana_utils.cpp:124-164 | the text of the byte string, the last zero byte and the reversed write-out included |
| Base58Buffers.BufferFitsIff | src/solana_utils.cpp:127-131 | the buffer has room for every input of a length if and only if its size does not wrap in 32 bits |
| Base58Buffers.DecodeDigits | src/solana_utils.cpp:80-99 | stops exactly at the first character outside the alphabet; the buffer holds the bytes of the number |
| Base58Buffers.AppendZeros | src/solana_utils.cpp:101-109 | one zero byte for each leading '1', the all-ones text corrected by one |
| Base58Buffers.ReverseInPlace | src/solana_utils.cpp:111-119 | swapping from the middle reverses the bytes |
| Base58Buffers.Bs58Decode | src/solana_utils.cpp:73-122 | the bytes of the text, nothing for a text with any other character, no write past twice its length |
| Base64.OctetsOfEncode | src/solana_utils.cpp:166-189 | the encoding is well formed by section 4 of RFC 4648 and stands for the bytes |
| Base64.NoCarry | src/solana_utils.cpp:215-226 | what is added to a byte never carries out of its field |
| Base64.DecodesGroups | src/solana_utils.cpp:199-227 | the loop decodes group after group, padding included |
| Base64.DecodeIsExact | src/solana_utils.cpp:191-227 | every well-formed text of at most 2^24 characters gives the octets of section 4 of RFC 4648 |
| Base64.DecodeEncode | src/solana_utils.cpp:166-227 | decode(encode(b)) = b while the text has at most 2^24 characters |
| Base64.DecodeNeverCrashes | src/solana_utils.cpp:191-227 | no text of at most 2^24 characters, well formed or not, is written out of bounds |
| Base64.SpoiledIsLost | src/solana_utils.cpp:215-219 | past 2^24 the rounding of `float(i)` puts bits into the wrong byte: a string that is lost |
| Base64.RoundTripsUpToLimit | src/solana_utils.cpp:166-227 | all byte strings of a length are recovered if and only if their text has at most 2^24 characters |
| Base64Meaning.SextetsInOrder | src/solana_utils.cpp:48-52 | the character of v is the v-th of A..Z a..z 0..9 + / |
| Base64Meaning.SextetsAreTheAlphabet | src/solana_utils.cpp:200-207 | a character has a value if and only if it is in that alphabet; '=' alone comes behind it |
| Base64Meaning.EncodesNumbers | src/solana_utils.cpp:166-189 | every group of four characters is, in base 64, the number of its three octets in base 256, a shorter last group with zero bits appended and padded |
| Base64Meaning.InvalidRefused | src/solana_utils.cpp:201-203 | the first character outside the alphabet makes the result empty, unless it is the lone last one |
| Base64Meaning.LoneLastIgnored | src/solana_utils.cpp:215-222 | a lone last character behind groups of four is never looked at |
| Base64Meaning.FloatingIsNearest | src/solana_utils.cpp:215 | `float(i)` is the nearest multiple of the power of two that leaves 24 bits, ties to the even one |
| Base64Buffers.PaddedEncode | src/solana_utils.cpp:166-189 | encoding zero-filled and then writing '=' over the end is the padding of the standard |
| Base64Buffers.WordIsGroup | src/solana_utils.cpp:179-185 | the shifts and masks of the 24-bit word give the four characters |
| Base64Buffers.Bs64Encode | src/solana_utils.cpp:166-189 | the encoding of section 4 of RFC 4648 |
| Base64Buffers.Bs64Decode | src/solana_utils.cpp:191-227 | the loop over the presized array, its early exits and cut-offs included |
| Sha256.PadZerosLeast | sha256/sha256.cpp:106-132 | the padding uses the least number of zeros, as section 5.1.1 of FIPS 180-4 asks |
| Sha256Origins.PrimesInOrder | sha256/sha256.hpp:25-42 | the table of 64 primes starts at 2 and leaves none out |
| Sha256Origins.RoundConstant | sha256/sha256.hpp:25-42 | every round constant is the first 32 bits behind the point of the cube root of its prime |
| Sha256Origins.InitialHashValue | sha256/sha256.cpp:6-15 | the initial state is the same of the square roots of the first eight primes |
| Sha256Bits.BigSigma0Bits | sha256/sha256.cpp:81 | bit j is the exclusive or of bits j + 2, j + 13 and j + 22, modulo 32 |
| Sha256Bits.BigSigma1Bits | sha256/sha256.cpp:85 | bit j is the exclusive or of bits j + 6, j + 11 and j + 25, modulo 32 |
| Sha256Bits.SmallSigma0Bits | sha256/sha256.cpp:55-57 | bit j is the exclusive or of bits j + 7 and j + 18, modulo 32, and bit j + 3 if there is one |
| Sha256Bits.SmallSigma1Bits | sha256/sha256.cpp:59-61 | bit j is the exclusive or of bits j + 17 and j + 19, modulo 32, and bit j + 10 if there is one |
| Sha256Bits.ChBits | sha256/sha256.cpp:47-49 | every bit of the first word chooses between those of the other two |
| Sha256Bits.MajBits | sha256/sha256.cpp:51-53 | a bit is set when it is set in at least two of the three words |
| Sha256Standard.RegistersDelay | sha256/sha256.cpp:79-99 | the eight registers hold four successive values of two sequences, given by recurrences modulo 2^32 over the schedule |
| Sha256Standard.ScheduleIsW | sha256/sha256.cpp:67-73 | sixteen big-endian words of the block, then a recurrence modulo 2^32 |
| Sha256Standard.CompressByRecurrence | sha256/sha256.cpp:63-104 | compression adds the last four values of both sequences to the state |
| Sha256Standard.PaddedParts | sha256/sha256.cpp:106-132 | the message, 0x80, zeros, and the number of bits modulo 2^64 as eight big-endian bytes |
| Sha256Standard.HashIsChain | sha256/sha256.cpp:17-41 | the hash is the state behind the last block, from the initial value on |
| Sha256Standard.DigestWords | sha256/sha256.cpp:134-142 | the digest is the eight words of the state in base 256 |
| Sha256Stream.MajorityIsMaj | sha256/sha256.cpp:51-53 | the rewritten majority function is the one of section 4.1.2 of FIPS 180-4 |
| Sha256Stream.PadCases | sha256/sha256.cpp:106-132 | both padding cases, buffer below 56 and 56 or more, are the padding of section 5.1.1 |
| Sha256Stream.SHA256.Update | sha256/sha256.cpp:17-28 | the buffer, block length and bit length invariant holds after every byte; the message grows by the bytes |
| Sha256Stream.SHA256.Transform | sha256/sha256.cpp:63-104 | compresses the buffered block as in section 6.2 of FIPS 180-4 |
| Sha256Stream.SHA256.Pad | sha256/sha256.cpp:106-132 | the state becomes the hash state of the padded message |
| Sha256Stream.SHA256.Revert | sha256/sha256.cpp:134-142 | the state words as big-endian bytes |
| Sha256Stream.SHA256.Digest | sha256/sha256.cpp:34-41 | the hash of all that was fed to the object |
| Sha256Stream.HashPieces | src/solana_utils.cpp:276-296 | every way of cutting a message into `update` calls gives the hash of the whole |
| Pubkeys.Pubkey.FromString | src/pubkey.cpp:153-168 | the bytes are the decoded text |
| Pubkeys.Pubkey.FromBytes | src/pubkey.cpp:182-195 | the text is the encoded bytes |
| Pubkeys.Pubkey.CreateProgramAddressBytes | src/pubkey.cpp:514-553 | succeeds exactly within the seed limits and when the hash of seeds, program identifier and marker text is off the curve; the key is then that hash, and unchanged otherwise |
| Pubkeys.NewPdaBytes | src/pubkey.cpp:361-382 | the address of the largest bump that works, none exactly when no bump does |
| Pubkeys.AddressHashes | src/pubkey.cpp:521-532 | what is hashed for an address: the seeds, the program identifier and the text ProgramDerivedAddress, in this order |
| Pubkeys.ConcatPlaces | src/pubkey.cpp:523-530 | what is hashed one after another stands one behind the other |
| Pubkeys.MarkerTexts | src/pubkey.cpp:28 | the marker and the metadata and edition seeds are the texts they stand for |
| Pubkeys.SearchAnswer | src/pubkey.cpp:361-382 | the key of the largest bump from 255 to 1 whose hash is off the curve, at most 15 seeds of at most 32 bytes given; none if and only if there is no such bump |
| Pubkeys.NewPda | src/pubkey.cpp:338-359 | the same search on text seeds |
| Pubkeys.NewAssociatedTokenAddress | src/pubkey.cpp:489-512 | the copy over wallet, token program and mint is the same search |
| Pubkeys.NewAssociatedMetadataPubkey | src/instructions/mpl_token_metadata.cpp:56-78 | the copy for metadata is the same search |
| Pubkeys.NewAssociatedMetadataPubkeyMasterEdition | src/instructions/mpl_token_metadata.cpp:80-103 | the copy for master editions is the same search |
| Pubkeys.BumpTried | src/pubkey.cpp:372-379 | what one turn of every copy decides |
| Pubkeys.SearchIsDeterministic | src/pubkey.cpp:361-382 | the search has one answer |
| Pubkeys.LimitsBroken | src/pubkey.cpp:515-519 | a seed too many or too long leaves nothing to find |
| Pubkeys.SameConcatenation | src/pubkey.cpp:521-532 | seed lists within the limits with the same concatenation have the same search results, none included |
| RpcSafety.TickKeeps | src/solana_client/rpc_single_http_request_client.cpp:178-219 | one tick, connecting not refused: the invariant stays, at most the front request is finished, the front of an empty queue is not read |
| RpcSafety.RefusedTick | src/solana_client/rpc_single_http_request_client.cpp:61-67 | when connecting is refused two requests fail in one tick, or the front of an empty queue is read: exactly when |
| RpcSafety.TickBehavesIff | src/solana_client/rpc_single_http_request_client.cpp:178-219 | a tick behaves if and only if it does not try to connect in vain |
| RpcSafety.RunSafe | src/solana_client/rpc_single_http_request_client.cpp:158-233 | over whole runs: finished requests are a prefix of the enqueued ones in order, each finished once, successes saw their own id unless `skip_id` is set, an open connection has work |
| RpcSafety.RunFromStartSafe | src/solana_client/rpc_single_http_request_client.cpp:158-233 | the same in plain terms for every run from the construction of a client on |
| RpcSafety.RefusedRunFaults | src/solana_client/rpc_single_http_request_client.cpp:61-67 | without that hypothesis a run of two events reads the front of an empty queue |
| RpcWaiting.RunWaits | src/solana_client/rpc_single_http_request_client.cpp:69-71 | over a run a waiting request loses exactly the waited time |
| RpcWaiting.BoundedWaiting | src/solana_client/rpc_single_http_request_client.cpp:178-194 | once the waited deltas exceed its timeout the request is finished, whatever the environment does |
| RpcWaiting.BoundedWaitingFromEnqueue | src/solana_client/rpc_single_http_request_client.cpp:178-233 | from the enqueueing of a request on, the bound is the timeout it was enqueued with |
| RpcAnswers.AnswerSucceeds | src/solana_client/rpc_single_http_request_client.cpp:31-59 | a body read to the end that answers the front request, by its id modulo 2^32 or with `skip_id`, finishes it with that response and closes the connection |
| RpcAnswers.SucceedsIff | src/solana_client/rpc_single_http_request_client.cpp:178-219 | a tick succeeds with a request if and only if it reads an answer to it |
| RpcAnswers.ForeignResponseDropped | src/solana_client/rpc_single_http_request_client.cpp:51-56 | a response with another id or none finishes nothing |
| RpcAnswers.UnparsedFails | src/solana_client/rpc_single_http_request_client.cpp:41-49 | a body that is no dictionary fails the front request with a parse error |
| RpcAnswers.TimedOutFails | src/solana_client/rpc_single_http_request_client.cpp:187-193 | running out of time fails it with a timeout, whatever is polled |
| RpcAnswers.UnsentFails | src/solana_client/rpc_single_http_request_client.cpp:22-29 | a refused send fails it with the code of the refusal |
| RpcAnswers.SentGoesOn | src/solana_client/rpc_single_http_request_client.cpp:207-209 | a connection that is up sends and takes the status that sending leaves |
| RpcAnswers.NoConnectionFails | src/solana_client/rpc_single_http_request_client.cpp:213-217 | any status not named fails it for want of a connection |
| RpcAnswers.InProgressGoesOn | src/solana_client/rpc_single_http_request_client.cpp:199-205 | resolving, connecting and requesting only take time |
| RpcAnswers.RefusedFailsTwo | src/solana_client/rpc_single_http_request_client.cpp:61-67 | a refused connect fails the front request with its code and the next one for want of a connection |
| RpcAnswers.RunSucceeds | src/solana_client/rpc_single_http_request_client.cpp:158-233 | after any run with successful connects, a tick that reads an answer succeeds with the oldest unfinished request |
| RpcAnswers.WaitsInProgress | src/solana_client/rpc_single_http_request_client.cpp:178-205 | any number of ticks in progress within the timeout take exactly their time and finish nothing |
| RpcAnswers.RequestComesThrough | src/solana_client/rpc_single_http_request_client.cpp:178-233 | a request on an idle client that connects, sends, is waited for within its timeout and is answered succeeds with the answer, and the client is idle again |
| RpcAnswers.EnqueuedAs | src/solana_client/rpc_single_http_request_client.cpp:224-233 | the queue grows by the requests in order, each with its own id, or 0 with `skip_id`, and its own callbacks |
| RpcClients.RpcSingleHttpRequestClient.Process | src/solana_client/rpc_single_http_request_client.cpp:178-219 | the method on the queue fields is one step of the state machine |
| RpcClients.RpcSingleHttpRequestClient.FinalizeRequest | src/solana_client/rpc_single_http_request_client.cpp:167-176 | close, call back, pop |
| RpcClients.RpcSingleHttpRequestClient.AsynchronousRequest | src/solana_client/rpc_single_http_request_client.cpp:224-233 | one more request at the end of the queue |
| RpcClients.SafeTick | src/solana_client/rpc_single_http_request_client.cpp:178-219 | the invariant makes ticking the object safe |
| RpcMulti.ArrivesOnceAtEach | src/solana_client/rpc_multi_http_request_client.cpp:16-31 | the loop comes to every listed client and every client appended meanwhile, each once and in order |
| RpcMulti.KeepsTheUncompleted | src/solana_client/rpc_multi_http_request_client.cpp:16-31 | what is left are exactly the uncompleted clients, in order |
| RpcMulti.IndexWraps | src/solana_client/rpc_multi_http_request_client.cpp:21-28 | the unsigned index may wrap below zero; stepping forth undoes it |
| RpcMulti.RpcMultiHttpRequestClient.Turn | src/solana_client/rpc_multi_http_request_client.cpp:21-29 | one turn of the loop on the list object |
| RpcMulti.RpcMultiHttpRequestClient.Process | src/solana_client/rpc_multi_http_request_client.cpp:16-31 | every client ticks once; a second call in the same frame changes nothing |
| AnchorRoundTrip.CounterOnlyAdds | src/anchor/anchor_program.cpp:91-224 | on all bytes, an accumulated counter and one started from zero give the same value and the same number of bytes |
| AnchorRoundTrip.RoundTrip | src/anchor/anchor_program.cpp:91-224 | decoding serialize(v) ++ rest returns v without width tags and counts exactly its bytes, for every value well typed by the first definition of each name |
| AnchorRoundTrip.RoundTripFrom | src/anchor/anchor_program.cpp:164-224 | the same whatever value the counter starts from |
| AnchorRoundTrip.FieldsRoundTrip | src/anchor/anchor_program.cpp:96-107 | the field loop, each field with a counter of its own |
| AnchorRoundTrip.ItemsRoundTrip | src/anchor/anchor_program.cpp:121-134 | the element loop |
| AnchorRoundTrip.OptionRoundTrip | src/anchor/anchor_program.cpp:135-145 | options, whose inner decoder adds to the caller's counter |
| AnchorRoundTrip.StringRoundTrip | src/anchor/anchor_program.cpp:205-210 | a string is read back if and only if it holds no zero |
| AnchorRoundTrip.StringReadsBack | src/anchor/anchor_program.cpp:205-210 | the length and the text behind it, the text intact exactly when it holds no zero |
| AnchorModel.FindsFirst | src/anchor/anchor_program.cpp:76-88 | the first type of a name is found, wherever it stands |
| AnchorModel.FindsNoneIff | src/anchor/anchor_program.cpp:76-88 | none is found if and only if no type has the name |
| AnchorWire.ByteStringWire | src/anchor/idl_utils.cpp:89-97 | a byte string is its length in four bytes and its bytes |
| AnchorWire.StringWire | src/anchor/idl_utils.cpp:79-87 | a string is its length in four bytes and its ASCII codes |
| AnchorWire.ArrayWire | src/anchor/idl_utils.cpp:99-108 | an array is its length in four bytes and every item behind the ones before it |
| AnchorWire.UnsignedWire | src/anchor/idl_utils.cpp:201-212 | u8, u16, u32 and u64 write 1, 2, 4 and 8 bytes |
| AnchorWire.SignedWire | src/anchor/idl_utils.cpp:213-224 | i8, i16, i32 and i64 write 1, 2, 4 and 8 bytes |
| AnchorWire.OptionWire | src/anchor/idl_utils.cpp:236-249 | an option is a 0, or a 1 and its value |
| AnchorWire.PlainWire | src/anchor/idl_utils.cpp:287-327 | truths are 0 or 1, keys their bytes, plain integers eight bytes |
| AnchorWire.PlainDictionaryWire | src/anchor/idl_utils.cpp:131-136 | any other dictionary is its values in order |
| AnchorWire.StringTooLong | src/anchor/anchor_program.cpp:205-208 | a string longer than the array is nothing and counts nothing |
| AnchorWire.IntegerMissing | src/anchor/anchor_program.cpp:165-196 | an integer that is not there is 0 and counted |
| AnchorWire.EnumAndOptionRead | src/anchor/anchor_program.cpp:109-145 | enums are one byte; an option behind 0 is nothing, behind anything else its value; an empty array crashes |
| AnchorWire.DefinedRead | src/anchor/anchor_program.cpp:115-120 | a defined type is read as the first type of its name, or as nothing |
| Text.TextReadsBack | src/anchor/anchor_program.cpp:209 | ASCII text is read back exactly when it holds no zero |
| Text.Utf8Code | src/solana_utils.cpp:85 | the bytes of a character stand for its code, with no more of them than it needs |
| AnchorCodec.SerializeVariant | src/anchor/idl_utils.cpp:287-327 | the dispatch over variant kinds gives the specified bytes |
| AnchorCodec.SerializeVariantArray | src/anchor/idl_utils.cpp:99-108 | the appending loop |
| AnchorCodec.SerializeDictionary | src/anchor/idl_utils.cpp:123-137 | sized integers, options, or the values in insertion order |
| AnchorCodec.SerializeOption | src/anchor/idl_utils.cpp:236-249 | a flag byte and the value |
| AnchorCodec.DeserializeVariant | src/anchor/anchor_program.cpp:164-224 | value and counter are the specified ones, on all bytes |
| AnchorCodec.DeserializeDictionary | src/anchor/anchor_program.cpp:91-162 | the dispatch over type dictionaries |
| AnchorCodec.DeserializeStruct | src/anchor/anchor_program.cpp:96-107 | the field loop on a shrinking array |
| AnchorCodec.DeserializeVec | src/anchor/anchor_program.cpp:121-134 | the element loop on a shrinking array |
| AnchorAccount.FieldsReadBack | src/anchor/anchor_program.cpp:417-422 | the loop whose offset is the decoder's counter recovers the fields and ends behind them |
| AnchorAccount.AccountReadsBack | src/anchor/anchor_program.cpp:399-425 | base64 text of a discriminator and the fields of a well-typed struct is parsed into those fields |
| AnchorAccount.ParseAccount | src/anchor/anchor_program.cpp:399-425 | the method is the specified parse on every text |
| AnchorAccount.EncodedInOrder | src/anchor/idl_utils.cpp:123-137 | a dictionary is written as its values in order if and only if it is neither a typed primitive nor an option, or has no bytes at all |
| AnchorAccount.TaggedStructMisread | src/anchor/idl_utils.cpp:17-19 | a struct with fields "dataType" and "value" that is written as one byte and read back as something else |
| CompactU16.DecodeEncode | src/solana_utils.cpp:229-258 | reading back gives the low 21 bits and advances by the encoded length, so exactly the values below 2^21 are recovered |
| CompactU16.DecodedFits | src/solana_utils.cpp:246-258 | on all bytes: a value below 2^21, at most three bytes read, none past the end |
| CompactU16.EncodedBytes | src/solana_utils.cpp:229-244 | the one, two or three bytes of every value, seven bits each, 128 added while more remains |
| CompactU16.DecodedValue | src/solana_utils.cpp:246-258 | the value and cursor on all bytes, whichever of three bytes are there |
| CompactU16.ShortU16Encode | src/solana_utils.cpp:229-244 | the loop writes those bytes |
| CompactU16.ShortU16Decode | src/solana_utils.cpp:246-258 | the loop reads that value and cursor |
| CompiledInstructions.ParseSerialize | src/instruction.cpp:106-135 | a serialised instruction is recovered, whatever follows, and exactly its length is returned |
| CompiledInstructions.ParseSerializeAll | src/instruction.cpp:106-135 | instructions back to back within 1232 bytes are all recovered |
| CompiledInstructions.WireFormat | src/instruction.cpp:175-185 | where the index, the two lengths and the two arrays stand |
| CompiledInstructions.AcceptedIff | src/instruction.cpp:106-135 | accepted if and only if there are 3 to 1232 bytes, room for both arrays behind three of them, and an end within 1232 |
| CompiledInstructions.CutShortRefused | src/instruction.cpp:108-134 | every proper prefix of a serialised instruction is refused if and only if it has fewer than 128 accounts and fewer than 128 bytes of data |
| CompiledInstructions.CutShortAccepted | src/instruction.cpp:110-124 | 128 bytes of data: accepted when cut by one byte, and accepted as empty when cut inside the data length |
| CompiledInstructions.AcceptedLengths | src/instruction.cpp:118-134 | the two slices have the lengths that were read if and only if they end within the input |
| CompiledInstructions.CompiledInstruction.ToBytes | src/instruction.cpp:175-185 | the wire format of the fields |
| CompiledInstructions.CompiledInstruction.CreateFromBytes | src/instruction.cpp:106-135 | parses in the order of the checks; a refusal returns 0 and leaves the object alone |
| CompiledInstructions.WriteInstructions | src/transaction/message.cpp:177-180 | the wire formats one after another |
| CompiledInstructions.ReadInstructions | src/transaction/message.cpp:135-142 | new objects for the parsed instructions, until one is refused |
| CandyMachine.FixedReadsBack | src/candy_machine/candy_machine.cpp:277-292 | the fixed fields, one by one, whatever follows |
| CandyMachine.CreatorsReadBack | src/candy_machine/candy_machine.cpp:293-305 | any number of creators; the share is cut to a byte |
| CandyMachine.ConfigReadsBack | src/candy_machine/candy_machine.cpp:310-335 | the config line setting |
| CandyMachine.HeaderReadsBack | src/candy_machine/candy_machine.cpp:255-276 | the header before the data |
| CandyMachine.AccountReadsBack | src/candy_machine/candy_machine.cpp:252-338 | an account of header, serialised data and anything else gives every field, up to what its place can hold |
| CandyMachine.RecoveredWhenItFits | src/candy_machine/candy_machine.cpp:252-338 | nothing is lost if and only if texts hold no zero, the fee is below 65536 and every share below 256 |
| CandyMachine.FetchedWhenItFits | src/candy_machine/candy_machine.cpp:247-338 | the same if-and-only-if from the account's base64 text |
| CandyMachine.SerializedLength | src/candy_machine/candy_machine_data.cpp:170 | the length computed beforehand is the length written |
| CandyMachine.ConfigLength | src/candy_machine/config_line.cpp:117 | the same for the config line setting |
| CandyLayout.SerializedLayout | src/candy_machine/candy_machine_data.cpp:169-208 | every field of the data at its offset, flags 0 or 1, the last byte 0 |
| CandyLayout.CreatorLayout | src/meta_data/creator.cpp:47-54 | 32 bytes of address, a 0 or 1, and the share modulo 256 |
| CandyLayout.ConfigLayout | src/candy_machine/config_line.cpp:113-140 | every field of the config line setting at its offset |
| CandyLayout.HeaderLayout | src/candy_machine/candy_machine.cpp:255-276 | every field of the header at the offset it is read from |
| CandyMachineObjects.MetaDataCreator.ToBytes | src/meta_data/creator.cpp:47-54 | address, flag and share |
| CandyMachineObjects.ConfigLineSetting.ToBytes | src/candy_machine/config_line.cpp:113-140 | the presized buffer is exactly filled with the layout |
| CandyMachineObjects.CandyMachineData.ToBytes | src/candy_machine/candy_machine_data.cpp:169-208 | the presized buffer is exactly filled, the rest appended |
| CandyMachineObjects.ReadCreators | src/candy_machine/candy_machine.cpp:293-305 | the creator loop, crashing where bytes are missing |
| CandyMachineObjects.ReadConfig | src/candy_machine/candy_machine.cpp:310-335 | the config line setting behind its flag |
| CandyMachineObjects.FetchAccountCallback | src/candy_machine/candy_machine.cpp:247-338 | the emitted object holds the parsed account |

## Left out

- Base58Buffers.Bs58Encode: covers inputs whose buffer size does not wrap in its 32-bit variable; for every other length some input overruns the buffer (Base58Buffers.BufferFitsIff).
- Pubkeys.Pubkey.FromBytes: covers the same inputs, since it encodes them.
- RpcClients.RpcSingleHttpRequestClient.Process: promises nothing where the model reads the front of an empty queue, which is undefined in the original; when that happens is stated by RpcSafety.RefusedTick.
- RpcMulti.RpcMultiHttpRequestClient.Process: covers lists below 2^32 clients and ticks whose connects succeed, the same hypothesis as for the single client.
- RpcMulti.RpcMultiHttpRequestClient.Turn: covers the same ticks; after a refused connect a client with one request may read the front of an empty queue.
- CandyMachineObjects.CandyMachineData.ToBytes: creator addresses that are not 32 bytes are not modelled.
- AnchorCodec.SerializeVariant: floats and serialisable objects other than keys are not modelled.
- AnchorCodec.SerializeDictionary: typed primitives that hold floats are not modelled.
- AnchorCodec.DeserializeVariant: f32 and f64 are not modelled.
- AnchorCodec.DeserializeDictionary: fixed-size array types are not modelled.
- AnchorRoundTrip.RoundTrip: covers encodings below 2^32 bytes, what the counter can hold, and structs that are not mistaken for a typed primitive or an option (AnchorAccount.EncodedInOrder says which those are).
- CurvePoint.CurveTestSound: one direction; the other one is CurveMembers.AcceptsThePoints, which needs canonical limbs, as comparing limbs does (CanonicalForm.LimbEqualityDecidesIff).
- CurveMembers.AcceptsThePoints: that p is prime is a premise of the direction from points to acceptance; it is a fact about one number, used through Fermat's little theorem, and not proved here.
- Fixed-size arrays and floats in Anchor values have no round trip: the writer adds a length the reader does not expect, and f32 passes through half precision.
- Strings outside ASCII in the Anchor and candy machine codecs, and bytes of 128 and more inside texts that are read.
- Dictionaries as reference types: a dictionary is a value that keeps insertion order.
- Types defined in terms of themselves: decoders take a rank for every definition, so recursion through definitions is assumed to end.
- `resize` is taken to fill with zeros, as the base58 and base64 loops rely on.
- The 256-entry base58 table is given by its runs of consecutive characters.
- Lengths and cursors are unbounded where the original uses 64-bit or `int` sizes; 32-bit counters wrap.
- Disjoint bits that are or-ed together in compact-u16 are added.
- HTTP, TLS, JSON, callbacks and time are an environment: statuses, parsed responses, reentrant requests and deltas are parameters, and time is a real number.
- Error messages, warnings and signals; program identifiers and token program keys are parameters, and so is whether a variant is of a key type.
- `create_program_address` with text seeds and `get_associated_token_address` repeat what is modelled.
- The object is not reset by `digest`; feeding it more afterwards is not modelled.
- Transactions, message headers, account metas, lookup tables and signing.
- Hidden settings, guards and instruction builders of the candy machine; `ConfigLine` itself.
- `GenericAnchorResource`, account fetchers and simulators, ShdwDrive, Honeycomb and the editor integration.
