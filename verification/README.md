# unserlob: a model and its proofs

unserlob is a trading venue with bots around it. The matching engine lives in
another repository; what is here are the pieces that engine and bots stand on,
and this project models them in Dafny and proves what they are meant to do.

* **Decimals** (`Words`, `Bcd`, `Nibbles`, `Declet`, `Quantise`, `Decimal32`,
  `Decimal64`, `Coding32`, `Coding64`): the two bit layouts of IEEE 754-2008
  decimals, section 3.5.2, with binary and with densely packed coefficients. A
  word is decoded to sign, coefficient and exponent (`Decimal.Finite`), and every
  operation on words is related to one on those numbers. Quantising is done by
  two algorithms, one on integers and one on nibbles that leaves a carry standing;
  both are shown to be one function, whose closed form is proved. Where a layout
  loses something, the exact condition is proved.
* **Numerals** (`Numeral`, `Parsing`, `Printing`, `ReadBack`, `Strings64`): the
  parser with its digit counter and its rounding, the printer that writes
  backwards and turns its buffer around, and the round trip through both.
* **Messages** (`Fields`, `Lol`, `LolSend`, `Lines`, `Conversation`): the wire
  format, the senders that write into a buffer, the receivers, and the buffer that
  puts lines together from whatever pieces a connection delivers.
* **Accounts** (`Amounts`, `Ledgers`, `Accounts`): decimal64 addition with its
  rounding to sixteen digits; users, tagged orders and trades as a state machine;
  the flattened, growing table that is shown to run it. The venue asserts that the
  balances of an instrument add up to nothing. That holds, and the check passes, in
  every run whose amounts are whole steps of some power of ten and whose volume is
  below 10^16 such steps; past it both can fail, and three runs show how.
* **Hashes and random numbers** (`Sha1Spec`, `Sha1`, `Sha1Value`, `XxHash`,
  `XxHashSpec`, `WordValues`, `XxHashValue`, `Instruments`, `Lcg`, `Counting`, `Pcg`):
  SHA-1 against FIPS 180-4, xxHash32 against its published form in integers, what it
  cannot collide on and what the instrument lookup makes of it, the full period and
  the exact uniformity of the generator and its bounded draw. Known values pin each
  of them down.
* **Web socket cache and version stamps** (`Search`, `Framing`, `Base64`,
  `Handshake`, `Slots`, `Version`): the rolling-sum search, framing and
  handshake of RFC 6455, the slot table, the two notations of a version stamp.

Code that changes things step by step is written as methods and classes and
proved against a function of its inputs or of the old state; the properties are
then proved about that function. Fixed-width words are `bv32` and `bv64` where
bits are moved and numbers below a power of two where arithmetic matters;
`Words` goes from one to the other. `dafny verify dfyconfig.toml` checks all of it.

Where the program falls short of what its comments say, the model follows the
program and the proof gives the exact condition:

* The mask in `round_bcd64` has 32 bits, so rounding up a decimal64 numeral is
  right exactly when at most eight digits are left before its trailing nines
  (`Parsing.RoundUpAddsOne64`).
* A negative numeral is rounded with a step of minus one, which takes one off its
  last nonzero digit (`Parsing.RoundDownTakes`) and never ends if there is none
  (`Parsing.SmallNegativeSpins`).
* A numeral whose digits are all counted right at its point ignores the first
  dropped digit (`Parsing.UnsignedMiss`).
* Rounding up seven nines in decimal32 leaves an eighth digit, which both layouts
  lose, each in its own way (`Coding32.NinesOverflow`); fifteen nines in decimal64
  leave a sixteenth, which the binary layout drops and the packed one keeps
  (`Strings64.ReadersAgree`).
* A packed decimal64 with a leading digit of 8 or 9 gives back its exponent only in
  the cases of `Coding64.DpdRoundTrip`; quantising forgets a sixteenth digit, which
  goes unnoticed only in the cases of `Coding64.QuantisersAgree`.
* A packed number at the lowest exponent with a blank top reads as an integer, so
  quantising it again may change it (`Coding32.DpdIdempotent`,
  `Coding64.DpdIdempotent`).
* A printed decimal64 comes back if and only if nothing but zeros stands past its
  fifteenth digit and it is not too high (`Strings64.TextRoundTrip`).
* The account check adds in decimals: it fails on balances of 10^16, 1, -10^16 and
  -1, which do add up to nothing (`Ledgers.CheckFailsOnBalanced`); a booking that
  rounds leaves balances that do not (`Ledgers.BookingLosesOne`), and the check may
  miss such ones (`Ledgers.CheckPassesOnUnbalanced`).
* An order id without a price is received as no order id (`Lol.NanOidLost`).

## Model

| member | source | states |
|---|---|---|
| Lcg.WalkClosedForm | src/pcg_basic.c:62-63 | n steps of the generator's state are one multiplication by the n-th power and one addition of a geometric sum, modulo 2^64 |
| Lcg.GeoValuation | src/pcg_basic.c:62-63 | the geometric sum of n terms is a multiple of 2^k exactly when n is |
| Lcg.Returns | src/pcg_basic.c:60-67 | with an odd increment a state comes back after n steps exactly when n is a multiple of 2^64 |
| Lcg.Distinct | src/pcg_basic.c:60-67 | fewer than 2^64 steps apart, two states of one walk are different |
| Lcg.FullPeriod | src/pcg_basic.c:60-67 | with an odd increment every state is reached from every state in fewer than 2^64 steps |
| Pcg.PreimageGives | src/pcg_basic.c:64-66 | every output word is given by the state assembled from it and any 32 hidden bits |
| Pcg.PreimageOfOutput | src/pcg_basic.c:64-66 | every state is the one assembled from its output and its hidden bits |
| Pcg.OutputBit | src/pcg_basic.c:64-66 | bit i of the output is bit 27 + (i + (s >> 59)) mod 32 of s xor its half-way shift s >> 18, for every state and bit |
| Pcg.OutputIsEven | src/pcg_basic.c:60-67 | each 32-bit output is given by exactly 2^32 states |
| Pcg.UniformOverPeriod | src/pcg_basic.c:60-67 | over one period from any state each output is drawn exactly 2^32 times |
| Pcg.UniformOverPeriodIn | src/pcg_basic.c:60-67 | over one period a set of outputs is hit 2^32 times its size |
| Pcg.ThresholdIsRemainder | src/pcg_basic.c:81-95 | the threshold computed in 32 bits is the remainder of 2^32 by the bound |
| Pcg.AcceptedEvenly | src/pcg_basic.c:95-107 | each result below the bound stands for exactly floor(2^32 / bound) accepted words |
| Pcg.BoundedDrawUnbiased | src/pcg_basic.c:79-109 | over one period each result below the bound comes up equally often, and how often |
| Pcg.JackpotReached | src/pcg_basic.c:97-108 | from every state with an odd increment a state whose output is 0xffffffff is reached |
| Pcg.MovesLeftDecrease | src/pcg_basic.c:97-108 | the number of steps left to that state goes down with each draw that is not accepted: the rejection loop ends |
| Pcg.Generator.Seed | src/pcg_basic.c:42-49 | seeding makes the increment odd and the state the one two draws and an addition lead to |
| Pcg.SeededWalk | src/pcg_basic.c:42-49 | the seeded state is two steps from zero with the initial state added after the first, as walks and in numbers |
| Pcg.FirstDraw | src/pcg_basic.c:42-67 | seeding with 42 and 54 leaves state 0x185706b82c2e03f8, whose output is 0xa15c02b7 |
| Pcg.Generator.Draw | src/pcg_basic.c:60-67 | a draw gives the output of the old state, and the new state is the old one times 6364136223846793005 plus the increment, modulo 2^64 |
| Pcg.Generator.DrawBelow | src/pcg_basic.c:79-109 | a bounded draw ends, is below the bound, and is the remainder of the first accepted output |
| Pcg.SeedsDistinct | src/pcg_basic.c:42-49 | different initial states of one sequence lead to different states |
| Pcg.StreamsDistinct | src/pcg_basic.c:45 | sequences give different increments exactly when they differ in their low 63 bits |
| Sha1.Widened | src/sha.c:79-86 | the recurrence over twice the distance, turned by two, gives the schedule of section 6.1.2 of FIPS 180-4 |
| Sha1.Choice | src/sha.c:93-96 | the algebraic choice function is Ch of section 4.1.1 |
| Sha1.Majority | src/sha.c:101-104 | the OR form is Maj |
| Sha1.Schedule | src/sha.c:68-86 | the filled array is the standard's message schedule, all eighty words |
| Sha1.RoundParameters | src/sha.c:92-112 | function and constant of each round are the standard's |
| Sha1.Chunk | src/sha.c:57-133 | one block changes the chaining value by the standard's compression function |
| Sha1.Finish | src/sha.c:135-166 | the last one or two blocks are those of the standard's padding, with the length in bits |
| Sha1.WholeBlocks | src/sha.c:186-189 | hashing the whole blocks in place leaves just the rest of the padded message to be hashed |
| Sha1.EmptyBlock | src/sha.c:182-184 | the block of the empty message is its padding |
| Sha1.Sha | src/sha.c:168-205 | for every message below 2^61 bytes the result is the standard's digest of the padded message |
| Sha1Value.DigestOfAbc | src/sha.c:168-205 | the digest of "abc" is a9993e36 4706816a ba3e2571 7850c26c 9cd0d89d |
| XxHash.LaneInjective | src/hash.c:273-275 | a lane step is injective in its state and in its word |
| XxHash.WordStepInjective | src/hash.c:301-306 | so is the step on a remaining word |
| XxHash.ByteStepInjective | src/hash.c:308-313 | so is the step on a remaining byte |
| XxHash.AvalancheInjective | src/hash.c:315-319 | the final mix is injective |
| XxHash.MergeInjective | src/hash.c:292 | merging the four lanes is injective in each |
| XxHash.NoCollisionInWord | src/hash.c:248-322 | inputs of one length that differ in exactly one aligned word have different hashes |
| XxHash.NoCollisionInTail | src/hash.c:248-322 | so have inputs that differ in exactly one byte of the tail |
| XxHash.HashStripes | src/hash.c:263-292 | the loop over sixteen bytes leaves each lane after all its words, merged |
| XxHash.HashWords | src/hash.c:301-306 | the loop over remaining words |
| XxHash.HashBytes | src/hash.c:308-313 | the loop over remaining bytes |
| XxHash.Hash | src/hash.c:248-322 | the three loops and the mix compute the hash function |
| XxHashValue.HashIsPublished | src/hash.c:248-322 | for every input the hash is that of the published algorithm, written separately in integers modulo 2^32 with rotations as multiplication and division |
| XxHashValue.NoBytes | src/hash.c:248-322 | the hash of no bytes is 0x02cc5d05 |
| XxHashValue.OneByte | src/hash.c:308-319 | the hash of "a" is 0x550d7456 |
| XxHashValue.OneWord | src/hash.c:301-319 | the hash of "abcd" is 0xa3643705 |
| XxHashValue.WholeSentence | src/hash.c:248-322 | a known hash of 39 bytes: two stripes, a word and three bytes |
| Instruments.Registry.constructor | src/lobot.c:620-645 | the venue keeps the hash of each name it was started with |
| Instruments.Registry.Hins | src/lobot.c:458-476 | the lookup gives the first index whose hash is that of the name, the first instrument for the empty name, or none |
| Instruments.RegisteredAreFound | src/lobot.c:458-476 | every registered name is found under its own index if and only if the hashes of the registered names are distinct and no name but the first is empty |
| Instruments.NearMissIsNotTaken | src/lobot.c:458-476 | a name that differs from a registered one in one word or one tail byte is not taken for it |
| Declet.UnpackPack | src/dfp754_d32.c:141-291 | unpacking undoes packing for all thousand triples of digits |
| Declet.PackIsCanonical | src/dfp754_d32.c:141-215 | packing gives ten bits and never one of the 24 redundant declets |
| Declet.UnpackIsBcd | src/dfp754_d32.c:217-291 | every declet unpacks to three digits |
| Declet.UnpackIsTable | src/dfp754_d32.c:217-291 | unpacking is table 3.3 of IEEE 754-2008, bit by bit |
| Declet.PackUnpack | src/dfp754_d32.c:141-291 | packing undoes unpacking exactly for the canonical declets |
| Quantise.DropClosedForm | src/dfp754_d64.c:495-498 | dropping k digits one at a time is floor((m + 5 R) / 10^k) with R the repunit of k ones |
| Quantise.DropError | src/dfp754_d64.c:495-498 | nine times the error lies between -4 (10^k - 1) and 5 (10^k - 1) |
| Quantise.DoubleRounding | src/dfp754_d64.c:495-498 | the result differs from rounding half up once exactly for tails between 44...45 and 49...99, and is then one too high |
| Quantise.ExpandIsExact | src/dfp754_d64.c:499-502 | expanding keeps the value, ends between the two exponents, and above the wanted one only with a full coefficient |
| Quantise.QuantisedTwice | src/dfp754_d64.c:480-506 | quantising again to the same exponent changes nothing |
| Quantise.QuantisedFits | src/dfp754_d64.c:480-506 | a coefficient that fits the format stays one |
| Quantise.QuantisedBound | src/dfp754_d64.c:480-506 | no coefficient grows past its own size or the format's |
| Quantise.QuantisedExpo | src/dfp754_d64.c:480-506 | the new exponent lies between the old and the wanted one |
| Quantise.QuantiseBinary | src/dfp754_d32.c:484-491 | the loops on a binary coefficient compute the quantised number |
| Quantise.DropNibbleDropsDigit | src/dfp754_d32.c:521-523 | one step on nibbles drops and rounds one digit, a ten being left in the lowest nibble |
| Quantise.FixCarry | src/dfp754_d32.c:524-529 | carrying out a ten that was left, through nines if need be, keeps the value and makes all nibbles digits |
| Quantise.QuantiseBcd | src/dfp754_d32.c:520-534 | the loops on nibbles give the BCD form of what the loops on a binary coefficient give |
| Decimal32.BidMant | src/dfp754_d32.c:96-111 | the coefficient is read back from an assembled word, in both forms |
| Decimal32.BidBits | src/dfp754_d32.c:293-311 | where sign, exponent and coefficient stand in a binary word, in both forms |
| Decimal32.DpdBits | src/dfp754_d32.c:332-354 | where sign, combination field, exponent and declets stand in a packed word |
| Decimal32.BidExpo | src/dfp754_d32.h:105-122 | so is the exponent field |
| Decimal32.DpdMant | src/dfp754_d32.c:332-354 | packing and unpacking a seven-digit coefficient |
| Decimal32.DpdExpo | src/dfp754_d32.h:124-141 | the exponent field is read back from a packed word, in both forms |
| Decimal32.ScalbnBidMoves | src/dfp754_d32.c:543-566 | the xor on the exponent field is the same as assembling with the moved exponent |
| Decimal32.ScalbnDpdMoves | src/dfp754_d32.c:568-597 | the same for the packed layout |
| Coding32.BidRoundTrip | src/dfp754_d32.c:293-311 | a binary decimal32, whatever coefficient its two forms hold, decodes to the number it was built from, except the all-zero word, which reads as exponent 0 |
| Coding32.DpdRoundTrip | src/dfp754_d32.c:332-354 | a packed decimal32 does, except positive ones with leading digit 0 at the lowest exponent, which read as exponent 0 |
| Coding32.SameNumber | src/dfp754_d32.c:313-354 | both layouts of one number decode to it if and only if it is not positive and below 10^6 at the lowest exponent, and to one number then or for the zero there |
| Coding32.Sample | src/dfp754_d32.c:293-354 | the two words of one number, spelled out |
| Coding32.MirrorReverses | src/dfp754_d32.c:318-323 | mirrored and shifted, the seven low nibbles come in the opposite order |
| Coding32.ReadNibbles | src/dfp754_d32.c:313-327 | the loop over the mirrored word spells the seven low digits |
| Coding32.BcdToBid | src/dfp754_d32.c:313-330 | a BCD coefficient goes into the binary layout modulo 10^7 |
| Coding32.NinesOverflow | src/dfp754_d32.c:313-354 | ten million, which rounding up seven nines leaves, is read as zero by the binary layout and as eight million by the packed one |
| Coding32.QuantizeBid | src/dfp754_d32.c:468-495 | quantising binary words gives the word of the quantised number |
| Coding32.QuantizeDpd | src/dfp754_d32.c:497-538 | so does quantising packed words |
| Coding32.BidQuantises | src/dfp754_d32.c:468-495 | for all words of finite numbers the binary result decodes to the quantised number, unless it is the all-zero word |
| Coding32.DpdQuantises | src/dfp754_d32.c:497-538 | the packed result does unless its top is blank |
| Coding32.QuantisersAgree | src/dfp754_d32.c:467-539 | on words of the same numbers both quantisers give words of one number if and only if that is not positive and below 10^6 at the lowest exponent, or is zero |
| Coding32.BidIdempotent | src/dfp754_d32.c:468-495 | quantising binary words twice is quantising them once, bit for bit |
| Coding32.DpdIdempotent | src/dfp754_d32.c:497-538 | so it is for packed words if and only if the first result has no blank top, or is zero |
| Coding32.ScalbnIs | src/dfp754_d32.c:541-599 | scaling moves the exponent by exactly n and changes nothing else, while the result is finite |
| Decimal64.BidMant | src/dfp754_d64.c:96-112 | the coefficient is read back from an assembled word, in both forms |
| Decimal64.BidBits | src/dfp754_d64.c:293-311 | where sign, exponent and coefficient stand in a binary word, in both forms |
| Decimal64.DpdBits | src/dfp754_d64.c:337-366 | where sign, combination field, exponent and declets stand in a packed word |
| Decimal64.BidExpo | src/dfp754_d64.h:105-122 | so is the exponent field |
| Decimal64.DpdMant | src/dfp754_d64.c:337-365 | packing and unpacking a sixteen-digit coefficient as the printer does |
| Decimal64.DpdExpo | src/dfp754_d64.h:124-141 | the exponent field of a packed word is read back if and only if the leading digit lets it |
| Decimal64.LeadLost | src/dfp754_d64.c:524-535 | the unpacking in quantising shifts the leading digit out of the word, and only that |
| Decimal64.ScalbnBidMoves | src/dfp754_d64.c:558-584 | the xor on the exponent field is the same as assembling with the moved exponent |
| Decimal64.ScalbnDpdMoves | src/dfp754_d64.c:585-618 | the same for the packed layout, for every leading digit |
| Coding64.BidRoundTrip | src/dfp754_d64.c:293-311 | a binary decimal64, whatever coefficient its two forms hold, decodes to the number it was built from, except the all-zero word, which reads as exponent 0 |
| Coding64.DpdRoundTrip | src/dfp754_d64.c:337-365 | a packed decimal64 gives back sign and coefficient always, and the exponent if and only if its leading digit lets it and the top of the word is not blank |
| Coding64.SameNumber | src/dfp754_d64.c:313-365 | both layouts of one number decode to it if and only if the packed one does, and to one number then or for the zero at the lowest exponent |
| Coding64.Sample | src/dfp754_d64.c:293-366 | the two words of one number, spelled out |
| Coding64.MirrorReverses | src/dfp754_d64.c:318-328 | mirrored and shifted, the fifteen low nibbles come in the opposite order |
| Coding64.ReadNibbles | src/dfp754_d64.c:313-332 | the loop over the mirrored word spells the fifteen low digits |
| Coding64.BcdToBid | src/dfp754_d64.c:313-335 | a BCD coefficient goes into the binary layout modulo 10^15 |
| Coding64.QuantizeBid | src/dfp754_d64.c:479-506 | quantising binary words gives the word of the quantised number |
| Coding64.QuantizeDpd | src/dfp754_d64.c:508-555 | quantising packed words gives the word of the quantised fifteen low digits |
| Coding64.BidQuantises | src/dfp754_d64.c:479-506 | for all words of finite numbers the binary result decodes to the quantised number, unless it is the all-zero word |
| Coding64.DpdQuantises | src/dfp754_d64.c:508-555 | the packed result decodes to the quantised form of the number without its sixteenth digit, unless its top is blank |
| Coding64.QuantisersAgree | src/dfp754_d64.c:478-556 | on words of the same numbers both give words of one number if and only if there is no sixteenth digit or it is dropped without rounding up, and the top is not blank or is a zero's |
| Coding64.BidIdempotent | src/dfp754_d64.c:479-506 | quantising binary words twice is quantising them once, bit for bit |
| Coding64.DpdIdempotent | src/dfp754_d64.c:508-555 | so it is for packed words if and only if the first result has no blank top, or is zero |
| Parsing.RoundBcd | src/dfp754_d32.c:356-369 | the rounding loop steps the lowest digit it does not carry through and puts zeros behind it |
| Parsing.ZeroKeepsTurning | src/dfp754_d32.c:362-365 | a turn of the rounding loop that asks for another and changes nothing happens exactly for a zero coefficient stepped down |
| Parsing.RoundUpAddsOne | src/dfp754_d32.c:356-369 | in decimal32 rounding up adds exactly one, through all carries |
| Parsing.RoundUpAddsOne64 | src/dfp754_d64.c:367-380 | in decimal64 it does if and only if at most eight digits are left before the trailing nines |
| Parsing.RoundDownTakes | src/dfp754_d32.c:415-417 | the step for a negative numeral takes one off the last nonzero digit |
| Parsing.RoundDownLoses | src/dfp754_d64.c:426-428 | in either format that leaves less than there was |
| Parsing.TakeDigits | src/dfp754_d32.c:389-393 | digits are picked up while there are any and the counter allows, and shifted into the coefficient |
| Parsing.StrToBcd | src/dfp754_d32.c:371-423 | sign, digits, exponent, rounding and end of any numeral, in either format |
| Parsing.WithinHalf | src/dfp754_d32.c:371-423 | exactly which numerals are read to within half of the last place kept |
| Parsing.ExactlyRead | src/dfp754_d32.c:371-423 | a numeral is read as its exact value if and only if all dropped digits are zeros |
| Parsing.UnsignedMiss | src/dfp754_d32.c:371-423 | every unsigned decimal32 numeral is read to within one unit of the last place kept, and to within half of one if and only if the coefficient is not full right at the point with more than half dropped |
| Parsing.FullAtPointMisreads | src/dfp754_d32.c:409-413 | 1234567.9 is such a numeral |
| Parsing.SmallNegativeSpins | src/dfp754_d32.c:362-365 | negative numerals that round a zero coefficient keep the rounding loop going |
| Parsing.SpinsOn | src/dfp754_d32.c:362-365 | -.00000009 is one |
| Printing.ShiftedIs | src/dfp754_d64.c:442-445 | what is left without the k low digits is the quotient by 10^k |
| Printing.RevTextBackwards | src/dfp754_d64.c:436-469 | nibbles written from the lowest up, turned around, are the decimal in plain notation |
| Printing.TextSamples | src/dfp754_d64.c:436-469 | the texts of -0.0125 and of 12000 |
| Printing.Reverse | src/dfp754_d64.c:470-475 | the loop of swaps turns the written part of the buffer around in place |
| Printing.BcdToStr | src/dfp754_d64.c:436-477 | the buffer holds the text as far as it fits, in order, with a terminator if there is room |
| ReadBack.SplitText | src/dfp754_d64.c:436-477 | taking a printed decimal apart gives its integer digits and its fraction digits, whatever follows |
| Numeral.SignInFront | src/dfp754_d64.c:392-398 | a plus in front of a numeral changes nothing but where it ends, a minus only the sign besides |
| ReadBack.PrintParse | src/dfp754_d64.c:382-477 | in either format, for every coefficient and exponent, printing and parsing stops right behind the numeral and gives back sign and value if and only if the digits that are not counted are zeros; which exponent is read |
| ReadBack.ReadableComesBack | src/dfp754_d64.c:382-477 | with all digits counted the coefficient comes back too, and the exponent if there were no zeros to write |
| Strings64.Reencode | src/dfp754_d64.c:672-683 | the loop that pushes digits in at the top gives the BCD form of the sixteen low digits |
| Strings64.BidToStr | src/dfp754_d64.c:657-685 | the printed form of the number a binary word decodes to, its end if the buffer is too small, without a sign on zero |
| Strings64.DpdToStr | src/dfp754_d64.c:686-720 | the same for a packed word |
| Strings64.StrToBid | src/dfp754_d64.c:622-631 | the binary word of a numeral and where it ends |
| Strings64.StrToDpd | src/dfp754_d64.c:632-641 | the packed word of a numeral and where it ends |
| Strings64.ReadersAgree | src/dfp754_d64.c:622-641 | both layouts read one numeral as one number, unless fifteen nines were rounded up, when the binary one reads zero |
| Strings64.TextRoundTrip | src/dfp754_d64.c:622-720 | printing any decimal64 and reading it ends right behind it and gives the number back, in both layouts, if and only if only zeros stand past the fifteenth digit and it has no sixteen digits at the highest exponent |
| Strings64.ShortRoundTrip | src/dfp754_d64.c:622-720 | up to fifteen digits and exponent -15 it comes back with coefficient and exponent, or with its zeros written out |
| Fields.StrToDShown | src/lol.c:13-16 | a printed number at the front of a text is read back and the rest is left |
| Fields.StrToUlDecimal | src/lol.c:60-90 | a printed integer is read back with base 0, also behind a tab |
| Fields.BasesTold | src/lol.c:60-90 | the base of an integer is told by its prefix, and blanks and a sign may stand in front |
| Lol.OidComesBack | src/lol.c:49-95 | an order id comes back in type, side, price and number |
| Lol.OidSpelled | src/lol.c:49-66 | the four kinds of order id, word by word |
| Lol.BrokenOid | src/lol.c:68-95 | a text that begins otherwise, or whose price no blank follows, is no order id |
| Lol.NanOidLost | src/lol.c:83-94 | an order id without a price comes back as none |
| Lol.OrderComesBack | src/lol.c:97-145 | an order comes back in side, displayed and hidden quantity, and limit |
| Lol.BalanceComesBack | src/lol.c:147-173 | a balance comes back in both its parts |
| Lol.FilComesBack | src/lol.c:175-210 | a fill comes back with quantity, price, counterparty, and order id if there was one |
| Lol.OneNumber | src/lol.c:115-279 | what each receiver makes of a body in which no tab and second number follow the first |
| Lol.ConWraps | src/lol.c:189-210 | of a counterparty number the low 32 bits are kept |
| Lol.OmsgComesBack | src/lol.c:282-366 | every order message is recovered field by field by receiving what was sent, whatever follows it |
| Lol.OrdersSpelled | src/lol.c:97-113 | the text of an order of either side and type, with a hidden quantity exactly if that is above zero |
| Lol.RepliesSpelled | src/lol.c:282-326 | the texts of all other order messages, a fill with its order id exactly if that has a number |
| Lol.OmsgUnknown | src/lol.c:328-366 | a text is received as no order message if and only if it has no instrument or none of eight tags |
| Lol.QmsgComesBack | src/lol.c:368-492 | so is every quote message |
| Lol.QuotesSpelled | src/lol.c:368-417 | the texts of all quote messages |
| Lol.QmsgUnknown | src/lol.c:419-492 | a text is received as no quote message if and only if it has no instrument or none of seven tags |
| Lol.EmptyBookComesBack | src/lol.c:262-279 | the quote of an empty book comes back through the branch for unreadable ones |
| Lol.EmptyBookSpelled | src/lol.c:368-417 | the text of that quote |
| LolSend.PutPx | src/lol.c:13-16 | a number is written at the cursor and the cursor moves behind it |
| LolSend.SendOid | src/lol.c:49-66 | the text of an order id is written behind what the buffer holds |
| LolSend.SendOrd | src/lol.c:97-113 | the text of an order is |
| LolSend.SendFil | src/lol.c:304-311 | the text of a fill is, its newline turned into a tab if an order id follows |
| LolSend.SendOmsg | src/lol.c:282-326 | the buffer holds the message and its length is returned, or -1 for what cannot be sent |
| LolSend.SendQmsg | src/lol.c:368-417 | the buffer holds the quote message, or is left alone if no side can be told |
| Lines.SplitKeepsAll | src/lobot.c:492-516 | lines and leftover together are the bytes received, each line is one and the leftover holds no newline |
| Lines.SplitConcat | src/lobot.c:492-516 | splitting the leftover with the next bytes behind it gives the remaining lines |
| Lines.LineBuffer.TakeLines | src/lobot.c:492-516 | the loop hands over the whole lines of the buffer and moves the leftover to its front |
| Lines.LineBuffer.Receive | src/lobot.c:478-516 | after every callback all lines handed over and the bytes kept are the bytes received, split |
| Lines.CutsDoNotMatter | src/bot.c:95-130 | however a stream is cut into reads, the same lines are handed over and the same bytes are left |
| Lines.RoomForMore | src/lobot.c:485-489 | lines of at most the buffer's size never fill it, wherever a read ends |
| Lines.LongLineFills | src/lobot.c:485-489 | with a longer line some read fills the buffer without a newline, and the next finds no room |
| Conversation.WireLine | src/lol.c:282-326 | a sent message is one line |
| Conversation.ConversationComesThrough | src/lobot.c:478-516 | any number of messages, cut in any way, are handed over one by one and each is received as what was sent |
| Conversation.QuotesComeThrough | src/bot.c:132-166 | so is any number of quote messages |
| Amounts.RoundNearest | src/lobot.c:113-114 | rounding to sixteen digits gives such a number, at most half of its last place away |
| Amounts.AddNearest | src/lobot.c:113-114 | a sum is a number a 64-bit decimal can be, at most half of its last place from the exact sum and even there on a tie, or infinite with its sign if rounding leaves more than a decimal can be |
| Amounts.RoundTie | src/lobot.c:113-114 | on a tie the last digit kept is even |
| Amounts.AddExact | src/lobot.c:113-114 | a sum is the exact one if and only if a 64-bit decimal can be it |
| Amounts.UnitsHold | src/dfp754_d64.h:105-122 | those are just the numbers of a sixteen-digit coefficient and an exponent from -398 to 369 |
| Amounts.Absorbed | src/lobot.c:113-114 | one more unit is lost on 10^16 of it |
| Ledgers.TradedTotal | src/lobot.c:358-372 | whoever its two ids stand for, a trade keeps a column's total if and only if both bookings give numbers and what one balance moves up the other moves down |
| Ledgers.SettleTotal | src/lobot.c:358-372 | a trade of two users keeps an instrument's total if and only if it is in another one or its two rounding errors cancel |
| Ledgers.ReportsAre | src/lobot.c:364-399 | the k-th report is of the k-th trade: first what the ledger has for the maker, the gain added, then what it has for the taker, the gain taken off, with the cases of a trade with oneself and of nobody |
| Ledgers.AddUserTotal | src/lobot.c:80-94 | a new user changes no total |
| Ledgers.OthersUntouched | src/lobot.c:105-116 | a trade changes no balance but those of its two users in its instrument |
| Ledgers.CheckExact | src/lobot.c:307-322 | the check adds up the exact total if each sum on its way is one a decimal can be |
| Ledgers.VenueBalanced | src/lobot.c:307-322 | in every run of connects, orders, trades and hang-ups an instrument's balances add up to nothing and the check finds so, provided its amounts are whole steps of some 10^q and fewer than 10^16 of them change hands |
| Ledgers.CheckFailsOnBalanced | src/lobot.c:307-322 | a run without any rounding, of 10^16 and one of some unit among four users, whose balances add up to nothing and fail the check |
| Ledgers.BookingLosesOne | src/lobot.c:105-116 | a run in which a booking is rounded and the balances no longer add up |
| Ledgers.CheckPassesOnUnbalanced | src/lobot.c:307-322 | a run whose balances do not add up and pass the check |
| Accounts.SlotInjective | src/lobot.c:108 | no two users or instruments share a place in the flattened table |
| Accounts.Venue.Grow | src/lobot.c:83-87 | doubling the tables keeps every balance and socket |
| Accounts.Venue.AddUser | src/lobot.c:80-94 | the table gains one row of nothing and all others stay, also when it grows |
| Accounts.Venue.AddAcct | src/lobot.c:105-116 | one balance is credited as decimals add, and its new value returned |
| Accounts.Venue.KillUser | src/lobot.c:118-127 | the socket is forgotten and the balances stay |
| Accounts.Venue.DisseminateTrades | src/lobot.c:358-399 | the trades are booked in order, each sum rounded, and each side is told what it has then |
| Accounts.Venue.CheckAccounts | src/lobot.c:307-322 | the check passes if and only if what it adds up, rounding as it goes, is nothing in every instrument |
| Accounts.Venue.Handle | src/lobot.c:325-372 | what a connect, a hang-up, an order or trades do to the tables is one step of the state machine |
| Accounts.Serve | src/lobot.c:478-580 | from its start the venue is where the state machine is after the same events, and its check passes if no amount could be rounded |
| Search.LastIsForced | src/lobcch.c:167-177 | equal sums with all characters but the last equal force the last |
| Search.Slide | src/lobcch.c:168-170 | taking one character out of the sum and one in moves the window by one |
| Search.OccursSum | src/lobcch.c:172-177 | equal sums and equality of all characters but the last are the same as an occurrence |
| Search.Find | build-aux/yuck-scmver.c:164-219 | the search gives the first occurrence of the needle if there is one, and fails if and only if there is none |
| Search.FindPast | src/lobcch.c:125-181 | the other copy points behind the first occurrence |
| Framing.LengthReads | src/lobcch.c:309-329 | each of the three length forms is the shortest and says the length |
| Framing.HeaderSamples | src/lobcch.c:309-329 | a header of each length form, byte by byte |
| Framing.DecodeFramed | src/lobcch.c:293-338 | decoding a frame by section 5.2 of RFC 6455 gives the payload, for every length below 2^63 and whatever follows |
| Framing.Framify | src/lobcch.c:293-338 | the frame of the payload is put together in place |
| Base64.DecodeEncode | src/lobcch.c:183-202 | decoding by section 4 of RFC 4648 gives back every byte string |
| Base64.Alphabet | src/lobcch.c:183-202 | the characters for six bits are those of table 1 of RFC 4648 |
| Base64.TestVectors | src/lobcch.c:183-202 | the texts of "f", "fo", "foo" and "foobar" of its section 10 |
| Base64.PutBase64 | src/lobcch.c:183-202 | the loop and its tail write the standard's text of a twenty-byte digest |
| Handshake.RecvHandshake | src/lobcch.c:243-291 | no answer until the request is complete, -1 without a key, else the reply of section 4.2.2 of RFC 6455 to the first key |
| Handshake.KeyIsAnswered | src/lobcch.c:255-287 | in every complete request the key answered is just the bytes 0x21 to 0x7f between the blanks behind the first header of its name and the carriage return; the reply is spelled out |
| Handshake.NoneMeans | src/lobcch.c:255-269 | end of request and header count as missing if and only if they occur nowhere |
| Handshake.Answer | src/lobcch.c:268-287 | the reply carries the base 64 text of the SHA-1 of key and magic string |
| Slots.AddedIsNew | src/lobcch.c:214-230 | a new user gets a slot nobody holds and no other slot changes |
| Slots.KilledIsFree | src/lobcch.c:232-241 | the slot of a user who leaves is free, every other one as it was, and there is one user less if and only if the slot was taken |
| Slots.SocketStays | src/lobcch.c:214-241 | in every run the socket a user came with is in the slot of the id it was given until that user leaves, and then the slot is free |
| Slots.LengthIsPeak | src/lobcch.c:214-241 | in every run the table is as long as the greatest number of users there were at one time |
| Slots.UserTable.AddUser | src/lobcch.c:214-230 | the first free slot is taken, or one appended |
| Slots.UserTable.KillUser | src/lobcch.c:232-241 | the slot just below the user id is set free, no other slot changes |
| Version.HexToU | build-aux/yuck-scmver.c:221-271 | at most seven digits and their number are taken, all digits are passed over, and the result fits 32 bits |
| Version.HexToUintIs | build-aux/yuck-scmver.c:221-271 | what the digits of a run are worth, the first seven counting |
| Version.HexSample | build-aux/yuck-scmver.c:234-246 | large and small letters mean the same |
| Version.HashBack | build-aux/yuck-scmver.c:221-271 | a printed revision is read back with its number of digits |
| Version.WriteStamp | build-aux/yuck-scmver.c:555-595 | for every size of the buffer, -1 exactly where a check finds too little room, and otherwise how much of the text the buffer holds and the length returned for it |
| Version.StampSample | build-aux/yuck-scmver.c:555-595 | a stamp with everything in it is v0.2.1-5-g0ab-dirty |
| Version.FindFields | build-aux/yuck-scmver.c:456-484 | where tag and distance are, a system's mark going before a dash |
| Version.MarkFirst | build-aux/yuck-scmver.c:461-480 | .git goes before .bzr and that before .hg, wherever they stand, and the first of several counts |
| Version.RdVersion | build-aux/yuck-scmver.c:422-553 | the record that each branch of the reader leaves |
| Version.Beginnings | build-aux/yuck-scmver.c:434-453 | a stamp begins with a v, small or large, or with a digit and then reads the same; anything else is refused |
| Version.NoSystem | build-aux/yuck-scmver.c:493-532 | without a system a dot behind the distance is refused, and an unknown letter ends the reading |
| Version.LetterDecides | build-aux/yuck-scmver.c:509-533 | the letter in front of the hash decides, a b only if no mark did |
| Version.DirtyIs | build-aux/yuck-scmver.c:542-551 | dirty means that the word stands right behind the hash, after a dash or a dot |
| Version.DistanceWraps | build-aux/yuck-scmver.c:489-492 | of a distance the low 32 bits are kept |
| Version.TagCut | build-aux/yuck-scmver.c:483 | a tag of up to sixteen characters is kept, of a longer one fifteen |
| Version.ReadWritten | build-aux/yuck-scmver.c:422-595 | reading a written stamp gives every field that was printed |
| Version.ReadBare | build-aux/yuck-scmver.c:422-595 | so it does without the v, or with a large one |
| Version.WrittenIsStable | build-aux/yuck-scmver.c:422-595 | writing again what was read gives the same text |
| Version.NotationsAgree | build-aux/yuck-scmver.c:455-553 | both notations of a stamp read as the same record, also with a hash that begins with b |

## Left out

- Sockets, multicast, event loop, daemon mode and process spawning: reads are
  arbitrary pieces of bytes, sends are text in a buffer.
- The order book and the matching: not part of this repository. A trade is given
  with the amount the maker gains, and the taker's amount is its negation. Orders
  are named by the order they came in, and any two of them may meet.
- Amounts are decimals by value: which of several exponents a sum is stored with,
  the sign of a zero, and rounding modes other than to nearest even are not modelled.
- `kill_user` as called on a hang-up: it is passed a field of the event record that
  nothing sets, so the model takes the user id as given.
- NaN and infinity: reading gives neither, and printing only the word for a missing
  price.
- decimal32 words as text: the numeral functions cover both formats, the
  methods on words only the 64-bit one, whose code is the same but for widths.
- Biased exponents of 192 or 768 and above, which stand for infinities and NaN.
- The bots' handlers after an error or without a callback (src/bot.c:105-110): they
  drop what was received; the model starts where bytes are handed on.
- Lol.RecvOmsg: a message is followed by a terminator in the model; in the program
  whatever the buffer held before may follow.
- Lol.FilComesBack: without an order id the program leaves that field of the result
  unset, so nothing is said about it.
- LolSend.SendOmsg: the buffer has to have room for the message, which the program
  does not check either.
- Handshake.RecvHandshake: the buffer has to have room for the magic string behind
  the key and for the reply, which the program takes for granted.
- Framing.DecodeFramed: a length with its highest bit set is not allowed by the
  standard; the program would write one. Its frames go out with the mask bit set,
  which section 5.1 of RFC 6455 forbids a server; decoding here follows section 5.2
  alone.
- Version.WriteStamp: what is in the buffer when -1 is returned is not said.
- Version.RdVersion: behind a tag of exactly sixteen characters the program writes a
  terminator one byte too far, which is the first byte of the distance; that is
  still zero then and read afterwards, so the record is the one stated here.
- The averages over past quotes, the book cache and the line protocol of the web
  socket cache, the bots' strategies, the auction bot and the option-file tools.
- Endianness and alignment switches of the hash, and failing allocations.
