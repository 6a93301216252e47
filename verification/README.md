# Verified model of the boot loader arithmetic, storage and container code

A Dafny 4.11 model of the hard parts of the repository, with proofs:

- the multi-precision integers of the boot loader and the RSA built on them
  (`src/bootloader/myboot/bignum.c`, `rsa.c`), from carry loops to PKCS#1;
- the NAND driver's bad-block skipping (`k9f2g08.c`);
- the CRC-32 of the boot loader and of `src/program/apue`, and the CRC-16 and
  packets of `src/program/tlv`;
- the containers of `src/program/cp_library`: intrusive lists, the dictionary,
  the ring buffer, and the socket registry with its queue and slot array.

`dafny verify dfyconfig.toml` checks everything.

## How the model reads

**Numbers.** An `Mpi` is a class with a sign `s` and limbs `p`, reassigned by the
methods as the C functions do. `Val` gives the number a limb string stands for,
`Value()` the signed number. The limb width `biL` is an unspecified constant that
may be 16, 32 or 64, so every result holds for each of them; `W` is 2^biL. One
multiply-add step of the assembler macros is `MulAdd`. The double-limb quotient
estimate (`HAVE_LONGLONG`) is the one modelled. Allocation always succeeds.

The layers are: limb loops refine integer arithmetic (`AddSub`, `Mul`, `Shift`,
`Division`), Montgomery form refines arithmetic modulo N (`Montgomery`,
`Exponentiation`), binary gcd refines `Gcd` (`GcdInv`), extended Euclid with the
carries that stick refines a run on integers (`Inverse`, `InverseRun`) whose end
is the inverse but for what was lost on the way, and the exact run of
`InverseExact` where nothing was, number theory with Fermat's
little theorem proved from the binomial theorem (`NumberTheory`) joins the two
half-size powers into the private operation (`Rsa`), and `Pkcs1` puts the padding
around it.

**Flash.** The chip is a sequence of pages of 2048 + 64 octets; programming can
only clear bits; the set `worn` of blocks that cannot be erased is arbitrary.
The model replaces the register handshakes by page read, page program and block
erase. Programming a page always succeeds, so the failure branch at lines 230-234
of `k9f2g08.c` does not arise. `char data` in `is_bad_block` is unsigned.

**Checksums.** A register is a bit-vector behind small operators. The bit-serial
form is proved equal to the remainder of a polynomial division over GF(2), defined
by itself in `Polynomials` and shown to be the only quotient and remainder there
are. Byte order is an unspecified constant; the conversions at lines 13-20 of
`crc32.c` do nothing, and so the checksums are right in the little-endian branch
of `DO_CRC` and not in the other (`Crc32.ByteOrderDecides`).

**Containers.** `KList` works on the heap: `Ring(s)` says that `next` and `prev`
run around the sequence s in the two directions, and every list function is
proved to turn rings into rings. A poisoned link is a null one. `Fds` keeps the
socket lists as sequences and the queue and slot array as the classes of
`Queue` and `SlotArray`; its invariant `Valid` is kept by every operation but an
enqueue that finds the queue full and the clearing of all tasks, and so by every
run in which no more than max_event sockets are in epoll at a time, only those
are enqueued and none leaves epoll while it is queued.

## What the code does that one would not expect

Each of these is modelled as written; where a property fails because of it, the
exact condition is in the member named.

- `mpi_add_abs` does not advance the limb pointer in its carry loop (lines
  611-620): a carry that meets an all-ones limb below the top is put back into
  the same limb. `AddSub.AddAbs` says exactly when that happens and by how much
  the sum is then short, `AddSub.StickingSum` gives a sum that is wrong in every
  limb width. Division, reduction, exponentiation, gcd and the private RSA
  operation are proved with this loop and never meet the case. Two do:
  - reading decimal text (`Texts.Read`, `Texts.DecimalSticks`);
  - `mpi_inv_mod`. `Inverse.InvMod` says what it returns: the inverse whenever no
    addition of the exact run on integers meets a stuck carry
    (`InverseExact.Additions` lists them), and so for an N that is small against
    W * W and for powers of two of every length; and in all cases the inverse if
    and only if what the run has lost is a multiple of N. Both runs are functions
    of A and N that can be computed before the call.
    `InverseFails.FourLimbsGoWrong` gives
    coprime A and N with a wrong result in every limb width,
    `InverseFails.TwoLimbsGoWrong` a modulus of two limbs.
- `mpi_add_abs` with one object for all three arguments doubles every limb and
  loses what leaves it (`AddSub.AddAbs`, `AddSub.AddSelf`).
- `mpi_div_mpi` takes the signs of quotient and remainder from operands it may
  have overwritten by then: `Division.DivMpi` says when that is harmless.
- `mpi_cmp_mpi` takes X's sign for the answer when Y has more limbs
  (`Mpis.CmpMpi`).
- `mpi_exp_mod` with A < 0 raises |A| unless A has fewer limbs than N
  (`Exponentiation.ExpMod`).
- `mpi_mod_mpi` gives -B for a dividend that is zero with sign -1, and in place
  takes a negative dividend not below B for its magnitude (`Division.ModMpi`).
- `mpi_mod_int` loses the top half limb of a partial remainder when the divisor
  exceeds half a limb and does not divide W (`ModInts.RemainderExactly`).
- `mpi_read` loses the minus sign in every radix but 16 (`Texts.Read`).
- The byte order macros of `crc32.c` are the identity, so on a big-endian machine
  `crc32` is wrong already for one octet 0 (`Crc32.BigEndianFails`).
- `mpi_gcd` with B = 0 and A not 0, and `mpi_inv_mod` with N = 1, do not come to
  an end; these inputs are excluded.
- `rsa_pkcs1_verify` takes a raw hash of 34 bytes for an MD digest form
  (`Pkcs1.SignThenVerify`), and asks for no minimum of padding bytes.
- `nand_write` and `nand_read` return the size of the last transfer, not of all.
- `nand_erase` does not look at marks: it erases a block marked bad that can be
  erased. With `skip_bad` zero it tries a worn block for ever.
- `cp_fds_sock_enqueue` sets the flag of a socket even when the queue is full
  (`Fds.Context.Enqueue`); `cp_sock_term_all_task` empties the queue and leaves
  the flags set (`Fds.Context.TermAllTask`); `cp_add_epoll_event` lets one socket
  more in than max_event, for which the queue has no room (`Fds.OneTooMany`);
  `cp_fds_sock_dequeue` needs a queue that is not empty, and `cp_rmqueue` an
  element that is there.
- `list_cut_position` leaves `list` as it was when `head` is empty.
- The comment of `dictionary_set` says that storing NULL deletes the key. The key
  stays, and `dictionary_get` then returns NULL rather than the default.
- The comment of `crc-itu-t.h` names x^15; the table is that of
  x^16 + x^12 + x^5 + 1, as in ITU-T V.41.
- `bignum.h` gives a limb type that does not match the pointer type used with it;
  hence the width left open.

## Model

| member | source | states |
|---|---|---|
| Mpis.Grow | src/bootloader/myboot/bignum.c:85-104 | The value is kept and the new limbs are zero. |
| Mpis.Copy | src/bootloader/myboot/bignum.c:109-131 | X takes sign and value of Y; which limbs it has afterwards, also for X = Y. |
| Mpis.Lset | src/bootloader/myboot/bignum.c:148-160 | X is z, in its lowest limb alone. |
| Mpis.CmpAbs | src/bootloader/myboot/bignum.c:505-530 | The sign of the difference of the magnitudes. |
| Mpis.CmpMpi | src/bootloader/myboot/bignum.c:535-563 | Integer order if and only if Y is not the longer one with the other sign; what is returned in that case. |
| Mpis.CmpInt | src/bootloader/myboot/bignum.c:568-579 | Integer order with z, except for a zero of the other sign. |
| AddSub.AddAbs | src/bootloader/myboot/bignum.c:584-625 | The magnitudes' sum minus what is lost; exact if and only if no carry sticks or, with one object for all three arguments, no limb overflows; for all lengths and aliasings. |
| AddSub.NoFullLimb | src/bootloader/myboot/bignum.c:611-620 | Nothing is lost where no limb of either number is all ones and the three arguments are not one object. |
| AddSub.AddSelf | src/bootloader/myboot/bignum.c:605-609 | With o and p on the same limbs each is doubled and no carry is found. |
| AddSub.DoubledValue | src/bootloader/myboot/bignum.c:605-609 | What is then missing from twice the number is W^(i+1) for every limb i that overflows. |
| AddSub.StickingSum | src/bootloader/myboot/bignum.c:611-620 | Four limbs plus one for which the carry sticks, in every limb width. |
| AddSub.AddAbsStepped | src/bootloader/myboot/bignum.c:584-625 | With the limb pointer advanced the sum is exact, whatever the carry does. |
| AddSub.SubHlp | src/bootloader/myboot/bignum.c:630-646 | Subtracts exactly and the borrow ends within D, whenever the result is not negative. |
| AddSub.SubAbs | src/bootloader/myboot/bignum.c:651-682 | The exact difference, or the error if and only if |A| < |B|, with X untouched. |
| AddSub.AddMpi | src/bootloader/myboot/bignum.c:687-713 | The signed sum, minus what the magnitudes lose when the signs agree; the sign of zero; the limbs X has. |
| AddSub.SubMpi | src/bootloader/myboot/bignum.c:718-744 | The signed difference, with the same exception. |
| AddSub.AddInt | src/bootloader/myboot/bignum.c:749-760 | Sum with a small integer of either sign, minus its loss, whichever operands are shared; the limbs X has. |
| AddSub.SubInt | src/bootloader/myboot/bignum.c:765-776 | Difference with a small integer, in the same detail. |
| Mul.MulAdd | src/bootloader/myboot/bignum.c:781-864 | One step: low limb plus W times carry is d + c + s * b, and no carry is lost. |
| Mul.MulHlp | src/bootloader/myboot/bignum.c:781-864 | Adds b times a limb string at an offset; carries stay within D when the sum fits it. |
| Mul.MulMpi | src/bootloader/myboot/bignum.c:869-899 | The exact signed product for all lengths and aliasings. |
| Mul.MulInt | src/bootloader/myboot/bignum.c:904-915 | The exact product with one limb. |
| Shift.Size | src/bootloader/myboot/bignum.c:383-396 | The bit length of the magnitude. |
| Shift.Lsb | src/bootloader/myboot/bignum.c:401-411 | The number of times two divides the magnitude, zero for zero. |
| Shift.ShiftL | src/bootloader/myboot/bignum.c:416-460 | Multiplies by 2^count; the limbs suffice. |
| Shift.ShiftR | src/bootloader/myboot/bignum.c:465-500 | Divides by 2^count, rounding down the magnitude. |
| Division.TrialQuotient | src/bootloader/myboot/bignum.c:967-1039 | A digit whose product with the top two limbs is the largest within the top three is never too small and at most one too large. |
| Division.TrialDigit | src/bootloader/myboot/bignum.c:967-1039 | The estimate loop ends with such a digit. |
| Division.DivStep | src/bootloader/myboot/bignum.c:965-1052 | One digit: x and z are changed so that z * y + x stays, x falls below y's multiple, and one add-back suffices. |
| Division.DivLoop | src/bootloader/myboot/bignum.c:965-1052 | After all digits the remainder is below the divisor and z * y + x is what it was. |
| Division.DivMpi | src/bootloader/myboot/bignum.c:920-1074 | What Q and R are left holding for every A and B != 0 and every sharing of objects: A = Q * B + R with |R| < |B| and R of the sign of A when neither Q nor R is an operand; the truncated quotient if and only if the signs overwritten are harmless, and the remainder likewise; error and nothing changed for B = 0. |
| Division.TDivModUnique | src/bootloader/myboot/bignum.c:920-1074 | Truncated quotient and remainder are the only numbers with A = Q * B + R, |R| < |B| and R of A's sign. |
| Division.DivInt | src/bootloader/myboot/bignum.c:1083-1094 | The same for a small divisor. |
| Division.ModMpi | src/bootloader/myboot/bignum.c:1099-1114 | A mod B in [0, B) if and only if A is not a negative zero, -B then; |A| mod B for a negative A not below B in magnitude that is replaced in place. |
| ModInts.ModInt | src/bootloader/myboot/bignum.c:1119-1155 | The half-limb loop, wrapping as one limb does, as a function of the limbs. |
| ModInts.RemainderExactly | src/bootloader/myboot/bignum.c:1119-1155 | That function is the true remainder for all numbers if and only if b is at most half a limb or divides W. |
| ModInts.RemainderFails | src/bootloader/myboot/bignum.c:1119-1155 | For every other b the number W already gives 0 instead of W mod b. |
| Montgomery.MontgInit | src/bootloader/myboot/bignum.c:1160-1173 | mm * N[0] is -1 modulo W for every odd N[0]: three bits from the table, doubled by each Newton step. |
| Montgomery.MontStep | src/bootloader/myboot/bignum.c:1189-1201 | One round keeps T below N + B, clears the low limb and stays inside the scratch limbs. |
| Montgomery.MontMul | src/bootloader/myboot/bignum.c:1178-1210 | A number below N congruent to A * B * W^-n, with B aliasing A allowed. |
| Montgomery.MontRed | src/bootloader/myboot/bignum.c:1215-1224 | A number below N congruent to A * W^-n. |
| Exponentiation.ReducedUnique | src/bootloader/myboot/bignum.c:1178-1224 | For odd N there is only one such number. |
| Exponentiation.BuildTable | src/bootloader/myboot/bignum.c:1286-1309 | Every table entry from 2^(wsize-1) on, and entry 1, stands for A^i in Montgomery form. |
| Exponentiation.Scan | src/bootloader/myboot/bignum.c:1311-1371 | X stands for A to the exponent bits read and flushed; the window holds the rest. |
| Exponentiation.Tail | src/bootloader/myboot/bignum.c:1373-1384 | The bits left in an unfinished window are multiplied in. |
| Exponentiation.Radix | src/bootloader/myboot/bignum.c:1256-1269 | R^2 mod N, computed or taken from a cache that holds it; the cache is left holding it. |
| Exponentiation.ExpMod | src/bootloader/myboot/bignum.c:1229-1401 | X = A^E mod N exactly for every odd N > 0, every E and every A >= 0, with or without a cached R^2, which is left in the cache; for A < 0 the power it computes instead, and that it is A^E mod N if and only if A has fewer limbs than N, or E is even, or N divides the power; the error otherwise. |
| Exponentiation.PowerOfUsed | src/bootloader/myboot/bignum.c:1274-1276 | The power of the number that goes in is that of A if and only if one of those holds. |
| GcdInv.OddGcd | src/bootloader/myboot/bignum.c:1426-1441 | The halving and subtracting loop keeps the gcd and comes to an end. |
| GcdInv.GcdMpi | src/bootloader/myboot/bignum.c:1406-1449 | G = gcd(|A|, |B|), by the common power of two and the odd parts. |
| Gcds.GcdIsGreatest | src/bootloader/myboot/bignum.c:1406-1449 | The gcd divides both numbers, and every common divisor divides it. |
| GcdInv.HalveCoefficients | src/bootloader/myboot/bignum.c:1485-1511 | With the carry loop stepped: halving a row is exact because TA and TB are not both even, and keeps U1 * TA + U2 * TB = TU. |
| GcdInv.InvLoop | src/bootloader/myboot/bignum.c:1483-1526 | With the carry loop stepped: both rows hold at every step, the gcd is kept and TU reaches zero. |
| GcdInv.InvModStepped | src/bootloader/myboot/bignum.c:1454-1542 | With the carry loop stepped: X in [0, N) with A * X = 1 mod N, or the error if and only if gcd(A, N) != 1. |
| Inverse.HalveOnce | src/bootloader/myboot/bignum.c:1485-1511 | As written: one halving of a row, losses of stuck carries included, is the step on integers. |
| Inverse.RunLoop | src/bootloader/myboot/bignum.c:1483-1526 | As written: the loop leaves TV and its coefficients as the run on integers does, and ends. |
| InverseRun.OutcomeIsInverse | src/bootloader/myboot/bignum.c:1483-1526 | A times the coefficient the run ends with is 1 minus what has been lost modulo N; the inverse if and only if N divides that; nothing is lost before a carry sticks. |
| InverseRun.RoomyNeverSticks | src/bootloader/myboot/bignum.c:1483-1526 | With N * (4 * bits of N + 6) at most W * W no carry sticks for any A. |
| InverseExact.CoefficientIsInverse | src/bootloader/myboot/bignum.c:1483-1526 | On integers, without limbs: the coefficient the run ends with is the inverse of every A coprime to N > 1. |
| InverseExact.ExactUnlessSticking | src/bootloader/myboot/bignum.c:1483-1526 | When no addition of the exact run, with the limbs its numbers have there, meets a stuck carry, the run as written sticks nowhere and ends with the exact coefficient. |
| InverseExact.HalvingsAre | src/bootloader/myboot/bignum.c:1485-1511 | Which additions a number is halved with: none when it is odd; else N to the first coefficient and A from the second when one is odd, and those of its half. |
| InverseExact.AdditionsAre | src/bootloader/myboot/bignum.c:1483-1526 | Which additions a run makes: those of the halvings, those that subtract the smaller row from the larger one, and those of the run from there, and no others. |
| InverseExact.PowersNeverStick | src/bootloader/myboot/bignum.c:1483-1526 | In no limb width does a carry stick for a power of two modulo an odd number or an odd number modulo a power of two, however long. |
| Inverse.OneLimbIsRoomy | src/bootloader/myboot/bignum.c:1483-1526 | Every N of one limb is that small. |
| Inverse.InvMod | src/bootloader/myboot/bignum.c:1454-1542 | As written: the exact coefficient of the integer run modulo N, and so the inverse in (0, N), whenever no addition of that run meets a stuck carry; the inverse for every N with N * (4 * bits of N + 6) at most W * W, and at every length for a power of two modulo an odd N and an odd number modulo a power of two, (N + 1) / 2 for A = 2; in all cases the inverse if and only if N divides what the run lost; the error if and only if gcd(A, N) != 1. |
| InverseFails.FourLimbsGoWrong | src/bootloader/myboot/bignum.c:1483-1526 | For A = W^3 / 2 + 2 and N = W^3 + 5, coprime, the result is not an inverse, in every limb width. |
| InverseFails.TwoLimbsGoWrong | src/bootloader/myboot/bignum.c:1483-1526 | At W = 2^16 carries stick on the way for the coprime A = 151859749 and N = 4180640084, which has two limbs, and the result is not an inverse. |
| Octets.Import | src/bootloader/myboot/bignum.c:333-350 | X is the big-endian number of the bytes. |
| Octets.Export | src/bootloader/myboot/bignum.c:355-378 | The bytes of |X| padded in front to the given length, or the length needed and an untouched buffer. |
| Octets.ImportExport | src/bootloader/myboot/bignum.c:333-378 | A buffer of the imported length exports to the imported bytes and no others. |
| Octets.BytesAppend | src/bootloader/myboot/bignum.c:333-378 | Big-endian: one more octet behind makes the number 256 times as large and adds the octet. |
| Octets.ByteLenFits | src/bootloader/myboot/bignum.c:355-369 | The length needed is the least number of octets that holds the number. |
| Octets.BytesInjective | src/bootloader/myboot/bignum.c:333-378 | Byte strings of one length with one value are the same. |
| Texts.ShowHex | src/bootloader/myboot/bignum.c:283-304 | The bytes, high first, two digits each, without leading zero bytes; 00 for zero. |
| Texts.RecurseShow | src/bootloader/myboot/bignum.c:239-263 | The digits of |X| in the radix, high first, as few as there are. |
| Texts.Show | src/bootloader/myboot/bignum.c:268-320 | Name, sign, digits and line end; the error for another radix. |
| Texts.ShownIsReadable | src/bootloader/myboot/bignum.c:165-320 | The digits shown are digits in that radix and stand for the number. |
| Texts.DigitsAre | src/bootloader/myboot/bignum.c:165-177 | The digits are the 22 characters 0 to 9, A to F and a to f, and no others. |
| Texts.DigitValues | src/bootloader/myboot/bignum.c:165-177 | They are worth 0 to 15, the letters 10 to 15 in order in either case; shown are the digits and the capitals. |
| Texts.NumberSnoc | src/bootloader/myboot/bignum.c:195-228 | Place values: one more digit multiplies by the radix and adds it. |
| Texts.NoLeadingZero | src/bootloader/myboot/bignum.c:239-263 | No digit is shown in front that could be left out. |
| Texts.NoLeadingPair | src/bootloader/myboot/bignum.c:283-304 | In radix 16 the digits come in pairs, and no pair of zeros in front. |
| Texts.ReadHex | src/bootloader/myboot/bignum.c:195-213 | The number with its sign, four bits a digit, or the error if a character is no digit. |
| Texts.ReadDigits | src/bootloader/myboot/bignum.c:214-228 | What the written loop leaves, stuck carries and all: never more than the number, and equal to it if and only if no prefix makes a carry stick; the sign goes with the first nonzero digit. |
| Texts.Read | src/bootloader/myboot/bignum.c:182-234 | The error if and only if a character is no digit of the radix; in radix 16 the number with its sign; in the others what the digits leave, exactly the number in the radices 2, 4 and 8, for numbers below W * W - W, and below W * W when X came with fewer than three limbs, and otherwise if and only if no carry sticks. |
| Texts.ReadInEitherCase | src/bootloader/myboot/bignum.c:165-234 | A text and the same text with letters in the other case give the same error and the same number. |
| Texts.ShowThenRead | src/bootloader/myboot/bignum.c:182-320 | What is shown is read back as the same number in radix 16 always, in the others if and only if it is not negative and no carry sticks. |
| Texts.PowersOfTwoNeverStick | src/bootloader/myboot/bignum.c:214-228 | In the radices 2, 4 and 8 none does. |
| Texts.DecimalSticks | src/bootloader/myboot/bignum.c:214-228 | In decimal 2 * W * W is read back wrong, in every limb width. |
| NumberTheory.CrtPower | src/bootloader/myboot/rsa.c:174-188 | Recombining x^dp mod p and x^dq mod q gives x^d mod n for every x. |
| NumberTheory.PowerRoundTrip | src/bootloader/myboot/rsa.c:108-201 | Raising to e and to d, in either order, gives x back for every x < n. |
| NumberTheory.GeneratedKey | src/bootloader/myboot/rsa.c:59-87 | Whatever odd primes and exponents key generation puts together make a key. |
| NumberTheory.PrimeIs | src/bootloader/myboot/rsa.c:59-87 | A prime is a number above one that nothing between one and itself divides. |
| Rsa.Garner | src/bootloader/myboot/rsa.c:177-188 | T2 + ((T1 - T2) * QP mod P) * Q, with the aliases of the source, is the recombined number in [0, P * Q). |
| Rsa.RecombinationNeverSticks | src/bootloader/myboot/rsa.c:187-188 | In that sum no carry can stick. |
| Rsa.RsaPublic | src/bootloader/myboot/rsa.c:108-140 | Output is input^E mod N in olen bytes, in place if wanted; each error exactly when it is due. |
| Rsa.RsaPrivate | src/bootloader/myboot/rsa.c:145-201 | Output is input^D mod N for every input below N, computed from the half-size powers. |
| Pkcs1.Encrypt | src/bootloader/myboot/rsa.c:255-282 | The RSA power of 00 02 PS 00 M with some padding PS of the right length without zero octets; the error exactly for a bad length. |
| Pkcs1.Decrypt | src/bootloader/myboot/rsa.c:287-320 | It gives the message M if and only if the opened block is 00 02, octets other than zero, 00 and M, and M fits; the errors for bad length and bad padding; the output untouched with an error and behind the message. |
| Pkcs1.EncryptThenDecrypt | src/bootloader/myboot/rsa.c:255-320 | Succeeds if and only if the message has at most len - 11 bytes and the key 16 to 512; the message then comes back whole. |
| Pkcs1.I2ospVal | src/bootloader/myboot/rsa.c:287-320 | The octets of a block have the value they are made from; with their length that leaves one block. |
| Pkcs1.Sign | src/bootloader/myboot/rsa.c:325-396 | The private power of 00 01 FF.. 00 and the digest information of the algorithm; the errors. |
| Pkcs1.SignBlockIs | src/bootloader/myboot/rsa.c:355-363 | The block of a digest information is the one of the length wanted with 00 01, FF octets and 00 in front. |
| Pkcs1.DigestInfoIs | src/bootloader/myboot/rsa.c:365-393 | The digest information of each algorithm, octet by octet. |
| Pkcs1.Verify | src/bootloader/myboot/rsa.c:401-466 | Accepts if and only if the opened block is 00 01, some FF octets, 00 and what is taken for the digest information of the hash given; the error for bad lengths if and only if a length or the signature is out of range. |
| Pkcs1.MatchesIs | src/bootloader/myboot/rsa.c:429-465 | What is taken for the digest information of a hash, octet by octet: a raw hash of 34 octets is compared with octet 13 zeroed and only behind the MD prefix. |
| Pkcs1.SignThenVerify | src/bootloader/myboot/rsa.c:325-466 | Verify accepts what Sign made of a hash for that hash and no other of the same algorithm, if and only if key size and digest fit; only for a raw hash of 34 octets the one accepted is that hash with octet 13 zeroed, and none if it lacks the MD prefix. |
| Octets.PaddedBelow | src/bootloader/myboot/rsa.c:255-282 | A block of the modulus' length that starts with 00 is below the modulus. |
| Nand.Flash.ReadPage | src/bootloader/myboot/k9f2g08.c:121-169 | The bytes of the page from the offset on, and nothing else of the buffer. |
| Nand.Flash.WritePage | src/bootloader/myboot/k9f2g08.c:181-243 | Programming clears bits and sets none. |
| Nand.Flash.IsBadBlock | src/bootloader/myboot/k9f2g08.c:252-277 | Bad if and only if the mark in the block's first page is not FF. |
| Nand.Flash.MarkBadBlock | src/bootloader/myboot/k9f2g08.c:285-308 | The block's mark is programmed, nothing else. |
| Nand.Flash.EraseBlock | src/bootloader/myboot/k9f2g08.c:317-359 | A worn block is marked and reported, any other comes out blank. |
| Nand.Flash.Erase | src/bootloader/myboot/k9f2g08.c:370-411 | Exactly size / block good blocks from the start on come out blank, the worn ones before the end are marked, the rest is untouched. |
| Nand.Flash.Write | src/bootloader/myboot/k9f2g08.c:545-602 | The data goes page by page into the blocks not marked bad. |
| Nand.Flash.Read | src/bootloader/myboot/k9f2g08.c:477-534 | The data comes page by page from the blocks not marked bad. |
| Nand.ReadAfterWrite | src/bootloader/myboot/k9f2g08.c:477-602 | Reading from where one wrote gives the data back, for every size and every pattern of marks, when the space was clean. |
| Nand.SweptIsClean | src/bootloader/myboot/k9f2g08.c:370-411 | What Erase leaves is room and clean space for as many bytes as its good blocks hold. |
| Nand.CapacityIsGoodBlocks | src/bootloader/myboot/k9f2g08.c:370-411 | The bytes that fit are the good blocks times their size. |
| Nand.StoreAndLoad | src/bootloader/myboot/bootstrap.c:115-118 | Erase with skipping, write, read: the file comes back for every size and every set of worn blocks with enough good ones. |
| NandLayout.WriteGoesTo | src/bootloader/myboot/k9f2g08.c:545-602 | Chunk i of the data is programmed into the page before which the transfer uses i pages, and no other page changes. |
| NandLayout.ReadComesFrom | src/bootloader/myboot/k9f2g08.c:477-534 | Chunk i of what is read comes from that page. |
| NandLayout.RoomIs | src/bootloader/myboot/k9f2g08.c:477-602 | There is room for n octets if and only if the pages the transfer may use hold them. |
| NandLayout.GoodBlocksCount | src/bootloader/myboot/k9f2g08.c:370-411 | The good blocks are those of the stretch that are not worn. |
| Polynomials.DivisionUnique | src/bootloader/myboot/crc32.c:28-51 | Long division over GF(2) gives the only quotient and remainder there are. |
| Crc32.GeneratorBits | src/bootloader/myboot/crc32.c:56-63 | The reflected constant is the polynomial with the powers listed. |
| Crc32.EntryIsEightSteps | src/bootloader/myboot/crc32.c:79-144 | Each of the 256 constants is its index turned eight times. |
| Crc32.Engine.MakeTable | src/bootloader/myboot/crc32.c:52-73 | The nested loops fill in that same table. |
| Crc32.DoCrcIsEightSteps | src/bootloader/myboot/crc32.c:162-166 | One table step is eight turns, in the little-endian branch. |
| Crc32.WordIsFourOctets | src/bootloader/myboot/crc32.c:194-201 | Folding a word in and four table steps are four octets. |
| Crc32.Engine.NoComplement | src/bootloader/myboot/crc32.c:172-211 | For every buffer, length and alignment, words loaded aligned only: the octets one by one from the low end in the little-endian branch, and from the high end in the other. |
| Crc32.Engine.Crc32 | src/bootloader/myboot/crc32.c:214-217 | The same complemented before and after, in either branch. |
| Crc32.CheckValue | src/bootloader/myboot/crc32.c:214-217 | The checksum of the nine octets 123456789 is CBF43926, from the table as written. |
| Crc32.CodedIsTopDown | src/bootloader/myboot/crc32.c:162-211 | In the big-endian branch words and alignment make no difference: it is the octets one by one, with the same table. |
| Crc32.ByteOrderDecides | src/bootloader/myboot/crc32.c:13-211 | The results are right for all registers, buffers and addresses if and only if the machine is little-endian. |
| Crc32.BigEndianFails | src/bootloader/myboot/crc32.c:13-211 | On a big-endian machine the one octet 0 comes out wrong. |
| Crc32.RunIsSerial | src/bootloader/myboot/crc32.c:52-73 | Octet by octet is bit by bit. |
| Crc32.RunIsRemainder | src/bootloader/myboot/crc32.c:28-51 | The register after a message is the remainder of message times x^32, with the first register added in front. |
| Crc32.ChecksumChains | src/bootloader/myboot/crc32.c:214-217 | crc32(crc32(c, a), b) = crc32(c, a + b). |
| Crc32.RcEngine.RcCrc32 | src/program/apue/crc32.c:30-71 | The same checksum as crc32, for every start value and buffer. |
| CrcItuT.EntryIsEightSteps | src/program/tlv/crc-itu-t.c:11-44 | Each of the 256 constants is its index turned eight times. |
| CrcItuT.ByteStepIsRun | src/program/tlv/crc-itu-t.h:21-24 | The table step feeds one octet. |
| CrcItuT.Compute | src/program/tlv/crc-itu-t.c:55-60 | The loop feeds the octets in order. |
| CrcItuT.RunIsRemainder | src/program/tlv/crc-itu-t.c:55-60 | The register is the remainder by x^16 + x^12 + x^5 + 1. |
| CrcItuT.RunInjective | src/program/tlv/crc-itu-t.c:55-60 | Different registers stay different under any message. |
| CrcItuT.OnlyItself | src/program/tlv/crc-itu-t.c:55-60 | The only two octets that bring a register to zero are its own. |
| Tlv.UshortToBytes | src/program/tlv/tlv_pack.c:38-52 | The two octets, high first; the rest of the buffer is kept. |
| Tlv.BytesToUshort | src/program/tlv/tlv_pack.c:71-88 | The big-endian number of up to two octets, zero for a longer length. |
| Tlv.UshortRoundTrip | src/program/tlv/tlv_pack.c:38-88 | The two conversions undo each other both ways. |
| Tlv.EncodeTl | src/program/tlv/tlv_pack.c:110-121 | Tag and length in the first four octets. |
| Tlv.DecodeTl | src/program/tlv/tlv_pack.c:123-134 | Tag and length from the first four octets. |
| Tlv.Pack | src/program/tlv/tlv_pack.c:136-163 | The packet and its length, or zero and an untouched buffer when there is no room; no value means length zero. |
| Tlv.PacketLayout | src/program/tlv/tlv_pack.c:136-163 | Tag and length high octet first, the value, and the checksum of all that high octet first. |
| Tlv.Unpack | src/program/tlv/tlv_pack.c:165-187 | The status, tag and length; the value copied out exactly when the checksum agrees. |
| Tlv.UnpackOfPack | src/program/tlv/tlv_pack.c:136-187 | Unpacking a packet gives tag, length and value back. |
| Tlv.AcceptedArePackets | src/program/tlv/tlv_pack.c:165-187 | tlv_unpack accepts exactly what tlv_pack writes. |
| Tlv.AcceptedIffZero | src/program/tlv/tlv_pack.c:165-187 | Accepted if and only if the checksum over the whole packet is zero. |
| Tlv.BurstRejected | src/program/tlv/tlv_pack.c:165-187 | Damage to two neighbouring octets of the tag, or of value and checksum, is rejected. |
| KList.Rotate | src/program/cp_library/cp_klist.h:68-81 | A ring can be read from any of its nodes. |
| KList.RingIs | src/program/cp_library/cp_klist.h:68-81 | A ring by its links: next and prev lead round the sequence in the two directions, and no node stands in it twice. |
| KList.SameRing | src/program/cp_library/cp_klist.h:68-81 | A node is in one ring only. |
| KList.ListEmpty | src/program/cp_library/cp_klist.h:222-225 | True if and only if the ring is the head alone. |
| KList.ListIsSingular | src/program/cp_library/cp_klist.h:250-253 | True if and only if there is exactly one entry. |
| KList.ListIsLast | src/program/cp_library/cp_klist.h:212-216 | True if and only if the entry is the last. |
| KList.Insert | src/program/cp_library/cp_klist.h:89-97 | The new node stands between the two neighbours, all else as before. |
| KList.ListAdd | src/program/cp_library/cp_klist.h:107-110 | The new node comes first. |
| KList.ListAddTail | src/program/cp_library/cp_klist.h:120-123 | The new node comes last. |
| KList.ListDel | src/program/cp_library/cp_klist.h:144-149 | The entry is gone, its links are poisoned, the others keep their order. |
| KList.ListDelInit | src/program/cp_library/cp_klist.h:178-182 | The entry is gone and alone in a ring of its own. |
| KList.ListReplace | src/program/cp_library/cp_klist.h:158-165 | The new node has exactly the place of the old one. |
| KList.ListMove | src/program/cp_library/cp_klist.h:189-193 | Within a ring: the entry comes first, the others keep their order. |
| KList.ListMoveAcross | src/program/cp_library/cp_klist.h:189-193 | Between rings: one loses the entry, the other has it first. |
| KList.ListMoveTail | src/program/cp_library/cp_klist.h:200-205 | Within a ring: the entry comes last. |
| KList.ListMoveTailAcross | src/program/cp_library/cp_klist.h:200-205 | Between rings: the other has it last. |
| KList.ListSplice | src/program/cp_library/cp_klist.h:314-319 | The entries of one ring stand in front of those of the other, none lost or shared. |
| KList.ListSpliceTail | src/program/cp_library/cp_klist.h:326-331 | The entries of one ring stand behind those of the other. |
| KList.ListSpliceInit | src/program/cp_library/cp_klist.h:340-347 | The same, and the emptied list is a ring again. |
| KList.ListSpliceTailInit | src/program/cp_library/cp_klist.h:357-364 | The same at the tail. |
| KList.ListCutPosition | src/program/cp_library/cp_klist.h:281-293 | The entries up to the given one form the new ring, the others the old; the cases in which nothing is cut. |
| KList.CutThenSplice | src/program/cp_library/cp_klist.h:255-319 | Cutting and splicing back gives the ring one had. |
| Dictionaries.ComputeHash | src/program/cp_library/cp_dictionary.c:88-104 | The loop computes a function of the key, with plain char signed or not. |
| Dictionaries.HashOfAB | src/program/cp_library/cp_dictionary.c:88-104 | The hash of the key ab is 45E61E58. |
| Dictionaries.Dictionary.constructor | src/program/cp_library/cp_dictionary.c:117-132 | An empty map with at least the minimum of slots. |
| Dictionaries.Dictionary.Find | src/program/cp_library/cp_dictionary.c:182-191 | A key is found if and only if it is in the map: the hash filter hides none. |
| Dictionaries.Dictionary.Get | src/program/cp_library/cp_dictionary.c:175-193 | The value of the key, which may be none, or the default. |
| Dictionaries.Dictionary.Grow | src/program/cp_library/cp_dictionary.c:38-49 | Doubling keeps the map. |
| Dictionaries.Dictionary.EmptySlot | src/program/cp_library/cp_dictionary.c:262-267 | The wrap-around search ends at an empty slot because n < size. |
| Dictionaries.Dictionary.Set | src/program/cp_library/cp_dictionary.c:221-275 | The map with the key bound to the value; -1 and nothing without a key. |
| Dictionaries.Dictionary.Unset | src/program/cp_library/cp_dictionary.c:288-323 | The map without the key. |
| Dictionaries.OccupiedIsSize | src/program/cp_library/cp_dictionary.c:41-47 | Occupied slots are as many as the entries of the map. |
| Dictionaries.Dictionary.CountsEntries | src/program/cp_library/cp_dictionary.c:41-47 | The field n is the number of entries of the map. |
| Dictionaries.Dictionary.Run | src/program/cp_library/cp_dictionary.c:221-323 | Every run of set and unset leaves what it leaves in a finite map. |
| RingBuffers.MaskIsMod | src/program/cp_library/cp_ringbuf.c:89-91 | Masking with 2^k - 1 is the remainder by 2^k, also below zero. |
| RingBuffers.MaskNeedsPowerOfTwo | src/program/cp_library/cp_ringbuf.c:89-91 | The mask gives the remainder for all differences if and only if the size is a power of two. |
| RingBuffers.ViewAppend | src/program/cp_library/cp_ringbuf.c:35-58 | Storing behind the contents appends to them. |
| RingBuffers.ViewDrop | src/program/cp_library/cp_ringbuf.c:64-87 | Moving the read pointer drops from the front. |
| RingBuffers.RingBuffer.Write | src/program/cp_library/cp_ringbuf.c:35-58 | Appends the longest prefix that fits size - 1 bytes in all. |
| RingBuffers.RingBuffer.Read | src/program/cp_library/cp_ringbuf.c:64-87 | Takes the wanted bytes, or all there are, from the front. |
| RingBuffers.RingBuffer.Peek | src/program/cp_library/cp_ringbuf.c:99-103 | The byte at the index of the contents. |
| RingBuffers.RingBuffer.DataSize | src/program/cp_library/cp_ringbuf.c:89-91 | The number of bytes held, though both pointers may rest at size. |
| RingBuffers.RingBuffer.FreeSize | src/program/cp_library/cp_ringbuf.c:60-62 | What is left of size - 1. |
| RingBuffers.RingBuffer.Clear | src/program/cp_library/cp_ringbuf.c:93-97 | Nothing is held. |
| Queues.Queue.Enqueue | src/program/cp_library/cp_queue.c:32-63 | Appends, or refuses exactly when full. |
| Queues.Queue.Dequeue | src/program/cp_library/cp_queue.c:117-139 | Takes from the front. |
| Queues.Queue.Remove | src/program/cp_library/cp_queue.c:75-115 | Takes out the first occurrence, wherever it is. |
| SlotArrays.SlotArray.Add | src/program/cp_library/cp_array.c:73-104 | Puts the value into the first empty slot and returns its index; the errors. |
| SlotArrays.SlotArray.RemoveByIndex | src/program/cp_library/cp_array.c:106-120 | Empties the slot. |
| SlotArrays.SlotArray.RemoveByData | src/program/cp_library/cp_array.c:122-152 | Empties the first slot with the value; the three errors. |
| Fds.Context.AddEpoll | src/program/cp_library/cp_fds.c:148-198 | Flag, counter and watched set change together; the return values. |
| Fds.Context.DelEpoll | src/program/cp_library/cp_fds.c:230-249 | The same going out. |
| Fds.Context.AddRegistry | src/program/cp_library/cp_fds.c:252-289 | The socket is appended to the one list its mode gives it, once; -2 for an accepted socket without a server. |
| Fds.Context.DelRegistry | src/program/cp_library/cp_fds.c:292-305 | The socket is in no list, accept_cnt is right. |
| Fds.Context.AddTask | src/program/cp_library/cp_fds.c:309-332 | The socket has the first empty slot, and its index names it; -2 and nothing when full. |
| Fds.Context.DelTask | src/program/cp_library/cp_fds.c:334-351 | Its slot is empty. |
| Fds.Context.Enqueue | src/program/cp_library/cp_fds.c:353-360 | Appends a socket that is in neither container; the invariant survives if and only if it was skipped or the queue had room. |
| Fds.Context.Dequeue | src/program/cp_library/cp_fds.c:362-373 | Takes the oldest socket and clears its flag. |
| Fds.Context.RmQueue | src/program/cp_library/cp_fds.c:375-382 | Takes the socket out of the queue. |
| Fds.Context.Destroy | src/program/cp_library/cp_fds.c:405-414 | The socket leaves every container and the context; all others stay as they are. |
| Fds.Context.TermServer | src/program/cp_library/cp_fds.c:507-524 | The server and exactly its accepted clients are gone from every container; all other sockets keep their flags, slots, places in the queue and in the lists. |
| Fds.Context.TermAllTask | src/program/cp_library/cp_fds.c:607-630 | Slots and queue are empty and no socket is tasked; the invariant survives if and only if the queue was empty before. |
| Fds.Context.Init | src/program/cp_library/cp_sock.c:19-70 | A socket of any content comes in with every field reset, and the invariant holds. |
| Fds.Context.Run | src/program/cp_library/cp_fds.c:148-630 | After any sequence of steps the invariant holds, whatever sockets come and go, when at most max_event are in epoll at a time, only those are enqueued, and none leaves epoll while queued; and the containers hold what the same steps leave in sequences, sets and maps. |
| Fds.Context.Perform | src/program/cp_library/cp_fds.c:148-630 | One step of any kind: what it leaves in queue, slots, epoll and lists; the invariant survives if and only if it is not an enqueue, round of events or clearing of all tasks that loses a socket; never with the discipline. |
| Fds.Context.DisciplineSuffices | src/program/cp_library/cp_fds.c:148-630 | A step that keeps to the discipline loses nothing. |
| Fds.Context.DetectEvent | src/program/cp_library/cp_fds.c:417-450 | A round of events leaves the queue as it was, followed by the reported sockets that are neither tasked nor queued, each once, in the order of their first report, as far as there is room; all of those have the flag, and the invariant survives if and only if there was room for all. |
| Fds.LinedUp | src/program/cp_library/cp_fds.c:417-450 | That line: the sockets queued in front, none twice, exactly the reported ones that are not tasked behind, each reported before those behind it. |
| Fds.OneTooMany | src/program/cp_library/cp_fds.c:162-195 | For every max_event the counter lets max_event + 1 sockets in, and a round of events for all of them loses the invariant. |
| Fds.Context.FlagsTellAll | src/program/cp_library/cp_fds.c:148-382 | Each flag is set if and only if the socket is in that container once; the counters are the true sizes. |
| Fds.Context.OutsideNowhere | src/program/cp_library/cp_fds.c:405-414 | A socket outside the context, such as a destroyed one, is in no container. |
| Fds.Context.QueueHasRoom | src/program/cp_library/cp_fds.c:353-360 | With no more than max_event sockets that can be queued there is room for each of them. |

## Left out

- GcdInv.InvModStepped: is the function as meant, with the limb pointer of the carry loop advanced; the written one is `Inverse.InvMod`.
- GcdInv.HalveCoefficients: the same.
- GcdInv.InvLoop: the same.
- Inverse.InvMod: excludes N = 1, for which the C loop does not end. For an N that is not small against W * W, and neither number a power of two, the condition given is on the additions of the exact run; none that is read off A and N at a glance is known.
- GcdInv.GcdMpi: excludes B = 0 with A not 0, for which the C loop does not end.
- Division.ModMpi: covers B >= 0 and R other than B; the two correcting loops do not end otherwise.
- AddSub.AddAbsStepped: excludes the call with one object for all three arguments, which advancing the pointer does not help.
- Exponentiation.ExpMod: reads |E|, and excludes A < 0 with a magnitude of more limbs than N has, of which the C function takes the lowest.
- Texts.Read: in the radices other than 16 the result depends on the limbs X had before; the condition says how.
- ModInts.RemainderExactly: covers divisors below W; a divisor wider than a limb is not modelled.
- Nand.Flash.Erase: excludes worn blocks when `skip_bad` is zero, for which the C loop does not end, and chips without enough good blocks.
- Queues.Queue.Remove: asks that the element is there; the C walk runs off the end otherwise.
- Fds.Context.Dequeue: asks for a queue that is not empty; the C function writes through the null pointer otherwise.
- Nand.Flash.WritePage: a page program that reports a failure is not modelled, nor are the status register and the address cycles.
- Tlv.Unpack: asks that the octets the length field speaks of are there; the C function compares the message length with the minimum only and reads on.
- Fds.Context.Run: passes over steps that break the discipline, and those that callers must not take: an entry of a socket that is there, any other step on one that is not, taking from an empty queue, registering with a server that is not there, destroying a server that has clients.
- Fds.Context.DetectEvent: is given the connected sockets `epoll_wait` reports; the time stamps are not modelled.
- Fds.Context.Destroy: is for sockets no accepted client is registered with; a server goes through `TermServer` first.
- Fds.Context.AddEpoll: `epoll_ctl` is a parameter that answers as the kernel's set of watched sockets allows; `cp_mod_epoll_event`, event dispatch and timeouts are not modelled.
- Dictionaries.Dictionary.Grow: the int size does not overflow.
- RingBuffers.RingBuffer.Write: lengths below zero and buffers that alias the ring's own are excluded.
- `mpi_is_prime`, `mpi_gen_prime`, `rsa_gen_key`: randomised; a key is any set of numbers with the relations key generation establishes (`NumberTheory.KeyNumbers`).
- The half-limb quotient estimate of `mpi_div_mpi` and the assembler of the multiply-add macros.
- `mpi_free`, wiping, the subtraction `mpi_montmul` makes only to take equal time, and all allocation failures.
- `uint_to_bytes`, `bytes_to_uint`: the 16-bit loops again on four bytes.
- `list_replace_init`, the hash lists of `cp_klist.h`, `nand_scrub`, the spare-area calls, `dictionary_dump`, `dictionary_del`: easy beside what is there.
- iniparser, xmodem, drivers, sockets, loggers, serial and modem code: input and output around libraries that are not part of this model.
- NULL arguments of the `mpi_`, `list_`, `rb_` and `cp_` functions other than those the members show.
