# Cryptomute in Dafny

Cryptomute is a format-preserving encryption engine. It turns a number from a
configured range `[minValue, maxValue]` into another number of the same
range. The number is written in base 2, 10 or 16, and the result keeps
that base and (optionally) its zero padding. Encryption goes through a
balanced Feistel network over `binSize` bits. The round function
encrypts one half together with a round key using a block cipher, and the
combining step is an exclusive or. When the network's output lies
outside the range, the whole operation is run again on that output
("cycle walking").

This project models `lib/Cryptomute/Cryptomute.php`:

- the constructor's checks and their order;
- `setValueRange`, with its patterns, gmp's comparison, the do-while width
  loop and the side-size check raised after the fields are written;
- input and IV validation;
- the round-key schedule and the round function;
- `_binaryXor`;
- the conversions to and from `binSize`-bit strings;
- `encrypt`, `_encryptInternal` and `decrypt`, with their cycle walking.

Exceptions are `Failure` values of `Engine.Error`. The block cipher
(`openssl_encrypt`), the password hash (`hash('sha3-512', …)`) and the
cipher's IV length (`openssl_cipher_iv_length`) are function-valued fields
of `Engine.Primitives`. Nothing is assumed about them, except where a lemma
says so.

Layout:

- `wrappers.dfy`: `Option` and `Result`.
- `bits.dfy` (`Bits`): binary strings as `seq<bool>`, their values, gmp's
  exclusive or and `_binaryXor`.
- `codec.dfy` (`Codec`): the base patterns, and reading and writing numerals
  in bases 2, 10 and 16.
- `feistel.dfy` (`Feistel`): the two round loops, for any round function
  and any self-inverse combining step.
- `walk.dfy` (`CycleWalk`): cycle walking over a permutation of the numbers
  below `2^binSize`.
- `engine.dfy` (`Engine`): the object's state as a `Config` value, and every
  operation as a function of it.
- `properties.dfy` (`Properties`): what `encrypt` and `decrypt` promise
  together: domain containment, round trip, injectivity, coverage of the
  range and termination.
- `cryptomute.dfy` (`Cryptomute`): the `Cryptomute` class. Its fields are
  updated in place, and its methods contain the source's loops
  (`setValueRange`'s do-while, `_roundKeys`, the two Feistel loops) and
  its recursion. Each method is proved equal to the `Engine` function on
  the object's fields.

The documented contract of `setValueRange` says the minimum is "0" or a
decimal numeral without leading zeros. The code's pattern
`^([1-9][0-9]*)|([0]{1})$` groups the alternation so that the anchors
split. A minimum passes when it starts with a nonzero digit or ends with a
`0`, and gmp then reads it with base prefixes and a sign. The model
follows the code: `Engine.MinPatternAsWritten`, and
`Engine.NegativeMinimumAccepted` for a negative minimum that gets through.

The source recurses without bound while cycle walking. The model gives
each walk `2^binSize` retries (`Engine.WalkFuel`) and proves two things:
encrypt never runs out of retries, and decrypt runs out only where the
source's recursion would never return.

## Model

| member | source | states |
|---|---|---|
| Engine.ConstructSpec | lib/Cryptomute/Cryptomute.php:110-140 | the constructor succeeds exactly for a known cipher, an odd round count of at least 3 and a key of at least 16 bytes; otherwise it raises the first failing check's error (cipher, then rounds, then key); a new object holds the default range's widths and is well-formed |
| Cryptomute.Cryptomute.New | lib/Cryptomute/Cryptomute.php:110-140 | the constructor as statements on a fresh object: it fails exactly when `Engine.Construct` fails, with the same error, and otherwise the object's fields are `Engine.Construct`'s configuration, which is well-formed |
| Cryptomute.Cryptomute.Allocate | lib/Cryptomute/Cryptomute.php:119-120 | a new object stores the cipher and its length, every other field unset |
| Engine.DefaultRange | lib/Cryptomute/Cryptomute.php:20-23 | the default range "0".."99999999999999999999" is accepted and gives 68 bits, 34-bit halves, 20 decimal and 17 hex digits |
| Engine.RangeCheck | lib/Cryptomute/Cryptomute.php:153-167 | the bounds are accepted exactly when the minimum passes its pattern as written, the maximum passes its own, gmp reads the minimum and max > min; each error belongs to the first check that fails |
| Engine.MinPatternWider | lib/Cryptomute/Cryptomute.php:153 | every minimum the documented pattern allows passes the pattern as written |
| Engine.NegativeMinimumAccepted | lib/Cryptomute/Cryptomute.php:153-167 | the pattern as written accepts "-10", which the documented pattern refuses, and the range "-10".."99" is accepted with minimum -10 |
| Engine.MaxPatternDecimal | lib/Cryptomute/Cryptomute.php:159 | a maximum that passes its pattern is a decimal numeral without leading zeros, and gmp reads it as its decimal value |
| Engine.BinSize | lib/Cryptomute/Cryptomute.php:172-179 | the derived width is even, at least 4, spans the maximum (2^b > max), and the width two bits narrower does not |
| Engine.BinSizeLeast | lib/Cryptomute/Cryptomute.php:172-179 | no even width of at least 4 that spans the maximum is narrower than the derived one |
| Engine.BinSizeUnique | lib/Cryptomute/Cryptomute.php:172-179 | the least spanning even width is unique: any width with that property is the derived one |
| Engine.SetValueRangeSpec | lib/Cryptomute/Cryptomute.php:151-195 | a rejected bound changes nothing; accepted bounds are stored with binSize, decSize, hexSize and sideSize derived from them, no other field changes, and the side-size error is raised exactly when the half is wider than the cipher, after the fields are overwritten |
| Engine.SetValueRangeKeepsWellFormed | lib/Cryptomute/Cryptomute.php:181-192 | a setValueRange that raises nothing keeps a well-formed object well-formed |
| Cryptomute.Cryptomute.SetValueRange | lib/Cryptomute/Cryptomute.php:151-195 | the method's new fields and error are `Engine.SetValueRange` of the old fields, including the overwritten fields when the side-size check fails; when nothing is raised the widths are derived from the new bounds, and a well-formed object stays well-formed; an object whose widths were derived from its bounds keeps that property even when the call raises |
| Cryptomute.Cryptomute.StoreRange | lib/Cryptomute/Cryptomute.php:169-184 | the writes and the do-while loop leave the fields equal to `Engine.WithRange`, that is, with binSize the least spanning width |
| Engine.ValidateInput | lib/Cryptomute/Cryptomute.php:397-426 | the input passes exactly when the base is known, the input matches the base's pattern and, only when the domain is checked, its value is in the range; each error belongs to its check |
| Engine.ValidateIv | lib/Cryptomute/Cryptomute.php:433-448 | the IV passes exactly when the cipher takes no IV or the IV has the cipher's IV length; the only error is the IV-length error |
| Engine.Checks | lib/Cryptomute/Cryptomute.php:227-228 | the checks pass exactly when the input check and then the IV check pass |
| Engine.RoundKeysIndexed | lib/Cryptomute/Cryptomute.php:470-480 | there are `rounds` round keys, and key i is the last sideSize bits of the base key encrypted i + 1 times; the message is not among the arguments, so the keys do not depend on it |
| Engine.RoundKeyWidth | lib/Cryptomute/Cryptomute.php:476 | with a block-padding cipher, every round key of a well-formed object is exactly sideSize bits |
| Cryptomute.Cryptomute.RoundKeys | lib/Cryptomute/Cryptomute.php:470-480 | the loop returns exactly `Engine.RoundKeys`, the same keys for encrypt and decrypt |
| Engine.Round | lib/Cryptomute/Cryptomute.php:320-325 | the round function's output is at most sideSize bits |
| Bits.BinaryXorSpec | lib/Cryptomute/Cryptomute.php:335-345 | for a sideSize-bit half and a round output no wider, the result is sideSize bits holding the exclusive or of the two values |
| Bits.BinaryXorInvolution | lib/Cryptomute/Cryptomute.php:335-345 | xoring the same round output in twice gives back the half |
| Bits.XorNatInvolution | lib/Cryptomute/Cryptomute.php:337-340 | gmp's exclusive or with the same operand twice gives back the first operand |
| Bits.XorNatBound | lib/Cryptomute/Cryptomute.php:337-340 | the exclusive or of two w-bit values is a w-bit value |
| Bits.NaturalBitsSpec | lib/Cryptomute/Cryptomute.php:342 | gmp_strval in base 2 reads back as the value and has no leading zero |
| Bits.PadBitsSpec | lib/Cryptomute/Cryptomute.php:344 | left padding with zeros widens to the width and keeps the value |
| Bits.FirstBits | lib/Cryptomute/Cryptomute.php:235 | the left half has sideSize characters, or all of a shorter state |
| Bits.LastBits | lib/Cryptomute/Cryptomute.php:236 | the right half has sideSize characters, or all of a shorter state, and never more than the state |
| Feistel.BinaryXorSelfInverse | lib/Cryptomute/Cryptomute.php:335-345 | `_binaryXor` is a combining step that keeps a half sideSize bits wide and undoes itself |
| Feistel.RoundsKeepWidth | lib/Cryptomute/Cryptomute.php:234-245 | one round in either direction keeps the state 2 * sideSize bits wide |
| Feistel.EncryptRoundsWidth | lib/Cryptomute/Cryptomute.php:234-245 | the encryption loop keeps the state 2 * sideSize bits wide |
| Feistel.DecryptRoundsWidth | lib/Cryptomute/Cryptomute.php:275-286 | the decryption loop keeps the state 2 * sideSize bits wide |
| Feistel.DecryptUndoesEncryptRound | lib/Cryptomute/Cryptomute.php:280-285 | a decryption round with key k undoes the encryption round with key k |
| Feistel.EncryptUndoesDecryptRound | lib/Cryptomute/Cryptomute.php:239-244 | an encryption round with key k undoes the decryption round with key k |
| Feistel.DecryptUndoesEncrypt | lib/Cryptomute/Cryptomute.php:275-286 | the decryption loop (last key first) inverts the encryption loop under the same keys, whatever the round function |
| Feistel.EncryptUndoesDecrypt | lib/Cryptomute/Cryptomute.php:234-245 | the encryption loop inverts the decryption loop under the same keys |
| Cryptomute.Cryptomute.EncryptPass | lib/Cryptomute/Cryptomute.php:234-245 | the loop over rounds 1..rounds computes `Engine.EncryptPass` |
| Cryptomute.Cryptomute.DecryptPass | lib/Cryptomute/Cryptomute.php:275-286 | the loop over rounds rounds..1 computes `Engine.DecryptPass` |
| Codec.FormatSpec | lib/Cryptomute/Cryptomute.php:376-386 | the natural spelling of a value has no leading zeros and reads back as the value |
| Codec.FormatParse | lib/Cryptomute/Cryptomute.php:376-386 | a numeral without leading zeros is exactly the spelling of its value |
| Codec.PadLeftKeepsValue | lib/Cryptomute/Cryptomute.php:380-384 | zero padding keeps a numeral's value and its base's pattern |
| Bits.FromToBits | lib/Cryptomute/Cryptomute.php:355-365 | the binSize-bit form of a value reads back as the value modulo 2^binSize |
| Bits.ToFromBits | lib/Cryptomute/Cryptomute.php:376-386 | writing a binary string's value at its own width gives the string back |
| Engine.ConvertToBin | lib/Cryptomute/Cryptomute.php:355-365 | the input becomes exactly binSize bits |
| Engine.ConvertFromBin | lib/Cryptomute/Cryptomute.php:376-386 | the output matches the base's pattern and reads back as the binary string's value; without padding it has no leading zeros; with padding it has at least binSize, decSize or hexSize digits (by base), and leading zeros only up to that width |
| Engine.ConvertRoundTrip | lib/Cryptomute/Cryptomute.php:355-386 | converting binSize bits out to a base and back in gives the same bits |
| Properties.RangeFacts | lib/Cryptomute/Cryptomute.php:172-184 | a configured range lies below 2^binSize, and the halves are at least 2 bits and split the state evenly |
| Properties.PassWidth | lib/Cryptomute/Cryptomute.php:234-286 | both passes keep a binSize-bit state binSize bits wide |
| Properties.PassesInverse | lib/Cryptomute/Cryptomute.php:234-286 | the encryption and decryption passes are mutually inverse permutations of the numbers below 2^binSize |
| Properties.EncryptOnceValue | lib/Cryptomute/Cryptomute.php:227-245 | one encryption pass is the encryption permutation applied to the input's value modulo 2^binSize |
| Properties.DecryptOnceValue | lib/Cryptomute/Cryptomute.php:268-286 | one decryption pass is the decryption permutation applied to the input's value modulo 2^binSize |
| Properties.EncryptHit | lib/Cryptomute/Cryptomute.php:247-252 | a first pass that lands in the range returns its output, as the walk does |
| Properties.EncryptMiss | lib/Cryptomute/Cryptomute.php:247-252 | a first pass outside the range with no retries left gives up, as the walk does |
| Properties.EncryptStop | lib/Cryptomute/Cryptomute.php:247-252 | _encryptInternal and the walk agree when the first pass lands in the range or no retries are left |
| Properties.EncryptRetry | lib/Cryptomute/Cryptomute.php:250-251 | an out-of-range pass recurses on a numeral that passes the pattern check and whose value is the pass's result, without the domain check |
| Properties.EncryptClose | lib/Cryptomute/Cryptomute.php:250-251 | the retry step followed by the walk from the retried numeral is the walk from the input |
| Properties.EncryptWalks | lib/Cryptomute/Cryptomute.php:225-253 | after its checks, _encryptInternal is the cycle walk of the encryption permutation from the input's value |
| Properties.DecryptHit | lib/Cryptomute/Cryptomute.php:288-293 | a first pass that lands in the range returns its output, as the walk does |
| Properties.DecryptMiss | lib/Cryptomute/Cryptomute.php:288-293 | a first pass outside the range with no retries left gives up, as the walk does |
| Properties.DecryptStop | lib/Cryptomute/Cryptomute.php:288-293 | decrypt and the walk agree when the first pass lands in the range or no retries are left |
| Properties.DecryptRetry | lib/Cryptomute/Cryptomute.php:291-292 | an out-of-range pass recurses on a numeral that passes the pattern check and whose value is the pass's result |
| Properties.DecryptClose | lib/Cryptomute/Cryptomute.php:291-292 | the retry step followed by the walk from the retried numeral is the walk from the input |
| Properties.DecryptWalks | lib/Cryptomute/Cryptomute.php:266-294 | after its checks, decrypt is the cycle walk of the decryption permutation from the input's value |
| Properties.RenderedValue | lib/Cryptomute/Cryptomute.php:376-386 | a value of the range written out from binSize bits matches the base's pattern and reads back as itself |
| Properties.EncryptOutcome | lib/Cryptomute/Cryptomute.php:208-211 | encrypt fails exactly when the input (pattern or range) or the IV is rejected, with the first check's error; otherwise the walk always finds a value in the range |
| Properties.EncryptInDomain | lib/Cryptomute/Cryptomute.php:208-211 | encrypt's output is a numeral of the input's base whose value lies in the range, without leading zeros when not padded and at least the padding width long when padded |
| Properties.DecryptEncrypt | lib/Cryptomute/Cryptomute.php:266-294 | decrypting an encryption gives back the input's value, written as the conversion writes it |
| Properties.DecryptEncryptIdentity | lib/Cryptomute/Cryptomute.php:266-294 | for an unpadded numeral without leading zeros, decrypt returns the very string that was encrypted |
| Properties.EncryptInjective | lib/Cryptomute/Cryptomute.php:208-253 | two inputs with the same encryption have the same value |
| Properties.EncryptDecrypt | lib/Cryptomute/Cryptomute.php:266-294 | every value of the range is an encryption: decrypt of an in-range numeral succeeds, and encrypting the result gives the value back |
| Properties.DecryptInDomain | lib/Cryptomute/Cryptomute.php:288-293 | decrypt's output is a numeral of the input's base whose value lies in the range, without leading zeros when not padded and at least the padding width long when padded |
| Properties.DecryptOutcome | lib/Cryptomute/Cryptomute.php:266-294 | decrypt fails on a rejected input or IV with that check's error and never with the range error; once both checks pass it succeeds or runs out of retries |
| Properties.DecryptExhaustedForever | lib/Cryptomute/Cryptomute.php:288-293 | a decrypt that runs out of retries is one where no number of further passes reaches the range, so the source's recursion would not return |
| CycleWalk.Walk | lib/Cryptomute/Cryptomute.php:247-252 | a walk that stops returns a value in the range |
| CycleWalk.WalkRetry | lib/Cryptomute/Cryptomute.php:250-251 | a walk that misses on its first step is the walk from the image with one retry fewer |
| CycleWalk.WalkFirstHit | lib/Cryptomute/Cryptomute.php:247-252 | with enough retries the walk returns the first image in the range |
| CycleWalk.WalkNone | lib/Cryptomute/Cryptomute.php:247-252 | an exhausted walk saw no value in the range |
| CycleWalk.Orbit | lib/Cryptomute/Cryptomute.php:247-252 | every value below 2^binSize returns to itself within 2^binSize steps of the permutation |
| CycleWalk.WalkReturns | lib/Cryptomute/Cryptomute.php:247-252 | a walk started inside the range comes back into it within 2^binSize steps |
| CycleWalk.WalkRoundTrip | lib/Cryptomute/Cryptomute.php:288-293 | walking back with the inverse permutation from where a walk stopped returns to its start |
| CycleWalk.WalkExhaustedForever | lib/Cryptomute/Cryptomute.php:288-293 | a walk that exhausts 2^binSize retries would never reach the range |
| Cryptomute.Cryptomute.EncryptOnce | lib/Cryptomute/Cryptomute.php:229-245 | hash, round keys, conversion and loop compute `Engine.EncryptOnce` |
| Cryptomute.Cryptomute.DecryptOnce | lib/Cryptomute/Cryptomute.php:270-286 | hash, round keys, conversion and loop compute `Engine.DecryptOnce` |
| Cryptomute.Cryptomute.EncryptInternal | lib/Cryptomute/Cryptomute.php:225-253 | the recursive method returns `Engine.EncryptInternal` on the object's fields |
| Cryptomute.Cryptomute.EncryptChecked | lib/Cryptomute/Cryptomute.php:247-252 | the range test and recursion return `Engine.EncryptChecked` |
| Cryptomute.Cryptomute.Encrypt | lib/Cryptomute/Cryptomute.php:208-211 | encrypt returns `Engine.Encrypt`; on a configured range it succeeds exactly when the input and the IV pass, and its output is a numeral of the base inside the range, at least the padding width long when padded |
| Cryptomute.Cryptomute.DecryptInternal | lib/Cryptomute/Cryptomute.php:266-287 | the checks and the pass return `Engine.DecryptInternal` on the object's fields |
| Cryptomute.Cryptomute.DecryptChecked | lib/Cryptomute/Cryptomute.php:288-293 | the range test and recursion return `Engine.DecryptChecked` |
| Cryptomute.Cryptomute.Decrypt | lib/Cryptomute/Cryptomute.php:266-294 | decrypt returns `Engine.Decrypt`; on a configured range it never raises the range error, and a successful result is a numeral of the input's base inside the range, at least the padding width long when padded |

## Left out

- `DataConverter` is not part of this model. `Bits` and `Codec` define the conversions it performs (binary, decimal and hexadecimal numerals, padding, raw bytes to bits). A number wider than `binSize` bits keeps its low-order bits. A base-2 input is read by its value, as every base is. The source's base-2 path pads the string instead, so a binary input longer than `binSize` characters because of leading zeros loses those zeros in the model, where the source would split the longer string into other Feistel halves.
- The block cipher, the password hash and the IV length are uninterpreted functions. An `openssl_encrypt` failure (a `false` result) is not modelled.
- Engine.RoundKeyWidth: assumes a cipher that pads to whole 16-byte blocks (`Engine.PadsToBlocks`), because nothing else fixes the cipher's output length.
- Engine.Encrypt: carries a cap of `2^binSize` retries where the source recurses without bound. `Properties.EncryptOutcome` shows the cap is never reached.
- Engine.Decrypt: carries the same cap. Running out gives `WalkExhausted`, which stands for recursion that never returns (`Properties.DecryptExhaustedForever`).
- Engine.WithRange: `hexSize` is `binSize / 4` rounded down. In PHP it is a float when `binSize` is not a multiple of 4. That only matters for padding hexadecimal output.
- The patterns ignore PCRE's `$` matching before a final newline. A trailing newline is refused.
- gmp's reading of the minimum covers the sign and the `0x`, `0b` and leading-`0` prefixes. Whitespace and other gmp syntax are left out.
- `minValue` and `maxValue` are stored as the numbers gmp reads from the strings, not as the strings.
- A null password or IV is not modelled; both are byte strings.
- That a different password gives different output is not modelled, since the hash and the cipher are uninterpreted.
- Concurrency and the cost of recomputing round keys on each retry are not modelled.
- The default arguments (`rounds = 3` in the constructor, `base = 10` and `pad = false` in `encrypt` and `decrypt`) are not modelled. Every caller passes all of them.
- PHP's call stack is not modelled. Each cycle-walking retry is one more nested call in the source. A deep enough walk can exhaust PHP's memory long before the `2^binSize` retries that `Properties.EncryptOutcome` counts on.
