/**
 * What `encrypt` and `decrypt` promise together: on a configured range,
 * encrypt fails only on invalid input or IV, its output is a valid numeral
 * inside the range, decrypt undoes it, every value of the range is the
 * encryption of some value of the range, and a decrypt that runs out of
 * retries is one whose recursion in the original would never end.
 *
 * The proofs view one Feistel pass as a permutation of the numbers below
 * 2^binSize and each cycle walk as `CycleWalk.Walk` over that permutation.
 */
module Properties {

  import opened Wrappers
  import opened Bits
  import Codec
  import Feistel
  import CycleWalk
  import opened Engine

  /** One encryption pass as a map on the numbers below 2^binSize. */
  function EncPerm(p: Primitives, c: Config, hashPassword: Bytes, iv: Bytes): nat -> nat
  {
    (v: nat) => FromBits(EncryptPass(p, c, hashPassword, iv, RoundKeys(p, c, hashPassword, iv), ToBits(v, c.binSize)))
  }

  /** One decryption pass as a map on the numbers below 2^binSize. */
  function DecPerm(p: Primitives, c: Config, hashPassword: Bytes, iv: Bytes): nat -> nat
  {
    (v: nat) => FromBits(DecryptPass(p, c, hashPassword, iv, RoundKeys(p, c, hashPassword, iv), ToBits(v, c.binSize)))
  }

  /** The result of a cycle walk, written out in `base`. */
  function Finish(c: Config, o: Option<nat>, base: int, pad: bool): Result<string, Error>
    requires Codec.IsAllowedBase(base)
  {
    match o
    case Some(v) => Success(ConvertFromBin(c, ToBits(v, c.binSize), base, pad))
    case None => Failure(WalkExhausted)
  }

  /** The state splits into two halves of at least 2 bits, and every value up to the maximum fits in it. */
  predicate Spans(c: Config)
  {
    c.sideSize >= 2 && c.binSize == 2 * c.sideSize && c.maxValue < WalkFuel(c)
  }

  /** A configured range sits inside the `binSize`-bit span, and the halves split the state evenly. */
  lemma RangeFacts(c: Config)
    requires RangeDerived(c)
    ensures Spans(c)
  {
  }

  lemma SmallMod(v: nat, n: nat)
    requires v < n
    ensures v % n == v
  {
    ModUnique(v, n, 0, v);
  }

  /** Both passes keep a `binSize`-bit state `binSize` bits wide. */
  lemma PassWidth(p: Primitives, c: Config, hashPassword: Bytes, iv: Bytes, binary: Bits)
    requires Spans(c) && |binary| == c.binSize
    ensures |EncryptPass(p, c, hashPassword, iv, RoundKeys(p, c, hashPassword, iv), binary)| == c.binSize
    ensures |DecryptPass(p, c, hashPassword, iv, RoundKeys(p, c, hashPassword, iv), binary)| == c.binSize
  {
    RoundFnFits(p, c, hashPassword, iv);
    Feistel.BinaryXorSelfInverse(c.sideSize);
    var F, keys := RoundFn(p, c, hashPassword, iv), RoundKeys(p, c, hashPassword, iv);
    Feistel.EncryptRoundsWidth(F, BinaryXor, c.sideSize, binary, keys);
    Feistel.DecryptRoundsWidth(F, BinaryXor, c.sideSize, binary, keys);
  }

  /** The decryption pass and the encryption pass are inverse permutations of the numbers below 2^binSize. */
  lemma PassesInverse(p: Primitives, c: Config, hashPassword: Bytes, iv: Bytes)
    requires Spans(c)
    ensures CycleWalk.Inverse(EncPerm(p, c, hashPassword, iv), DecPerm(p, c, hashPassword, iv), WalkFuel(c))
  {
    RoundFnFits(p, c, hashPassword, iv);
    Feistel.BinaryXorSelfInverse(c.sideSize);
    var f, g := EncPerm(p, c, hashPassword, iv), DecPerm(p, c, hashPassword, iv);
    var F, keys := RoundFn(p, c, hashPassword, iv), RoundKeys(p, c, hashPassword, iv);
    var n := WalkFuel(c);
    forall v: nat | v < n
      ensures f(v) < n && g(v) < n && g(f(v)) == v && f(g(v)) == v
    {
      var bits := ToBits(v, c.binSize);
      FromToBits(v, c.binSize);
      SmallMod(v, n);
      var e := EncryptPass(p, c, hashPassword, iv, keys, bits);
      var d := DecryptPass(p, c, hashPassword, iv, keys, bits);
      PassWidth(p, c, hashPassword, iv, bits);
      FromBitsBound(e);
      FromBitsBound(d);
      ToFromBits(e);
      ToFromBits(d);
      Feistel.DecryptUndoesEncrypt(F, BinaryXor, c.sideSize, bits, keys);
      Feistel.EncryptUndoesDecrypt(F, BinaryXor, c.sideSize, bits, keys);
    }
  }

  /** One encryption pass on a validated input is the encryption permutation applied to the input's value modulo 2^binSize. */
  lemma EncryptOnceValue(p: Primitives, c: Config, input: string, base: int, password: Bytes, iv: Bytes)
    requires Spans(c) && Codec.IsAllowedBase(base)
    ensures |EncryptOnce(p, c, input, base, password, iv)| == c.binSize
    ensures FromBits(EncryptOnce(p, c, input, base, password, iv)) ==
      EncPerm(p, c, p.hash(password), iv)(Codec.Parse(input, base) % WalkFuel(c))
  {
    var hashPassword := p.hash(password);
    var x := Codec.Parse(input, base) % WalkFuel(c);
    ToBitsMod(Codec.Parse(input, base), c.binSize);
    PassWidth(p, c, hashPassword, iv, ToBits(x, c.binSize));
  }

  /** One decryption pass on a validated input is the decryption permutation applied to the input's value modulo 2^binSize. */
  lemma DecryptOnceValue(p: Primitives, c: Config, input: string, base: int, password: Bytes, iv: Bytes)
    requires Spans(c) && Codec.IsAllowedBase(base)
    ensures |DecryptOnce(p, c, input, base, password, iv)| == c.binSize
    ensures FromBits(DecryptOnce(p, c, input, base, password, iv)) ==
      DecPerm(p, c, p.hash(password), iv)(Codec.Parse(input, base) % WalkFuel(c))
  {
    var hashPassword := p.hash(password);
    var x := Codec.Parse(input, base) % WalkFuel(c);
    ToBitsMod(Codec.Parse(input, base), c.binSize);
    PassWidth(p, c, hashPassword, iv, ToBits(x, c.binSize));
  }

  /** Encrypt after its checks pass, when the first pass lands in the range: the walk stops there. */
  lemma EncryptHit(p: Primitives, c: Config, input: string, base: int, pad: bool, password: Bytes, iv: Bytes,
                   checkVal: bool, fuel: nat)
    requires Spans(c)
    requires ValidateInput(c, input, base, checkVal) == None && ValidateIv(p, c, iv) == None
    requires InDomain(c, EncPerm(p, c, p.hash(password), iv)(Codec.Parse(input, base) % WalkFuel(c)))
    ensures EncryptInternal(p, c, input, base, pad, password, iv, checkVal, fuel) ==
      Finish(c, CycleWalk.Walk(EncPerm(p, c, p.hash(password), iv), c.minValue, c.maxValue,
                               Codec.Parse(input, base) % WalkFuel(c), fuel), base, pad)
  {
    EncryptOnceValue(p, c, input, base, password, iv);
    ToFromBits(EncryptOnce(p, c, input, base, password, iv));
  }

  /** Encrypt after its checks pass, when the first pass misses the range and no retries are left: both give up. */
  lemma EncryptMiss(p: Primitives, c: Config, input: string, base: int, pad: bool, password: Bytes, iv: Bytes,
                    checkVal: bool, fuel: nat)
    requires Spans(c) && fuel == 0
    requires ValidateInput(c, input, base, checkVal) == None && ValidateIv(p, c, iv) == None
    requires !InDomain(c, EncPerm(p, c, p.hash(password), iv)(Codec.Parse(input, base) % WalkFuel(c)))
    ensures EncryptInternal(p, c, input, base, pad, password, iv, checkVal, fuel) ==
      Finish(c, CycleWalk.Walk(EncPerm(p, c, p.hash(password), iv), c.minValue, c.maxValue,
                               Codec.Parse(input, base) % WalkFuel(c), fuel), base, pad)
  {
    EncryptOnceValue(p, c, input, base, password, iv);
  }

  /** Encrypt after its checks pass, when the first pass lands in the range or no retries are left. */
  lemma EncryptStop(p: Primitives, c: Config, input: string, base: int, pad: bool, password: Bytes, iv: Bytes,
                    checkVal: bool, fuel: nat)
    requires Spans(c)
    requires ValidateInput(c, input, base, checkVal) == None && ValidateIv(p, c, iv) == None
    requires fuel == 0 || InDomain(c, EncPerm(p, c, p.hash(password), iv)(Codec.Parse(input, base) % WalkFuel(c)))
    ensures EncryptInternal(p, c, input, base, pad, password, iv, checkVal, fuel) ==
      Finish(c, CycleWalk.Walk(EncPerm(p, c, p.hash(password), iv), c.minValue, c.maxValue,
                               Codec.Parse(input, base) % WalkFuel(c), fuel), base, pad)
  {
    if InDomain(c, EncPerm(p, c, p.hash(password), iv)(Codec.Parse(input, base) % WalkFuel(c))) {
      EncryptHit(p, c, input, base, pad, password, iv, checkVal, fuel);
    } else {
      EncryptMiss(p, c, input, base, pad, password, iv, checkVal, fuel);
    }
  }

  /**
   * Encrypt after its checks pass, when the first pass misses the range and
   * retries are left: it retries on `output`, a numeral that passes the checks
   * and whose value is the pass's result.
   */
  lemma EncryptRetry(p: Primitives, c: Config, input: string, base: int, pad: bool, password: Bytes, iv: Bytes,
                     checkVal: bool, fuel: nat) returns (output: string)
    requires Spans(c) && fuel > 0
    requires ValidateInput(c, input, base, checkVal) == None && ValidateIv(p, c, iv) == None
    requires !InDomain(c, EncPerm(p, c, p.hash(password), iv)(Codec.Parse(input, base) % WalkFuel(c)))
    ensures ValidateInput(c, output, base, false) == None
    ensures Codec.Parse(output, base) % WalkFuel(c) == EncPerm(p, c, p.hash(password), iv)(Codec.Parse(input, base) % WalkFuel(c))
    ensures EncryptInternal(p, c, input, base, pad, password, iv, checkVal, fuel) == EncryptInternal(p, c, output, base, pad, password, iv, false, fuel - 1)
  {
    var binary := EncryptOnce(p, c, input, base, password, iv);
    EncryptOnceValue(p, c, input, base, password, iv);
    ToFromBits(binary);
    FromBitsBound(binary);
    SmallMod(FromBits(binary), WalkFuel(c));
    output := ConvertFromBin(c, binary, base, pad);
  }

  /** The retry step and the walk from the retried numeral make up the walk from the input. */
  lemma EncryptClose(p: Primitives, c: Config, input: string, output: string, base: int, pad: bool, password: Bytes,
                     iv: Bytes, checkVal: bool, fuel: nat)
    requires Codec.IsAllowedBase(base) && fuel > 0
    requires !InDomain(c, EncPerm(p, c, p.hash(password), iv)(Codec.Parse(input, base) % WalkFuel(c)))
    requires Codec.Parse(output, base) % WalkFuel(c) == EncPerm(p, c, p.hash(password), iv)(Codec.Parse(input, base) % WalkFuel(c))
    requires EncryptInternal(p, c, input, base, pad, password, iv, checkVal, fuel) == EncryptInternal(p, c, output, base, pad, password, iv, false, fuel - 1)
    requires EncryptInternal(p, c, output, base, pad, password, iv, false, fuel - 1) ==
      Finish(c, CycleWalk.Walk(EncPerm(p, c, p.hash(password), iv), c.minValue, c.maxValue,
                               Codec.Parse(output, base) % WalkFuel(c), fuel - 1), base, pad)
    ensures EncryptInternal(p, c, input, base, pad, password, iv, checkVal, fuel) ==
      Finish(c, CycleWalk.Walk(EncPerm(p, c, p.hash(password), iv), c.minValue, c.maxValue,
                               Codec.Parse(input, base) % WalkFuel(c), fuel), base, pad)
  {
    CycleWalk.WalkRetry(EncPerm(p, c, p.hash(password), iv), c.minValue, c.maxValue, Codec.Parse(input, base) % WalkFuel(c), fuel);
  }

  /** Encrypt after its checks pass is the cycle walk of the encryption pass from the input's value. */
  lemma {:induction false} EncryptWalks(p: Primitives, c: Config, input: string, base: int, pad: bool, password: Bytes,
                                        iv: Bytes, checkVal: bool, fuel: nat)
    requires Spans(c)
    requires ValidateInput(c, input, base, checkVal) == None && ValidateIv(p, c, iv) == None
    ensures EncryptInternal(p, c, input, base, pad, password, iv, checkVal, fuel) ==
      Finish(c, CycleWalk.Walk(EncPerm(p, c, p.hash(password), iv), c.minValue, c.maxValue,
                               Codec.Parse(input, base) % WalkFuel(c), fuel), base, pad)
    decreases fuel
  {
    var f := EncPerm(p, c, p.hash(password), iv);
    var x := Codec.Parse(input, base) % WalkFuel(c);
    if InDomain(c, f(x)) || fuel == 0 {
      EncryptStop(p, c, input, base, pad, password, iv, checkVal, fuel);
    } else {
      var output := EncryptRetry(p, c, input, base, pad, password, iv, checkVal, fuel);
      EncryptWalks(p, c, output, base, pad, password, iv, false, fuel - 1);
      EncryptClose(p, c, input, output, base, pad, password, iv, checkVal, fuel);
    }
  }

  /** Decrypt after its checks pass, when the first pass lands in the range: the walk stops there. */
  lemma DecryptHit(p: Primitives, c: Config, input: string, base: int, pad: bool, password: Bytes, iv: Bytes,
                   fuel: nat)
    requires Spans(c)
    requires ValidateInput(c, input, base, false) == None && ValidateIv(p, c, iv) == None
    requires InDomain(c, DecPerm(p, c, p.hash(password), iv)(Codec.Parse(input, base) % WalkFuel(c)))
    ensures DecryptInternal(p, c, input, base, pad, password, iv, fuel) ==
      Finish(c, CycleWalk.Walk(DecPerm(p, c, p.hash(password), iv), c.minValue, c.maxValue,
                               Codec.Parse(input, base) % WalkFuel(c), fuel), base, pad)
  {
    DecryptOnceValue(p, c, input, base, password, iv);
    ToFromBits(DecryptOnce(p, c, input, base, password, iv));
  }

  /** Decrypt after its checks pass, when the first pass misses the range and no retries are left: both give up. */
  lemma DecryptMiss(p: Primitives, c: Config, input: string, base: int, pad: bool, password: Bytes, iv: Bytes,
                    fuel: nat)
    requires Spans(c) && fuel == 0
    requires ValidateInput(c, input, base, false) == None && ValidateIv(p, c, iv) == None
    requires !InDomain(c, DecPerm(p, c, p.hash(password), iv)(Codec.Parse(input, base) % WalkFuel(c)))
    ensures DecryptInternal(p, c, input, base, pad, password, iv, fuel) ==
      Finish(c, CycleWalk.Walk(DecPerm(p, c, p.hash(password), iv), c.minValue, c.maxValue,
                               Codec.Parse(input, base) % WalkFuel(c), fuel), base, pad)
  {
    DecryptOnceValue(p, c, input, base, password, iv);
  }

  /** Decrypt after its checks pass, when the first pass lands in the range or no retries are left. */
  lemma DecryptStop(p: Primitives, c: Config, input: string, base: int, pad: bool, password: Bytes, iv: Bytes,
                    fuel: nat)
    requires Spans(c)
    requires ValidateInput(c, input, base, false) == None && ValidateIv(p, c, iv) == None
    requires fuel == 0 || InDomain(c, DecPerm(p, c, p.hash(password), iv)(Codec.Parse(input, base) % WalkFuel(c)))
    ensures DecryptInternal(p, c, input, base, pad, password, iv, fuel) ==
      Finish(c, CycleWalk.Walk(DecPerm(p, c, p.hash(password), iv), c.minValue, c.maxValue,
                               Codec.Parse(input, base) % WalkFuel(c), fuel), base, pad)
  {
    if InDomain(c, DecPerm(p, c, p.hash(password), iv)(Codec.Parse(input, base) % WalkFuel(c))) {
      DecryptHit(p, c, input, base, pad, password, iv, fuel);
    } else {
      DecryptMiss(p, c, input, base, pad, password, iv, fuel);
    }
  }

  /**
   * Decrypt after its checks pass, when the first pass misses the range and
   * retries are left: it retries on `output`, a numeral that passes the checks
   * and whose value is the pass's result.
   */
  lemma DecryptRetry(p: Primitives, c: Config, input: string, base: int, pad: bool, password: Bytes, iv: Bytes,
                     fuel: nat) returns (output: string)
    requires Spans(c) && fuel > 0
    requires ValidateInput(c, input, base, false) == None && ValidateIv(p, c, iv) == None
    requires !InDomain(c, DecPerm(p, c, p.hash(password), iv)(Codec.Parse(input, base) % WalkFuel(c)))
    ensures ValidateInput(c, output, base, false) == None
    ensures Codec.Parse(output, base) % WalkFuel(c) == DecPerm(p, c, p.hash(password), iv)(Codec.Parse(input, base) % WalkFuel(c))
    ensures DecryptInternal(p, c, input, base, pad, password, iv, fuel) == DecryptInternal(p, c, output, base, pad, password, iv, fuel - 1)
  {
    var binary := DecryptOnce(p, c, input, base, password, iv);
    DecryptOnceValue(p, c, input, base, password, iv);
    ToFromBits(binary);
    FromBitsBound(binary);
    SmallMod(FromBits(binary), WalkFuel(c));
    output := ConvertFromBin(c, binary, base, pad);
  }

  /** The retry step and the walk from the retried numeral make up the walk from the input. */
  lemma DecryptClose(p: Primitives, c: Config, input: string, output: string, base: int, pad: bool, password: Bytes,
                     iv: Bytes, fuel: nat)
    requires Codec.IsAllowedBase(base) && fuel > 0
    requires !InDomain(c, DecPerm(p, c, p.hash(password), iv)(Codec.Parse(input, base) % WalkFuel(c)))
    requires Codec.Parse(output, base) % WalkFuel(c) == DecPerm(p, c, p.hash(password), iv)(Codec.Parse(input, base) % WalkFuel(c))
    requires DecryptInternal(p, c, input, base, pad, password, iv, fuel) == DecryptInternal(p, c, output, base, pad, password, iv, fuel - 1)
    requires DecryptInternal(p, c, output, base, pad, password, iv, fuel - 1) ==
      Finish(c, CycleWalk.Walk(DecPerm(p, c, p.hash(password), iv), c.minValue, c.maxValue,
                               Codec.Parse(output, base) % WalkFuel(c), fuel - 1), base, pad)
    ensures DecryptInternal(p, c, input, base, pad, password, iv, fuel) ==
      Finish(c, CycleWalk.Walk(DecPerm(p, c, p.hash(password), iv), c.minValue, c.maxValue,
                               Codec.Parse(input, base) % WalkFuel(c), fuel), base, pad)
  {
    CycleWalk.WalkRetry(DecPerm(p, c, p.hash(password), iv), c.minValue, c.maxValue, Codec.Parse(input, base) % WalkFuel(c), fuel);
  }

  /** Decrypt after its checks pass is the cycle walk of the decryption pass from the input's value. */
  lemma {:induction false} DecryptWalks(p: Primitives, c: Config, input: string, base: int, pad: bool, password: Bytes,
                                        iv: Bytes, fuel: nat)
    requires Spans(c)
    requires ValidateInput(c, input, base, false) == None && ValidateIv(p, c, iv) == None
    ensures DecryptInternal(p, c, input, base, pad, password, iv, fuel) ==
      Finish(c, CycleWalk.Walk(DecPerm(p, c, p.hash(password), iv), c.minValue, c.maxValue,
                               Codec.Parse(input, base) % WalkFuel(c), fuel), base, pad)
    decreases fuel
  {
    var f := DecPerm(p, c, p.hash(password), iv);
    var x := Codec.Parse(input, base) % WalkFuel(c);
    if InDomain(c, f(x)) || fuel == 0 {
      DecryptStop(p, c, input, base, pad, password, iv, fuel);
    } else {
      var output := DecryptRetry(p, c, input, base, pad, password, iv, fuel);
      DecryptWalks(p, c, output, base, pad, password, iv, fuel - 1);
      DecryptClose(p, c, input, output, base, pad, password, iv, fuel);
    }
  }

  /** A value written out from `binSize` bits reads back as itself. */
  lemma RenderedValue(c: Config, v: nat, base: int, pad: bool)
    requires Spans(c) && Codec.IsAllowedBase(base) && v <= c.maxValue
    ensures Codec.Parse(ConvertFromBin(c, ToBits(v, c.binSize), base, pad), base) == v
    ensures Codec.MatchesPattern(ConvertFromBin(c, ToBits(v, c.binSize), base, pad), base)
  {
    FromToBits(v, c.binSize);
    SmallMod(v, WalkFuel(c));
  }

  /**
   * encrypt fails exactly when the input or the IV is rejected, with the
   * first check's exception; otherwise the cycle walk always finds a value
   * in the range.
   */
  lemma EncryptOutcome(p: Primitives, c: Config, input: string, base: int, pad: bool, password: Bytes, iv: Bytes)
    requires RangeDerived(c)
    ensures ValidateInput(c, input, base, true).Some? ==>
      Encrypt(p, c, input, base, pad, password, iv) == Failure(ValidateInput(c, input, base, true).value)
    ensures ValidateInput(c, input, base, true).None? && ValidateIv(p, c, iv).Some? ==>
      Encrypt(p, c, input, base, pad, password, iv) == Failure(BadIvLength)
    ensures Encrypt(p, c, input, base, pad, password, iv).Success? <==>
      ValidateInput(c, input, base, true).None? && ValidateIv(p, c, iv).None?
  {
    if ValidateInput(c, input, base, true).None? && ValidateIv(p, c, iv).None? {
      var hashPassword := p.hash(password);
      var f, g := EncPerm(p, c, hashPassword, iv), DecPerm(p, c, hashPassword, iv);
      var n := WalkFuel(c);
      var x := Codec.Parse(input, base);
      SmallMod(x, n);
      PassesInverse(p, c, hashPassword, iv);
      EncryptWalks(p, c, input, base, pad, password, iv, true, n);
      var k := CycleWalk.WalkReturns(f, g, n, c.minValue, c.maxValue, x, n);
    }
  }

  /** encrypt's output is a numeral of the input's base whose value lies in the range; without padding it has no leading zeros, with padding it has at least PadWidth digits. */
  lemma EncryptInDomain(p: Primitives, c: Config, input: string, base: int, pad: bool, password: Bytes, iv: Bytes,
                        output: string)
    requires RangeDerived(c) && Encrypt(p, c, input, base, pad, password, iv) == Success(output)
    ensures Codec.IsAllowedBase(base) && Codec.MatchesPattern(output, base)
    ensures InDomain(c, Codec.Parse(output, base))
    ensures !pad ==> Codec.Canonical(output, base)
    ensures pad ==> |output| >= PadWidth(c, base)
  {
    RangeFacts(c);
    EncryptOutcome(p, c, input, base, pad, password, iv);
    EncryptWalks(p, c, input, base, pad, password, iv, true, WalkFuel(c));
    var o := CycleWalk.Walk(EncPerm(p, c, p.hash(password), iv), c.minValue, c.maxValue,
                            Codec.Parse(input, base) % WalkFuel(c), WalkFuel(c));
    RenderedValue(c, o.value, base, pad);
  }

  /** Decrypting an encryption gives back the input's value, written out as the conversion writes it. */
  lemma DecryptEncrypt(p: Primitives, c: Config, input: string, base: int, pad: bool, password: Bytes, iv: Bytes,
                       output: string)
    requires RangeDerived(c) && Encrypt(p, c, input, base, pad, password, iv) == Success(output)
    ensures Codec.IsAllowedBase(base)
    ensures Decrypt(p, c, output, base, pad, password, iv) ==
      Success(ConvertFromBin(c, ToBits(Codec.Parse(input, base), c.binSize), base, pad))
  {
    RangeFacts(c);
    EncryptOutcome(p, c, input, base, pad, password, iv);
    var hashPassword := p.hash(password);
    var f, g := EncPerm(p, c, hashPassword, iv), DecPerm(p, c, hashPassword, iv);
    var n := WalkFuel(c);
    var x := Codec.Parse(input, base);
    SmallMod(x, n);
    PassesInverse(p, c, hashPassword, iv);
    EncryptWalks(p, c, input, base, pad, password, iv, true, n);
    CycleWalk.WalkRoundTrip(f, g, n, c.minValue, c.maxValue, x, n, n);
    var y := CycleWalk.Walk(f, c.minValue, c.maxValue, x, n).value;
    RenderedValue(c, y, base, pad);
    SmallMod(y, n);
    DecryptWalks(p, c, output, base, pad, password, iv, n);
  }

  /** For a numeral without leading zeros and no padding, decrypt returns the very string that was encrypted. */
  lemma DecryptEncryptIdentity(p: Primitives, c: Config, input: string, base: int, password: Bytes, iv: Bytes,
                               output: string)
    requires RangeDerived(c) && Encrypt(p, c, input, base, false, password, iv) == Success(output)
    requires Codec.Canonical(input, base)
    ensures Decrypt(p, c, output, base, false, password, iv) == Success(input)
  {
    RangeFacts(c);
    DecryptEncrypt(p, c, input, base, false, password, iv, output);
    EncryptOutcome(p, c, input, base, false, password, iv);
    var x := Codec.Parse(input, base);
    FromToBits(x, c.binSize);
    SmallMod(x, WalkFuel(c));
    Codec.FormatParse(input, base);
  }

  /** Two inputs with the same encryption have the same value: encryption never collides. */
  lemma EncryptInjective(p: Primitives, c: Config, a: string, b: string, base: int, pad: bool, password: Bytes,
                         iv: Bytes, output: string)
    requires RangeDerived(c)
    requires Encrypt(p, c, a, base, pad, password, iv) == Success(output)
    requires Encrypt(p, c, b, base, pad, password, iv) == Success(output)
    ensures Codec.IsAllowedBase(base) && Codec.Parse(a, base) == Codec.Parse(b, base)
  {
    RangeFacts(c);
    DecryptEncrypt(p, c, a, base, pad, password, iv, output);
    DecryptEncrypt(p, c, b, base, pad, password, iv, output);
    EncryptOutcome(p, c, a, base, pad, password, iv);
    EncryptOutcome(p, c, b, base, pad, password, iv);
    RenderedValue(c, Codec.Parse(a, base), base, pad);
    RenderedValue(c, Codec.Parse(b, base), base, pad);
  }

  /**
   * Every value of the range is reached: decrypt of an in-range numeral
   * succeeds, and encrypting its result gives the numeral's value back.
   */
  lemma EncryptDecrypt(p: Primitives, c: Config, input: string, base: int, pad: bool, password: Bytes, iv: Bytes)
    requires RangeDerived(c)
    requires ValidateInput(c, input, base, true) == None && ValidateIv(p, c, iv) == None
    ensures Decrypt(p, c, input, base, pad, password, iv).Success?
    ensures Encrypt(p, c, Decrypt(p, c, input, base, pad, password, iv).value, base, pad, password, iv) ==
      Success(ConvertFromBin(c, ToBits(Codec.Parse(input, base), c.binSize), base, pad))
  {
    RangeFacts(c);
    var hashPassword := p.hash(password);
    var f, g := EncPerm(p, c, hashPassword, iv), DecPerm(p, c, hashPassword, iv);
    var n := WalkFuel(c);
    var x := Codec.Parse(input, base);
    SmallMod(x, n);
    PassesInverse(p, c, hashPassword, iv);
    CycleWalk.InverseSymmetric(f, g, n);
    DecryptWalks(p, c, input, base, pad, password, iv, n);
    CycleWalk.WalkRoundTrip(g, f, n, c.minValue, c.maxValue, x, n, n);
    var y := CycleWalk.Walk(g, c.minValue, c.maxValue, x, n).value;
    RenderedValue(c, y, base, pad);
    SmallMod(y, n);
    var output := ConvertFromBin(c, ToBits(y, c.binSize), base, pad);
    EncryptWalks(p, c, output, base, pad, password, iv, true, n);
  }

  /**
   * decrypt checks the numeral and the IV but never the range, so it never
   * raises the range error; once both checks pass it either succeeds or
   * runs out of retries.
   */
  lemma DecryptOutcome(p: Primitives, c: Config, input: string, base: int, pad: bool, password: Bytes, iv: Bytes)
    requires RangeDerived(c)
    ensures ValidateInput(c, input, base, false).Some? ==>
      Decrypt(p, c, input, base, pad, password, iv) == Failure(ValidateInput(c, input, base, false).value)
    ensures ValidateInput(c, input, base, false).None? && ValidateIv(p, c, iv).Some? ==>
      Decrypt(p, c, input, base, pad, password, iv) == Failure(BadIvLength)
    ensures ValidateInput(c, input, base, false).None? && ValidateIv(p, c, iv).None? ==>
      Decrypt(p, c, input, base, pad, password, iv).Success? ||
      Decrypt(p, c, input, base, pad, password, iv) == Failure(WalkExhausted)
    ensures Decrypt(p, c, input, base, pad, password, iv) != Failure(OutOfDomain)
  {
    RangeFacts(c);
    if ValidateInput(c, input, base, false).None? && ValidateIv(p, c, iv).None? {
      DecryptWalks(p, c, input, base, pad, password, iv, WalkFuel(c));
    }
  }

  /** decrypt's output is a numeral of the input's base whose value lies in the range; without padding it has no leading zeros, with padding it has at least PadWidth digits. */
  lemma DecryptInDomain(p: Primitives, c: Config, input: string, base: int, pad: bool, password: Bytes, iv: Bytes,
                        output: string)
    requires RangeDerived(c) && Decrypt(p, c, input, base, pad, password, iv) == Success(output)
    ensures Codec.IsAllowedBase(base) && Codec.MatchesPattern(output, base)
    ensures InDomain(c, Codec.Parse(output, base))
    ensures !pad ==> Codec.Canonical(output, base)
    ensures pad ==> |output| >= PadWidth(c, base)
  {
    RangeFacts(c);
    DecryptOutcome(p, c, input, base, pad, password, iv);
    DecryptWalks(p, c, input, base, pad, password, iv, WalkFuel(c));
    var o := CycleWalk.Walk(DecPerm(p, c, p.hash(password), iv), c.minValue, c.maxValue,
                            Codec.Parse(input, base) % WalkFuel(c), WalkFuel(c));
    RenderedValue(c, o.value, base, pad);
  }

  /**
   * A decrypt that runs out of retries is one whose recursion would never
   * return: no number of further decryption passes from the input's value
   * lands in the range.
   */
  lemma DecryptExhaustedForever(p: Primitives, c: Config, input: string, base: int, pad: bool, password: Bytes,
                                iv: Bytes)
    requires RangeDerived(c)
    requires Decrypt(p, c, input, base, pad, password, iv) == Failure(WalkExhausted)
    ensures Codec.IsAllowedBase(base)
    ensures forall j: nat :: j >= 1 ==>
      !InDomain(c, CycleWalk.Iter(DecPerm(p, c, p.hash(password), iv), j, Codec.Parse(input, base) % WalkFuel(c)))
  {
    RangeFacts(c);
    DecryptOutcome(p, c, input, base, pad, password, iv);
    var hashPassword := p.hash(password);
    var f, g := EncPerm(p, c, hashPassword, iv), DecPerm(p, c, hashPassword, iv);
    var n := WalkFuel(c);
    PassesInverse(p, c, hashPassword, iv);
    CycleWalk.InverseSymmetric(f, g, n);
    DecryptWalks(p, c, input, base, pad, password, iv, n);
    CycleWalk.WalkExhaustedForever(g, f, n, c.minValue, c.maxValue, Codec.Parse(input, base) % n, n);
  }
}
