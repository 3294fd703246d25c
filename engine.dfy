/**
 * The engine of `lib/Cryptomute/Cryptomute.php` as functions on a
 * configuration value: constructor and range checks, input and IV
 * validation, the round-key schedule, the round function, the conversions
 * between digit strings and `binSize`-bit strings, and `encrypt`/`decrypt`
 * with their cycle walking.
 *
 * Exceptions become `Failure` values. The block cipher, the password hash
 * and the cipher's IV length are the fields of a `Primitives` value: the
 * model assumes nothing about them beyond being functions.
 */
module Engine {

  import opened Wrappers
  import opened Bits
  import Codec
  import Feistel

  /** Every exception the engine raises, plus `WalkExhausted` for a cycle walk that ran out of fuel. */
  datatype Error =
    | UnknownCipher
    | BadRounds
    | KeyTooShort
    | BadMinValue
    | BadMaxValue
    | MinNotANumber
    | MaxNotAboveMin
    | SideExceedsCipher
    | UnknownBase
    | PatternMismatch
    | OutOfDomain
    | BadIvLength
    | WalkExhausted

  const KeyMinLength: nat := 16
  const MinRounds: int := 3
  const DefaultMinValue: string := "0"
  const DefaultMaxValue: string := "99999999999999999999"
  const DefaultMax: nat := 99999999999999999999

  datatype CipherProfile = CipherProfile(iv: bool, length: nat)

  /** The table of allowed ciphers: all are CBC ciphers that take an IV. */
  const AllowedCiphers: map<string, CipherProfile> := map[
    "aes-128-cbc" := CipherProfile(true, 128),
    "aes-192-cbc" := CipherProfile(true, 192),
    "aes-256-cbc" := CipherProfile(true, 256),
    "camellia-128-cbc" := CipherProfile(true, 128),
    "camellia-192-cbc" := CipherProfile(true, 192),
    "camellia-256-cbc" := CipherProfile(true, 256)
  ]

  /**
   * The primitives the engine calls: `openssl_encrypt` with raw output
   * (cipher name, data, key, iv), `hash('sha3-512', …)` and
   * `openssl_cipher_iv_length`.
   */
  datatype Primitives = Primitives(
    encrypt: (string, Bytes, Bytes, Bytes) -> Bytes,
    hash: Bytes -> Bytes,
    ivLength: string -> nat)

  /** The fields of a `Cryptomute` object; `minValue` and `maxValue` hold the numbers gmp reads from the stored strings. */
  datatype Config = Config(
    cipher: string,
    cipherLength: nat,
    key: Bytes,
    rounds: nat,
    minValue: int,
    maxValue: nat,
    binSize: nat,
    decSize: nat,
    hexSize: nat,
    sideSize: nat)

  /** The state of a freshly allocated object once the cipher is known: every other field still unset. */
  function Unset(cipher: string, cipherLength: nat): Config
  {
    Config(cipher, cipherLength, [], 0, 0, 0, 0, 0, 0, 0)
  }

  // ---------------------------------------------------------------------
  // Range configuration (setValueRange)
  // ---------------------------------------------------------------------

  /**
   * The minimum's pattern `^([1-9][0-9]*)|([0]{1})$` as PCRE reads it: the
   * alternation splits the anchors, so a string passes when it starts with a
   * nonzero digit or ends with a `0`.
   */
  predicate MinPatternAsWritten(s: string)
  {
    (|s| >= 1 && '1' <= s[0] <= '9') || (|s| >= 1 && s[|s| - 1] == '0')
  }

  /** The maximum's pattern `^[1-9][0-9]*$`. */
  predicate MaxPattern(s: string)
  {
    |s| >= 1 && '1' <= s[0] <= '9' && forall i :: 1 <= i < |s| ==> '0' <= s[i] <= '9'
  }

  /** The minimum the doc comment describes: "0" or a decimal numeral without leading zeros. */
  predicate MinPatternIntended(s: string)
  {
    s == "0" || MaxPattern(s)
  }

  /** The value of a digit character for gmp: letters of either case count from 10. */
  function GmpDigit(ch: char): (d: nat)
    ensures d < 36 || d == 99
  {
    if '0' <= ch <= '9' then ch as int - '0' as int
    else if 'a' <= ch <= 'z' then ch as int - 'a' as int + 10
    else if 'A' <= ch <= 'Z' then ch as int - 'A' as int + 10
    else 99
  }

  function GmpDigitsValue(t: string, base: nat): nat
  {
    if t == [] then 0 else GmpDigitsValue(t[..|t| - 1], base) * base + GmpDigit(t[|t| - 1])
  }

  /** A nonempty run of digits of `base`, and its value. */
  function GmpDigits(t: string, base: nat): (r: Option<nat>)
    ensures r.Some? <==> |t| >= 1 && forall i :: 0 <= i < |t| ==> GmpDigit(t[i]) < base
  {
    if |t| >= 1 && forall i :: 0 <= i < |t| ==> GmpDigit(t[i]) < base then Some(GmpDigitsValue(t, base)) else None
  }

  /** An unsigned numeral with gmp's base-0 prefixes: `0x`/`0X` hexadecimal, `0b`/`0B` binary, `0` octal, decimal otherwise. */
  function GmpMagnitude(t: string): Option<nat>
  {
    if |t| == 0 || !('0' <= t[0] <= '9') then None
    else if t[0] != '0' then GmpDigits(t, 10)
    else if |t| >= 2 && (t[1] == 'x' || t[1] == 'X') then GmpDigits(t[2..], 16)
    else if |t| >= 2 && (t[1] == 'b' || t[1] == 'B') then GmpDigits(t[2..], 2)
    else GmpDigits(t, 8)
  }

  /** How gmp reads a string it is given as a number (base 0), or None when it raises "not an integer string". */
  function GmpValue(s: string): Option<int>
  {
    if |s| >= 1 && s[0] == '-' then
      match GmpMagnitude(s[1..])
      case Some(m) =>
        var v: int := -(m as int);
        Some(v)
      case None => None
    else
      match GmpMagnitude(s)
      case Some(m) => Some(m)
      case None => None
  }

  /** A string that passes the maximum's pattern is a canonical decimal numeral, and gmp reads it as one. */
  lemma MaxPatternDecimal(s: string)
    requires MaxPattern(s)
    ensures Codec.Canonical(s, 10)
    ensures GmpValue(s) == Some(Codec.Parse(s, 10))
  {
    assert forall i :: 0 <= i < |s| ==> '0' <= s[i] <= '9';
    GmpDecimal(s);
  }

  lemma {:induction false} GmpDecimal(s: string)
    requires forall i :: 0 <= i < |s| ==> '0' <= s[i] <= '9'
    ensures GmpDigitsValue(s, 10) == Codec.Parse(s, 10)
    decreases |s|
  {
    if s != [] {
      GmpDecimal(s[..|s| - 1]);
    }
  }

  /** The checks of setValueRange, in order: minimum pattern, maximum pattern, gmp's reading of the minimum, max > min. */
  function RangeCheck(minS: string, maxS: string): (r: Result<(int, nat), Error>)
    ensures r.Success? <==>
      MinPatternAsWritten(minS) && MaxPattern(maxS) && GmpValue(minS).Some? &&
      GmpValue(minS).value < Codec.Parse(maxS, 10)
    ensures r.Success? ==> r.value == (GmpValue(minS).value, Codec.Parse(maxS, 10))
    ensures !MinPatternAsWritten(minS) ==> r == Failure(BadMinValue)
    ensures MinPatternAsWritten(minS) && !MaxPattern(maxS) ==> r == Failure(BadMaxValue)
    ensures MinPatternAsWritten(minS) && MaxPattern(maxS) && GmpValue(minS).None? ==> r == Failure(MinNotANumber)
    ensures (MinPatternAsWritten(minS) && MaxPattern(maxS) && GmpValue(minS).Some? &&
             Codec.Parse(maxS, 10) <= GmpValue(minS).value) ==> r == Failure(MaxNotAboveMin)
  {
    if !MinPatternAsWritten(minS) then Failure(BadMinValue)
    else if !MaxPattern(maxS) then Failure(BadMaxValue)
    else
      match GmpValue(minS)
      case None => Failure(MinNotANumber)
      case Some(lo) =>
        var hi := Codec.Parse(maxS, 10);
        if hi <= lo then Failure(MaxNotAboveMin) else Success((lo, hi))
  }

  /** Every minimum the documented pattern allows passes the pattern as written. */
  lemma MinPatternWider(s: string)
    requires MinPatternIntended(s)
    ensures MinPatternAsWritten(s)
  {
  }

  /**
   * The pattern as written lets through minimums the documented one refuses:
   * "-10" ends with a zero, gmp reads it as -10, and the range is accepted
   * with a negative minimum.
   */
  lemma NegativeMinimumAccepted()
    ensures MinPatternAsWritten("-10") && !MinPatternIntended("-10")
    ensures RangeCheck("-10", "99") == Success((-10, 99))
  {
    assert GmpDigitsValue("1", 10) == 1 by {
      assert "1"[..0] == [];
    }
    assert GmpDigitsValue("10", 10) == 10 by {
      assert "10"[..1] == "1";
    }
    assert GmpMagnitude("10") == Some(10);
    assert "-10"[1..] == "10";
    assert GmpValue("-10") == Some(-10);
    assert Codec.Parse("99", 10) == 99 by {
      assert "99"[..1] == "9";
      assert "9"[..0] == [];
    }
  }

  /** `b` is the width setValueRange derives for maximum `hi`: the least even width of at least 4 bits whose span exceeds `hi`. */
  predicate IsBinSize(hi: nat, b: nat)
  {
    b >= 4 && b % 2 == 0 && Pow2(b) > hi && (b == 4 || Pow2(b - 2) <= hi)
  }

  /** The do-while loop of setValueRange, continued from width `b`. */
  function BinSizeFrom(b: nat, hi: nat): (r: nat)
    requires b >= 4 && b % 2 == 0 && (b == 4 || Pow2(b - 2) <= hi)
    ensures IsBinSize(hi, r)
    decreases hi + 1 - Pow2(b)
  {
    if Pow2(b) > hi then b
    else
      assert Pow2(b + 2) == 4 * Pow2(b);
      BinSizeFrom(b + 2, hi)
  }

  function BinSize(hi: nat): (r: nat)
    ensures IsBinSize(hi, r)
  {
    BinSizeFrom(4, hi)
  }

  /** No even width of at least 4 bits smaller than `BinSize(hi)` spans `hi`. */
  lemma BinSizeLeast(hi: nat, b: nat)
    requires b >= 4 && b % 2 == 0 && Pow2(b) > hi
    ensures BinSize(hi) <= b
  {
    var r := BinSize(hi);
    if r > b {
      Pow2Monotone(b, r - 2);
    }
  }

  lemma BinSizeUnique(hi: nat, b: nat)
    requires IsBinSize(hi, b)
    ensures BinSize(hi) == b
  {
    BinSizeLeast(hi, b);
    var r := BinSize(hi);
    if r < b {
      Pow2Monotone(r, b - 2);
    }
  }

  /** The fields setValueRange writes, for bounds `lo` and `hi` and a maximum spelled with `decSize` digits. */
  function WithRange(c: Config, lo: int, hi: nat, decSize: nat): Config
  {
    var b := BinSize(hi);
    c.(minValue := lo, maxValue := hi, binSize := b, decSize := decSize, hexSize := b / 4, sideSize := b / 2)
  }

  /** The range fields are related as setValueRange derives them. */
  predicate RangeDerived(c: Config)
  {
    c.minValue < c.maxValue &&
    c.binSize == BinSize(c.maxValue) &&
    c.sideSize == c.binSize / 2 &&
    c.hexSize == c.binSize / 4 &&
    c.decSize == |Codec.Format(c.maxValue, 10)|
  }

  /**
   * setValueRange: the object's new fields and the exception, if any. A
   * rejected bound leaves the object as it was; the side-size check comes
   * after the fields have been overwritten.
   */
  function SetValueRange(c: Config, minS: string, maxS: string): (Config, Option<Error>)
  {
    match RangeCheck(minS, maxS)
    case Failure(e) => (c, Some(e))
    case Success(bounds) =>
      var next := WithRange(c, bounds.0, bounds.1, |maxS|);
      if next.sideSize > next.cipherLength then (next, Some(SideExceedsCipher)) else (next, None)
  }

  /**
   * A rejected bound leaves the configuration as it was; accepted bounds are
   * stored with the widths derived from them, nothing else changes, and the
   * only exception left is the side-size check, raised exactly when the half
   * is wider than the cipher.
   */
  lemma SetValueRangeSpec(c: Config, minS: string, maxS: string)
    ensures RangeCheck(minS, maxS).Failure? ==>
      SetValueRange(c, minS, maxS) == (c, Some(RangeCheck(minS, maxS).error))
    ensures RangeCheck(minS, maxS).Success? ==>
      var r := SetValueRange(c, minS, maxS);
      RangeDerived(r.0) &&
      r.0.minValue == GmpValue(minS).value && r.0.maxValue == Codec.Parse(maxS, 10) &&
      r.0.(minValue := c.minValue, maxValue := c.maxValue, binSize := c.binSize, decSize := c.decSize,
           hexSize := c.hexSize, sideSize := c.sideSize) == c &&
      (r.1 == None <==> r.0.sideSize <= c.cipherLength) &&
      (r.1.Some? ==> r.1 == Some(SideExceedsCipher))
  {
    if RangeCheck(minS, maxS).Success? {
      MaxPatternDecimal(maxS);
      Codec.FormatParse(maxS, 10);
    }
  }

  /** Every configuration an object can be in once its constructor has returned. */
  predicate WellFormed(c: Config)
  {
    c.cipher in AllowedCiphers && c.cipherLength == AllowedCiphers[c.cipher].length &&
    c.rounds >= MinRounds && c.rounds % 2 == 1 && |c.key| >= KeyMinLength &&
    RangeDerived(c) && c.sideSize <= c.cipherLength
  }

  /** A well-formed object stays well-formed through a setValueRange that raises nothing. */
  lemma SetValueRangeKeepsWellFormed(c: Config, minS: string, maxS: string)
    requires WellFormed(c) && SetValueRange(c, minS, maxS).1.None?
    ensures WellFormed(SetValueRange(c, minS, maxS).0)
  {
    SetValueRangeSpec(c, minS, maxS);
  }

  lemma Pow2Of32()
    ensures Pow2(32) == 4294967296
  {
    Pow2Add(4, 4);
    Pow2Add(8, 8);
    Pow2Add(16, 16);
  }

  lemma Pow2Of64()
    ensures Pow2(64) == 18446744073709551616
  {
    Pow2Of32();
    Pow2Add(32, 32);
  }

  lemma Pow2Of66And68()
    ensures Pow2(66) == 73786976294838206464 && Pow2(68) == 295147905179352825856
  {
    Pow2Of64();
    Pow2Add(64, 2);
    Pow2Add(64, 4);
  }

  function Pow10(n: nat): nat
  {
    if n == 0 then 1 else 10 * Pow10(n - 1)
  }

  lemma {:induction false} Pow10Add(a: nat, b: nat)
    ensures Pow10(a + b) == Pow10(a) * Pow10(b)
    decreases a
  {
    if a > 0 {
      Pow10Add(a - 1, b);
      assert Pow10(a + b) == 10 * Pow10(a - 1 + b);
    }
  }

  lemma {:induction false} ParseNines(k: nat)
    ensures Codec.Parse(seq(k, _ => '9'), 10) + 1 == Pow10(k)
  {
    if k > 0 {
      ParseNines(k - 1);
      assert seq(k, _ => '9') == seq(k - 1, _ => '9') + ['9'];
      Codec.ParseSnoc(seq(k - 1, _ => '9'), '9', 10);
    }
  }

  /** The default range "0".."99999999999999999999" is accepted and gives 68 bits: halves of 34 bits, 20 decimal and 17 hex digits. */
  lemma DefaultRange(c: Config)
    ensures RangeCheck(DefaultMinValue, DefaultMaxValue) == Success((0, DefaultMax))
    ensures BinSize(DefaultMax) == 68
    ensures SetValueRange(c, DefaultMinValue, DefaultMaxValue).0 ==
      c.(minValue := 0, maxValue := DefaultMax, binSize := 68, decSize := 20, hexSize := 17, sideSize := 34)
  {
    assert DefaultMaxValue == seq(20, _ => '9');
    ParseNines(20);
    Pow10Add(1, 1);
    Pow10Add(2, 2);
    Pow10Add(4, 1);
    Pow10Add(5, 5);
    Pow10Add(10, 10);
    assert Codec.Parse(DefaultMaxValue, 10) == DefaultMax;
    assert DefaultMinValue[0] == '0' && |DefaultMinValue| == 1;
    assert GmpDigit('0') == 0;
    assert GmpDigitsValue(DefaultMinValue, 8) == 0 by {
      assert DefaultMinValue[..0] == [];
    }
    assert GmpMagnitude(DefaultMinValue) == Some(0);
    Pow2Of66And68();
    BinSizeUnique(DefaultMax, 68);
  }

  /** The configuration the constructor builds from an accepted cipher, key and round count. */
  function Defaults(cipher: string, key: Bytes, rounds: nat): Config
    requires cipher in AllowedCiphers
  {
    Config(cipher, AllowedCiphers[cipher].length, key, rounds, 0, DefaultMax, 68, 20, 17, 34)
  }

  /**
   * The constructor: the cipher is looked up first, then the default range is
   * set, then the rounds and then the key length are checked.
   */
  function Construct(cipher: string, key: Bytes, rounds: int): Result<Config, Error>
  {
    if cipher !in AllowedCiphers then Failure(UnknownCipher)
    else
      var (ranged, err) := SetValueRange(Unset(cipher, AllowedCiphers[cipher].length), DefaultMinValue, DefaultMaxValue);
      match err
      case Some(e) => Failure(e)
      case None =>
        if rounds < MinRounds || rounds % 2 != 1 then Failure(BadRounds)
        else if |key| < KeyMinLength then Failure(KeyTooShort)
        else Success(ranged.(key := key, rounds := rounds))
  }

  /**
   * The constructor succeeds exactly for a known cipher, an odd round count of
   * at least 3 and a key of at least 16 bytes; otherwise it raises the error of
   * the first check that fails. The default range never raises, and a new
   * object is well-formed with the default widths.
   */
  lemma ConstructSpec(cipher: string, key: Bytes, rounds: int)
    ensures Construct(cipher, key, rounds).Success? <==>
      cipher in AllowedCiphers && rounds >= MinRounds && rounds % 2 == 1 && |key| >= KeyMinLength
    ensures cipher !in AllowedCiphers ==> Construct(cipher, key, rounds) == Failure(UnknownCipher)
    ensures cipher in AllowedCiphers && (rounds < MinRounds || rounds % 2 != 1) ==>
      Construct(cipher, key, rounds) == Failure(BadRounds)
    ensures cipher in AllowedCiphers && rounds >= MinRounds && rounds % 2 == 1 && |key| < KeyMinLength ==>
      Construct(cipher, key, rounds) == Failure(KeyTooShort)
    ensures Construct(cipher, key, rounds).Success? ==>
      var c := Construct(cipher, key, rounds).value;
      WellFormed(c) && c == Defaults(cipher, key, rounds)
  {
    if cipher in AllowedCiphers {
      var blank := Unset(cipher, AllowedCiphers[cipher].length);
      DefaultRange(blank);
      SetValueRangeSpec(blank, DefaultMinValue, DefaultMaxValue);
    }
  }

  // ---------------------------------------------------------------------
  // Validation
  // ---------------------------------------------------------------------

  predicate InDomain(c: Config, v: int)
  {
    c.minValue <= v <= c.maxValue
  }

  /** _validateInput: known base, then the base's pattern, then (only when asked) the domain. */
  function ValidateInput(c: Config, input: string, base: int, checkDomain: bool): (r: Option<Error>)
    ensures r.None? <==>
      Codec.IsAllowedBase(base) && Codec.MatchesPattern(input, base) &&
      (checkDomain ==> InDomain(c, Codec.Parse(input, base)))
    ensures r == Some(UnknownBase) <==> !Codec.IsAllowedBase(base)
    ensures r == Some(PatternMismatch) <==> Codec.IsAllowedBase(base) && !Codec.MatchesPattern(input, base)
    ensures r == Some(OutOfDomain) <==>
      Codec.IsAllowedBase(base) && Codec.MatchesPattern(input, base) && checkDomain &&
      !InDomain(c, Codec.Parse(input, base))
  {
    if !Codec.IsAllowedBase(base) then Some(UnknownBase)
    else if !Codec.MatchesPattern(input, base) then Some(PatternMismatch)
    else if checkDomain && !InDomain(c, Codec.Parse(input, base)) then Some(OutOfDomain)
    else None
  }

  predicate IvRequired(cipher: string)
  {
    cipher in AllowedCiphers && AllowedCiphers[cipher].iv
  }

  /** _validateIv: a cipher that takes an IV needs one of exactly its IV length in bytes. */
  function ValidateIv(p: Primitives, c: Config, iv: Bytes): (r: Option<Error>)
    ensures r.None? <==> (IvRequired(c.cipher) ==> |iv| == p.ivLength(c.cipher))
    ensures r.Some? ==> r == Some(BadIvLength)
  {
    if IvRequired(c.cipher) && |iv| != p.ivLength(c.cipher) then Some(BadIvLength) else None
  }

  // ---------------------------------------------------------------------
  // Round keys and the round function
  // ---------------------------------------------------------------------

  /** `$prevKey` after `i` turns of the loop of _roundKeys: the base key encrypted `i + 1` times. */
  function KeyChain(p: Primitives, c: Config, hashPassword: Bytes, iv: Bytes, i: nat): Bytes
  {
    if i == 0 then p.encrypt(c.cipher, c.key, hashPassword, iv)
    else p.encrypt(c.cipher, KeyChain(p, c, hashPassword, iv, i - 1), hashPassword, iv)
  }

  /** `$roundKeys[i]`: the last `sideSize` bits of the i-th link of the chain. */
  function RoundKey(p: Primitives, c: Config, hashPassword: Bytes, iv: Bytes, i: nat): Bits
  {
    LastBits(RawToBin(KeyChain(p, c, hashPassword, iv, i)), c.sideSize)
  }

  /** The first `n` round keys, `$roundKeys[i]` at index `i - 1`. */
  function RoundKeysUpTo(p: Primitives, c: Config, hashPassword: Bytes, iv: Bytes, n: nat): (keys: seq<Bits>)
    ensures |keys| == n
  {
    if n == 0 then [] else RoundKeysUpTo(p, c, hashPassword, iv, n - 1) + [RoundKey(p, c, hashPassword, iv, n)]
  }

  /** Entry i - 1 of the first n round keys is `$roundKeys[i]`. */
  lemma {:induction false} RoundKeysUpToIndexed(p: Primitives, c: Config, hashPassword: Bytes, iv: Bytes, n: nat)
    ensures forall i :: 0 <= i < n ==> RoundKeysUpTo(p, c, hashPassword, iv, n)[i] == RoundKey(p, c, hashPassword, iv, i + 1)
    decreases n
  {
    if n > 0 {
      RoundKeysUpToIndexed(p, c, hashPassword, iv, n - 1);
    }
  }

  /**
   * _roundKeys: one key per round. The message is not an argument: the keys
   * depend on the base key, the hashed password and the IV only.
   */
  function RoundKeys(p: Primitives, c: Config, hashPassword: Bytes, iv: Bytes): (keys: seq<Bits>)
    ensures |keys| == c.rounds
  {
    RoundKeysUpTo(p, c, hashPassword, iv, c.rounds)
  }

  /** There are `rounds` round keys, and the key used in round i (from 1) is `$roundKeys[i]`. */
  lemma RoundKeysIndexed(p: Primitives, c: Config, hashPassword: Bytes, iv: Bytes)
    ensures |RoundKeys(p, c, hashPassword, iv)| == c.rounds
    ensures forall i :: 0 <= i < c.rounds ==> RoundKeys(p, c, hashPassword, iv)[i] == RoundKey(p, c, hashPassword, iv, i + 1)
  {
    RoundKeysUpToIndexed(p, c, hashPassword, iv, c.rounds);
  }

  /** The cipher pads CBC input to whole 16-byte blocks (PKCS#7), always adding at least one byte. */
  ghost predicate PadsToBlocks(p: Primitives)
  {
    forall cipher, data, key, iv :: |p.encrypt(cipher, data, key, iv)| == 16 * (|data| / 16 + 1)
  }

  lemma {:induction false} KeyChainLength(p: Primitives, c: Config, hashPassword: Bytes, iv: Bytes, i: nat)
    requires PadsToBlocks(p) && |c.key| >= KeyMinLength
    ensures |KeyChain(p, c, hashPassword, iv, i)| >= 32
    decreases i
  {
    if i > 0 {
      KeyChainLength(p, c, hashPassword, iv, i - 1);
    }
  }

  /** With a block-padding cipher, every round key of a well-formed engine is exactly `sideSize` bits. */
  lemma RoundKeyWidth(p: Primitives, c: Config, hashPassword: Bytes, iv: Bytes, i: nat)
    requires PadsToBlocks(p) && WellFormed(c)
    ensures |RoundKey(p, c, hashPassword, iv, i)| == c.sideSize
  {
    KeyChainLength(p, c, hashPassword, iv, i);
    assert AllowedCiphers[c.cipher].length <= 256;
  }

  /** _round: the cipher applied to the half followed by the round key, as the characters '0'/'1'; its last `sideSize` bits. */
  function Round(p: Primitives, c: Config, hashPassword: Bytes, iv: Bytes, half: Bits, key: Bits): (r: Bits)
    ensures c.sideSize >= 1 ==> |r| <= c.sideSize
  {
    LastBits(RawToBin(p.encrypt(c.cipher, AsciiBits(half + key), hashPassword, iv)), c.sideSize)
  }

  function RoundFn(p: Primitives, c: Config, hashPassword: Bytes, iv: Bytes): Feistel.RoundFunction
  {
    (half, key) => Round(p, c, hashPassword, iv, half, key)
  }

  lemma RoundFnFits(p: Primitives, c: Config, hashPassword: Bytes, iv: Bytes)
    requires c.sideSize >= 1
    ensures Feistel.FitsSide(RoundFn(p, c, hashPassword, iv), c.sideSize)
  {
  }

  /** The encryption loop of _encryptInternal over the whole key list. */
  function EncryptPass(p: Primitives, c: Config, hashPassword: Bytes, iv: Bytes, keys: seq<Bits>, binary: Bits): Bits
  {
    Feistel.EncryptRounds(RoundFn(p, c, hashPassword, iv), BinaryXor, c.sideSize, binary, keys)
  }

  /** The decryption loop of decrypt over the whole key list, last key first. */
  function DecryptPass(p: Primitives, c: Config, hashPassword: Bytes, iv: Bytes, keys: seq<Bits>, binary: Bits): Bits
  {
    Feistel.DecryptRounds(RoundFn(p, c, hashPassword, iv), BinaryXor, c.sideSize, binary, keys)
  }

  // ---------------------------------------------------------------------
  // Conversions
  // ---------------------------------------------------------------------

  /** _convertToBin: the input's value as a `binSize`-bit string (its low-order bits, should it be wider). */
  function ConvertToBin(c: Config, input: string, base: int): (r: Bits)
    requires Codec.IsAllowedBase(base)
    ensures |r| == c.binSize
  {
    ToBits(Codec.Parse(input, base), c.binSize)
  }

  /** The padding width for `pad = true`: binSize, decSize or hexSize digits. */
  function PadWidth(c: Config, base: int): nat
  {
    if base == 2 then c.binSize else if base == 10 then c.decSize else c.hexSize
  }

  /** _convertFromBin: the binary string's value in `base`, natural or left-padded with zeros to PadWidth digits. */
  function ConvertFromBin(c: Config, binary: Bits, base: int, pad: bool): (r: string)
    requires Codec.IsAllowedBase(base)
    ensures Codec.MatchesPattern(r, base) && Codec.Parse(r, base) == FromBits(binary)
    ensures !pad ==> Codec.Canonical(r, base)
    ensures pad ==> |r| >= PadWidth(c, base) && (|r| > PadWidth(c, base) ==> Codec.Canonical(r, base))
  {
    var digits := Codec.Format(FromBits(binary), base);
    Codec.FormatSpec(FromBits(binary), base);
    if pad then
      Codec.PadLeftKeepsValue(digits, PadWidth(c, base), base);
      Codec.PadLeft(digits, PadWidth(c, base))
    else digits
  }

  /** Converting a `binSize`-bit string out and back in gives the same bits. */
  lemma ConvertRoundTrip(c: Config, binary: Bits, base: int, pad: bool)
    requires Codec.IsAllowedBase(base) && |binary| == c.binSize
    ensures ConvertToBin(c, ConvertFromBin(c, binary, base, pad), base) == binary
  {
    ToFromBits(binary);
  }

  // ---------------------------------------------------------------------
  // encrypt and decrypt
  // ---------------------------------------------------------------------

  /** One Feistel pass of _encryptInternal on a validated input: hash the password, derive the keys, convert, run the rounds. */
  function EncryptOnce(p: Primitives, c: Config, input: string, base: int, password: Bytes, iv: Bytes): Bits
    requires Codec.IsAllowedBase(base)
  {
    var hashPassword := p.hash(password);
    EncryptPass(p, c, hashPassword, iv, RoundKeys(p, c, hashPassword, iv), ConvertToBin(c, input, base))
  }

  /** One Feistel pass of decrypt on a validated input. */
  function DecryptOnce(p: Primitives, c: Config, input: string, base: int, password: Bytes, iv: Bytes): Bits
    requires Codec.IsAllowedBase(base)
  {
    var hashPassword := p.hash(password);
    DecryptPass(p, c, hashPassword, iv, RoundKeys(p, c, hashPassword, iv), ConvertToBin(c, input, base))
  }

  /** The checks both directions start with: the input (its range only when asked), then the IV. */
  function Checks(p: Primitives, c: Config, input: string, base: int, checkDomain: bool, iv: Bytes): (r: Option<Error>)
    ensures r.None? <==> ValidateInput(c, input, base, checkDomain).None? && ValidateIv(p, c, iv).None?
    ensures r.None? ==> Codec.IsAllowedBase(base)
  {
    match ValidateInput(c, input, base, checkDomain)
    case Some(e) => Some(e)
    case None => ValidateIv(p, c, iv)
  }

  /**
   * _encryptInternal: validate, then run the Feistel pass, and run it again
   * on the output while the output's value is outside the domain, at most
   * `fuel` more times.
   */
  function EncryptInternal(p: Primitives, c: Config, input: string, base: int, pad: bool, password: Bytes, iv: Bytes,
                           checkVal: bool, fuel: nat): Result<string, Error>
    decreases fuel, 1
  {
    match Checks(p, c, input, base, checkVal, iv)
    case Some(e) => Failure(e)
    case None => EncryptChecked(p, c, EncryptOnce(p, c, input, base, password, iv), base, pad, password, iv, fuel)
  }

  /** _encryptInternal once its checks have passed and the Feistel pass has produced `binary`. */
  function EncryptChecked(p: Primitives, c: Config, binary: Bits, base: int, pad: bool, password: Bytes, iv: Bytes,
                          fuel: nat): Result<string, Error>
    requires Codec.IsAllowedBase(base)
    decreases fuel, 0
  {
    var output := ConvertFromBin(c, binary, base, pad);
    if InDomain(c, FromBits(binary)) then Success(output)
    else if fuel == 0 then Failure(WalkExhausted)
    else EncryptInternal(p, c, output, base, pad, password, iv, false, fuel - 1)
  }

  /** decrypt: the same shape with the decryption pass and no domain check on the input. */
  function DecryptInternal(p: Primitives, c: Config, input: string, base: int, pad: bool, password: Bytes, iv: Bytes,
                           fuel: nat): Result<string, Error>
    decreases fuel, 1
  {
    match Checks(p, c, input, base, false, iv)
    case Some(e) => Failure(e)
    case None => DecryptChecked(p, c, DecryptOnce(p, c, input, base, password, iv), base, pad, password, iv, fuel)
  }

  /** decrypt once its checks have passed and the inverse pass has produced `binary`. */
  function DecryptChecked(p: Primitives, c: Config, binary: Bits, base: int, pad: bool, password: Bytes, iv: Bytes,
                          fuel: nat): Result<string, Error>
    requires Codec.IsAllowedBase(base)
    decreases fuel, 0
  {
    var output := ConvertFromBin(c, binary, base, pad);
    if InDomain(c, FromBits(binary)) then Success(output)
    else if fuel == 0 then Failure(WalkExhausted)
    else DecryptInternal(p, c, output, base, pad, password, iv, fuel - 1)
  }

  /** The retries a cycle walk may make: as many as there are `binSize`-bit values. */
  function WalkFuel(c: Config): nat
  {
    Pow2(c.binSize)
  }

  /** The public encrypt: the input's domain is checked on the first pass only. */
  function Encrypt(p: Primitives, c: Config, input: string, base: int, pad: bool, password: Bytes, iv: Bytes): Result<string, Error>
  {
    EncryptInternal(p, c, input, base, pad, password, iv, true, WalkFuel(c))
  }

  function Decrypt(p: Primitives, c: Config, input: string, base: int, pad: bool, password: Bytes, iv: Bytes): Result<string, Error>
  {
    DecryptInternal(p, c, input, base, pad, password, iv, WalkFuel(c))
  }
}
