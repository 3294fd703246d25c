/**
 * The `Cryptomute` object: its fields, the constructor, `setValueRange`
 * with its do-while loop, the round-key loop, the two Feistel loops and the
 * recursive `encrypt`/`decrypt`. Every method is proved equal to the
 * corresponding function of `Engine` on the object's fields, where the
 * properties of those functions are proved.
 */
module Cryptomute {

  import opened Wrappers
  import opened Bits
  import Codec
  import Engine
  import Properties

  class Cryptomute {
    const cipher: string
    const cipherLength: nat
    var key: Bytes
    var rounds: nat
    var minValue: int
    var maxValue: nat
    var binSize: nat
    var decSize: nat
    var hexSize: nat
    var sideSize: nat

    /** The object's fields as an engine configuration. */
    function Config(): Engine.Config
      reads this
    {
      Engine.Config(cipher, cipherLength, key, rounds, minValue, maxValue, binSize, decSize, hexSize, sideSize)
    }

    /** A new object with its cipher chosen and every other field still unset. */
    constructor Allocate(cipher: string, cipherLength: nat)
      ensures Config() == Engine.Unset(cipher, cipherLength)
    {
      this.cipher := cipher;
      this.cipherLength := cipherLength;
      key := [];
      rounds := 0;
      minValue := 0;
      maxValue := 0;
      binSize := 0;
      decSize := 0;
      hexSize := 0;
      sideSize := 0;
    }

    /**
     * __construct: the cipher, then the default range, then the rounds, then
     * the key. The object is exactly `Engine.Construct`'s configuration, which
     * `Engine.ConstructSpec` shows to be well-formed.
     */
    static method New(cipher: string, baseKey: Bytes, rounds: int) returns (r: Result<Cryptomute, Engine.Error>)
      ensures r.Success? <==> Engine.Construct(cipher, baseKey, rounds).Success?
      ensures r.Success? ==>
        fresh(r.value) && r.value.Config() == Engine.Construct(cipher, baseKey, rounds).value
      ensures r.Failure? ==> r.error == Engine.Construct(cipher, baseKey, rounds).error
      ensures r.Success? ==> Engine.WellFormed(r.value.Config())
    {
      if cipher !in Engine.AllowedCiphers {
        return Failure(Engine.UnknownCipher);
      }
      var m := new Cryptomute.Allocate(cipher, Engine.AllowedCiphers[cipher].length);
      var err := m.SetValueRange(Engine.DefaultMinValue, Engine.DefaultMaxValue);
      if err.Some? {
        return Failure(err.value);
      }
      if rounds < Engine.MinRounds || rounds % 2 != 1 {
        return Failure(Engine.BadRounds);
      }
      m.rounds := rounds;
      if |baseKey| < Engine.KeyMinLength {
        return Failure(Engine.KeyTooShort);
      }
      m.key := baseKey;
      Engine.ConstructSpec(cipher, baseKey, rounds);
      return Success(m);
    }

    /**
     * setValueRange: the bounds are checked, stored, and the widths derived
     * by doubling the span two bits at a time; the side-size check comes
     * last, after the fields are written.
     */
    method SetValueRange(minS: string, maxS: string) returns (err: Option<Engine.Error>)
      modifies this
      ensures (Config(), err) == Engine.SetValueRange(old(Config()), minS, maxS)
      ensures err.None? ==> Engine.RangeDerived(Config())
      ensures old(Engine.RangeDerived(Config())) ==> Engine.RangeDerived(Config())
      ensures old(Engine.WellFormed(Config())) && err.None? ==> Engine.WellFormed(Config())
    {
      Engine.SetValueRangeSpec(Config(), minS, maxS);
      if Engine.WellFormed(Config()) && Engine.SetValueRange(Config(), minS, maxS).1.None? {
        Engine.SetValueRangeKeepsWellFormed(Config(), minS, maxS);
      }
      var checked := Engine.RangeCheck(minS, maxS);
      if checked.Failure? {
        return Some(checked.error);
      }
      StoreRange(checked.value.0, checked.value.1, |maxS|);
      if sideSize > cipherLength {
        return Some(Engine.SideExceedsCipher);
      }
      return None;
    }

    /** The writes of setValueRange once the bounds are accepted: the bounds, then binSize by the do-while loop, then the other widths. */
    method StoreRange(lo: int, hi: nat, digits: nat)
      modifies this
      ensures Config() == Engine.WithRange(old(Config()), lo, hi, digits)
    {
      minValue := lo;
      maxValue := hi;
      binSize := 2;
      var span: nat := 4;
      binSize := binSize + 2;
      span := span * 4;
      while span <= maxValue
        invariant Config() == old(Config()).(minValue := lo, maxValue := hi, binSize := binSize)
        invariant binSize >= 4 && binSize % 2 == 0 && span == Pow2(binSize)
        invariant binSize == 4 || Pow2(binSize - 2) <= maxValue
        invariant Engine.BinSizeFrom(binSize, maxValue) == Engine.BinSize(maxValue)
        decreases maxValue - span
      {
        binSize := binSize + 2;
        span := span * 4;
      }
      decSize := digits;
      hexSize := binSize / 4;
      sideSize := binSize / 2;
    }

    /** _roundKeys: the base key encrypted once, then once more per round, each round keeping the last sideSize bits. */
    method RoundKeys(p: Engine.Primitives, hashPassword: Bytes, iv: Bytes) returns (roundKeys: seq<Bits>)
      ensures roundKeys == Engine.RoundKeys(p, Config(), hashPassword, iv)
    {
      roundKeys := [];
      var prevKey := p.encrypt(cipher, key, hashPassword, iv);
      var i := 1;
      while i <= rounds
        invariant 1 <= i <= rounds + 1
        invariant prevKey == Engine.KeyChain(p, Config(), hashPassword, iv, i - 1)
        invariant roundKeys == Engine.RoundKeysUpTo(p, Config(), hashPassword, iv, i - 1)
      {
        prevKey := p.encrypt(cipher, prevKey, hashPassword, iv);
        roundKeys := roundKeys + [LastBits(RawToBin(prevKey), sideSize)];
        i := i + 1;
      }
    }

    /** The Feistel loop of _encryptInternal: rounds 1..rounds, the round function applied to the right half. */
    method EncryptPass(p: Engine.Primitives, hashPassword: Bytes, iv: Bytes, roundKeys: seq<Bits>, binary: Bits)
      returns (r: Bits)
      requires |roundKeys| == rounds
      ensures r == Engine.EncryptPass(p, Config(), hashPassword, iv, roundKeys, binary)
    {
      r := binary;
      var i := 1;
      while i <= rounds
        invariant 1 <= i <= rounds + 1
        invariant r == Engine.EncryptPass(p, Config(), hashPassword, iv, roundKeys[..i - 1], binary)
      {
        var left := FirstBits(r, sideSize);
        var right := LastBits(r, sideSize);
        var key := roundKeys[i - 1];
        var round := Engine.Round(p, Config(), hashPassword, iv, right, key);
        var newLeft := right;
        var newRight := BinaryXor(sideSize, left, round);
        r := newLeft + newRight;
        assert roundKeys[..i][..i - 1] == roundKeys[..i - 1];
        i := i + 1;
      }
      assert roundKeys[..rounds] == roundKeys;
    }

    /** The Feistel loop of decrypt: rounds rounds..1, the round function applied to the left half. */
    method DecryptPass(p: Engine.Primitives, hashPassword: Bytes, iv: Bytes, roundKeys: seq<Bits>, binary: Bits)
      returns (r: Bits)
      requires |roundKeys| == rounds
      ensures r == Engine.DecryptPass(p, Config(), hashPassword, iv, roundKeys, binary)
    {
      r := binary;
      var i := rounds;
      assert roundKeys[..i] == roundKeys;
      while i > 0
        invariant 0 <= i <= rounds
        invariant Engine.DecryptPass(p, Config(), hashPassword, iv, roundKeys[..i], r) ==
          Engine.DecryptPass(p, Config(), hashPassword, iv, roundKeys, binary)
      {
        var left := FirstBits(r, sideSize);
        var right := LastBits(r, sideSize);
        var key := roundKeys[i - 1];
        var round := Engine.Round(p, Config(), hashPassword, iv, left, key);
        var newLeft := BinaryXor(sideSize, right, round);
        var newRight := left;
        r := newLeft + newRight;
        assert roundKeys[..i][..i - 1] == roundKeys[..i - 1];
        i := i - 1;
      }
    }

    /** The body of _encryptInternal between the checks and the conversion back: hash, round keys, conversion, rounds. */
    method EncryptOnce(p: Engine.Primitives, input: string, base: int, password: Bytes, iv: Bytes) returns (binary: Bits)
      requires Codec.IsAllowedBase(base)
      ensures binary == Engine.EncryptOnce(p, Config(), input, base, password, iv)
    {
      var hashPassword := p.hash(password);
      var roundKeys := RoundKeys(p, hashPassword, iv);
      binary := Engine.ConvertToBin(Config(), input, base);
      binary := EncryptPass(p, hashPassword, iv, roundKeys, binary);
    }

    /** The body of decrypt between the checks and the conversion back. */
    method DecryptOnce(p: Engine.Primitives, input: string, base: int, password: Bytes, iv: Bytes) returns (binary: Bits)
      requires Codec.IsAllowedBase(base)
      ensures binary == Engine.DecryptOnce(p, Config(), input, base, password, iv)
    {
      var hashPassword := p.hash(password);
      var roundKeys := RoundKeys(p, hashPassword, iv);
      binary := Engine.ConvertToBin(Config(), input, base);
      binary := DecryptPass(p, hashPassword, iv, roundKeys, binary);
    }

    /** _encryptInternal: check the input and the IV, then run the pass. */
    method EncryptInternal(p: Engine.Primitives, input: string, base: int, pad: bool, password: Bytes, iv: Bytes,
                           checkVal: bool, fuel: nat) returns (r: Result<string, Engine.Error>)
      ensures r == Engine.EncryptInternal(p, Config(), input, base, pad, password, iv, checkVal, fuel)
      decreases fuel, 1
    {
      var invalid := Engine.ValidateInput(Config(), input, base, checkVal);
      if invalid.Some? {
        return Failure(invalid.value);
      }
      invalid := Engine.ValidateIv(p, Config(), iv);
      if invalid.Some? {
        return Failure(invalid.value);
      }
      var binary := EncryptOnce(p, input, base, password, iv);
      r := EncryptChecked(p, binary, base, pad, password, iv, fuel);
    }

    /** _encryptInternal after its checks and one pass: the pass repeated on its own output while the output's value is outside the range. */
    method EncryptChecked(p: Engine.Primitives, binary: Bits, base: int, pad: bool, password: Bytes, iv: Bytes,
                          fuel: nat) returns (r: Result<string, Engine.Error>)
      requires Codec.IsAllowedBase(base)
      ensures r == Engine.EncryptChecked(p, Config(), binary, base, pad, password, iv, fuel)
      decreases fuel, 0
    {
      var output := Engine.ConvertFromBin(Config(), binary, base, pad);
      var compare := FromBits(binary);
      if minValue > compare || compare > maxValue {
        if fuel == 0 {
          return Failure(Engine.WalkExhausted);
        }
        r := EncryptInternal(p, output, base, pad, password, iv, false, fuel - 1);
      } else {
        r := Success(output);
      }
    }

    /** encrypt: the input's range is checked on the first pass; the output is a numeral of the same base inside the range. */
    method Encrypt(p: Engine.Primitives, input: string, base: int, pad: bool, password: Bytes, iv: Bytes)
      returns (r: Result<string, Engine.Error>)
      ensures r == Engine.Encrypt(p, Config(), input, base, pad, password, iv)
      ensures Engine.RangeDerived(Config()) ==>
        (r.Success? <==> Engine.ValidateInput(Config(), input, base, true).None? && Engine.ValidateIv(p, Config(), iv).None?)
      ensures Engine.RangeDerived(Config()) && r.Success? ==>
        Codec.IsAllowedBase(base) && Codec.MatchesPattern(r.value, base) &&
        Engine.InDomain(Config(), Codec.Parse(r.value, base)) &&
        (pad ==> |r.value| >= Engine.PadWidth(Config(), base))
    {
      r := EncryptInternal(p, input, base, pad, password, iv, true, Engine.WalkFuel(Config()));
      if Engine.RangeDerived(Config()) {
        Properties.EncryptOutcome(p, Config(), input, base, pad, password, iv);
        if r.Success? {
          Properties.EncryptInDomain(p, Config(), input, base, pad, password, iv, r.value);
        }
      }
    }

    /** decrypt: check the input and the IV, then run the pass. */
    method DecryptInternal(p: Engine.Primitives, input: string, base: int, pad: bool, password: Bytes, iv: Bytes,
                           fuel: nat) returns (r: Result<string, Engine.Error>)
      ensures r == Engine.DecryptInternal(p, Config(), input, base, pad, password, iv, fuel)
      decreases fuel, 1
    {
      var invalid := Engine.ValidateInput(Config(), input, base, false);
      if invalid.Some? {
        return Failure(invalid.value);
      }
      invalid := Engine.ValidateIv(p, Config(), iv);
      if invalid.Some? {
        return Failure(invalid.value);
      }
      var binary := DecryptOnce(p, input, base, password, iv);
      r := DecryptChecked(p, binary, base, pad, password, iv, fuel);
    }

    /** decrypt after its checks and one pass: the pass repeated on its own output while the output's value is outside the range. */
    method DecryptChecked(p: Engine.Primitives, binary: Bits, base: int, pad: bool, password: Bytes, iv: Bytes,
                          fuel: nat) returns (r: Result<string, Engine.Error>)
      requires Codec.IsAllowedBase(base)
      ensures r == Engine.DecryptChecked(p, Config(), binary, base, pad, password, iv, fuel)
      decreases fuel, 0
    {
      var output := Engine.ConvertFromBin(Config(), binary, base, pad);
      var compare := FromBits(binary);
      if minValue > compare || compare > maxValue {
        if fuel == 0 {
          return Failure(Engine.WalkExhausted);
        }
        r := DecryptInternal(p, output, base, pad, password, iv, fuel - 1);
      } else {
        r := Success(output);
      }
    }

    /** decrypt as called from outside: the input's range is never checked; the output is a numeral of the same base inside the range. */
    method Decrypt(p: Engine.Primitives, input: string, base: int, pad: bool, password: Bytes, iv: Bytes)
      returns (r: Result<string, Engine.Error>)
      ensures r == Engine.Decrypt(p, Config(), input, base, pad, password, iv)
      ensures Engine.RangeDerived(Config()) ==> r != Failure(Engine.OutOfDomain)
      ensures Engine.RangeDerived(Config()) && r.Success? ==>
        Codec.IsAllowedBase(base) && Codec.MatchesPattern(r.value, base) &&
        Engine.InDomain(Config(), Codec.Parse(r.value, base)) &&
        (pad ==> |r.value| >= Engine.PadWidth(Config(), base))
    {
      r := DecryptInternal(p, input, base, pad, password, iv, Engine.WalkFuel(Config()));
      if Engine.RangeDerived(Config()) {
        Properties.DecryptOutcome(p, Config(), input, base, pad, password, iv);
        if r.Success? {
          Properties.DecryptInDomain(p, Config(), input, base, pad, password, iv, r.value);
        }
      }
    }
  }
}
