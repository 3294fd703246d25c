/**
 * The balanced Feistel network over a `2 * side`-bit state, for an arbitrary
 * round function `F(half, roundKey)` and an arbitrary combining step
 * `X(side, half, mask)`; the engine instantiates `X` with `_binaryXor`
 * (`Bits.BinaryXor`).
 *
 * Encryption runs rounds 1..n as (L, R) -> (R, L xor F(R, k_i)); decryption
 * runs rounds n..1 as (L, R) -> (R xor F(L, k_i), L), with the same indexed
 * keys. Halves are cut from the state with `substr` (first and last `side`
 * characters).
 */
module Feistel {

  import opened Bits

  type RoundFunction = (Bits, Bits) -> Bits
  type Combine = (nat, Bits, Bits) -> Bits

  /** Every output of the round function is at most `side` bits, as `_round` (a `substr(…, -side)`) guarantees. */
  ghost predicate FitsSide(F: RoundFunction, side: nat)
  {
    forall half, key :: |F(half, key)| <= side
  }

  /** The combining step keeps a half `side` bits wide and undoes itself when the same mask is applied twice. */
  ghost predicate SelfInverse(X: Combine, side: nat)
  {
    (forall half, mask :: |half| == side && |mask| <= side ==> |X(side, half, mask)| == side) &&
    (forall half, mask :: |half| == side && |mask| <= side ==> X(side, X(side, half, mask), mask) == half)
  }

  /** `_binaryXor` is a self-inverse combining step for every positive width. */
  lemma BinaryXorSelfInverse(side: nat)
    requires side >= 1
    ensures SelfInverse(BinaryXor, side)
  {
    forall half, mask | |half| == side && |mask| <= side
      ensures |BinaryXor(side, half, mask)| == side && BinaryXor(side, BinaryXor(side, half, mask), mask) == half
    {
      BinaryXorSpec(side, half, mask);
      BinaryXorInvolution(side, half, mask);
    }
  }

  /** One encryption round (loop body of `_encryptInternal`). */
  function EncryptRound(F: RoundFunction, X: Combine, side: nat, binary: Bits, key: Bits): Bits
  {
    var left := FirstBits(binary, side);
    var right := LastBits(binary, side);
    right + X(side, left, F(right, key))
  }

  /** One decryption round (loop body of `decrypt`): the round function is applied to the left half. */
  function DecryptRound(F: RoundFunction, X: Combine, side: nat, binary: Bits, key: Bits): Bits
  {
    var left := FirstBits(binary, side);
    var right := LastBits(binary, side);
    X(side, right, F(left, key)) + left
  }

  /** A round of either direction keeps the state `2 * side` bits wide. */
  lemma RoundsKeepWidth(F: RoundFunction, X: Combine, side: nat, binary: Bits, key: Bits)
    requires side >= 1 && |binary| == 2 * side && FitsSide(F, side) && SelfInverse(X, side)
    ensures |EncryptRound(F, X, side, binary, key)| == 2 * side
    ensures |DecryptRound(F, X, side, binary, key)| == 2 * side
  {
    var left, right := FirstBits(binary, side), LastBits(binary, side);
    assert |X(side, left, F(right, key))| == side;
    assert |X(side, right, F(left, key))| == side;
  }

  /** All rounds of encryption in key order: round i (from 1) uses `keys[i - 1]`. */
  function EncryptRounds(F: RoundFunction, X: Combine, side: nat, binary: Bits, keys: seq<Bits>): Bits
    decreases |keys|
  {
    if keys == [] then binary
    else EncryptRound(F, X, side, EncryptRounds(F, X, side, binary, keys[..|keys| - 1]), keys[|keys| - 1])
  }

  /** All rounds of decryption in reverse key order: the last key first, `keys[0]` last. */
  function DecryptRounds(F: RoundFunction, X: Combine, side: nat, binary: Bits, keys: seq<Bits>): Bits
    decreases |keys|
  {
    if keys == [] then binary
    else DecryptRounds(F, X, side, DecryptRound(F, X, side, binary, keys[|keys| - 1]), keys[..|keys| - 1])
  }

  lemma {:induction false} EncryptRoundsWidth(F: RoundFunction, X: Combine, side: nat, binary: Bits, keys: seq<Bits>)
    requires side >= 1 && |binary| == 2 * side && FitsSide(F, side) && SelfInverse(X, side)
    ensures |EncryptRounds(F, X, side, binary, keys)| == 2 * side
    decreases |keys|
  {
    if keys != [] {
      EncryptRoundsWidth(F, X, side, binary, keys[..|keys| - 1]);
      RoundsKeepWidth(F, X, side, EncryptRounds(F, X, side, binary, keys[..|keys| - 1]), keys[|keys| - 1]);
    }
  }

  lemma {:induction false} DecryptRoundsWidth(F: RoundFunction, X: Combine, side: nat, binary: Bits, keys: seq<Bits>)
    requires side >= 1 && |binary| == 2 * side && FitsSide(F, side) && SelfInverse(X, side)
    ensures |DecryptRounds(F, X, side, binary, keys)| == 2 * side
    decreases |keys|
  {
    if keys != [] {
      RoundsKeepWidth(F, X, side, binary, keys[|keys| - 1]);
      DecryptRoundsWidth(F, X, side, DecryptRound(F, X, side, binary, keys[|keys| - 1]), keys[..|keys| - 1]);
    }
  }

  /** A decryption round with key k undoes the encryption round with key k. */
  lemma DecryptUndoesEncryptRound(F: RoundFunction, X: Combine, side: nat, binary: Bits, key: Bits)
    requires side >= 1 && |binary| == 2 * side && FitsSide(F, side) && SelfInverse(X, side)
    ensures DecryptRound(F, X, side, EncryptRound(F, X, side, binary, key), key) == binary
  {
    var left, right := binary[..side], binary[side..];
    var mixed := X(side, left, F(right, key));
    var e := right + mixed;
    assert EncryptRound(F, X, side, binary, key) == e;
    assert e[..side] == right && e[side..] == mixed;
    assert binary == left + right;
  }

  /** An encryption round with key k undoes the decryption round with key k. */
  lemma EncryptUndoesDecryptRound(F: RoundFunction, X: Combine, side: nat, binary: Bits, key: Bits)
    requires side >= 1 && |binary| == 2 * side && FitsSide(F, side) && SelfInverse(X, side)
    ensures EncryptRound(F, X, side, DecryptRound(F, X, side, binary, key), key) == binary
  {
    var left, right := binary[..side], binary[side..];
    var mixed := X(side, right, F(left, key));
    var d := mixed + left;
    assert DecryptRound(F, X, side, binary, key) == d;
    assert d[..side] == mixed && d[side..] == left;
    assert binary == left + right;
  }

  /** Decryption inverts encryption under the same keys, whatever the round function. */
  lemma {:induction false} DecryptUndoesEncrypt(F: RoundFunction, X: Combine, side: nat, binary: Bits, keys: seq<Bits>)
    requires side >= 1 && |binary| == 2 * side && FitsSide(F, side) && SelfInverse(X, side)
    ensures DecryptRounds(F, X, side, EncryptRounds(F, X, side, binary, keys), keys) == binary
    decreases |keys|
  {
    if keys != [] {
      var init := keys[..|keys| - 1];
      DecryptUndoesEncrypt(F, X, side, binary, init);
      EncryptRoundsWidth(F, X, side, binary, init);
      DecryptUndoesEncryptRound(F, X, side, EncryptRounds(F, X, side, binary, init), keys[|keys| - 1]);
    }
  }

  /** Encryption inverts decryption under the same keys, whatever the round function. */
  lemma {:induction false} EncryptUndoesDecrypt(F: RoundFunction, X: Combine, side: nat, binary: Bits, keys: seq<Bits>)
    requires side >= 1 && |binary| == 2 * side && FitsSide(F, side) && SelfInverse(X, side)
    ensures EncryptRounds(F, X, side, DecryptRounds(F, X, side, binary, keys), keys) == binary
    decreases |keys|
  {
    if keys != [] {
      var undone := DecryptRound(F, X, side, binary, keys[|keys| - 1]);
      RoundsKeepWidth(F, X, side, binary, keys[|keys| - 1]);
      EncryptUndoesDecrypt(F, X, side, undone, keys[..|keys| - 1]);
      EncryptUndoesDecryptRound(F, X, side, binary, keys[|keys| - 1]);
    }
  }
}
