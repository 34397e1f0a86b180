/** Failure values shared by the whole model.  Every `raise` of the wallet core
    becomes an `Err` carrying one of the `Error` values below, so that callers
    can tell validation errors from derivation errors, as the core promises. */
module Errors {

  datatype Option<T> = None | Some(value: T)

  datatype Error =
    // _KeyBase.__init__ (ValueError)
    | InvalidChainCode
    | InvalidChildNumber
    | InvalidDepth
    | BadParentFingerprint
    // _KeyBase._extended_key (ValueError)
    | BadVerBytes
    | BadRawSerkey
    // MasterPubKey._verifying_key_from_pubkey (ValueError, or the square-root error of the curve library)
    | BadPubkeyLength
    | BadPubkeyPrefix
    | NoSquareRoot
    // MasterPrivKey._privkey_secret_exponent (ValueError)
    | BadPrivkeyLength
    | InvalidExponent
    // child derivation
    | InvalidPublicChildNumber
    | InvalidPrivateChildNumber
    | DerivationError
    // _from_extended_key / from_extended_key_string
    | BadExtendedKeyLength
    | Base58Error
    // util.py
    | NegativeSize
    | ZeroChunkSize
    // keys.py KeyError, whose message carries the hex of the rejected bytes
    | InvalidPublicKey(hex: string)
    // account.py (ValueError)
    | GapLimitTooSmall

  datatype Result<T> = Ok(value: T) | Err(error: Error) {
    predicate IsFailure() { Err? }

    function PropagateFailure<U>(): Result<U>
      requires Err?
    {
      Err(error)
    }

    function Extract(): T
      requires Ok?
    {
      value
    }
  }
}
