/** Values shared by every part of the inventory model. */
module Common {

  /** A field that a remote response may or may not carry. */
  datatype Option<+T> = None | Some(value: T)

  /** The sentinel the script writes wherever a value could not be obtained:
      an account id, a DNSSEC status, a registrar verdict. */
  const UnknownText: string := "UNKNOWN"

  /** Appending lists regroups freely; stated once so that the proofs of the
      appending loops need not rediscover it. */
  lemma {:induction false} ConcatAssoc<T>(a: seq<T>, b: seq<T>, c: seq<T>)
    ensures (a + b) + c == a + (b + c)
  {
  }
}
