/** What the modules share: datatypes, and a fact about sequences. */
module Common {

  datatype Option<+T> = None | Some(value: T)

  datatype Result<+T, +E> = Ok(value: T) | Err(error: E)

  /** One octet of a buffer. */
  type Byte = b: int | 0 <= b < 256

  /** The chains this service settles on. */
  datatype Chain = Stellar | Solana | Monad

  function ChainName(chain: Chain): string {
    match chain
    case Stellar => "stellar"
    case Solana => "solana"
    case Monad => "monad"
  }

  lemma SamePrefix<T>(front: seq<T>, x: seq<T>, y: seq<T>)
    requires front + x == front + y
    ensures x == y
  {
    assert x == (front + x)[|front|..] && y == (front + y)[|front|..];
  }
}
