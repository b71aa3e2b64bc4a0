/** The cryptographic and text library the tool calls, as parameters (src/crypto.rs). Nothing is known about
    these functions but their types and, where it is required, that genuine signatures verify. */
module Library {
  import opened Bytes

  type Hash4 = s: seq<byte> | |s| == 4 witness Fill(4, 0)

  type Bytes32 = s: seq<byte> | |s| == 32 witness Fill(32, 0)

  type Bytes64 = s: seq<byte> | |s| == 64 witness Fill(64, 0)

  datatype Library = Library(
    sha256: seq<byte> -> Bytes32,
    publicFromSeed: Bytes32 -> Bytes32,
    sign: (Bytes32, seq<byte>) -> Bytes64,
    verifies: (Bytes32, seq<byte>, Bytes64) -> bool,
    utf8Lossy: seq<byte> -> seq<byte>,
    bootloaderImageValid: (seq<byte>, nat, Bytes32, nat) -> bool
  ) {
    /** `mh::<N>`: the first n bytes of the SHA-256 of the data. */
    function Mh(n: nat, data: seq<byte>): (h: seq<byte>)
      requires n <= 32
      ensures |h| == n
    {
      sha256(data)[..n]
    }

    /** A signature made from a seed verifies under the seed's public key. */
    ghost predicate SignsSoundly() {
      forall seed: Bytes32, msg: seq<byte> :: verifies(publicFromSeed(seed), msg, sign(seed, msg))
    }
  }
}
