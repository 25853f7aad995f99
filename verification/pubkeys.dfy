/** Public keys and the order the program and the client compare them by.

    A Solana `Pubkey` is a 32-byte array; its derived `Ord` is the unsigned
    lexicographic order on the bytes. Both the chat seed (which key comes first)
    and the key-agreement role (which side is the server) rest on that order
    being a strict total order, which this module proves. */
module Pubkeys {
  import opened Common

  type Pubkey = Bytes32

  /** Strict unsigned lexicographic order on byte strings (Rust's slice `<`). */
  predicate Less(a: seq<u8>, b: seq<u8>)
    decreases |a|
  {
    |b| > 0 && (|a| == 0 || a[0] < b[0] || (a[0] == b[0] && Less(a[1..], b[1..])))
  }

  /** No key is smaller than itself: with `LessTransitive` and `Trichotomy`,
      `Less` is a strict total order on keys. */
  lemma {:induction false} LessIrreflexive(a: seq<u8>)
    ensures !Less(a, a)
  {
    if |a| > 0 {
      LessIrreflexive(a[1..]);
    }
  }

  lemma {:induction false} LessAsymmetric(a: seq<u8>, b: seq<u8>)
    requires Less(a, b)
    ensures !Less(b, a)
    decreases |a|
  {
    if |a| > 0 && a[0] == b[0] && Less(a[1..], b[1..]) {
      LessAsymmetric(a[1..], b[1..]);
    }
  }

  /** Smaller-than chains: the transitivity half of the strict total order. */
  lemma {:induction false} LessTransitive(a: seq<u8>, b: seq<u8>, c: seq<u8>)
    requires Less(a, b) && Less(b, c)
    ensures Less(a, c)
    decreases |a|
  {
    if |a| > 0 && a[0] == b[0] && b[0] == c[0] {
      LessTransitive(a[1..], b[1..], c[1..]);
    }
  }

  /** Two distinct keys of equal length are always ordered one way or the other. */
  lemma {:induction false} LessTotal(a: seq<u8>, b: seq<u8>)
    requires |a| == |b| && a != b
    ensures Less(a, b) || Less(b, a)
    decreases |a|
  {
    if a[0] == b[0] {
      assert a == [a[0]] + a[1..] && b == [b[0]] + b[1..];
      LessTotal(a[1..], b[1..]);
    }
  }

  /** Exactly one of two distinct public keys is the smaller. */
  lemma Trichotomy(a: Pubkey, b: Pubkey)
    requires a != b
    ensures Less(a, b) != Less(b, a)
  {
    LessTotal(a, b);
    if Less(a, b) {
      LessAsymmetric(a, b);
    }
  }
}
