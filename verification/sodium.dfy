/** The libsodium calls the client makes, as uninterpreted functions.

    Nothing here computes real cryptography. `Primitives` bundles one function
    per foreign call; `Laws` states the guarantees libsodium documents for them
    and the client relies on; `Sodium` is the type of bundles that obey the laws.
    Every theorem of the model holds for every such bundle. */
module Sodium {
  import opened Common
  import opened Pubkeys

  const CRYPTO_SECRETBOX_NONCEBYTES: nat := 24
  const CRYPTO_SECRETBOX_MACBYTES: nat := 16

  /** A symmetric session key. `crypto_kx_SESSIONKEYBYTES` and
      `crypto_secretbox_KEYBYTES` are both 32, the equality encrypt.rs asserts
      before each seal and open, so one 32-byte type serves both. */
  type Key = Bytes32

  type Nonce = s: seq<u8> | |s| == CRYPTO_SECRETBOX_NONCEBYTES witness Zeros(CRYPTO_SECRETBOX_NONCEBYTES)

  /** A Solana signing keypair: the 32-byte Ed25519 secret seed followed by the
      32-byte public key (64 bytes in all, `crypto_sign_ed25519_SECRETKEYBYTES`). */
  datatype Keypair = Keypair(secret: Bytes32, pubkey: Pubkey)

  /** The two session keys one `crypto_kx` run writes, in its argument order
      (`rx`, then `tx`); the client's `SharedKey` struct holds exactly these. */
  datatype SharedKey = SharedKey(receiveKey: Key, transmitKey: Key)

  datatype Primitives = Primitives(
    /** Ed25519 public key of a secret seed (section 5.1.5 of RFC 8032). */
    edPublic: Bytes32 -> Pubkey,
    /** `crypto_sign_ed25519_sk_to_curve25519` on the keypair's 64 bytes. */
    skToCurve: Keypair -> Bytes32,
    /** `crypto_sign_ed25519_pk_to_curve25519`. */
    pkToCurve: Pubkey -> Bytes32,
    /** `crypto_scalarmult_base`: the X25519 public key of a secret scalar. */
    scalarmultBase: Bytes32 -> Bytes32,
    /** `crypto_kx_client_session_keys(client_pk, client_sk, server_pk)`. */
    kxClient: (Bytes32, Bytes32, Bytes32) -> SharedKey,
    /** `crypto_kx_server_session_keys(server_pk, server_sk, client_pk)`. */
    kxServer: (Bytes32, Bytes32, Bytes32) -> SharedKey,
    /** `crypto_secretbox_easy(message, nonce, key)`: tag followed by ciphertext. */
    seal: (seq<u8>, Nonce, Key) -> seq<u8>,
    /** `crypto_secretbox_open_easy(ciphertext, nonce, key)`; `None` when it returns -1. */
    open: (seq<u8>, Nonce, Key) -> Option<seq<u8>>
  )

  /** `kp` is a keypair as `Keypair::new` makes one: its public half belongs to its secret half. */
  predicate IsKeypair(p: Primitives, kp: Keypair) {
    kp.pubkey == p.edPublic(kp.secret)
  }

  /** Converting both halves of an Ed25519 keypair yields an X25519 keypair. */
  ghost predicate ConversionLaw(p: Primitives) {
    forall kp: Keypair :: IsKeypair(p, kp) ==> p.pkToCurve(kp.pubkey) == p.scalarmultBase(p.skToCurve(kp))
  }

  /** libsodium's key-exchange guarantee: for X25519 keypairs of a client and a
      server, the client's receive key is the server's transmit key and the
      client's transmit key is the server's receive key. */
  ghost predicate KxLaw(p: Primitives) {
    forall csk: Bytes32, ssk: Bytes32 ::
      var client := p.kxClient(p.scalarmultBase(csk), csk, p.scalarmultBase(ssk));
      var server := p.kxServer(p.scalarmultBase(ssk), ssk, p.scalarmultBase(csk));
      client.receiveKey == server.transmitKey && client.transmitKey == server.receiveKey
  }

  /** secretbox: the combined output is `MACBYTES` longer than the message,
      opening under the same nonce and key recovers the message, and whatever
      opens is exactly `MACBYTES` shorter than its ciphertext. */
  ghost predicate SecretboxLaw(p: Primitives) {
    && (forall m, n, k :: |p.seal(m, n, k)| == CRYPTO_SECRETBOX_MACBYTES + |m|)
    && (forall m, n, k :: p.open(p.seal(m, n, k), n, k) == Some(m))
    && (forall c, n, k :: p.open(c, n, k).Some? ==>
          |c| >= CRYPTO_SECRETBOX_MACBYTES && |p.open(c, n, k).value| == |c| - CRYPTO_SECRETBOX_MACBYTES)
  }

  ghost predicate Laws(p: Primitives) {
    ConversionLaw(p) && KxLaw(p) && SecretboxLaw(p)
  }

  /** A bundle of primitives that keeps libsodium's promises. */
  type Sodium = p: Primitives | Laws(p) ghost witness Reference()

  /** A deliberately non-cryptographic bundle whose only purpose is to show that
      the laws can all hold at once: X25519 keys are the secrets themselves, the
      session keys are the two public keys, and the tag is the key's first bytes. */
  function Reference(): Primitives {
    Primitives(
      edPublic := (secret: Bytes32) => secret,
      skToCurve := (kp: Keypair) => kp.secret,
      pkToCurve := (pk: Pubkey) => pk,
      scalarmultBase := (sk: Bytes32) => sk,
      kxClient := (clientPk: Bytes32, clientSk: Bytes32, serverPk: Bytes32) => SharedKey(clientPk, serverPk),
      kxServer := (serverPk: Bytes32, serverSk: Bytes32, clientPk: Bytes32) => SharedKey(serverPk, clientPk),
      seal := (m: seq<u8>, n: Nonce, k: Key) => k[..CRYPTO_SECRETBOX_MACBYTES] + m,
      open := (c: seq<u8>, n: Nonce, k: Key) =>
        if |c| >= CRYPTO_SECRETBOX_MACBYTES && c[..CRYPTO_SECRETBOX_MACBYTES] == k[..CRYPTO_SECRETBOX_MACBYTES]
        then Some(c[CRYPTO_SECRETBOX_MACBYTES..])
        else None
    )
  }
}
