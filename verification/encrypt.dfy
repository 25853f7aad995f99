/** The client's key agreement and message sealing (client/src/encrypt.rs).

    Each side turns its own signing keypair and the peer's public key into a
    `SharedKey`. The side with the smaller public key runs libsodium's server
    key exchange, the other the client one, so the two sides reach
    complementary keys without exchanging anything. Messages are sealed with
    secretbox under a fixed all-zero nonce. */
module Encrypt {
  import opened Common
  import opened Pubkeys
  import opened Sodium
  import Utf8

  datatype Role = Server | Client

  /** The key-exchange role a party takes, decided by comparing public keys only. */
  function RoleFor(mine: Pubkey, theirs: Pubkey): Role {
    if Less(mine, theirs) then Server else Client
  }

  /** Two parties with distinct public keys always take opposite roles, whoever calls first. */
  lemma RolesOpposite(a: Pubkey, b: Pubkey)
    requires a != b
    ensures RoleFor(a, b) != RoleFor(b, a)
    ensures RoleFor(a, b) == Server <==> RoleFor(b, a) == Client
  {
    Trichotomy(a, b);
  }

  /** `SharedKey::new_client`: the session keys as the client of the exchange. */
  function NewClient(lib: Sodium, clientPublic: Bytes32, clientSecret: Bytes32, serverPublic: Bytes32): SharedKey {
    lib.kxClient(clientPublic, clientSecret, serverPublic)
  }

  /** `SharedKey::new_server`: the session keys as the server of the exchange. */
  function NewServer(lib: Sodium, serverPublic: Bytes32, serverSecret: Bytes32, clientPublic: Bytes32): SharedKey {
    lib.kxServer(serverPublic, serverSecret, clientPublic)
  }

  /** `SharedKey::new`: convert both identities to X25519 and run the exchange in
      the role the key comparison picks. */
  function NewSharedKey(lib: Sodium, mine: Keypair, theirs: Pubkey): SharedKey {
    match RoleFor(mine.pubkey, theirs)
    case Server => NewServer(lib, lib.pkToCurve(mine.pubkey), lib.skToCurve(mine), lib.pkToCurve(theirs))
    case Client => NewClient(lib, lib.pkToCurve(mine.pubkey), lib.skToCurve(mine), lib.pkToCurve(theirs))
  }

  /** The server and client runs of the exchange between two keypairs complement each other. */
  lemma ServerMeetsClient(lib: Sodium, server: Keypair, client: Keypair)
    requires IsKeypair(lib, server) && IsKeypair(lib, client)
    ensures var s := NewServer(lib, lib.pkToCurve(server.pubkey), lib.skToCurve(server), lib.pkToCurve(client.pubkey));
            var c := NewClient(lib, lib.pkToCurve(client.pubkey), lib.skToCurve(client), lib.pkToCurve(server.pubkey));
            s.transmitKey == c.receiveKey && s.receiveKey == c.transmitKey
  {
    var ssk, csk := lib.skToCurve(server), lib.skToCurve(client);
    assert lib.pkToCurve(server.pubkey) == lib.scalarmultBase(ssk);
    assert lib.pkToCurve(client.pubkey) == lib.scalarmultBase(csk);
    var c := lib.kxClient(lib.scalarmultBase(csk), csk, lib.scalarmultBase(ssk));
    var s := lib.kxServer(lib.scalarmultBase(ssk), ssk, lib.scalarmultBase(csk));
    assert c.receiveKey == s.transmitKey && c.transmitKey == s.receiveKey;
  }

  /** Key symmetry: what one party transmits with, the other receives with, in both directions. */
  lemma SharedKeysAgree(lib: Sodium, alpha: Keypair, beta: Keypair)
    requires IsKeypair(lib, alpha) && IsKeypair(lib, beta)
    requires alpha.pubkey != beta.pubkey
    ensures NewSharedKey(lib, alpha, beta.pubkey).transmitKey == NewSharedKey(lib, beta, alpha.pubkey).receiveKey
    ensures NewSharedKey(lib, beta, alpha.pubkey).transmitKey == NewSharedKey(lib, alpha, beta.pubkey).receiveKey
  {
    RolesOpposite(alpha.pubkey, beta.pubkey);
    if RoleFor(alpha.pubkey, beta.pubkey) == Server {
      ServerMeetsClient(lib, alpha, beta);
    } else {
      ServerMeetsClient(lib, beta, alpha);
    }
  }

  /** Both directions seal with this fixed nonce. */
  const ZERO_NONCE: Nonce := Zeros(CRYPTO_SECRETBOX_NONCEBYTES)

  /** `Key::encrypt`: secretbox under the zero nonce; a function of key and plaintext alone. */
  function EncryptText(lib: Sodium, key: Key, plaintext: seq<u8>): (ciphertext: seq<u8>)
    ensures |ciphertext| == CRYPTO_SECRETBOX_MACBYTES + |plaintext|
  {
    lib.seal(plaintext, ZERO_NONCE, key)
  }

  /** The panics of `Key::decrypt`, as error values. */
  datatype DecryptError =
    | CiphertextTooShort    // `ciphertext.len() - MACBYTES` underflows
    | AuthenticationFailed  // `crypto_secretbox_open_easy` returns -1
    | InvalidUtf8           // `String::from_utf8` fails

  /** `Key::decrypt`: open under the zero nonce and read the bytes as text. */
  function DecryptText(lib: Sodium, key: Key, ciphertext: seq<u8>): (r: Result<seq<u8>, DecryptError>)
    ensures |ciphertext| < CRYPTO_SECRETBOX_MACBYTES <==> r == Err(CiphertextTooShort)
    ensures r.Ok? ==> |r.value| == |ciphertext| - CRYPTO_SECRETBOX_MACBYTES && Utf8.Valid(r.value)
  {
    if |ciphertext| < CRYPTO_SECRETBOX_MACBYTES then Err(CiphertextTooShort)
    else match lib.open(ciphertext, ZERO_NONCE, key)
      case None => Err(AuthenticationFailed)
      case Some(plaintext) => if Utf8.Valid(plaintext) then Ok(plaintext) else Err(InvalidUtf8)
  }

  /** Round trip: text sealed under a key opens under the same key. */
  lemma DecryptEncrypt(lib: Sodium, key: Key, plaintext: seq<u8>)
    requires Utf8.Valid(plaintext)
    ensures DecryptText(lib, key, EncryptText(lib, key, plaintext)) == Ok(plaintext)
  {
  }

  /** The receiving side opens what the sending side sealed, given the kx and secretbox laws. */
  lemma PeerReadsWhatWasSent(lib: Sodium, alpha: Keypair, beta: Keypair, plaintext: seq<u8>)
    requires IsKeypair(lib, alpha) && IsKeypair(lib, beta) && alpha.pubkey != beta.pubkey
    requires Utf8.Valid(plaintext)
    ensures var sent := EncryptText(lib, NewSharedKey(lib, alpha, beta.pubkey).transmitKey, plaintext);
            DecryptText(lib, NewSharedKey(lib, beta, alpha.pubkey).receiveKey, sent) == Ok(plaintext)
  {
    SharedKeysAgree(lib, alpha, beta);
  }
}
