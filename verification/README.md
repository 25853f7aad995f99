# Direct messenger: on-chain message log, key agreement and reader

This project models the core of a two-party encrypted messenger built on Solana. It also proves properties of that model. There are three cooperating parts.

- **The on-chain program** (program/src/lib.rs). A chat is a `DirectChat` head record holding the two participants and the address of the newest message. Each `Message` record holds a direction, an encrypted text and the address of the message before it. `send_direct_message` does four things:
  - it enforces the 255-byte bound on the text;
  - it enforces the participant constraint on the sender;
  - it records who sent the message;
  - it links the new message in front of the chain.

  The ledger is modelled as a `Conversation`: the head plus an arena mapping message addresses to messages. A send is a pure function. It returns the conversation after the send, or the error that aborts the transaction. `direct_message_seed` is modelled in module `Program`. The Borsh layout of both account types is in module `Codec`.
- **Key agreement and sealing** (client/src/encrypt.rs). Each party turns its signing keypair and the peer's public key into a `SharedKey` of two session keys. The party with the smaller public key takes the server role of the key exchange, and the other takes the client role. Texts are sealed with secretbox under a fixed all-zero nonce. The libsodium calls are function-valued fields of `Sodium.Primitives`. The guarantees libsodium documents are the predicate `Sodium.Laws`:
  - converting an Ed25519 keypair yields an X25519 keypair;
  - client and server session keys complement each other;
  - secretbox round-trips, and its length equations hold.

  Every theorem holds for every bundle of primitives that obeys those laws. `Sodium.Reference` is a non-cryptographic bundle that shows the laws are consistent.
- **The command-line client** (client/src/main.rs). `create_encryption_key` picks the key-exchange role. The send path seals the text under the sender's transmit key. `print_messages` walks the chain from the head, newest first. For each message it picks the junior or the senior key by the message's direction, decrypts, and prints the line.

main.rs is written against a different version of the program than lib.rs:
- it reads `chat.junior` / `chat.senior` where lib.rs stores `initiator` / `reciprocator`;
- it reads `JuniorToSenior` / `SeniorToJunior` where lib.rs stores `InitiatorToReciprocator` / `ReciprocatorToInitiator`.

The model joins the two under one stated hypothesis. The junior of a chat is the smaller of its two keys, which is the first component of `direct_message_seed`. A message is `JuniorToSenior` exactly when the junior sent it. This is the same comparison that main.rs:102 and encrypt.rs:11 make.

The main result is `Client.ConversationReadsBack`. Both parties of a fresh chat send messages through the client. Afterwards, either party's `print_messages` prints every message, newest first, in plain text and under its sender's name, with no error. The direction indicator points from the smaller key to the larger exactly when the smaller key sent the message. Along the way, `Client.ReaderKeyIsSenderKey` shows that every message is opened with exactly the key its sender sealed it with: the sender's transmit key.

Modules:
- `Common`: bytes, 32-byte arrays, `Option`, `Result`.
- `Pubkeys`: the key order.
- `Utf8`: the `String::from_utf8` check.
- `Sodium`: the libsodium calls.
- `Encrypt`: encrypt.rs.
- `Program`: lib.rs.
- `Codec`: the account layout.
- `Chain`: the chain walk and the history that sends build.
- `Client`: main.rs.

## Model

| member | source | states |
|---|---|---|
| Pubkeys.Trichotomy | program/src/lib.rs:142 | Of two distinct public keys, exactly one is smaller under the unsigned lexicographic byte order. Both the seed and the role choice compare by this order. |
| Program.DirectMessageSeed | program/src/lib.rs:141-147 | The seed is a permutation of the two keys, and its first component is never greater than its second. |
| Program.SeedSymmetric | program/src/lib.rs:141-147 | The seed is the same whichever party is named first. |
| Program.SeedDeterminesPair | program/src/lib.rs:141-147 | Two pairs with the same seed are the same unordered pair. |
| Program.InitialiseDirectChat | program/src/lib.rs:43-50 | The signer becomes the initiator and the argument becomes the reciprocator. The chat starts with no messages and no newest message. |
| Program.SendDirectMessage | program/src/lib.rs:52-71 | A sender outside the chat is refused by the participant constraint. For a participant, a text over 255 bytes is refused with `MessageTextTooLarge`, and the send succeeds exactly when neither applies. On success: both participants are unchanged; the head names the new message; the arena gains exactly that message and keeps every old one; the new message links to the previous head and holds the text; its direction is initiator-to-reciprocator iff the initiator sent it. |
| Program.SenderOfDirection | program/src/lib.rs:58-62 | The recorded direction identifies the participant who sent the message. |
| Program.Replay | program/src/lib.rs:122-139 | A sequence of sends at fresh addresses succeeds iff every send passes the participant constraint and the size bound. The participants never change, and the arena's key set is exactly the old keys plus the new addresses. |
| Program.ReplayKeepsMessages | program/src/lib.rs:52-71 | Messages are immutable: after a successful run of sends, every message that was already in the arena is unchanged, because each send only creates a new account and rewrites the chat head. |
| Codec.U32RoundTrip | program/src/lib.rs:108 | The 4-byte little-endian length prefix of a `Vec<u8>` reads back as the length written. |
| Codec.LinkRoundTrip | program/src/lib.rs:107 | An optional link (tag byte, then the 32-byte key if present) reads back as written, together with the number of bytes it took. |
| Codec.MessageRoundTrip | program/src/lib.rs:104-109 | A serialised `Message` deserialises back to itself, whatever bytes follow it in the account. |
| Codec.MessageFitsAccount | program/src/lib.rs:111-114 | A message whose text is within the 255-byte bound fits in `MESSAGE_MAX_SIZE` bytes. It fills them if and only if it has a link and a 255-byte text. |
| Codec.ChatRoundTrip | program/src/lib.rs:94-99 | A serialised `DirectChat` deserialises back to itself. |
| Codec.ChatFitsAccount | program/src/lib.rs:101-102 | Every chat head fits in `DIRECT_CHAT_SIZE` bytes, and fills them exactly when it names a newest message. |
| Encrypt.RolesOpposite | client/src/encrypt.rs:10-24 | For distinct keys, the two calls `SharedKey::new(a, b)` and `SharedKey::new(b, a)` take opposite roles: exactly one of them is the server. |
| Encrypt.ServerMeetsClient | client/src/encrypt.rs:26-72 | The server run and the client run of the exchange between two keypairs complement each other: each one's transmit key is the other's receive key. |
| Encrypt.SharedKeysAgree | client/src/encrypt.rs:187-191 | For two keypairs with distinct public keys, alpha's transmit key is beta's receive key, and beta's transmit key is alpha's receive key. |
| Encrypt.EncryptText | client/src/encrypt.rs:79-102 | The ciphertext is exactly `MACBYTES` longer than the plaintext. |
| Encrypt.DecryptText | client/src/encrypt.rs:104-127 | A ciphertext shorter than `MACBYTES` fails at the length subtraction, and only such a ciphertext fails there. Any text returned is exactly `MACBYTES` shorter than the ciphertext and is valid UTF-8. |
| Encrypt.DecryptEncrypt | client/src/encrypt.rs:193-195 | Text sealed under a key opens under the same key to the same text. |
| Encrypt.PeerReadsWhatWasSent | client/src/encrypt.rs:183-196 | What one party seals with its transmit key, the other party opens with its receive key. |
| Utf8.AsciiIsValid | client/src/encrypt.rs:126 | ASCII text always passes the UTF-8 check the decrypted bytes go through. |
| Chain.Walk | client/src/main.rs:85-98 | Every message read is in the arena as stored, and was not read before. The first message read is the starting address, and each message read links to the next one read. No address is read twice. The walk stops only where it must: it completes exactly when the link after the last message read (or the starting link, if none was read) is `None`. Otherwise it stops at that link's address, either because no account is there and it was not visited, or because it was visited already or read in this walk. |
| Chain.WalkChained | client/src/main.rs:85-98 | Walking a chained history from the link to its position-k message yields those k messages newest first, and then reaches `None`. |
| Chain.SendThreads | program/src/lib.rs:66-68 | A successful send to a threaded conversation leaves it threaded, with the new address appended: distinct addresses, each linking to the one before it, the head naming the newest. |
| Chain.SendsAreThreaded | program/src/lib.rs:52-71 | Any sequence of accepted sends to a new chat succeeds. The arena is then the chain of exactly those messages, in order, and each records its sender's direction and text. |
| Chain.ReadsThreaded | client/src/main.rs:80-98 | Reading a threaded conversation from its head returns its whole history, newest first, ending at `None`. |
| Chain.ReadsBackNewestFirst | program/src/lib.rs:57-68 | After N accepted sends to a new chat, the walk from `last_message` returns exactly those N messages, newest first: their addresses, texts and senders. The oldest links to `None`. |
| Client.CreateEncryptionKeyIsSharedKey | client/src/main.rs:101-107 | The client's role choice gives the same session keys as `SharedKey::new`. |
| Client.EncryptionKeysComplement | client/src/main.rs:101-107 | The session keys the two parties' clients compute complement each other in both directions. |
| Client.JuniorIsSmaller | client/src/main.rs:91-93 | The junior and the senior are the chat's two participants, and the junior's key is strictly smaller. |
| Client.JuniorIffSmaller | client/src/main.rs:101-107 | A participant is the junior exactly when its key is smaller than its peer's, which is exactly when it takes the server role. |
| Client.RankNamesSender | client/src/main.rs:91-94 | The name printed beside a message is the sender the program recorded. The indicator is junior-to-senior exactly when the sender's key is smaller than the receiver's. |
| Client.OwnAndPeerKeys | client/src/main.rs:81-84 | Through the junior/senior key selection, a reader opens their own messages with their transmit key and the peer's messages with their receive key, whether the reader is junior or senior. |
| Client.ReaderKeyIsSenderKey | client/src/main.rs:81-95 | Whichever participant reads, the key chosen for each message equals the transmit key its sender sealed it with. |
| Client.Render | client/src/main.rs:85-98 | One line is printed per message until the first message that does not decrypt, and each line is that message's decryption. Printing stops without error exactly when the chain ends at `None` and every message decrypts. Otherwise the stop names the failing message or the end of the walk. |
| Client.PrintMessages | client/src/main.rs:75-99 | The loop prints exactly the transcript of a walk from the head, rendered line by line. On a cycle it stops instead of looping. |
| Client.SendMessage | client/src/main.rs:18-22 | A non-participant is refused. For a participant, the send succeeds exactly when the text is at most 255 - 16 bytes, because sealing adds the tag before the program's bound applies. On success the new head holds a ciphertext that the sender's transmit key opens to the text. |
| Client.Seal | client/src/main.rs:19 | The send for an outgoing message comes from its author and goes to its address. Its ciphertext is the tag length longer than the text. For a UTF-8 text, the author's transmit key for the addressee opens the ciphertext to exactly that text. |
| Client.LineReads | client/src/main.rs:91-96 | A message sealed by the client is printed, by either reader, as the plain text under its author's name. The indicator points from the smaller key exactly when the author's key is smaller. |
| Client.SealedAccepted | client/src/main.rs:18-22 | Messages the client seals with texts at most the bound less the tag, sent to distinct new addresses, all pass the program's participant and size checks. |
| Client.SealedReplay | client/src/main.rs:85-98 | Messages both parties send through the client are accepted. Reading the chat from its head meets them all, newest first, each at its address with its sealed text and its author as sender, and the walk ends at `None`. |
| Client.SealedEntries | client/src/main.rs:91-96 | Entries carrying the texts and senders of the sealed sends, newest first, are the sealed messages of the corresponding outgoing messages. |
| Client.ReadsAllSealed | client/src/main.rs:91-96 | A chain whose entries are the sealed messages, newest first, prints exactly their expected lines and then stops without error. |
| Client.ConversationReadsBack | client/src/main.rs:75-99 | End to end: after the two parties of a new chat exchange messages, either party's `print_messages` prints every message, newest first, decrypted to its text, under its sender, with no error. |

## Left out
- Network and RPC plumbing is not modelled: transaction building and signing, `execute`, `RpcClient` and the test harness. `main` is modelled only as its pure steps: key choice, sealing, the send, and printing.
- The instruction builders (program/src/lib.rs:6-37) and Anchor's account machinery are not modelled: the discriminator, `init`, `payer`, `owner`, `space` and rent. The participant constraint (program/src/lib.rs:128) is the `ParticipantConstraint` error. The `space` reservations are checked against the Borsh layout in `Codec`.
- Program.SendDirectMessage takes the fresh message address as a precondition. The message account (program/src/lib.rs:131-137) has no `seeds` constraint, so the program creates whatever new account the transaction passes. Anchor's `init` refuses an address that is already in use. The client derives the address from a random 8-byte seed (client/src/main.rs:45-46), and so does the test. That seed and the program-derived address hashing are not modelled.
- Program.SendDirectMessage checks the participant constraint before the size bound. Anchor validates accounts before the handler runs.
- Program.SendDirectMessage writes the new head although the chat account of `SendDirectMessage` (program/src/lib.rs:126-130) carries no `mut` marker. The model follows the handler (program/src/lib.rs:67-68) and program/tests/integration.rs:58 and 97, which expect the head to advance. It does not model what the framework persists.
- Codec: the 4-byte length prefix is modelled only for lengths below 2^32. The Borsh `u32` overflow is out of range for a 255-byte text.
- libsodium internals are left out: the Ed25519 to X25519 conversion, `crypto_kx` and XSalsa20-Poly1305. They are uninterpreted functions constrained by `Sodium.Laws`. The `assert_eq!` checks on their return codes and on key widths are taken to pass.
- Encrypt.DecryptText reports its three panics as error values: the length underflow, a failed authentication and invalid UTF-8. It does not abort.
- No confidentiality or tamper-resistance property is stated. Every message is sealed under the same all-zero nonce, so neither would hold.
- Client.SendMessage requires its plaintext to be valid UTF-8, because the client takes the message as a Rust `&str`.
- Client.PrintMessages and Chain.Walk end with `Cycle` / `Revisited` on a chain that loops back. The client would loop forever there. A chain built by sends never loops (`Chain.ReadsBackNewestFirst`).
- Client.PrintMessages starts from a chat head it is given. Fetching that head by `direct_chat_pda` is not modelled, and neither are its "No messages" and "Not a DirectChat account" panics (client/src/main.rs:76-79). Neither is the deserialisation of each message account (client/src/main.rs:89-90): the arena holds typed messages, and `Codec` states the byte layout.
- Client.Render records the printed line as its indicator, name and text. The `println!` formatting is not modelled.
- The junior/senior reading of main.rs is a hypothesis, not source text. lib.rs has neither field, and encrypt.rs has neither `new_as_junior` nor `new_as_senior`. The model maps `new_as_junior` to the server role and `new_as_senior` to the client role, as `SharedKey::new` does (client/src/encrypt.rs:11-23).
- The builder `send_direct_mesage` is called with five arguments in the test and with six in client/src/main.rs:47-54 (sender, receiver, chat, message seed, message address, text), while lib.rs defines it with four. The arities are not reconciled: `Client.SendMessage` replaces the client's call with the handler of lib.rs, taking the message address as a parameter and leaving the random seed out.
- Concurrent sends to one chat and ledger write conflicts are left out.
