/** The command-line client (client/src/main.rs): sealing an outgoing message
    and printing a chat.

    main.rs names the two parties of a chat `junior` and `senior` and records
    directions as `JuniorToSenior` / `SeniorToJunior`, while the program stores
    `initiator` / `reciprocator` and `InitiatorToReciprocator` /
    `ReciprocatorToInitiator`. The model reads main.rs against the program
    under one stated hypothesis: the junior of a chat is the smaller of its two
    keys, the first component of `direct_message_seed`, which is also the
    comparison `create_encryption_key` and `SharedKey::new` make. */
module Client {
  import opened Common
  import opened Pubkeys
  import opened Sodium
  import opened Encrypt
  import opened Program
  import opened Chain
  import Utf8

  /** `create_encryption_key`: the party with the smaller key is the junior and
      runs the exchange as its server (`new_as_junior`); the other runs it as
      the client (`new_as_senior`). */
  function CreateEncryptionKey(lib: Sodium, me: Keypair, them: Pubkey): SharedKey {
    if Less(me.pubkey, them) then
      NewServer(lib, lib.pkToCurve(me.pubkey), lib.skToCurve(me), lib.pkToCurve(them))
    else
      NewClient(lib, lib.pkToCurve(me.pubkey), lib.skToCurve(me), lib.pkToCurve(them))
  }

  /** The client's role choice is the one `SharedKey::new` makes. */
  lemma CreateEncryptionKeyIsSharedKey(lib: Sodium, me: Keypair, them: Pubkey)
    ensures CreateEncryptionKey(lib, me, them) == NewSharedKey(lib, me, them)
  {
  }

  /** What either party transmits with, the other receives with. */
  lemma EncryptionKeysComplement(lib: Sodium, alpha: Keypair, beta: Keypair)
    requires IsKeypair(lib, alpha) && IsKeypair(lib, beta) && alpha.pubkey != beta.pubkey
    ensures CreateEncryptionKey(lib, alpha, beta.pubkey).transmitKey == CreateEncryptionKey(lib, beta, alpha.pubkey).receiveKey
    ensures CreateEncryptionKey(lib, beta, alpha.pubkey).transmitKey == CreateEncryptionKey(lib, alpha, beta.pubkey).receiveKey
  {
    CreateEncryptionKeyIsSharedKey(lib, alpha, beta.pubkey);
    CreateEncryptionKeyIsSharedKey(lib, beta, alpha.pubkey);
    SharedKeysAgree(lib, alpha, beta);
  }

  /** `chat.junior`: the smaller key of the chat. */
  function Junior(chat: DirectChat): Pubkey {
    DirectMessageSeed(chat.initiator, chat.reciprocator).0
  }

  /** `chat.senior`: the larger key of the chat. */
  function Senior(chat: DirectChat): Pubkey {
    DirectMessageSeed(chat.initiator, chat.reciprocator).1
  }

  /** Junior and senior are the two participants, the junior strictly smaller. */
  lemma JuniorIsSmaller(chat: DirectChat)
    requires chat.initiator != chat.reciprocator
    ensures Less(Junior(chat), Senior(chat))
    ensures {Junior(chat), Senior(chat)} == {chat.initiator, chat.reciprocator}
  {
    var seed := DirectMessageSeed(chat.initiator, chat.reciprocator);
    assert seed.0 in multiset{chat.initiator, chat.reciprocator};
    assert seed.1 in multiset{chat.initiator, chat.reciprocator};
    LessTotal(seed.0, seed.1);
  }

  /** A participant is the junior of a chat exactly when its key is smaller
      than its peer's, the comparison `create_encryption_key` makes. */
  lemma JuniorIffSmaller(chat: DirectChat, me: Pubkey, them: Pubkey)
    requires me != them
    requires || (chat.initiator == me && chat.reciprocator == them)
             || (chat.initiator == them && chat.reciprocator == me)
    ensures me == Junior(chat) <==> Less(me, them)
    ensures me == Junior(chat) <==> RoleFor(me, them) == Server
  {
    JuniorIsSmaller(chat);
    if me != Junior(chat) {
      assert me == Senior(chat) && them == Junior(chat);
      LessAsymmetric(them, me);
    }
  }

  /** The direction of a message as main.rs reads it. */
  datatype Rank = JuniorToSenior | SeniorToJunior

  /** The junior/senior reading of a direction the program recorded. */
  function Ranked(chat: DirectChat, direction: Direction): Rank {
    if SenderOf(chat, direction) == Junior(chat) then JuniorToSenior else SeniorToJunior
  }

  /** The name printed beside a message of the given rank. */
  function RankedName(chat: DirectChat, rank: Rank): Pubkey {
    match rank
    case JuniorToSenior => Junior(chat)
    case SeniorToJunior => Senior(chat)
  }

  /** The participant a message in `direction` was addressed to. */
  function ReceiverOf(chat: DirectChat, direction: Direction): Pubkey {
    match direction
    case InitiatorToReciprocator => chat.reciprocator
    case ReciprocatorToInitiator => chat.initiator
  }

  /** The printed name is the sender the program recorded, and the arrow points
      from the smaller key to the larger exactly when the sender is the smaller. */
  lemma RankNamesSender(chat: DirectChat, direction: Direction)
    requires chat.initiator != chat.reciprocator
    ensures RankedName(chat, Ranked(chat, direction)) == SenderOf(chat, direction)
    ensures Ranked(chat, direction) == JuniorToSenior <==> Less(SenderOf(chat, direction), ReceiverOf(chat, direction))
  {
    JuniorIsSmaller(chat);
    var sender, receiver := SenderOf(chat, direction), ReceiverOf(chat, direction);
    if sender == Junior(chat) {
      assert receiver == Senior(chat);
    } else {
      assert sender == Senior(chat) && receiver == Junior(chat);
      LessAsymmetric(receiver, sender);
    }
  }

  /** The two keys a reader decrypts with, by the rank of the message. */
  datatype ReadingKeys = ReadingKeys(juniorKey: Key, seniorKey: Key)

  /** The key selection of `print_messages` before its loop. */
  function ReaderKeys(key: SharedKey, me: Pubkey, chat: DirectChat): ReadingKeys {
    if me == Junior(chat) then ReadingKeys(key.transmitKey, key.receiveKey)
    else ReadingKeys(key.receiveKey, key.transmitKey)
  }

  /** The key `print_messages` picks for a message of the given rank. */
  function DecryptKey(keys: ReadingKeys, rank: Rank): Key {
    match rank
    case JuniorToSenior => keys.juniorKey
    case SeniorToJunior => keys.seniorKey
  }

  /** A participant opens their own messages with their transmit key and the
      peer's with their receive key, whichever of the two is junior. */
  lemma OwnAndPeerKeys(key: SharedKey, me: Pubkey, chat: DirectChat, direction: Direction)
    requires chat.initiator != chat.reciprocator && IsParticipant(chat, me)
    ensures DecryptKey(ReaderKeys(key, me, chat), Ranked(chat, direction)) ==
      if SenderOf(chat, direction) == me then key.transmitKey else key.receiveKey
  {
    JuniorIsSmaller(chat);
    if me != Junior(chat) {
      assert me == Senior(chat);
    }
  }

  /** Every message is opened with the key its sender sealed it with: the
      sender's transmit key, whichever participant reads. */
  lemma ReaderKeyIsSenderKey(lib: Sodium, reader: Keypair, peer: Keypair, chat: DirectChat, direction: Direction)
    requires IsKeypair(lib, reader) && IsKeypair(lib, peer) && reader.pubkey != peer.pubkey
    requires || (chat.initiator == reader.pubkey && chat.reciprocator == peer.pubkey)
             || (chat.initiator == peer.pubkey && chat.reciprocator == reader.pubkey)
    ensures var fromReader := SenderOf(chat, direction) == reader.pubkey;
      var sender := if fromReader then reader else peer;
      var receiver := if fromReader then peer else reader;
      DecryptKey(ReaderKeys(CreateEncryptionKey(lib, reader, peer.pubkey), reader.pubkey, chat), Ranked(chat, direction))
        == CreateEncryptionKey(lib, sender, receiver.pubkey).transmitKey
  {
    OwnAndPeerKeys(CreateEncryptionKey(lib, reader, peer.pubkey), reader.pubkey, chat, direction);
    EncryptionKeysComplement(lib, reader, peer);
  }

  /** One printed line of `print_messages`: indicator (`>>>` for
      `JuniorToSenior`, `<<<` otherwise), name and decrypted text. */
  datatype Line = Line(indicator: Rank, name: Pubkey, text: seq<u8>)

  /** Why printing stopped before the end of the chain. */
  datatype ReadError =
    | MessageNotFound(at: Pubkey)                     // "Message PDA not found"
    | Undecryptable(at: Pubkey, cause: DecryptError)  // a panic of `Key::decrypt`
    | Cycle(at: Pubkey)                               // the chain returns to a message already printed

  /** The lines printed, oldest line first, and the stop if printing did not reach `None`. */
  datatype Transcript = Transcript(lines: seq<Line>, stop: Option<ReadError>)

  /** The body of the loop of `print_messages` for one fetched message. */
  function ReadLine(lib: Sodium, keys: ReadingKeys, chat: DirectChat, entry: Fetched): Result<Line, ReadError> {
    var rank := Ranked(chat, entry.message.direction);
    match DecryptText(lib, DecryptKey(keys, rank), entry.message.encryptedText)
    case Err(cause) => Err(Undecryptable(entry.address, cause))
    case Ok(text) => Ok(Line(rank, RankedName(chat, rank), text))
  }

  /** The stop a reader meets where the walk ended. */
  function EndError(end: WalkEnd): Option<ReadError> {
    match end
    case Complete => None
    case Missing(at) => Some(MessageNotFound(at))
    case Revisited(at) => Some(Cycle(at))
  }

  /** The lines printed for a walked chain: one per message until the first
      message that does not decrypt, then the reason the walk ended. */
  function Render(lib: Sodium, keys: ReadingKeys, chat: DirectChat, entries: seq<Fetched>, end: WalkEnd): (t: Transcript)
    ensures |t.lines| <= |entries|
    ensures forall i :: 0 <= i < |t.lines| ==> ReadLine(lib, keys, chat, entries[i]) == Ok(t.lines[i])
    ensures |t.lines| < |entries| ==> t.stop.Some? && ReadLine(lib, keys, chat, entries[|t.lines|]) == Err(t.stop.value)
    ensures |t.lines| == |entries| ==> t.stop == EndError(end)
    ensures t.stop == None <==> end == Complete && forall i :: 0 <= i < |entries| ==> ReadLine(lib, keys, chat, entries[i]).Ok?
    decreases |entries|
  {
    if |entries| == 0 then Transcript([], EndError(end))
    else match ReadLine(lib, keys, chat, entries[0])
      case Err(e) => Transcript([], Some(e))
      case Ok(line) =>
        var rest := Render(lib, keys, chat, entries[1..], end);
        assert forall i :: 0 <= i < |entries| - 1 ==> entries[1..][i] == entries[i + 1];
        Transcript([line] + rest.lines, rest.stop)
  }

  /** What printing yields from `next` on, having already printed the messages at `visited`. */
  function Resume(lib: Sodium, keys: ReadingKeys, conv: Conversation, visited: set<Pubkey>, next: Option<Pubkey>): Transcript {
    var w := Walk(conv.arena, visited, next);
    Render(lib, keys, conv.chat, w.entries, w.end)
  }

  /** What `print_messages` prints for the reader `me` holding `key`. */
  function Printed(lib: Sodium, key: SharedKey, me: Pubkey, conv: Conversation): Transcript {
    Resume(lib, ReaderKeys(key, me, conv.chat), conv, {}, conv.chat.lastMessage)
  }

  /** Lines already printed, followed by what printing goes on to produce. */
  function Prepend(lines: seq<Line>, t: Transcript): (r: Transcript)
    ensures |r.lines| == |lines| + |t.lines| && r.stop == t.stop
  {
    Transcript(lines + t.lines, t.stop)
  }

  /** Printing one fetched, not yet printed message: its line, then the rest of the chain. */
  lemma ResumeStep(lib: Sodium, keys: ReadingKeys, conv: Conversation, visited: set<Pubkey>, address: Pubkey)
    requires address !in visited && address in conv.arena
    ensures var entry := Fetched(address, conv.arena[address]);
      var rest := Resume(lib, keys, conv, visited + {address}, conv.arena[address].previousMessage);
      Resume(lib, keys, conv, visited, Some(address)) ==
        match ReadLine(lib, keys, conv.chat, entry)
        case Err(e) => Transcript([], Some(e))
        case Ok(line) => Transcript([line] + rest.lines, rest.stop)
  {
    WalkStep(conv.arena, visited, address);
    var w := Walk(conv.arena, visited + {address}, conv.arena[address].previousMessage);
    var entries := [Fetched(address, conv.arena[address])] + w.entries;
    assert entries[1..] == w.entries;
  }

  /** A line printed now may as well have been printed before. */
  lemma PrependLine(lines: seq<Line>, line: Line, t: Transcript)
    ensures Prepend(lines, Transcript([line] + t.lines, t.stop)) == Prepend(lines + [line], t)
  {
    assert lines + ([line] + t.lines) == (lines + [line]) + t.lines;
  }

  /** `print_messages`: start at the head and print each message, following
      `previous_message` until `None`. */
  method PrintMessages(lib: Sodium, key: SharedKey, me: Pubkey, conv: Conversation) returns (t: Transcript)
    ensures t == Printed(lib, key, me, conv)
  {
    var keys := ReaderKeys(key, me, conv.chat);
    var next := conv.chat.lastMessage;
    var visited: set<Pubkey> := {};
    var lines: seq<Line> := [];
    while next.Some?
      invariant Prepend(lines, Resume(lib, keys, conv, visited, next)) == Printed(lib, key, me, conv)
      decreases conv.arena.Keys - visited
    {
      var address := next.value;
      if address in visited {
        return Transcript(lines, Some(Cycle(address)));
      }
      if address !in conv.arena {
        return Transcript(lines, Some(MessageNotFound(address)));
      }
      var message := conv.arena[address];
      ResumeStep(lib, keys, conv, visited, address);
      match ReadLine(lib, keys, conv.chat, Fetched(address, message)) {
        case Err(e) =>
          return Transcript(lines, Some(e));
        case Ok(line) =>
          PrependLine(lines, line, Resume(lib, keys, conv, visited + {address}, message.previousMessage));
          lines := lines + [line];
      }
      visited := visited + {address};
      next := message.previousMessage;
    }
    t := Transcript(lines, None);
  }

  /** The sending half of `main` (main.rs:18-22): seal the text under the
      sender's transmit key and submit it at a fresh message address. */
  function SendMessage(lib: Sodium, conv: Conversation, me: Keypair, to: Pubkey, address: Pubkey, plaintext: seq<u8>)
    : (r: Result<Conversation, ChatError>)
    requires address !in conv.arena && Utf8.Valid(plaintext)
    ensures !IsParticipant(conv.chat, me.pubkey) ==> r == Err(ParticipantConstraint)
    ensures IsParticipant(conv.chat, me.pubkey) ==>
      (r.Ok? <==> |plaintext| <= MAX_STRING_BYTES - CRYPTO_SECRETBOX_MACBYTES)
    ensures r.Ok? ==>
      && r.value.chat.lastMessage == Some(address)
      && address in r.value.arena
      && DecryptText(lib, CreateEncryptionKey(lib, me, to).transmitKey, r.value.arena[address].encryptedText) == Ok(plaintext)
  {
    var key := CreateEncryptionKey(lib, me, to);
    DecryptEncrypt(lib, key.transmitKey, plaintext);
    SendDirectMessage(conv, me.pubkey, address, EncryptText(lib, key.transmitKey, plaintext))
  }

  /** One message a party of the chat writes: by the initiator or by the reciprocator. */
  datatype Outgoing = Outgoing(fromInitiator: bool, address: Pubkey, plaintext: seq<u8>)

  function Author(a: Keypair, b: Keypair, o: Outgoing): Keypair {
    if o.fromInitiator then a else b
  }

  function Addressee(a: Keypair, b: Keypair, o: Outgoing): Keypair {
    if o.fromInitiator then b else a
  }

  /** The send `main` submits for an outgoing message of the chat between `a` and `b`. */
  function Seal(lib: Sodium, a: Keypair, b: Keypair, o: Outgoing): (s: Send)
    ensures s.sender == Author(a, b, o).pubkey && s.address == o.address
    ensures |s.encryptedText| == CRYPTO_SECRETBOX_MACBYTES + |o.plaintext|
    ensures Utf8.Valid(o.plaintext) ==>
      DecryptText(lib, CreateEncryptionKey(lib, Author(a, b, o), Addressee(a, b, o).pubkey).transmitKey, s.encryptedText)
        == Ok(o.plaintext)
  {
    var author := Author(a, b, o);
    Send(author.pubkey, o.address,
      EncryptText(lib, CreateEncryptionKey(lib, author, Addressee(a, b, o).pubkey).transmitKey, o.plaintext))
  }

  function SealAll(lib: Sodium, a: Keypair, b: Keypair, outgoing: seq<Outgoing>): (sends: seq<Send>)
    ensures |sends| == |outgoing|
    ensures forall i :: 0 <= i < |outgoing| ==> sends[i] == Seal(lib, a, b, outgoing[i])
  {
    seq(|outgoing|, i requires 0 <= i < |outgoing| => Seal(lib, a, b, outgoing[i]))
  }

  /** The line every reader should print for an outgoing message. */
  function LineOf(a: Keypair, b: Keypair, o: Outgoing): Line {
    var author, addressee := Author(a, b, o).pubkey, Addressee(a, b, o).pubkey;
    Line(if Less(author, addressee) then JuniorToSenior else SeniorToJunior, author, o.plaintext)
  }

  /** The line a reader prints for a message sealed by `main`. */
  lemma LineReads(lib: Sodium, a: Keypair, b: Keypair, readerIsInitiator: bool, chat: DirectChat, o: Outgoing, e: Fetched)
    requires IsKeypair(lib, a) && IsKeypair(lib, b) && a.pubkey != b.pubkey
    requires chat.initiator == a.pubkey && chat.reciprocator == b.pubkey
    requires Utf8.Valid(o.plaintext)
    requires SealedEntry(lib, a, b, chat, o, e)
    ensures var reader := if readerIsInitiator then a else b;
      var peer := if readerIsInitiator then b else a;
      var keys := ReaderKeys(CreateEncryptionKey(lib, reader, peer.pubkey), reader.pubkey, chat);
      ReadLine(lib, keys, chat, e) == Ok(LineOf(a, b, o))
  {
    var reader := if readerIsInitiator then a else b;
    var peer := if readerIsInitiator then b else a;
    var d := e.message.direction;
    ReaderKeyIsSenderKey(lib, reader, peer, chat, d);
    RankNamesSender(chat, d);
    assert ReceiverOf(chat, d) == Addressee(a, b, o).pubkey;
    var sealKey := CreateEncryptionKey(lib, Author(a, b, o), Addressee(a, b, o).pubkey).transmitKey;
    assert DecryptKey(ReaderKeys(CreateEncryptionKey(lib, reader, peer.pubkey), reader.pubkey, chat), Ranked(chat, d)) == sealKey;
    DecryptEncrypt(lib, sealKey, o.plaintext);
  }

  /** The lines for `outgoing`, newest first. */
  function ExpectedLines(a: Keypair, b: Keypair, outgoing: seq<Outgoing>): (lines: seq<Line>)
    ensures |lines| == |outgoing|
    ensures forall j :: 0 <= j < |outgoing| ==> lines[j] == LineOf(a, b, outgoing[|outgoing| - 1 - j])
  {
    seq(|outgoing|, j requires 0 <= j < |outgoing| => LineOf(a, b, outgoing[|outgoing| - 1 - j]))
  }

  /** A completely walked chain whose every message decrypts prints exactly those lines. */
  lemma RenderComplete(lib: Sodium, keys: ReadingKeys, chat: DirectChat, entries: seq<Fetched>, lines: seq<Line>)
    requires |lines| == |entries|
    requires forall j :: 0 <= j < |entries| ==> ReadLine(lib, keys, chat, entries[j]) == Ok(lines[j])
    ensures Render(lib, keys, chat, entries, Complete) == Transcript(lines, None)
  {
    var t := Render(lib, keys, chat, entries, Complete);
    assert t.stop == None;
    assert t.lines == lines;
  }

  /** `e` holds the message `main` sealed for `o`, recorded as sent by its author. */
  predicate SealedEntry(lib: Sodium, a: Keypair, b: Keypair, chat: DirectChat, o: Outgoing, e: Fetched) {
    && e.message.encryptedText == Seal(lib, a, b, o).encryptedText
    && SenderOf(chat, e.message.direction) == Author(a, b, o).pubkey
  }

  /** Sealed texts within the bound, at distinct fresh addresses, pass the program's checks. */
  lemma SealedAccepted(lib: Sodium, a: Keypair, b: Keypair, outgoing: seq<Outgoing>)
    requires forall i :: 0 <= i < |outgoing| ==> |outgoing[i].plaintext| <= MAX_STRING_BYTES - CRYPTO_SECRETBOX_MACBYTES
    requires forall i, j :: 0 <= i < j < |outgoing| ==> outgoing[i].address != outgoing[j].address
    ensures var start, sends := InitialiseDirectChat(a.pubkey, b.pubkey), SealAll(lib, a, b, outgoing);
      && FreshAddresses(start, sends)
      && forall i :: 0 <= i < |sends| ==> Accepted(start.chat, sends[i])
  {
    var start, sends := InitialiseDirectChat(a.pubkey, b.pubkey), SealAll(lib, a, b, outgoing);
    forall i | 0 <= i < |outgoing|
      ensures Accepted(start.chat, sends[i])
    {
      assert sends[i] == Seal(lib, a, b, outgoing[i]);
    }
  }

  /** The sealed messages of the two parties are accepted, and reading the
      chat from its head meets all of them, newest first, ending at `None`. */
  lemma SealedReplay(lib: Sodium, a: Keypair, b: Keypair, outgoing: seq<Outgoing>)
    requires forall i :: 0 <= i < |outgoing| ==> |outgoing[i].plaintext| <= MAX_STRING_BYTES - CRYPTO_SECRETBOX_MACBYTES
    requires forall i, j :: 0 <= i < j < |outgoing| ==> outgoing[i].address != outgoing[j].address
    ensures var start, sends := InitialiseDirectChat(a.pubkey, b.pubkey), SealAll(lib, a, b, outgoing);
      && FreshAddresses(start, sends)
      && Replay(start, sends).Ok?
      && var conv := Replay(start, sends).value;
      var w := Walk(conv.arena, {}, conv.chat.lastMessage);
      && conv.chat.initiator == a.pubkey && conv.chat.reciprocator == b.pubkey
      && w.end == Complete
      && |w.entries| == |outgoing|
      && forall j :: 0 <= j < |sends| ==>
           var s := sends[|sends| - 1 - j];
           && w.entries[j].address == s.address
           && w.entries[j].message.encryptedText == s.encryptedText
           && SenderOf(conv.chat, w.entries[j].message.direction) == s.sender
  {
    var sends := SealAll(lib, a, b, outgoing);
    SealedAccepted(lib, a, b, outgoing);
    ReadsBackNewestFirst(a.pubkey, b.pubkey, sends);
  }

  /** Entries holding the texts and senders of the sealed sends, newest first, are the sealed entries. */
  lemma SealedEntries(lib: Sodium, a: Keypair, b: Keypair, chat: DirectChat, outgoing: seq<Outgoing>, entries: seq<Fetched>)
    requires |entries| == |outgoing|
    requires var sends := SealAll(lib, a, b, outgoing);
      forall j :: 0 <= j < |sends| ==>
        var s := sends[|sends| - 1 - j];
        && entries[j].address == s.address
        && entries[j].message.encryptedText == s.encryptedText
        && SenderOf(chat, entries[j].message.direction) == s.sender
    ensures forall j :: 0 <= j < |outgoing| ==> SealedEntry(lib, a, b, chat, outgoing[|outgoing| - 1 - j], entries[j])
  {
    var sends := SealAll(lib, a, b, outgoing);
    forall j | 0 <= j < |outgoing| {
      SentIsSealed(lib, a, b, chat, outgoing[|outgoing| - 1 - j], sends[|sends| - 1 - j], entries[j]);
    }
  }

  /** An entry holding the text and sender of the send sealed for `o` is that sealed entry. */
  lemma SentIsSealed(lib: Sodium, a: Keypair, b: Keypair, chat: DirectChat, o: Outgoing, s: Send, e: Fetched)
    requires s == Seal(lib, a, b, o)
    requires e.message.encryptedText == s.encryptedText && SenderOf(chat, e.message.direction) == s.sender
    ensures SealedEntry(lib, a, b, chat, o, e)
  {
  }

  /** A reader of the chat between `a` and `b` prints every sealed message, in order, as its expected line. */
  lemma ReadsAllSealed(lib: Sodium, a: Keypair, b: Keypair, readerIsInitiator: bool, chat: DirectChat,
                       outgoing: seq<Outgoing>, entries: seq<Fetched>)
    requires IsKeypair(lib, a) && IsKeypair(lib, b) && a.pubkey != b.pubkey
    requires chat.initiator == a.pubkey && chat.reciprocator == b.pubkey
    requires forall i :: 0 <= i < |outgoing| ==> Utf8.Valid(outgoing[i].plaintext)
    requires |entries| == |outgoing|
    requires forall j :: 0 <= j < |outgoing| ==> SealedEntry(lib, a, b, chat, outgoing[|outgoing| - 1 - j], entries[j])
    ensures var reader := if readerIsInitiator then a else b;
      var peer := if readerIsInitiator then b else a;
      var keys := ReaderKeys(CreateEncryptionKey(lib, reader, peer.pubkey), reader.pubkey, chat);
      Render(lib, keys, chat, entries, Complete) == Transcript(ExpectedLines(a, b, outgoing), None)
  {
    var n := |outgoing|;
    var reader := if readerIsInitiator then a else b;
    var peer := if readerIsInitiator then b else a;
    var keys := ReaderKeys(CreateEncryptionKey(lib, reader, peer.pubkey), reader.pubkey, chat);
    var lines := ExpectedLines(a, b, outgoing);
    forall j | 0 <= j < n
      ensures ReadLine(lib, keys, chat, entries[j]) == Ok(lines[j])
    {
      LineReads(lib, a, b, readerIsInitiator, chat, outgoing[n - 1 - j], entries[j]);
    }
    RenderComplete(lib, keys, chat, entries, lines);
  }

  /** End to end: after the two parties of a new chat send messages through
      `main`, either of them prints every message, newest first, in plain
      text, under its sender's name, with the arrow pointing from the smaller
      key to the larger exactly when the smaller key sent it. */
  lemma ConversationReadsBack(lib: Sodium, a: Keypair, b: Keypair, outgoing: seq<Outgoing>, readerIsInitiator: bool)
    requires IsKeypair(lib, a) && IsKeypair(lib, b) && a.pubkey != b.pubkey
    requires forall i :: 0 <= i < |outgoing| ==>
      Utf8.Valid(outgoing[i].plaintext) && |outgoing[i].plaintext| <= MAX_STRING_BYTES - CRYPTO_SECRETBOX_MACBYTES
    requires forall i, j :: 0 <= i < j < |outgoing| ==> outgoing[i].address != outgoing[j].address
    ensures var start, sends := InitialiseDirectChat(a.pubkey, b.pubkey), SealAll(lib, a, b, outgoing);
      && FreshAddresses(start, sends)
      && Replay(start, sends).Ok?
      && var reader := if readerIsInitiator then a else b;
      var peer := if readerIsInitiator then b else a;
      Printed(lib, CreateEncryptionKey(lib, reader, peer.pubkey), reader.pubkey, Replay(start, sends).value)
        == Transcript(ExpectedLines(a, b, outgoing), None)
  {
    SealedReplay(lib, a, b, outgoing);
    var conv := Replay(InitialiseDirectChat(a.pubkey, b.pubkey), SealAll(lib, a, b, outgoing)).value;
    var w := Walk(conv.arena, {}, conv.chat.lastMessage);
    SealedEntries(lib, a, b, conv.chat, outgoing, w.entries);
    ReadsAllSealed(lib, a, b, readerIsInitiator, conv.chat, outgoing, w.entries);
  }
}
