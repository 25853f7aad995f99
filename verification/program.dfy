/** The on-chain message log (program/src/lib.rs).

    A chat is one `DirectChat` head record plus immutable `Message` records,
    each linking back to the message sent before it. The ledger's accounts are
    modelled as a `Conversation`: the head, and an arena mapping message
    addresses to messages. A send is a pure function from the conversation
    before to the conversation after, or to the error that aborts the whole
    transaction (in which case the ledger keeps the conversation it had). */
module Program {
  import opened Common
  import opened Pubkeys

  const MAX_STRING_BYTES: nat := 255
  const MESSAGE_MAX_SIZE: nat := 1 + 1 + 32 + 4 + MAX_STRING_BYTES
  const DIRECT_CHAT_SIZE: nat := 32 + 32 + 1 + 32

  datatype Direction = InitiatorToReciprocator | ReciprocatorToInitiator

  datatype DirectChat = DirectChat(initiator: Pubkey, reciprocator: Pubkey, lastMessage: Option<Pubkey>)

  datatype Message = Message(direction: Direction, previousMessage: Option<Pubkey>, encryptedText: seq<u8>)

  datatype ChatError =
    | ParticipantConstraint  // the `SendDirectMessage` account constraint on the sender fails
    | MessageTextTooLarge

  datatype Conversation = Conversation(chat: DirectChat, arena: map<Pubkey, Message>)

  /** `direct_message_seed`: the unordered pair of keys in canonical order, smaller first. */
  function DirectMessageSeed(initiator: Pubkey, reciprocator: Pubkey): (seed: (Pubkey, Pubkey))
    ensures multiset{seed.0, seed.1} == multiset{initiator, reciprocator}
    ensures !Less(seed.1, seed.0)
  {
    if Less(initiator, reciprocator) then
      LessAsymmetric(initiator, reciprocator);
      (initiator, reciprocator)
    else
      (reciprocator, initiator)
  }

  /** The seed does not depend on which party is named first. */
  lemma SeedSymmetric(a: Pubkey, b: Pubkey)
    ensures DirectMessageSeed(a, b) == DirectMessageSeed(b, a)
  {
    if a != b {
      Trichotomy(a, b);
    }
  }

  /** The seed pins down the unordered pair it was made from. */
  lemma SeedDeterminesPair(a: Pubkey, b: Pubkey, c: Pubkey, d: Pubkey)
    requires DirectMessageSeed(a, b) == DirectMessageSeed(c, d)
    ensures multiset{a, b} == multiset{c, d}
  {
  }

  /** `initialise_direct_chat`: the signer becomes the initiator; the fresh
      account starts with no messages. */
  function InitialiseDirectChat(signer: Pubkey, reciprocator: Pubkey): (conv: Conversation)
    ensures conv.chat.initiator == signer && conv.chat.reciprocator == reciprocator
    ensures conv.chat.lastMessage == None && conv.arena == map[]
  {
    Conversation(DirectChat(signer, reciprocator, None), map[])
  }

  predicate IsParticipant(chat: DirectChat, key: Pubkey) {
    key == chat.initiator || key == chat.reciprocator
  }

  /** The direction the program records for a message from `sender`. */
  function DirectionFor(chat: DirectChat, sender: Pubkey): Direction {
    if sender == chat.initiator then InitiatorToReciprocator else ReciprocatorToInitiator
  }

  /** The participant a recorded direction names as the sender. */
  function SenderOf(chat: DirectChat, direction: Direction): Pubkey {
    match direction
    case InitiatorToReciprocator => chat.initiator
    case ReciprocatorToInitiator => chat.reciprocator
  }

  /** The recorded direction identifies the participant who sent the message. */
  lemma SenderOfDirection(chat: DirectChat, sender: Pubkey)
    requires IsParticipant(chat, sender)
    ensures SenderOf(chat, DirectionFor(chat, sender)) == sender
  {
  }

  /** `send_direct_message` behind its account checks. `messageAddress` is the
      fresh account the transaction creates for the message. */
  function SendDirectMessage(conv: Conversation, sender: Pubkey, messageAddress: Pubkey, encryptedText: seq<u8>)
    : (r: Result<Conversation, ChatError>)
    requires messageAddress !in conv.arena
    ensures !IsParticipant(conv.chat, sender) ==> r == Err(ParticipantConstraint)
    ensures IsParticipant(conv.chat, sender) && |encryptedText| > MAX_STRING_BYTES ==> r == Err(MessageTextTooLarge)
    ensures r.Ok? <==> IsParticipant(conv.chat, sender) && |encryptedText| <= MAX_STRING_BYTES
    ensures r.Ok? ==>
      var after := r.value;
      && after.chat.initiator == conv.chat.initiator
      && after.chat.reciprocator == conv.chat.reciprocator
      && after.chat.lastMessage == Some(messageAddress)
      && after.arena.Keys == conv.arena.Keys + {messageAddress}
      && (forall a :: a in conv.arena ==> after.arena[a] == conv.arena[a])
      && after.arena[messageAddress].previousMessage == conv.chat.lastMessage
      && after.arena[messageAddress].encryptedText == encryptedText
      && (after.arena[messageAddress].direction == InitiatorToReciprocator <==> sender == conv.chat.initiator)
  {
    if !IsParticipant(conv.chat, sender) then Err(ParticipantConstraint)
    else if |encryptedText| > MAX_STRING_BYTES then Err(MessageTextTooLarge)
    else
      var message := Message(DirectionFor(conv.chat, sender), conv.chat.lastMessage, encryptedText);
      Ok(Conversation(conv.chat.(lastMessage := Some(messageAddress)), conv.arena[messageAddress := message]))
  }

  /** One submitted `send_direct_message` transaction. */
  datatype Send = Send(sender: Pubkey, address: Pubkey, encryptedText: seq<u8>)

  predicate Accepted(chat: DirectChat, send: Send) {
    IsParticipant(chat, send.sender) && |send.encryptedText| <= MAX_STRING_BYTES
  }

  function Addresses(sends: seq<Send>): (addrs: seq<Pubkey>)
    ensures |addrs| == |sends|
    ensures forall i :: 0 <= i < |sends| ==> addrs[i] == sends[i].address
  {
    seq(|sends|, i requires 0 <= i < |sends| => sends[i].address)
  }

  /** Every send creates its message at an address no other account holds. */
  ghost predicate FreshAddresses(conv: Conversation, sends: seq<Send>) {
    && (forall i :: 0 <= i < |sends| ==> sends[i].address !in conv.arena)
    && (forall i, j :: 0 <= i < j < |sends| ==> sends[i].address != sends[j].address)
  }

  /** A sequence of sends applied in order, stopping at the first that fails. */
  function Replay(conv: Conversation, sends: seq<Send>): (r: Result<Conversation, ChatError>)
    requires FreshAddresses(conv, sends)
    ensures r.Ok? <==> forall i :: 0 <= i < |sends| ==> Accepted(conv.chat, sends[i])
    ensures r.Ok? ==>
      && r.value.chat.initiator == conv.chat.initiator
      && r.value.chat.reciprocator == conv.chat.reciprocator
      && (forall a :: a in r.value.arena <==> a in conv.arena || a in Addresses(sends))
    decreases |sends|
  {
    if |sends| == 0 then Ok(conv)
    else
      var earlier := sends[..|sends| - 1];
      var last := sends[|sends| - 1];
      FreshLast(conv, sends);
      match Replay(conv, earlier)
      case Err(e) => Err(e)
      case Ok(before) => SendDirectMessage(before, last.sender, last.address, last.encryptedText)
  }

  /** Messages are immutable: a replay that succeeds leaves every message
      already in the arena exactly as it was. */
  lemma {:induction false} ReplayKeepsMessages(conv: Conversation, sends: seq<Send>)
    requires FreshAddresses(conv, sends)
    ensures Replay(conv, sends).Ok? ==>
      forall a :: a in conv.arena ==> Replay(conv, sends).value.arena[a] == conv.arena[a]
    decreases |sends|
  {
    if |sends| > 0 {
      FreshLast(conv, sends);
      ReplayKeepsMessages(conv, sends[..|sends| - 1]);
    }
  }

  /** The earlier sends of a fresh sequence are fresh, and the last one is fresh after them. */
  lemma FreshLast(conv: Conversation, sends: seq<Send>)
    requires FreshAddresses(conv, sends) && |sends| > 0
    ensures var earlier, last := sends[..|sends| - 1], sends[|sends| - 1];
      && FreshAddresses(conv, earlier)
      && Addresses(sends) == Addresses(earlier) + [last.address]
      && last.address !in conv.arena
      && last.address !in Addresses(earlier)
      && (forall a :: a in Addresses(sends) <==> a in Addresses(earlier) || a == last.address)
      && ((forall i :: 0 <= i < |sends| ==> Accepted(conv.chat, sends[i])) <==>
          (forall i :: 0 <= i < |earlier| ==> Accepted(conv.chat, earlier[i])) && Accepted(conv.chat, last))
  {
    var earlier, last := sends[..|sends| - 1], sends[|sends| - 1];
    assert forall i :: 0 <= i < |earlier| ==> earlier[i] == sends[i];
    assert Addresses(sends) == Addresses(earlier) + [last.address];
  }
}
