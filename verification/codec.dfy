/** The Borsh layout of the program's accounts, behind Anchor's 8-byte
    account discriminator: what the `space` reservations of lib.rs must hold
    and what the client's `try_deserialize` reads back.

    A `Message` is its direction tag, the option tag of its link, the 32-byte
    link when present, a 4-byte little-endian length and the text bytes. A
    `DirectChat` is its two keys followed by its optional link. */
module Codec {
  import opened Common
  import opened Pubkeys
  import opened Program

  const U32_LIMIT: nat := 0x1_0000_0000

  /** Little-endian: the least significant byte first. */
  function EncodeU32(n: nat): (bytes: seq<u8>)
    requires n < U32_LIMIT
    ensures |bytes| == 4
  {
    var q1 := n / 256;
    var q2 := q1 / 256;
    var q3 := q2 / 256;
    [(n % 256) as u8, (q1 % 256) as u8, (q2 % 256) as u8, q3 as u8]
  }

  function DecodeU32(bytes: seq<u8>): (n: nat)
    requires |bytes| >= 4
    ensures n < U32_LIMIT
  {
    bytes[0] as nat + 256 * bytes[1] as nat + 65536 * bytes[2] as nat + 16777216 * bytes[3] as nat
  }

  lemma U32RoundTrip(n: nat, rest: seq<u8>)
    requires n < U32_LIMIT
    ensures DecodeU32(EncodeU32(n) + rest) == n
  {
    var q1 := n / 256;
    var q2 := q1 / 256;
    var q3 := q2 / 256;
    assert n == 256 * q1 + n % 256;
    assert q1 == 256 * q2 + q1 % 256;
    assert q2 == 256 * q3 + q2 % 256;
    var bytes := EncodeU32(n) + rest;
    assert bytes[0] as nat == n % 256 && bytes[1] as nat == q1 % 256;
    assert bytes[2] as nat == q2 % 256 && bytes[3] as nat == q3;
  }

  function EncodeLink(link: Option<Pubkey>): seq<u8> {
    match link
    case None => [0]
    case Some(key) => [1] + key
  }

  /** Reads an optional key; yields it with the number of bytes it took. */
  function DecodeLink(bytes: seq<u8>): Option<(Option<Pubkey>, nat)> {
    if |bytes| == 0 then None
    else if bytes[0] == 0 then Some((None, 1))
    else if bytes[0] == 1 && |bytes| >= 33 then Some((Some(bytes[1..33]), 33))
    else None
  }

  lemma LinkRoundTrip(link: Option<Pubkey>, rest: seq<u8>)
    ensures DecodeLink(EncodeLink(link) + rest) == Some((link, |EncodeLink(link)|))
  {
    if link.Some? {
      assert (EncodeLink(link) + rest)[1..33] == link.value;
    }
  }

  function EncodeMessage(m: Message): (bytes: seq<u8>)
    requires |m.encryptedText| < U32_LIMIT
  {
    var tag: u8 := if m.direction == InitiatorToReciprocator then 0 else 1;
    [tag] + EncodeLink(m.previousMessage) + EncodeU32(|m.encryptedText|) + m.encryptedText
  }

  /** `Message` deserialisation; trailing bytes of the account are ignored. */
  function DecodeMessage(bytes: seq<u8>): (r: Option<Message>)
    ensures r.Some? ==> |r.value.encryptedText| < U32_LIMIT
  {
    if |bytes| == 0 || bytes[0] > 1 then None
    else
      var direction := if bytes[0] == 0 then InitiatorToReciprocator else ReciprocatorToInitiator;
      match DecodeLink(bytes[1..])
      case None => None
      case Some((link, used)) =>
        var at := 1 + used;
        if |bytes| < at + 4 then None
        else
          var n := DecodeU32(bytes[at..]);
          if |bytes| < at + 4 + n then None
          else Some(Message(direction, link, bytes[at + 4..at + 4 + n]))
  }

  /** Reading back a written message yields the message, whatever follows it in the account. */
  lemma MessageRoundTrip(m: Message, rest: seq<u8>)
    requires |m.encryptedText| < U32_LIMIT
    ensures DecodeMessage(EncodeMessage(m) + rest) == Some(m)
  {
    var link := EncodeLink(m.previousMessage);
    var bytes := EncodeMessage(m) + rest;
    assert bytes[1..] == link + (EncodeU32(|m.encryptedText|) + m.encryptedText + rest);
    LinkRoundTrip(m.previousMessage, EncodeU32(|m.encryptedText|) + m.encryptedText + rest);
    var at := 1 + |link|;
    assert bytes[at..] == EncodeU32(|m.encryptedText|) + (m.encryptedText + rest);
    U32RoundTrip(|m.encryptedText|, m.encryptedText + rest);
    assert bytes[at + 4..at + 4 + |m.encryptedText|] == m.encryptedText;
  }

  /** A message whose text passes the program's bound fits the space reserved for it,
      and fills it exactly when it links to a message and its text is at the bound. */
  lemma MessageFitsAccount(m: Message)
    requires |m.encryptedText| <= MAX_STRING_BYTES
    ensures |EncodeMessage(m)| <= MESSAGE_MAX_SIZE
    ensures |EncodeMessage(m)| == MESSAGE_MAX_SIZE <==> m.previousMessage.Some? && |m.encryptedText| == MAX_STRING_BYTES
  {
  }

  function EncodeChat(chat: DirectChat): seq<u8> {
    chat.initiator + chat.reciprocator + EncodeLink(chat.lastMessage)
  }

  /** `DirectChat` deserialisation; trailing bytes of the account are ignored. */
  function DecodeChat(bytes: seq<u8>): Option<DirectChat> {
    if |bytes| < 64 then None
    else match DecodeLink(bytes[64..])
      case None => None
      case Some((link, _)) => Some(DirectChat(bytes[..32], bytes[32..64], link))
  }

  lemma ChatRoundTrip(chat: DirectChat, rest: seq<u8>)
    ensures DecodeChat(EncodeChat(chat) + rest) == Some(chat)
  {
    var bytes := EncodeChat(chat) + rest;
    assert bytes[..32] == chat.initiator;
    assert bytes[32..64] == chat.reciprocator;
    assert bytes[64..] == EncodeLink(chat.lastMessage) + rest;
    LinkRoundTrip(chat.lastMessage, rest);
  }

  /** Every chat head fits the space reserved for it, exactly once it links to a message. */
  lemma ChatFitsAccount(chat: DirectChat)
    ensures |EncodeChat(chat)| <= DIRECT_CHAT_SIZE
    ensures |EncodeChat(chat)| == DIRECT_CHAT_SIZE <==> chat.lastMessage.Some?
  {
  }
}
