/** Reading the message chain (the loop of `print_messages` in client/src/main.rs)
    and the shape the program's sends give it.

    The reader starts at the chat's `last_message` and follows each message's
    `previous_message` until it reaches `None`. Two things can stop it early:
    an address with no message behind it (the client panics, "Message PDA not
    found"), and an address it has already visited (the client has no such
    check and would loop forever; the model ends the walk there instead). */
module Chain {
  import opened Common
  import opened Pubkeys
  import opened Program

  datatype Fetched = Fetched(address: Pubkey, message: Message)

  datatype WalkEnd =
    | Complete              // reached a `None` link
    | Missing(at: Pubkey)   // no message account at this address
    | Revisited(at: Pubkey) // the chain loops back to this address

  /** The messages read, newest first, and why reading stopped. */
  datatype Walked = Walked(entries: seq<Fetched>, end: WalkEnd)

  /** The link at which a walk from `next` that has read `entries` stops: the
      link of the last message read, or `next` itself if none was read. */
  function StopLink(next: Option<Pubkey>, entries: seq<Fetched>): Option<Pubkey> {
    if |entries| == 0 then next else entries[|entries| - 1].message.previousMessage
  }

  /** Walk the chain from `next`, never fetching an address in `visited` twice. */
  function Walk(arena: map<Pubkey, Message>, visited: set<Pubkey>, next: Option<Pubkey>): (w: Walked)
    ensures forall i :: 0 <= i < |w.entries| ==>
      w.entries[i].address in arena && arena[w.entries[i].address] == w.entries[i].message && w.entries[i].address !in visited
    ensures |w.entries| > 0 ==> next == Some(w.entries[0].address)
    ensures forall i, j :: 0 <= i && j == i + 1 && j < |w.entries| ==>
      w.entries[i].message.previousMessage == Some(w.entries[j].address)
    ensures forall i, j :: 0 <= i < j < |w.entries| ==> w.entries[i].address != w.entries[j].address
    ensures StopsWhereDue(arena, visited, next, w)
    decreases arena.Keys - visited
  {
    match next
    case None => Walked([], Complete)
    case Some(address) =>
      if address in visited then Walked([], Revisited(address))
      else if address !in arena then Walked([], Missing(address))
      else
        var rest := Walk(arena, visited + {address}, arena[address].previousMessage);
        StopsAfterPrepend(arena, visited, address, rest);
        Walked([Fetched(address, arena[address])] + rest.entries, rest.end)
  }

  /** Why a walk from `next` that read `w.entries` stopped: at a `None` link
      exactly when it completed, otherwise at the address it could not read,
      because no message is there or because it was already visited. */
  ghost predicate StopsWhereDue(arena: map<Pubkey, Message>, visited: set<Pubkey>, next: Option<Pubkey>, w: Walked) {
    && (w.end == Complete <==> StopLink(next, w.entries) == None)
    && (w.end.Missing? ==> StopLink(next, w.entries) == Some(w.end.at) && w.end.at !in arena && w.end.at !in visited)
    && (w.end.Revisited? ==>
          && StopLink(next, w.entries) == Some(w.end.at)
          && (w.end.at in visited || exists i :: 0 <= i < |w.entries| && w.entries[i].address == w.end.at))
  }

  /** Fetching one message in front of a walk keeps its stop point. */
  lemma StopsAfterPrepend(arena: map<Pubkey, Message>, visited: set<Pubkey>, address: Pubkey, rest: Walked)
    requires address !in visited && address in arena
    requires StopsWhereDue(arena, visited + {address}, arena[address].previousMessage, rest)
    ensures StopsWhereDue(arena, visited, Some(address), Walked([Fetched(address, arena[address])] + rest.entries, rest.end))
  {
    var entries := [Fetched(address, arena[address])] + rest.entries;
    if rest.end.Revisited? && rest.end.at !in visited {
      if rest.end.at == address {
        assert entries[0].address == rest.end.at;
      } else {
        var k :| 0 <= k < |rest.entries| && rest.entries[k].address == rest.end.at;
        assert entries[k + 1].address == rest.end.at;
      }
    }
  }

  /** The link a message at position `k` of the history carries (oldest is 0). */
  function PreviousOf(addrs: seq<Pubkey>, k: nat): Option<Pubkey>
    requires k <= |addrs|
  {
    if k == 0 then None else Some(addrs[k - 1])
  }

  /** The addresses of the history from position `k` on: those a reader has
      already passed when it reaches position `k - 1`. */
  function From(addrs: seq<Pubkey>, k: nat): set<Pubkey> {
    set i | k <= i < |addrs| :: addrs[i]
  }

  /** The messages at `addrs` (oldest first) are distinct, present in `arena`,
      and each links to the one before it; the oldest links to nothing. */
  ghost predicate Chained(arena: map<Pubkey, Message>, addrs: seq<Pubkey>) {
    && (forall i, j :: 0 <= i < j < |addrs| ==> addrs[i] != addrs[j])
    && (forall i :: 0 <= i < |addrs| ==> addrs[i] in arena)
    && (|addrs| > 0 ==> arena[addrs[0]].previousMessage == None)
    && (forall i, j :: 0 <= i && j == i + 1 && j < |addrs| ==>
          arena[addrs[j]].previousMessage == Some(addrs[i]))
  }

  /** `conv` holds exactly the chained messages at `addrs`, and the head points at the newest. */
  ghost predicate Threaded(conv: Conversation, addrs: seq<Pubkey>) {
    && Chained(conv.arena, addrs)
    && (forall a :: a in conv.arena ==> a in addrs)
    && conv.chat.lastMessage == PreviousOf(addrs, |addrs|)
  }

  /** One step of the walk: a fresh, present address is fetched and the walk goes on from its link. */
  lemma {:induction false} WalkStep(arena: map<Pubkey, Message>, visited: set<Pubkey>, address: Pubkey)
    requires address !in visited && address in arena
    ensures var rest := Walk(arena, visited + {address}, arena[address].previousMessage);
      Walk(arena, visited, Some(address)) == Walked([Fetched(address, arena[address])] + rest.entries, rest.end)
  {
  }

  /** The first `k` messages of the history, newest first, as the reader should see them. */
  function NewestFirst(arena: map<Pubkey, Message>, addrs: seq<Pubkey>, k: nat): (entries: seq<Fetched>)
    requires k <= |addrs| && forall i :: 0 <= i < |addrs| ==> addrs[i] in arena
    ensures |entries| == k
  {
    if k == 0 then [] else [Fetched(addrs[k - 1], arena[addrs[k - 1]])] + NewestFirst(arena, addrs, k - 1)
  }

  /** Position `j` of the newest-first listing holds the message at position `k - 1 - j` of the history. */
  lemma {:induction false} NewestFirstAt(arena: map<Pubkey, Message>, addrs: seq<Pubkey>, k: nat, j: nat)
    requires k <= |addrs| && forall i :: 0 <= i < |addrs| ==> addrs[i] in arena
    requires j < k
    ensures NewestFirst(arena, addrs, k)[j] == Fetched(addrs[k - 1 - j], arena[addrs[k - 1 - j]])
  {
    if j > 0 {
      NewestFirstAt(arena, addrs, k - 1, j - 1);
    }
  }

  /** Stepping the reader back one message past position `k - 1` of a threaded history. */
  lemma ChainedStep(arena: map<Pubkey, Message>, addrs: seq<Pubkey>, k: nat)
    requires Chained(arena, addrs) && 0 < k <= |addrs|
    ensures addrs[k - 1] !in From(addrs, k)
    ensures From(addrs, k) + {addrs[k - 1]} == From(addrs, k - 1)
    ensures addrs[k - 1] in arena && arena[addrs[k - 1]].previousMessage == PreviousOf(addrs, k - 1)
  {
    if k > 1 {
      assert arena[addrs[k - 1]].previousMessage == Some(addrs[k - 2]);
    }
  }

  /** A threaded history read from its `k`-th message returns the first `k` messages, newest first. */
  lemma {:induction false} WalkChained(arena: map<Pubkey, Message>, addrs: seq<Pubkey>, k: nat)
    requires Chained(arena, addrs) && k <= |addrs|
    ensures Walk(arena, From(addrs, k), PreviousOf(addrs, k)) == Walked(NewestFirst(arena, addrs, k), Complete)
  {
    if k > 0 {
      ChainedStep(arena, addrs, k);
      WalkChained(arena, addrs, k - 1);
      WalkStep(arena, From(addrs, k), addrs[k - 1]);
    }
  }

  /** Storing a new message that links to the newest keeps the history chained. */
  lemma ChainExtends(arena: map<Pubkey, Message>, addrs: seq<Pubkey>, address: Pubkey, m: Message)
    requires Chained(arena, addrs) && address !in arena && m.previousMessage == PreviousOf(addrs, |addrs|)
    ensures Chained(arena[address := m], addrs + [address])
  {
    var arena', addrs' := arena[address := m], addrs + [address];
    forall i, j | 0 <= i < j < |addrs'|
      ensures addrs'[i] != addrs'[j]
    {
      if j == |addrs| {
        assert addrs[i] in arena;
      }
    }
    forall i | 0 <= i < |addrs'|
      ensures addrs'[i] in arena' && (i < |addrs| ==> arena'[addrs'[i]] == arena[addrs[i]])
    {
      if i < |addrs| {
        assert addrs'[i] == addrs[i];
      }
    }
    if |addrs| > 0 {
      assert arena'[addrs'[0]] == arena[addrs[0]];
    }
    forall i, j | 0 <= i && j == i + 1 && j < |addrs'|
      ensures arena'[addrs'[j]].previousMessage == Some(addrs'[i])
    {
      if j < |addrs| {
        assert arena'[addrs'[j]] == arena[addrs[j]];
        assert arena[addrs[j]].previousMessage == Some(addrs[i]);
      }
    }
  }

  /** An accepted send to a threaded conversation threads its message onto the history. */
  lemma SendThreads(before: Conversation, addrs: seq<Pubkey>, send: Send)
    requires Threaded(before, addrs) && send.address !in before.arena && Accepted(before.chat, send)
    ensures var r := SendDirectMessage(before, send.sender, send.address, send.encryptedText);
      r.Ok? && Threaded(r.value, addrs + [send.address])
  {
    var m := Message(DirectionFor(before.chat, send.sender), before.chat.lastMessage, send.encryptedText);
    var after := SendDirectMessage(before, send.sender, send.address, send.encryptedText).value;
    assert after.arena == before.arena[send.address := m];
    ChainExtends(before.arena, addrs, send.address, m);
    forall a | a in after.arena
      ensures a in addrs + [send.address]
    {
      if a != send.address {
        assert a in before.arena;
      }
    }
  }

  /** Every send in `sends` left its message, with its direction and text, in `conv`. */
  ghost predicate Recorded(conv: Conversation, sends: seq<Send>) {
    forall i :: 0 <= i < |sends| ==>
      && sends[i].address in conv.arena
      && conv.arena[sends[i].address].direction == DirectionFor(conv.chat, sends[i].sender)
      && conv.arena[sends[i].address].encryptedText == sends[i].encryptedText
  }

  /** An accepted send records its own message and disturbs none recorded before. */
  lemma SendRecords(before: Conversation, earlier: seq<Send>, last: Send)
    requires Recorded(before, earlier) && last.address !in before.arena && Accepted(before.chat, last)
    ensures var r := SendDirectMessage(before, last.sender, last.address, last.encryptedText);
      r.Ok? && Recorded(r.value, earlier + [last])
  {
    var after := SendDirectMessage(before, last.sender, last.address, last.encryptedText).value;
    var sends := earlier + [last];
    forall i | 0 <= i < |sends|
      ensures && sends[i].address in after.arena
              && after.arena[sends[i].address].direction == DirectionFor(after.chat, sends[i].sender)
              && after.arena[sends[i].address].encryptedText == sends[i].encryptedText
    {
      if i < |earlier| {
        assert sends[i] == earlier[i];
        assert after.arena[earlier[i].address] == before.arena[earlier[i].address];
      }
    }
  }

  /** The last of several accepted sends is applied to the conversation the earlier ones left. */
  lemma ReplayLast(conv: Conversation, sends: seq<Send>)
    requires FreshAddresses(conv, sends) && |sends| > 0
    requires forall i :: 0 <= i < |sends| ==> Accepted(conv.chat, sends[i])
    ensures var earlier, last := sends[..|sends| - 1], sends[|sends| - 1];
      && FreshAddresses(conv, earlier)
      && (forall i :: 0 <= i < |earlier| ==> Accepted(conv.chat, earlier[i]))
      && Replay(conv, earlier).Ok?
      && var before := Replay(conv, earlier).value;
      && last.address !in before.arena
      && Accepted(before.chat, last)
      && Replay(conv, sends) == SendDirectMessage(before, last.sender, last.address, last.encryptedText)
      && Addresses(sends) == Addresses(earlier) + [last.address]
  {
    var earlier, last := sends[..|sends| - 1], sends[|sends| - 1];
    assert forall i :: 0 <= i < |earlier| ==> earlier[i] == sends[i];
    assert Addresses(sends) == Addresses(earlier) + [last.address];
  }

  /** Each accepted send extends the threaded history by its own message. */
  lemma {:induction false} SendsAreThreaded(initiator: Pubkey, reciprocator: Pubkey, sends: seq<Send>)
    requires FreshAddresses(InitialiseDirectChat(initiator, reciprocator), sends)
    requires forall i :: 0 <= i < |sends| ==> Accepted(InitialiseDirectChat(initiator, reciprocator).chat, sends[i])
    ensures var r := Replay(InitialiseDirectChat(initiator, reciprocator), sends);
      r.Ok? && Threaded(r.value, Addresses(sends)) && Recorded(r.value, sends)
    decreases |sends|
  {
    var start := InitialiseDirectChat(initiator, reciprocator);
    if |sends| > 0 {
      var earlier, last := sends[..|sends| - 1], sends[|sends| - 1];
      assert sends == earlier + [last];
      ReplayLast(start, sends);
      SendsAreThreaded(initiator, reciprocator, earlier);
      var before := Replay(start, earlier).value;
      SendThreads(before, Addresses(earlier), last);
      SendRecords(before, earlier, last);
    }
  }

  /** The `j`-th message read, newest first, is the one the `j`-th latest send recorded. */
  lemma EntryIsSend(conv: Conversation, sends: seq<Send>, j: nat)
    requires Recorded(conv, sends) && j < |sends|
    requires IsParticipant(conv.chat, sends[|sends| - 1 - j].sender)
    ensures forall i :: 0 <= i < |sends| ==> Addresses(sends)[i] in conv.arena
    ensures var e := NewestFirst(conv.arena, Addresses(sends), |sends|)[j];
      var s := sends[|sends| - 1 - j];
      && e.address == s.address
      && e.message.encryptedText == s.encryptedText
      && SenderOf(conv.chat, e.message.direction) == s.sender
  {
    var n := |sends|;
    var s := sends[n - 1 - j];
    NewestFirstAt(conv.arena, Addresses(sends), n, j);
    SenderOfDirection(conv.chat, s.sender);
  }

  /** Reading a chained history from the link to its newest message returns it all, newest first. */
  lemma ReadsChained(arena: map<Pubkey, Message>, addrs: seq<Pubkey>)
    requires Chained(arena, addrs)
    ensures Walk(arena, {}, PreviousOf(addrs, |addrs|)) == Walked(NewestFirst(arena, addrs, |addrs|), Complete)
  {
    assert From(addrs, |addrs|) == {};
    WalkChained(arena, addrs, |addrs|);
  }

  /** Read newest first, the recorded messages of `sends` are the sends in reverse. */
  lemma EntriesAreSends(conv: Conversation, sends: seq<Send>)
    requires Recorded(conv, sends)
    requires forall i :: 0 <= i < |sends| ==> IsParticipant(conv.chat, sends[i].sender)
    ensures forall i :: 0 <= i < |sends| ==> Addresses(sends)[i] in conv.arena
    ensures var entries := NewestFirst(conv.arena, Addresses(sends), |sends|);
      forall j :: 0 <= j < |sends| ==>
        var s := sends[|sends| - 1 - j];
        && entries[j].address == s.address
        && entries[j].message.encryptedText == s.encryptedText
        && SenderOf(conv.chat, entries[j].message.direction) == s.sender
  {
    forall j | 0 <= j < |sends| {
      EntryIsSend(conv, sends, j);
    }
  }

  /** Reading a threaded conversation from its head returns its whole history, newest first;
      the oldest message read links to nothing. */
  lemma ReadsThreaded(conv: Conversation, addrs: seq<Pubkey>)
    requires Threaded(conv, addrs)
    ensures var w := Walk(conv.arena, {}, conv.chat.lastMessage);
      && w == Walked(NewestFirst(conv.arena, addrs, |addrs|), Complete)
      && (|addrs| > 0 ==> w.entries[|addrs| - 1].message.previousMessage == None)
  {
    ReadsChained(conv.arena, addrs);
    if |addrs| > 0 {
      NewestFirstAt(conv.arena, addrs, |addrs|, |addrs| - 1);
    }
  }

  /** After N accepted sends to a new chat, reading from the head yields exactly
      those N messages, newest first, and the oldest links to nothing. */
  lemma {:induction false} ReadsBackNewestFirst(initiator: Pubkey, reciprocator: Pubkey, sends: seq<Send>)
    requires FreshAddresses(InitialiseDirectChat(initiator, reciprocator), sends)
    requires forall i :: 0 <= i < |sends| ==> Accepted(InitialiseDirectChat(initiator, reciprocator).chat, sends[i])
    ensures var r := Replay(InitialiseDirectChat(initiator, reciprocator), sends);
      r.Ok? &&
      var w := Walk(r.value.arena, {}, r.value.chat.lastMessage);
      && w.end == Complete
      && |w.entries| == |sends|
      && (forall j :: 0 <= j < |sends| ==>
            var s := sends[|sends| - 1 - j];
            && w.entries[j].address == s.address
            && w.entries[j].message.encryptedText == s.encryptedText
            && SenderOf(r.value.chat, w.entries[j].message.direction) == s.sender)
      && (|sends| > 0 ==> w.entries[|sends| - 1].message.previousMessage == None)
  {
    SendsAreThreaded(initiator, reciprocator, sends);
    var conv := Replay(InitialiseDirectChat(initiator, reciprocator), sends).value;
    ReadsThreaded(conv, Addresses(sends));
    EntriesAreSends(conv, sends);
  }
}
