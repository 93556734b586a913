/**
 * Chat messages and the message registry (src/engine/types/chatMessage.ts,
 * src/engine/world/messageregistry.ts): an insertion-ordered map of messages
 * by id, plus two insertion-ordered id sets: `dirty` (local messages not yet
 * sent) and `unseen` (remote messages not yet shown to the player).
 */
module Chat {
  import opened Wrappers
  import opened Collections

  datatype ChatStatus = Sent | Read | Delivered

  datatype ChatMessage = ChatMessage(
    id: string,
    author: string,
    authorTeam: string,
    unitIds: seq<string>,
    text: string,
    time: string,
    team: string,
    status: ChatStatus)

  function MessageId(m: ChatMessage): string { m.id }

  datatype Source = Local | Remote

  datatype MessageRegistry = MessageRegistry(messages: seq<ChatMessage>, dirty: seq<string>, unseen: seq<string>)

  const EmptyMessages := MessageRegistry([], [], [])

  /** The registry is a map (ids distinct) and both id lists are sets. */
  ghost predicate Valid(reg: MessageRegistry) {
    KeysDistinct(reg.messages, MessageId) && NoDups(reg.dirty) && NoDups(reg.unseen)
  }

  function Get(reg: MessageRegistry, id: string): (r: Option<ChatMessage>)
    ensures r.Some? ==> r.value in reg.messages && r.value.id == id
    ensures r.None? <==> forall i :: 0 <= i < |reg.messages| ==> reg.messages[i].id != id
  {
    Lookup(reg.messages, MessageId, id)
  }

  /**
   * `upsert`: an existing message is overwritten in place and marks nothing;
   * a new local message becomes dirty; a new remote one becomes unseen unless
   * the caller asks to ignore it.
   */
  function Upsert(reg: MessageRegistry, m: ChatMessage, src: Source, ignoreNew: bool): (r: MessageRegistry)
    ensures Get(reg, m.id).Some? ==> r.dirty == reg.dirty && r.unseen == reg.unseen && |r.messages| == |reg.messages|
    ensures Get(reg, m.id).None? ==> r.messages == reg.messages + [m]
    ensures Get(reg, m.id).None? && src == Local ==> r.dirty == SetAdd(reg.dirty, m.id) && r.unseen == reg.unseen
    ensures Get(reg, m.id).None? && src == Remote ==>
              r.dirty == reg.dirty && r.unseen == (if ignoreNew then reg.unseen else SetAdd(reg.unseen, m.id))
    ensures Valid(reg) ==> Valid(r)
  {
    var messages := Put(reg.messages, MessageId, m);
    if Get(reg, m.id).Some? then reg.(messages := messages)
    else if src == Local then MessageRegistry(messages, SetAdd(reg.dirty, m.id), reg.unseen)
    else if ignoreNew then reg.(messages := messages)
    else MessageRegistry(messages, reg.dirty, SetAdd(reg.unseen, m.id))
  }

  /** After an upsert the message is stored exactly as given, and no other id changes. */
  lemma UpsertThenGet(reg: MessageRegistry, m: ChatMessage, src: Source, ignoreNew: bool, id: string)
    requires Valid(reg)
    ensures Get(Upsert(reg, m, src, ignoreNew), m.id) == Some(m)
    ensures id != m.id ==> Get(Upsert(reg, m, src, ignoreNew), id) == Get(reg, id)
  {
    var r := Upsert(reg, m, src, ignoreNew);
    var i := IndexOf(reg.messages, MessageId, m.id);
    if i.Some? {
      assert r.messages[i.value] == m;
    } else {
      assert r.messages[|reg.messages|] == m;
    }
    if id != m.id {
      var j := IndexOf(reg.messages, MessageId, id);
      if j.Some? {
        assert r.messages[j.value] == reg.messages[j.value];
      } else {
        forall k | 0 <= k < |r.messages| ensures r.messages[k].id != id {
          if k < |reg.messages| && (i.None? || k != i.value) {
            assert r.messages[k] == reg.messages[k];
          }
        }
      }
    }
  }

  /** The stored messages whose ids are listed, in the order of the list; missing ids are skipped. */
  function Resolve(messages: seq<ChatMessage>, ids: seq<string>): (r: seq<ChatMessage>)
    ensures |r| <= |ids|
    ensures forall i :: 0 <= i < |r| ==> r[i] in messages && r[i].id in ids
    ensures forall i :: 0 <= i < |ids| && Lookup(messages, MessageId, ids[i]).Some? ==>
              Lookup(messages, MessageId, ids[i]).value in r
  {
    if |ids| == 0 then []
    else
      var rest := Resolve(messages, ids[1..]);
      assert forall i :: 1 <= i < |ids| ==> ids[i] == ids[1..][i - 1];
      match Lookup(messages, MessageId, ids[0])
      case Some(m) => [m] + rest
      case None => rest
  }

  /** `getDirty`: the dirty messages in the order they became dirty; the dirty set is emptied. */
  function GetDirty(reg: MessageRegistry): (r: (seq<ChatMessage>, MessageRegistry))
    ensures r.1 == reg.(dirty := [])
    ensures forall i :: 0 <= i < |r.0| ==> r.0[i] in reg.messages && r.0[i].id in reg.dirty
    ensures Valid(reg) ==> forall m :: m in reg.messages && m.id in reg.dirty ==> m in r.0
  {
    var out := Resolve(reg.messages, reg.dirty);
    assert Valid(reg) ==> forall m :: m in reg.messages && m.id in reg.dirty ==> m in out by {
      if Valid(reg) {
        forall m | m in reg.messages && m.id in reg.dirty ensures m in out {
          var i :| 0 <= i < |reg.dirty| && reg.dirty[i] == m.id;
          var k :| 0 <= k < |reg.messages| && reg.messages[k] == m;
          assert Lookup(reg.messages, MessageId, m.id) == Some(m);
        }
      }
    }
    (out, reg.(dirty := []))
  }

  /** `getNew`: the unseen messages in arrival order; the unseen set is emptied. */
  function GetNew(reg: MessageRegistry): (r: (seq<ChatMessage>, MessageRegistry))
    ensures r.1 == reg.(unseen := [])
    ensures forall i :: 0 <= i < |r.0| ==> r.0[i] in reg.messages && r.0[i].id in reg.unseen
    ensures |r.0| <= |reg.unseen|
  {
    (Resolve(reg.messages, reg.unseen), reg.(unseen := []))
  }

  /**
   * `markAsRead`: a stored message becomes `Read` and the `chat_read`
   * notification carries its id; an unknown id changes nothing and sends nothing.
   */
  function MarkAsRead(reg: MessageRegistry, id: string): (r: (MessageRegistry, Option<seq<string>>))
    ensures Get(reg, id).None? <==> r.1.None?
    ensures r.1.None? ==> r.0 == reg
    ensures r.1.Some? ==> r.1.value == [id] && Get(r.0, id) == Some(Get(reg, id).value.(status := Read))
    ensures r.0.dirty == reg.dirty && r.0.unseen == reg.unseen
    ensures Valid(reg) ==> Valid(r.0)
  {
    match Get(reg, id)
    case None => (reg, None)
    case Some(m) =>
      var reg' := reg.(messages := Put(reg.messages, MessageId, m.(status := Read)));
      assert reg'.messages[IndexOf(reg.messages, MessageId, id).value] == m.(status := Read);
      (reg', Some([id]))
  }
}
