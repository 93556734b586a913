/**
 * The delivery command (src/engine/units/commands/deliveryCommand.ts): a
 * messenger hands every message it carries to each of its target units,
 * notifies the server of each delivery to a general, and removes itself.
 */
module DeliveryCommands {
  import opened Wrappers
  import opened Collections
  import Chat
  import opened Stats
  import opened CommandData
  import opened Units
  import opened Registry

  /** The `messenger_delivery` notification, with the world time of the delivery. */
  datatype Notice = MessengerDelivery(id: string, time: string)

  function NoticesFor(msgIds: seq<string>, time: string): (r: seq<Notice>)
    ensures |r| == |msgIds|
    ensures forall i :: 0 <= i < |r| ==> r[i].id == msgIds[i] && r[i].time == time
  {
    seq(|msgIds|, i requires 0 <= i < |msgIds| => MessengerDelivery(msgIds[i], time))
  }

  function MessageIds(ms: seq<Chat.ChatMessage>): (r: seq<string>)
    ensures |r| == |ms| && forall i :: 0 <= i < |r| ==> r[i] == ms[i].id
  {
    seq(|ms|, i requires 0 <= i < |ms| => ms[i].id)
  }

  /** The message links after linking each id in turn: an id not yet linked is appended. */
  function LinkIds(linked: seq<string>, ids: seq<string>): (r: seq<string>)
    decreases |ids|
  {
    if |ids| == 0 then linked
    else LinkIds(if ids[0] in linked then linked else linked + [ids[0]], ids[1..])
  }

  /** The `changed` reasons `linkMessage` emits while linking each id in turn: `unit` for each id not yet linked. */
  function LinkChanges(linked: seq<string>, ids: seq<string>): (r: seq<string>)
    decreases |ids|
  {
    if |ids| == 0 then []
    else if ids[0] in linked then LinkChanges(linked, ids[1..])
    else ["unit"] + LinkChanges(linked + [ids[0]], ids[1..])
  }

  /** Linking emits one `unit` change per id it adds, and nothing else. */
  lemma {:induction false} LinkChangesCount(linked: seq<string>, ids: seq<string>)
    decreases |ids|
    ensures |LinkChanges(linked, ids)| == |LinkIds(linked, ids)| - |linked|
    ensures forall i :: 0 <= i < |LinkChanges(linked, ids)| ==> LinkChanges(linked, ids)[i] == "unit"
  {
    if |ids| > 0 {
      if ids[0] in linked {
        LinkChangesCount(linked, ids[1..]);
      } else {
        LinkChangesCount(linked + [ids[0]], ids[1..]);
      }
    }
  }

  /** `linkMessage` for each id in turn. */
  function LinkAll(u: Unit, ids: seq<string>): (r: Unit)
  {
    u.(messageIds := LinkIds(u.messageIds, ids))
  }

  /** `LinkAll` is `linkMessage` applied to the first id, then to the rest. */
  lemma LinkAllUnfolds(u: Unit, ids: seq<string>)
    requires |ids| > 0
    ensures LinkAll(u, ids) == LinkAll(LinkMessage(u, ids[0]).unit, ids[1..])
  {
  }

  /**
   * Linking adds exactly the ids not yet linked: earlier links keep their
   * order and no id is linked twice.
   */
  lemma {:induction false} LinkIdsLinks(linked: seq<string>, ids: seq<string>)
    decreases |ids|
    ensures forall x :: x in LinkIds(linked, ids) <==> x in linked || x in ids
    ensures linked <= LinkIds(linked, ids)
    ensures NoDups(linked) ==> NoDups(LinkIds(linked, ids))
  {
    if |ids| > 0 {
      var next := if ids[0] in linked then linked else linked + [ids[0]];
      LinkIdsLinks(next, ids[1..]);
      assert forall x :: x in ids <==> x == ids[0] || x in ids[1..];
      assert NoDups(linked) ==> NoDups(next) by {
        if NoDups(linked) && ids[0] !in linked {
          assert next == SetAdd(linked, ids[0]);
        }
      }
    }
  }

  lemma LinkAllLinks(u: Unit, ids: seq<string>)
    ensures forall x :: x in LinkAll(u, ids).messageIds <==> x in u.messageIds || x in ids
    ensures u.messageIds <= LinkAll(u, ids).messageIds
    ensures NoDups(u.messageIds) ==> NoDups(LinkAll(u, ids).messageIds)
  {
    LinkIdsLinks(u.messageIds, ids);
  }

  /** Linking ids that are all linked already changes nothing. */
  lemma {:induction false} LinkIdsKnown(linked: seq<string>, ids: seq<string>)
    requires forall i :: 0 <= i < |ids| ==> ids[i] in linked
    decreases |ids|
    ensures LinkIds(linked, ids) == linked
  {
    if |ids| > 0 {
      LinkIdsKnown(linked, ids[1..]);
    }
  }

  /** Delivering the same messages twice links nothing more. */
  lemma LinkAllIdempotent(u: Unit, ids: seq<string>)
    ensures LinkAll(LinkAll(u, ids), ids) == LinkAll(u, ids)
  {
    LinkAllLinks(u, ids);
    LinkIdsKnown(LinkAll(u, ids).messageIds, ids);
  }

  /** Whether a delivery to `id` notifies the server: the target exists and is a general. */
  predicate NotifiesGeneral(reg: Registry, id: string) {
    Get(reg, id).Some? && Get(reg, id).value.kind == General
  }

  /**
   * One target of the outer loop: a missing target is skipped; otherwise
   * each message is linked (a general's also announced), and the target is
   * queued for sync once per message.
   */
  function DeliverTo(reg: Registry, id: string, msgIds: seq<string>, time: string): (r: (Registry, seq<Notice>, seq<string>))
    ensures r.0.dirtyRemove == reg.dirtyRemove
    ensures r.1 == if NotifiesGeneral(reg, id) then NoticesFor(msgIds, time) else []
    ensures Get(reg, id).None? ==> r.2 == []
    ensures Get(reg, id).Some? ==>
              |r.2| == |LinkAll(Get(reg, id).value, msgIds).messageIds| - |Get(reg, id).value.messageIds|
    ensures forall i :: 0 <= i < |r.2| ==> r.2[i] == "unit"
  {
    match Get(reg, id)
    case None => (reg, [], [])
    case Some(t) =>
      LinkChangesCount(t.messageIds, msgIds);
      if |msgIds| == 0 then (reg, [], [])
      else (ApplyStep(reg, SetDirty(LinkAll(t, msgIds))), if t.kind == General then NoticesFor(msgIds, time) else [],
            LinkChanges(t.messageIds, msgIds))
  }

  /** Handing a target messages it already holds emits no `changed` event. */
  lemma RedeliveryQuiet(reg: Registry, id: string, msgIds: seq<string>, time: string)
    requires Get(reg, id).Some?
    requires forall i :: 0 <= i < |msgIds| ==> msgIds[i] in Get(reg, id).value.messageIds
    ensures DeliverTo(reg, id, msgIds, time).2 == []
  {
    LinkIdsKnown(Get(reg, id).value.messageIds, msgIds);
  }

  /** The single-target step touches only its target, which ends up with every message linked. */
  lemma DeliverToEffect(reg: Registry, id: string, msgIds: seq<string>, time: string)
    requires KeysDistinct(reg.units, UnitId)
    ensures var r := DeliverTo(reg, id, msgIds, time).0;
            KeysDistinct(r.units, UnitId) &&
            (forall k :: k != id ==> Get(r, k) == Get(reg, k)) &&
            (Get(reg, id).None? ==> Get(r, id).None?) &&
            (Get(reg, id).Some? ==> Get(r, id) == Some(LinkAll(Get(reg, id).value, msgIds))) &&
            (forall k :: k in reg.dirty ==> k in r.dirty) &&
            (|msgIds| > 0 && Get(reg, id).Some? ==> id in r.dirty)
  {
    match Get(reg, id)
    case None =>
    case Some(t) =>
      if |msgIds| > 0 {
        var v := LinkAll(t, msgIds);
        LinkAllLinks(t, msgIds);
        StoreThenGet(reg, v, id);
        forall k | k != id ensures Get(DeliverTo(reg, id, msgIds, time).0, k) == Get(reg, k) {
          StoreThenGet(reg, v, k);
        }
      }
  }

  /** The outer loop over the target ids, in order. */
  function Deliver(reg: Registry, targets: seq<string>, msgIds: seq<string>, time: string): (r: (Registry, seq<Notice>, seq<string>))
    decreases |targets|
    ensures r.0.dirtyRemove == reg.dirtyRemove
    ensures forall i :: 0 <= i < |r.2| ==> r.2[i] == "unit"
  {
    if |targets| == 0 then (reg, [], [])
    else
      var s := DeliverTo(reg, targets[0], msgIds, time);
      var rest := Deliver(s.0, targets[1..], msgIds, time);
      (rest.0, s.1 + rest.1, s.2 + rest.2)
  }

  /** The announcements a delivery owes: each message once per listed general, in target order. */
  function ExpectedNotices(reg: Registry, targets: seq<string>, msgIds: seq<string>, time: string): seq<Notice>
    decreases |targets|
  {
    if |targets| == 0 then []
    else (if NotifiesGeneral(reg, targets[0]) then NoticesFor(msgIds, time) else []) +
         ExpectedNotices(reg, targets[1..], msgIds, time)
  }

  /** The expected announcements depend only on which targets are generals. */
  lemma {:induction false} ExpectedNoticesAgree(a: Registry, b: Registry, targets: seq<string>, msgIds: seq<string>, time: string)
    requires forall k :: k in targets ==> (NotifiesGeneral(a, k) <==> NotifiesGeneral(b, k))
    decreases |targets|
    ensures ExpectedNotices(a, targets, msgIds, time) == ExpectedNotices(b, targets, msgIds, time)
  {
    if |targets| > 0 {
      assert targets[0] in targets;
      assert forall k :: k in targets[1..] ==> k in targets;
      ExpectedNoticesAgree(a, b, targets[1..], msgIds, time);
    }
  }

  /**
   * The whole delivery: announcements are exactly the expected ones; every
   * found target holds every message and is queued for sync; missing targets
   * stay missing and every other unit is untouched.
   */
  lemma {:induction false} DeliverEffect(reg: Registry, targets: seq<string>, msgIds: seq<string>, time: string)
    requires KeysDistinct(reg.units, UnitId)
    decreases |targets|
    ensures var r := Deliver(reg, targets, msgIds, time);
            r.1 == ExpectedNotices(reg, targets, msgIds, time) &&
            KeysDistinct(r.0.units, UnitId) &&
            (forall k :: k !in targets ==> Get(r.0, k) == Get(reg, k)) &&
            (forall k :: k in targets && Get(reg, k).None? ==> Get(r.0, k).None?) &&
            (forall k :: k in targets && Get(reg, k).Some? ==> Get(r.0, k) == Some(LinkAll(Get(reg, k).value, msgIds))) &&
            (forall k :: k in reg.dirty ==> k in r.0.dirty) &&
            (|msgIds| > 0 ==> forall k :: k in targets && Get(reg, k).Some? ==> k in r.0.dirty)
  {
    if |targets| > 0 {
      var t0 := targets[0];
      var s := DeliverTo(reg, t0, msgIds, time);
      DeliverToEffect(reg, t0, msgIds, time);
      DeliverEffect(s.0, targets[1..], msgIds, time);
      var r := Deliver(reg, targets, msgIds, time);
      assert forall k :: k in targets <==> k == t0 || k in targets[1..];
      forall k | k in targets[1..] ensures NotifiesGeneral(s.0, k) <==> NotifiesGeneral(reg, k) {
        if k != t0 {
          assert Get(s.0, k) == Get(reg, k);
        } else if Get(reg, k).Some? {
          LinkAllLinks(Get(reg, k).value, msgIds);
        }
      }
      ExpectedNoticesAgree(s.0, reg, targets[1..], msgIds, time);
      forall k | k in targets && Get(reg, k).Some?
        ensures Get(r.0, k) == Some(LinkAll(Get(reg, k).value, msgIds))
      {
        if k == t0 && k in targets[1..] {
          LinkAllIdempotent(Get(reg, k).value, msgIds);
        }
      }
    }
  }

  /** `isFinished`: set by the first update. */
  predicate DeliveryFinished(c: Command) {
    c.delivered
  }

  /** `estimate`: always one second. */
  function DeliveryEstimate(c: Command, u: Unit): (r: real)
    ensures r == 1.0
  {
    1.0
  }

  /** The update's result: the command, the registry, the `api` notices and the `changed` reasons, each in emission order. */
  datatype DeliveryOutcome = DeliveryOutcome(command: Command, reg: Registry, notices: seq<Notice>, changed: seq<string>)

  /**
   * `update`: the messages the messenger carries, as the message registry
   * resolves them, are delivered to every target; the command is then
   * delivered and the messenger removes itself, a local removal.
   */
  function DeliveryUpdate(reg: Registry, c: Command, messenger: Unit, st: DeliveryState,
                          all: seq<Chat.ChatMessage>, time: string): (r: DeliveryOutcome)
    ensures DeliveryFinished(r.command) && r.command == c.(delivered := true)
    ensures Get(r.reg, messenger.id).None?
    ensures r.reg.dirtyRemove == SetAdd(reg.dirtyRemove, messenger.id)
    ensures forall i :: 0 <= i < |r.changed| ==> r.changed[i] == "unit"
  {
    var msgIds := MessageIds(Messages(messenger, all));
    var d := Deliver(reg, st.targets, msgIds, time);
    DeliveryOutcome(c.(delivered := true), Remove(d.0, messenger.id, Local), d.1, d.2)
  }

  /** A fresh delivery is not finished, and one update finishes it. */
  lemma DeliveryFinishesOnce(st: DeliveryState, reg: Registry, messenger: Unit, all: seq<Chat.ChatMessage>, time: string)
    ensures !DeliveryFinished(NewCommand(DeliveryOrder(st)))
    ensures DeliveryFinished(DeliveryUpdate(reg, NewCommand(DeliveryOrder(st)), messenger, st, all, time).command)
  {
  }

  /**
   * One update, seen from the registry: every found target other than the
   * messenger holds each carried message, the announcements are the
   * expected ones, and units neither targeted nor the messenger are as they were.
   */
  lemma DeliveryUpdateEffect(reg: Registry, c: Command, messenger: Unit, st: DeliveryState,
                             all: seq<Chat.ChatMessage>, time: string)
    requires KeysDistinct(reg.units, UnitId)
    ensures var msgIds := MessageIds(Messages(messenger, all));
            var r := DeliveryUpdate(reg, c, messenger, st, all, time);
            r.notices == ExpectedNotices(reg, st.targets, msgIds, time) &&
            (forall k :: k in st.targets && k != messenger.id && Get(reg, k).Some? ==>
               Get(r.reg, k) == Some(LinkAll(Get(reg, k).value, msgIds))) &&
            (forall k :: k !in st.targets && k != messenger.id ==> Get(r.reg, k) == Get(reg, k))
  {
    var msgIds := MessageIds(Messages(messenger, all));
    DeliverEffect(reg, st.targets, msgIds, time);
  }
}
