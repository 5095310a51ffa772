/** The values of chats and contacts after any run of the message store, from any state: names, times, and which
    of them exist; and what a history sync files. */
module StoreBooks {
  import opened Common
  import opened Store
  import opened StoreRuns

  // ---- names --------------------------------------------------------------------------

  predicate Has(name: Option<string>) {
    name.Some? && name.value != ""
  }

  /** The last name that a history sync gives the chat. */
  function SyncedName(log: seq<Act>, jid: string): Option<string> {
    if log == [] then None
    else
      var last := log[|log| - 1];
      if last.ChatSynced? && last.id == jid && Has(last.name) then last.name else SyncedName(log[..|log| - 1], jid)
  }

  /** The chat that a message is delivered to. */
  predicate DeliveredTo(a: Act, jid: string) {
    a.Delivered? && jid != "" && a.message.key.remoteJid == Some(jid)
  }

  /** The first push name that is delivered to the chat. */
  function FirstPush(log: seq<Act>, jid: string): Option<string> {
    if log == [] then None
    else
      var before, last := FirstPush(log[..|log| - 1], jid), log[|log| - 1];
      if before.Some? then before
      else if DeliveredTo(last, jid) && Has(last.message.pushName) then last.message.pushName
      else None
  }

  function ChatOf(s: State, jid: string): ChatValue {
    if jid in s.chats then s.chats[jid] else ChatValue(None, 0, None)
  }

  /** One name before others: the first of the three that is one. */
  function Choose(synced: Option<string>, start: Option<string>, pushed: Option<string>): Option<string> {
    if synced.Some? then synced else if Has(start) then start else if pushed.Some? then pushed else start
  }

  /** A chat is named by the last history sync that names it; without one it keeps its name; and if it has none, it
      takes the first push name. */
  lemma {:induction false} ChatName(s: State, log: seq<Act>, jid: string)
    ensures ChatOf(ApplyAll(s, log), jid).name
      == Choose(SyncedName(log, jid), ChatOf(s, jid).name, FirstPush(log, jid))
    ensures SyncedName(log, jid).Some? ==> Has(SyncedName(log, jid))
    ensures FirstPush(log, jid).Some? ==> Has(FirstPush(log, jid))
  {
    hide Apply, ChatOf;
    if log != [] {
      ChatName(s, log[..|log| - 1], jid);
      NameStep(ApplyAll(s, log[..|log| - 1]), log[|log| - 1], jid);
    }
  }

  lemma NameStep(s: State, a: Act, jid: string)
    ensures ChatOf(Apply(s, a), jid).name ==
      if a.ChatSynced? && a.id == jid && Has(a.name) then a.name
      else if DeliveredTo(a, jid) && Has(a.message.pushName) && !Has(ChatOf(s, jid).name) then a.message.pushName
      else ChatOf(s, jid).name
  {
    hide AddMessage, HasMessage, ReceivedContacts, Reacted, Merged, MarksRead;
  }

  /** The contact that a message names: its participant, or its chat. */
  predicate SentBy(a: Act, id: string) {
    && a.Delivered? && Has(a.message.key.remoteJid)
    && id == if Has(a.message.key.participant) then a.message.key.participant.value else a.message.key.remoteJid.value
  }

  function ContactOf(s: State, id: string): ContactValue {
    if id in s.contacts then s.contacts[id] else ContactValue(None, None)
  }

  function SyncedContactName(log: seq<Act>, id: string): Option<string> {
    if log == [] then None
    else
      var last := log[|log| - 1];
      if last.ContactSynced? && last.id == id && Has(last.name) then last.name
      else SyncedContactName(log[..|log| - 1], id)
  }

  function FirstSent(log: seq<Act>, id: string): Option<string> {
    if log == [] then None
    else
      var before, last := FirstSent(log[..|log| - 1], id), log[|log| - 1];
      if before.Some? then before
      else if SentBy(last, id) && Has(last.message.pushName) then last.message.pushName
      else None
  }

  /** The last push name of the contact, in a message or a history sync. */
  function LastNotify(log: seq<Act>, id: string): Option<string> {
    if log == [] then None
    else
      var last := log[|log| - 1];
      if SentBy(last, id) && Has(last.message.pushName) then last.message.pushName
      else if last.ContactSynced? && last.id == id && Has(last.notify) then last.notify
      else LastNotify(log[..|log| - 1], id)
  }

  /** A contact is named like a chat; its notify name is the last push name, of messages and history syncs alike. */
  lemma {:induction false} ContactNames(s: State, log: seq<Act>, id: string)
    ensures ContactOf(ApplyAll(s, log), id).name
      == Choose(SyncedContactName(log, id), ContactOf(s, id).name, FirstSent(log, id))
    ensures ContactOf(ApplyAll(s, log), id).notify
      == if LastNotify(log, id).Some? then LastNotify(log, id) else ContactOf(s, id).notify
    ensures SyncedContactName(log, id).Some? ==> Has(SyncedContactName(log, id))
    ensures FirstSent(log, id).Some? ==> Has(FirstSent(log, id))
  {
    hide Apply, ContactOf;
    if log != [] {
      ContactNames(s, log[..|log| - 1], id);
      ContactStep(ApplyAll(s, log[..|log| - 1]), log[|log| - 1], id);
    }
  }

  lemma ContactStep(s: State, a: Act, id: string)
    ensures
      var before, after := ContactOf(s, id), ContactOf(Apply(s, a), id);
      if SentBy(a, id) && Has(a.message.pushName) then
        after == ContactValue(if Has(before.name) then before.name else a.message.pushName, a.message.pushName)
      else if a.ContactSynced? && a.id == id then
        after == ContactValue(if Has(a.name) then a.name else before.name,
                              if Has(a.notify) then a.notify else before.notify)
      else after == before
  {
    hide AddMessage, HasMessage, ReceivedChat, SyncedChat, Reacted, Merged, MarksRead;
  }

  // ---- times --------------------------------------------------------------------------

  /** The time that an act gives the chat. */
  function Stamp(a: Act, jid: string): Option<int> {
    if DeliveredTo(a, jid) then a.message.timestamp
    else if a.ChatSynced? && a.id == jid then a.timestamp
    else None
  }

  /** How many acts there are before the last history sync that sets the time of the chat; all of them count if there
      is none. */
  function LastTimed(log: seq<Act>, jid: string): (n: Option<nat>)
    ensures n.Some? ==> n.value < |log|
  {
    if log == [] then None
    else
      var last := log[|log| - 1];
      if last.ChatSynced? && last.id == jid && last.timestamp.Some? then Some(|log| - 1)
      else LastTimed(log[..|log| - 1], jid)
  }

  function From(log: seq<Act>, jid: string): (n: nat)
    ensures n <= |log|
  {
    match LastTimed(log, jid)
    case None => 0
    case Some(n) => n
  }

  /** The time of a chat is the latest of those that it was given since the last history sync that set it; before any
      such sync the time it had at the start counts as well. */
  ghost predicate Latest(log: seq<Act>, jid: string, start: Option<int>, t: Option<int>) {
    && (forall i :: From(log, jid) <= i < |log| && Stamp(log[i], jid).Some? ==>
          t.Some? && Stamp(log[i], jid).value <= t.value)
    && (LastTimed(log, jid) == None && start.Some? ==> t.Some? && start.value <= t.value)
    && (t.Some? ==> (LastTimed(log, jid) == None && start == t)
                    || exists i :: From(log, jid) <= i < |log| && Stamp(log[i], jid) == t)
  }

  lemma {:induction false} ChatTime(s: State, log: seq<Act>, jid: string)
    ensures Latest(log, jid, ChatOf(s, jid).timestamp, ChatOf(ApplyAll(s, log), jid).timestamp)
  {
    if log != [] {
      var before, last := log[..|log| - 1], log[|log| - 1];
      ChatTime(s, before, jid);
      TimeStep(ApplyAll(s, before), last, jid);
      LatestMore(before, last, jid, ChatOf(s, jid).timestamp, ChatOf(ApplyAll(s, before), jid).timestamp,
                 ChatOf(ApplyAll(s, log), jid).timestamp);
      assert log == before + [last];
    }
  }

  lemma TimeStep(s: State, a: Act, jid: string)
    ensures
      var t, stamp := ChatOf(s, jid).timestamp, Stamp(a, jid);
      ChatOf(Apply(s, a), jid).timestamp ==
      if stamp.None? then t
      else if a.ChatSynced? || t.None? || stamp.value > t.value then stamp
      else t
  {
    hide AddMessage, HasMessage, ReceivedContacts, Reacted, Merged, MarksRead;
  }

  lemma LatestMore(log: seq<Act>, a: Act, jid: string, start: Option<int>, t: Option<int>, now: Option<int>)
    requires Latest(log, jid, start, t)
    requires
      var stamp := Stamp(a, jid);
      now == if stamp.None? then t
             else if a.ChatSynced? || t.None? || stamp.value > t.value then stamp
             else t
    ensures Latest(log + [a], jid, start, now)
  {
    var more := log + [a];
    assert more[|log|] == a && more[..|log|] == log;
    assert forall i :: 0 <= i < |log| ==> more[i] == log[i];
  }

  // ---- which chats and contacts there are ---------------------------------------------

  /** An act that a chat comes from. */
  predicate MakesChat(a: Act, jid: string) {
    DeliveredTo(a, jid) || (a.ChatSynced? && a.id == jid)
  }

  predicate MakesContact(a: Act, id: string) {
    (SentBy(a, id) && Has(a.message.pushName)) || (a.ContactSynced? && a.id == id)
  }

  /** Chats and contacts come only from such acts, and nothing takes them away. */
  lemma {:induction false} WhoIsThere(s: State, log: seq<Act>, id: string)
    ensures id in ApplyAll(s, log).chats
      <==> id in s.chats || exists i :: 0 <= i < |log| && MakesChat(log[i], id)
    ensures id in ApplyAll(s, log).contacts
      <==> id in s.contacts || exists i :: 0 <= i < |log| && MakesContact(log[i], id)
  {
    hide Apply, MakesChat, MakesContact;
    if log != [] {
      var before, last := log[..|log| - 1], log[|log| - 1];
      WhoIsThere(s, before, id);
      ThereStep(ApplyAll(s, before), last, id);
      assert forall i :: 0 <= i < |before| ==> before[i] == log[i];
    }
  }

  lemma ThereStep(s: State, a: Act, id: string)
    ensures id in Apply(s, a).chats <==> id in s.chats || MakesChat(a, id)
    ensures id in Apply(s, a).contacts <==> id in s.contacts || MakesContact(a, id)
  {
    hide AddMessage, HasMessage, ReceivedChat, SyncedChat, ReceivedContact, SyncedContact, Reacted, Merged;
  }

  // ---- reading ------------------------------------------------------------------------

  /** A status of 3 or more for a message of others. */
  predicate Reads(key: Key, fields: Fields, jid: string) {
    && jid != "" && key.remoteJid == Some(jid) && !key.fromMe
    && "status" in fields && fields["status"].Some? && fields["status"].value >= 3
  }

  /** A status update sets the unread count of a chat to zero if it is such a one, and changes no count otherwise. */
  lemma ReadResets(s: State, key: Key, fields: Fields, jid: string)
    ensures Unread(Apply(s, Updated(key, fields)), jid) == if Reads(key, fields, jid) then 0 else Unread(s, jid)
  {
    hide Merged;
  }

  // ---- what is told, and what a history sync files ------------------------------------

  /** A chat is listed exactly when an act made it, or marked it as read when it was there; a contact when an act made
      it or named it again. */
  lemma {:induction false} ListedTouched(s: State, acts: seq<Act>, id: string)
    ensures id in ChangedChats(s, acts)
      <==> exists i :: 0 <= i < |acts| && TouchedAt(s, acts, i, id)
    ensures id in ChangedContacts(acts) <==> exists i :: 0 <= i < |acts| && MakesContact(acts[i], id)
  {
    hide Apply, TouchesChat, TouchedAt, MakesContact, ChangedChat, ChangedContact;
    if acts != [] {
      var before, last := acts[..|acts| - 1], acts[|acts| - 1];
      ListedTouched(s, before, id);
      ListedStep(ApplyAll(s, before), last, id);
      TouchedMore(s, acts, id);
      assert forall i :: 0 <= i < |before| ==> before[i] == acts[i];
    }
  }

  /** The `i`-th act touches the chat as it stands by then. */
  predicate TouchedAt(s: State, acts: seq<Act>, i: nat, id: string)
    requires i < |acts|
  {
    TouchesChat(ApplyAll(s, acts[..i]), acts[i], id)
  }

  lemma TouchedMore(s: State, acts: seq<Act>, id: string)
    requires acts != []
    ensures
      var n := |acts| - 1;
      && (forall i :: 0 <= i < n ==> (TouchedAt(s, acts[..n], i, id) <==> TouchedAt(s, acts, i, id)))
      && (TouchedAt(s, acts, n, id) <==> TouchesChat(ApplyAll(s, acts[..n]), acts[n], id))
  {
    hide TouchesChat, ApplyAll;
    var n := |acts| - 1;
    assert forall i :: 0 <= i < n ==> acts[..n][..i] == acts[..i];
  }

  predicate TouchesChat(s: State, a: Act, id: string) {
    MakesChat(a, id) || (a.Updated? && Reads(a.key, a.fields, id) && id in s.chats)
  }

  lemma ListedStep(s: State, a: Act, id: string)
    ensures ChangedChat(s, a) == Some(id) <==> TouchesChat(s, a, id)
    ensures ChangedContact(a) == Some(id) <==> MakesContact(a, id)
  {
  }

  /** The message inside a history sync: empty texts and the time 0 count as missing. */
  lemma InfoFields(info: WebMessageInfo)
    ensures
      var m := FromInfo(info);
      && (Has(m.key.remoteJid) <==> info.remoteJid != "")
      && (Has(m.key.remoteJid) ==> m.key.remoteJid.value == info.remoteJid)
      && m.key.remoteJid != Some("") && m.key.id != Some("") && m.key.participant != Some("") && m.pushName != Some("")
      && (info.id != "" ==> m.key.id == Some(info.id)) && (info.id == "" ==> m.key.id == None)
      && (info.participant != "" ==> m.key.participant == Some(info.participant))
      && (info.participant == "" ==> m.key.participant == None)
      && (info.pushName != "" ==> m.pushName == Some(info.pushName)) && (info.pushName == "" ==> m.pushName == None)
      && (info.timestamp != 0 ==> m.timestamp == Some(info.timestamp)) && (info.timestamp == 0 ==> m.timestamp == None)
      && m.key.fromMe == info.fromMe && m.body == info.body
  {
  }

  /** After a history sync every message in it that names a chat is there, and so is every chat and contact. */
  lemma HistoryFiled(s: State, h: History, i: nat)
    ensures
      var after := ApplyAll(s, HistoryActs(h));
      && (i < |h.messages| && h.messages[i].remoteJid != "" ==>
            var jid := h.messages[i].remoteJid;
            FromInfo(h.messages[i]) in Bucket(after, jid) || HasMessage(Bucket(after, jid), FromInfo(h.messages[i])))
      && (i < |h.chats| ==> h.chats[i].id in after.chats)
      && (i < |h.contacts| ==> h.contacts[i].id in after.contacts)
  {
    hide ApplyAll, FromInfo;
    var acts, c, d := HistoryActs(h), |h.chats|, |h.contacts|;
    if i < c {
      assert acts[i] == ChatSynced(h.chats[i].id, h.chats[i].timestamp, h.chats[i].name, h.chats[i].unread);
      WhoIsThere(s, acts, h.chats[i].id);
      assert MakesChat(acts[i], h.chats[i].id);
    }
    if i < d {
      assert acts[c + i] == ContactSynced(h.contacts[i].id, h.contacts[i].name, h.contacts[i].notify);
      WhoIsThere(s, acts, h.contacts[i].id);
      assert MakesContact(acts[c + i], h.contacts[i].id);
    }
    if i < |h.messages| && h.messages[i].remoteJid != "" {
      assert acts[c + d + i] == MessageSynced(FromInfo(h.messages[i]));
      InfoFields(h.messages[i]);
      CarriedThere(s, acts, c + d + i, h.messages[i].remoteJid);
    }
  }

  /** A message that a run carries to a chat is there afterwards, or one with its id is. */
  lemma {:induction false} CarriedThere(s: State, log: seq<Act>, i: nat, jid: string)
    requires i < |log| && Carried(log[i], jid).Some?
    ensures
      var m, bucket := Carried(log[i], jid).value, Bucket(ApplyAll(s, log), jid);
      m in bucket || HasMessage(bucket, m)
  {
    hide HasMessage;
    var m, before := Carried(log[i], jid).value, ApplyAll(s, log[..|log| - 1]);
    if i < |log| - 1 {
      CarriedThere(s, log[..|log| - 1], i, jid);
      var c := Carried(log[|log| - 1], jid);
      if c.Some? {
        HasAppended(Bucket(before, jid), c.value, m);
      }
    }
  }

  /** The reaction in a message: to the message its key names, in the chat of the key or else of the message itself,
      and from the participant or else the chat that the message is from. */
  lemma ReactionFields(m: Message)
    ensures
      var r := ReactionOf(m);
      && (r.Some? <==> m.body.Some? && m.body.value.reaction.Some?)
      && (r.Some? ==>
            var given := m.body.value.reaction.value;
            && r.value.text == given.text && r.value.key.fromMe == given.fromMe
            && r.value.timestamp == (if given.timestamp == 0 then None else Some(given.timestamp))
            && r.value.key.id == (if given.id == "" then None else Some(given.id))
            && r.value.key.participant == (if given.participant == "" then None else Some(given.participant))
            && r.value.key.remoteJid == (if given.remoteJid == "" then m.key.remoteJid else Some(given.remoteJid))
            && r.value.fromJid == if Has(m.key.participant) then m.key.participant else m.key.remoteJid)
  {
  }

  /** Reactions and updates are filed under the chat, the id and the participant of a key, and under nothing else. */
  lemma FiledUnder(a: Key, b: Key)
    ensures IdOf(a) == IdOf(b) <==> a.remoteJid == b.remoteJid && a.id == b.id && a.participant == b.participant
    ensures IdOf(a).remoteJid == a.remoteJid && IdOf(a).id == a.id && IdOf(a).participant == a.participant
  {
  }
}
