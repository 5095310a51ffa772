/** What the message store holds after any run of upserts, status updates and history syncs. */
module StoreRuns {
  import opened Common
  import opened Store

  const EMPTY := State(map[], map[], map[], map[], map[])

  function Bucket(s: State, jid: string): seq<Message> {
    Get(s.messages, jid, [])
  }

  function Unread(s: State, jid: string): int {
    Get(s.chats, jid, NEW_CHAT).unread
  }

  // ---- a run read as a log ------------------------------------------------------------

  /** The message that an act carries to the chat `jid`. */
  function Carried(a: Act, jid: string): Option<Message> {
    if (a.Delivered? || a.MessageSynced?) && Filled(a.message.key.remoteJid) && a.message.key.remoteJid.value == jid
    then Some(a.message)
    else None
  }

  /** Whether an earlier act carried a message with this id to the chat. */
  ghost predicate Seen(log: seq<Act>, jid: string, id: Option<string>) {
    exists k :: 0 <= k < |log| && Carried(log[k], jid).Some? && Carried(log[k], jid).value.key.id == id
  }

  /** A message seen for the first time; one without an id always is. */
  ghost predicate FirstSeen(log: seq<Act>, jid: string, m: Message) {
    !Filled(m.key.id) || !Seen(log, jid, m.key.id)
  }

  /** The messages that a log carries to the chat, each the first time it is seen. */
  ghost function Firsts(log: seq<Act>, jid: string): seq<Message> {
    if log == [] then []
    else
      var before, m := log[..|log| - 1], Carried(log[|log| - 1], jid);
      Firsts(before, jid) + if m.Some? && FirstSeen(before, jid, m.value) then [m.value] else []
  }

  /** An act that sets the unread count of the chat: a history sync, or a message of it marked as read. */
  predicate Resets(a: Act, jid: string) {
    || (a.ChatSynced? && a.id == jid)
    || (MarksRead(a) && a.key.remoteJid.value == jid)
  }

  /** How many acts there are up to the last that resets the chat. */
  function LastReset(log: seq<Act>, jid: string): (n: nat)
    ensures n <= |log|
    ensures n > 0 ==> Resets(log[n - 1], jid)
  {
    if log == [] then 0
    else if Resets(log[|log| - 1], jid) then |log|
    else LastReset(log[..|log| - 1], jid)
  }

  /** The count that the last reset sets. */
  function ResetValue(log: seq<Act>, jid: string): int {
    var n := LastReset(log, jid);
    if n > 0 && log[n - 1].ChatSynced? then log[n - 1].unread else 0
  }

  /** A message that counts as unread: new, received just now, and not sent by the user. */
  ghost predicate Counts(log: seq<Act>, a: Act, jid: string) {
    a.Delivered? && a.isNotify && !a.message.key.fromMe
    && Carried(a, jid).Some? && FirstSeen(log, jid, a.message)
  }

  /** How many acts from number `from` on count as unread. */
  ghost function CountedSince(log: seq<Act>, from: nat, jid: string): nat {
    if |log| <= from then 0
    else
      var before := log[..|log| - 1];
      CountedSince(before, from, jid) + if Counts(before, log[|log| - 1], jid) then 1 else 0
  }

  // ---- buckets ------------------------------------------------------------------------

  lemma {:induction false} FirstsHold(log: seq<Act>, jid: string, m: Message)
    ensures HasMessage(Firsts(log, jid), m) <==> Filled(m.key.id) && Seen(log, jid, m.key.id)
  {
    if log != [] {
      var before, last := log[..|log| - 1], log[|log| - 1];
      FirstsHold(before, jid, m);
      SeenStep(before, last, jid, m.key.id);
      assert log == before + [last];
      var c := Carried(last, jid);
      if c.Some? && FirstSeen(before, jid, c.value) {
        HasAppended(Firsts(before, jid), c.value, m);
      } else {
        assert Firsts(log, jid) == Firsts(before, jid);
      }
    }
  }

  lemma SeenStep(log: seq<Act>, a: Act, jid: string, id: Option<string>)
    ensures Seen(log + [a], jid, id)
      <==> Seen(log, jid, id) || (Carried(a, jid).Some? && Carried(a, jid).value.key.id == id)
  {
    var more := log + [a];
    assert more[|log|] == a;
    if Seen(log, jid, id) {
      var k :| 0 <= k < |log| && Carried(log[k], jid).Some? && Carried(log[k], jid).value.key.id == id;
      assert more[k] == log[k];
    }
  }

  lemma HasAppended(bucket: seq<Message>, x: Message, m: Message)
    ensures HasMessage(bucket + [x], m) <==> HasMessage(bucket, m) || (Filled(x.key.id) && x.key.id == m.key.id)
  {
    var more := bucket + [x];
    assert more[|bucket|] == x;
    if HasMessage(bucket, m) {
      var i :| 0 <= i < |bucket| && Filled(bucket[i].key.id) && bucket[i].key.id == m.key.id;
      assert more[i] == bucket[i];
    }
  }

  /** A bucket holds exactly the messages carried to its chat, each when first seen, in that order. */
  lemma {:induction false} BucketIsFirsts(log: seq<Act>, jid: string)
    ensures Bucket(ApplyAll(EMPTY, log), jid) == Firsts(log, jid)
  {
    if log != [] {
      var before, last := log[..|log| - 1], log[|log| - 1];
      BucketIsFirsts(before, jid);
      var c := Carried(last, jid);
      if c.Some? {
        FirstsHold(before, jid, c.value);
      }
    }
  }

  lemma UnreadStep(s: State, a: Act, jid: string)
    ensures Unread(Apply(s, a), jid)
      == if Resets(a, jid) then (if a.ChatSynced? then a.unread else 0)
         else if a.Delivered? && a.isNotify && !a.message.key.fromMe && Carried(a, jid).Some?
                 && !HasMessage(Bucket(s, jid), a.message)
         then Unread(s, jid) + 1
         else Unread(s, jid)
  {
  }

  /** The unread count of a chat is what the last reset set, plus the messages counted since. */
  lemma {:induction false} UnreadAccounting(log: seq<Act>, jid: string)
    ensures Unread(ApplyAll(EMPTY, log), jid) == ResetValue(log, jid) + CountedSince(log, LastReset(log, jid), jid)
  {
    hide Apply, Unread, HasMessage, Resets;
    if log == [] {
      assert Unread(EMPTY, jid) == 0 by { NothingUnread(jid); }
    } else {
      var before, last := log[..|log| - 1], log[|log| - 1];
      UnreadAccounting(before, jid);
      UnreadStep(ApplyAll(EMPTY, before), last, jid);
      BucketIsFirsts(before, jid);
      var c := Carried(last, jid);
      if c.Some? {
        FirstsHold(before, jid, c.value);
      }
    }
  }

  lemma NothingUnread(jid: string)
    ensures Unread(EMPTY, jid) == 0
  {
  }

  // ---- no id twice --------------------------------------------------------------------

  ghost predicate Distinct(bucket: seq<Message>) {
    forall i, j :: 0 <= i < j < |bucket| && Filled(bucket[i].key.id) ==> bucket[i].key.id != bucket[j].key.id
  }

  lemma {:induction false} DistinctIds(s: State, log: seq<Act>, jid: string)
    requires Distinct(Bucket(s, jid))
    ensures Distinct(Bucket(ApplyAll(s, log), jid))
  {
    if log != [] {
      DistinctIds(s, log[..|log| - 1], jid);
    }
  }

  // ---- redelivery ---------------------------------------------------------------------

  /** What has been received of a message: receiving it again changes no more than the contact's notify name. */
  ghost predicate Covers(s: State, m: Message) {
    Filled(m.key.remoteJid) ==>
      var jid := m.key.remoteJid.value;
      && HasMessage(Bucket(s, jid), m)
      && jid in s.chats
      && (m.timestamp.Some? ==> s.chats[jid].timestamp.Some? && m.timestamp.value <= s.chats[jid].timestamp.value)
      && (Filled(m.pushName) ==>
            Filled(s.chats[jid].name) && Sender(m) in s.contacts && Filled(s.contacts[Sender(m)].name))
  }

  /** Whether every message that is stored has an id. */
  predicate Identified(batch: seq<Message>) {
    forall i :: 0 <= i < |batch| && Filled(batch[i].key.remoteJid) ==> Filled(batch[i].key.id)
  }

  function Upsert(s: State, batch: seq<Message>, kind: string): State {
    ApplyAll(s, UpsertActs(batch, kind))
  }

  lemma UpsertStep(s: State, batch: seq<Message>, kind: string)
    requires batch != []
    ensures
      var n := |batch| - 1;
      Upsert(s, batch, kind) == Apply(Upsert(s, batch[..n], kind), Delivered(batch[n], kind == "notify"))
  {
    var acts, n := UpsertActs(batch, kind), |batch| - 1;
    assert acts[..n] == UpsertActs(batch[..n], kind);
  }

  lemma CoversReceived(s: State, m: Message, n: bool)
    requires Filled(m.key.remoteJid) ==> Filled(m.key.id)
    ensures Covers(Apply(s, Delivered(m, n)), m)
  {
    if Filled(m.key.remoteJid) {
      HasAppended(Bucket(s, m.key.remoteJid.value), m, m);
    }
  }

  lemma CoversKept(s: State, m: Message, x: Message, n: bool)
    requires Covers(s, m)
    ensures Covers(Apply(s, Delivered(x, n)), m)
  {
    if Filled(m.key.remoteJid) {
      HasAppended(Bucket(s, m.key.remoteJid.value), x, m);
    }
  }

  lemma {:induction false} CoversAll(s: State, batch: seq<Message>, kind: string, i: nat)
    requires Identified(batch) && i < |batch|
    ensures Covers(Upsert(s, batch, kind), batch[i])
  {
    hide Covers, Apply, UpsertActs, Upsert;
    var n := |batch| - 1;
    UpsertStep(s, batch, kind);
    var before := Upsert(s, batch[..n], kind);
    if i == n {
      CoversReceived(before, batch[n], kind == "notify");
    } else {
      CoversAll(s, batch[..n], kind, i);
      CoversKept(before, batch[i], batch[n], kind == "notify");
    }
  }

  type Contacts = map<string, ContactValue>

  /** Only the notify name set again. */
  function Renotified(contacts: Contacts, m: Message): Contacts {
    if Filled(m.key.remoteJid) && Filled(m.pushName)
    then contacts[Sender(m) := Get(contacts, Sender(m), NEW_CONTACT).(notify := m.pushName)]
    else contacts
  }

  function RenotifiedAll(contacts: Contacts, batch: seq<Message>): Contacts {
    if batch == [] then contacts else Renotified(RenotifiedAll(contacts, batch[..|batch| - 1]), batch[|batch| - 1])
  }

  /** The reactions of the stored messages of a batch, added in order. */
  function ReactedAll(reactions: Reactions, batch: seq<Message>): Reactions {
    if batch == [] then reactions
    else
      var before, m := ReactedAll(reactions, batch[..|batch| - 1]), batch[|batch| - 1];
      if Filled(m.key.remoteJid) then Reacted(before, m) else before
  }

  lemma CoveredStep(s: State, m: Message, n: bool)
    requires Covers(s, m)
    ensures Apply(s, Delivered(m, n))
      == s.(contacts := Renotified(s.contacts, m),
            reactions := if Filled(m.key.remoteJid) then Reacted(s.reactions, m) else s.reactions)
  {
    hide Reacted;
  }

  lemma CoversRenotified(s: State, m: Message, x: Message)
    requires Covers(s, m) && Covers(s, x)
    ensures forall r: Reactions :: Covers(s.(contacts := Renotified(s.contacts, x), reactions := r), m)
  {
  }

  ghost predicate CoversBatch(s: State, batch: seq<Message>) {
    forall i :: 0 <= i < |batch| ==> Covers(s, batch[i])
  }

  lemma {:induction false} CoveredBatch(s: State, batch: seq<Message>, kind: string, all: seq<Message>)
    requires CoversBatch(s, all) && batch <= all
    ensures Upsert(s, batch, kind)
      == s.(contacts := RenotifiedAll(s.contacts, batch), reactions := ReactedAll(s.reactions, batch))
    ensures CoversBatch(Upsert(s, batch, kind), all)
  {
    hide Covers, Apply, Renotified;
    if batch != [] {
      var n := |batch| - 1;
      CoveredBatch(s, batch[..n], kind, all);
      UpsertStep(s, batch, kind);
      var before := Upsert(s, batch[..n], kind);
      assert batch[n] == all[n];
      CoveredStep(before, batch[n], kind == "notify");
      forall i | 0 <= i < |all|
        ensures Covers(Upsert(s, batch, kind), all[i])
      {
        CoversRenotified(before, all[i], batch[n]);
      }
    }
  }

  /** The push name of the last message that a contact sent, or `start`. */
  function LastPush(batch: seq<Message>, c: string, start: Option<string>): Option<string> {
    if batch == [] then start
    else
      var m := batch[|batch| - 1];
      if Filled(m.key.remoteJid) && Filled(m.pushName) && Sender(m) == c then m.pushName
      else LastPush(batch[..|batch| - 1], c, start)
  }

  lemma {:induction false} LastPushTwice(batch: seq<Message>, c: string, start: Option<string>)
    ensures LastPush(batch, c, LastPush(batch, c, start)) == LastPush(batch, c, start)
  {
    if batch != [] {
      LastPushTwice(batch[..|batch| - 1], c, start);
    }
  }

  lemma {:induction false} NotifyAfter(s: State, batch: seq<Message>, kind: string, c: string)
    ensures Get(Upsert(s, batch, kind).contacts, c, NEW_CONTACT).notify
      == LastPush(batch, c, Get(s.contacts, c, NEW_CONTACT).notify)
  {
    if batch != [] {
      NotifyAfter(s, batch[..|batch| - 1], kind, c);
      UpsertStep(s, batch, kind);
    }
  }

  predicate SendersIn(contacts: Contacts, batch: seq<Message>) {
    forall m :: m in batch && Filled(m.key.remoteJid) && Filled(m.pushName) ==> Sender(m) in contacts
  }

  lemma {:induction false} RenotifiedSame(contacts: Contacts, batch: seq<Message>)
    requires SendersIn(contacts, batch)
    ensures RenotifiedAll(contacts, batch).Keys == contacts.Keys
    ensures forall c :: c in contacts ==>
      RenotifiedAll(contacts, batch)[c]
      == ContactValue(contacts[c].name, LastPush(batch, c, contacts[c].notify))
  {
    if batch != [] {
      RenotifiedSame(contacts, batch[..|batch| - 1]);
    }
  }

  /** A batch with ids delivered again, under whatever kind, changes nothing but the reactions, which are
      added once more. */
  lemma RedeliveredSame(s: State, batch: seq<Message>, kind: string, again: string)
    requires Identified(batch)
    ensures
      var once := Upsert(s, batch, kind);
      Upsert(once, batch, again) == once.(reactions := ReactedAll(once.reactions, batch))
  {
    hide Upsert, LastPush, RenotifiedAll, ReactedAll;
    var once := Upsert(s, batch, kind);
    forall i | 0 <= i < |batch|
      ensures Covers(once, batch[i])
    {
      CoversAll(s, batch, kind, i);
    }
    CoveredBatch(once, batch, again, batch);
    RenotifiedSame(once.contacts, batch);
    forall c | c in once.contacts
      ensures RenotifiedAll(once.contacts, batch)[c] == once.contacts[c]
    {
      NotifyAfter(s, batch, kind, c);
      LastPushTwice(batch, c, Get(s.contacts, c, NEW_CONTACT).notify);
    }
    assert RenotifiedAll(once.contacts, batch) == once.contacts;
  }

  lemma {:induction false} BucketGrows(s: State, batch: seq<Message>, kind: string, jid: string)
    ensures |Bucket(s, jid)| <= |Bucket(Upsert(s, batch, kind), jid)|
    ensures (exists i ::
               0 <= i < |batch| && batch[i].key.remoteJid == Some(jid) && jid != "" && !Filled(batch[i].key.id))
      ==> |Bucket(s, jid)| < |Bucket(Upsert(s, batch, kind), jid)|
  {
    if batch != [] {
      BucketGrows(s, batch[..|batch| - 1], kind, jid);
      UpsertStep(s, batch, kind);
    }
  }

  predicate SameBooks(s: State, t: State) {
    s.messages == t.messages && s.chats == t.chats && s.contacts == t.contacts
  }

  /** Delivering a batch a second time changes no message, chat or contact exactly when every message
      that is stored has an id. */
  lemma RedeliveryExact(s: State, batch: seq<Message>, kind: string, again: string)
    ensures SameBooks(Upsert(Upsert(s, batch, kind), batch, again), Upsert(s, batch, kind)) <==> Identified(batch)
  {
    hide Upsert;
    if Identified(batch) {
      RedeliveredSame(s, batch, kind, again);
    } else {
      var i :| 0 <= i < |batch| && Filled(batch[i].key.remoteJid) && !Filled(batch[i].key.id);
      BucketGrows(Upsert(s, batch, kind), batch, again, batch[i].key.remoteJid.value);
    }
  }

  // ---- reactions, updates and what is told --------------------------------------------

  /** The reactions to one message that the stored messages of a log carry, in order. */
  function ReactionsTo(log: seq<Act>, k: MessageId): seq<Reaction> {
    if log == [] then []
    else ReactionsTo(log[..|log| - 1], k) + To(ToldReaction(log[|log| - 1]), k)
  }

  function To(told: seq<Reaction>, k: MessageId): seq<Reaction> {
    if told != [] && IdOf(told[0].key) == k then told else []
  }

  lemma ReactionStep(s: State, a: Act, k: MessageId)
    ensures Get(Apply(s, a).reactions, k, []) == Get(s.reactions, k, []) + To(ToldReaction(a), k)
  {
    hide AddMessage, ReceivedChat, ReceivedContacts, Merged, HasMessage, ReactionOf, MarksRead;
    if ToldReaction(a) == [] || IdOf(ToldReaction(a)[0].key) != k {
      assert Get(s.reactions, k, []) + [] == Get(s.reactions, k, []);
    }
  }

  /** The store keeps every reaction that is delivered, in order, and again when it is delivered again. */
  lemma {:induction false} ReactionsKept(s: State, log: seq<Act>, k: MessageId)
    ensures Get(ApplyAll(s, log).reactions, k, []) == Get(s.reactions, k, []) + ReactionsTo(log, k)
  {
    hide Apply, ToldReaction, To;
    if log == [] {
      assert Get(s.reactions, k, []) + ReactionsTo(log, k) == Get(s.reactions, k, []);
    } else {
      ReactionsKept(s, log[..|log| - 1], k);
      ReactionStep(ApplyAll(s, log[..|log| - 1]), log[|log| - 1], k);
      var told := To(ToldReaction(log[|log| - 1]), k);
      var front, before := ReactionsTo(log[..|log| - 1], k), Get(s.reactions, k, []);
      assert (before + front) + told == before + (front + told);
    }
  }

  /** Nothing at all changes on a second delivery exactly when moreover no stored message is a reaction. */
  lemma RedeliveryChangesNothing(s: State, batch: seq<Message>, kind: string, again: string)
    ensures Upsert(Upsert(s, batch, kind), batch, again) == Upsert(s, batch, kind)
      <==> Identified(batch)
           && forall i :: 0 <= i < |batch| && Filled(batch[i].key.remoteJid) ==> ReactionOf(batch[i]).None?
  {
    hide Upsert, ReactedAll, ReactionOf;
    var once := Upsert(s, batch, kind);
    RedeliveryExact(s, batch, kind, again);
    if Identified(batch) {
      RedeliveredSame(s, batch, kind, again);
      if forall i :: 0 <= i < |batch| && Filled(batch[i].key.remoteJid) ==> ReactionOf(batch[i]).None? {
        NoReactions(once.reactions, batch);
      } else {
        var i :| 0 <= i < |batch| && Filled(batch[i].key.remoteJid) && ReactionOf(batch[i]).Some?;
        ReactionsGrow(once.reactions, batch, IdOf(ReactionOf(batch[i]).value.key));
      }
    }
  }

  lemma {:induction false} NoReactions(reactions: Reactions, batch: seq<Message>)
    requires forall i :: 0 <= i < |batch| && Filled(batch[i].key.remoteJid) ==> ReactionOf(batch[i]).None?
    ensures ReactedAll(reactions, batch) == reactions
  {
    hide ReactionOf;
    if batch != [] {
      NoReactions(reactions, batch[..|batch| - 1]);
    }
  }

  lemma {:induction false} ReactionsGrow(reactions: Reactions, batch: seq<Message>, k: MessageId)
    ensures |Get(reactions, k, [])| <= |Get(ReactedAll(reactions, batch), k, [])|
    ensures (exists i :: 0 <= i < |batch| && Filled(batch[i].key.remoteJid) && ReactionOf(batch[i]).Some?
                         && IdOf(ReactionOf(batch[i]).value.key) == k)
      ==> |Get(reactions, k, [])| < |Get(ReactedAll(reactions, batch), k, [])|
  {
    hide ReactionOf;
    if batch != [] {
      ReactionsGrow(reactions, batch[..|batch| - 1], k);
    }
  }

  /** The last update of a message that names a field. */
  function LastField(log: seq<Act>, k: MessageId, field: string): Option<Option<int>> {
    if log == [] then None
    else
      var last := log[|log| - 1];
      if last.Updated? && IdOf(last.key) == k && field in last.fields then Some(last.fields[field])
      else LastField(log[..|log| - 1], k, field)
  }

  /** The log of updates holds, for every message and field, what the last update that names it said. */
  lemma {:induction false} UpdatesMerged(log: seq<Act>, k: MessageId, field: string)
    ensures
      var fields := Get(ApplyAll(EMPTY, log).updates, k, map[]);
      LastField(log, k, field) == if field in fields then Some(fields[field]) else None
  {
    hide Apply;
    if log != [] {
      UpdatesMerged(log[..|log| - 1], k, field);
      UpdateStep(ApplyAll(EMPTY, log[..|log| - 1]), log[|log| - 1], k);
    }
  }

  lemma UpdateStep(s: State, a: Act, k: MessageId)
    ensures Get(Apply(s, a).updates, k, map[])
      == if a.Updated? && IdOf(a.key) == k then Get(s.updates, k, map[]) + a.fields else Get(s.updates, k, map[])
  {
    hide AddMessage, ReceivedChat, ReceivedContacts, Reacted, HasMessage, MarksRead, Merged, SyncedChat, SyncedContact;
    if a.Updated? {
      MergedAt(s.updates, a.key, a.fields, k);
    }
  }

  lemma MergedAt(updates: Updates, key: Key, fields: Fields, k: MessageId)
    ensures Get(Merged(updates, key, fields), k, map[])
      == if IdOf(key) == k then Get(updates, k, map[]) + fields else Get(updates, k, map[])
  {
  }

  lemma UnlistedStep(s: State, a: Act, id: string)
    ensures
      var t := Apply(s, a);
      && (ChangedChat(s, a) != Some(id) ==>
            (id in t.chats <==> id in s.chats) && (id in s.chats ==> t.chats[id] == s.chats[id]))
      && (ChangedContact(a) != Some(id) ==>
            (id in t.contacts <==> id in s.contacts) && (id in s.contacts ==> t.contacts[id] == s.contacts[id]))
  {
    hide AddMessage, ReceivedChat, ReceivedContact, Reacted, Merged, HasMessage, SyncedChat, SyncedContact;
  }

  /** No change goes untold: a chat or contact that is not listed is as it was, and none is listed twice. */
  lemma {:induction false} UnlistedUnchanged(s: State, acts: seq<Act>, id: string)
    ensures
      var t := ApplyAll(s, acts);
      && (id !in ChangedChats(s, acts) ==>
            (id in t.chats <==> id in s.chats) && (id in s.chats ==> t.chats[id] == s.chats[id]))
      && (id !in ChangedContacts(acts) ==>
            (id in t.contacts <==> id in s.contacts) && (id in s.contacts ==> t.contacts[id] == s.contacts[id]))
    ensures NoneTwice(ChangedChats(s, acts)) && NoneTwice(ChangedContacts(acts))
  {
    hide Apply, ChangedChat, ChangedContact;
    if acts != [] {
      UnlistedUnchanged(s, acts[..|acts| - 1], id);
      UnlistedStep(ApplyAll(s, acts[..|acts| - 1]), acts[|acts| - 1], id);
    }
  }

  predicate NoneTwice(ids: seq<string>) {
    forall i, j :: 0 <= i < j < |ids| ==> ids[i] != ids[j]
  }

  // ---- redelivery later ---------------------------------------------------------------

  lemma {:induction false} StaysThere(s: State, log: seq<Act>, jid: string, m: Message)
    requires HasMessage(Bucket(s, jid), m)
    ensures HasMessage(Bucket(ApplyAll(s, log), jid), m)
  {
    if log != [] {
      var before := ApplyAll(s, log[..|log| - 1]);
      StaysThere(s, log[..|log| - 1], jid, m);
      var c := Carried(log[|log| - 1], jid);
      if c.Some? {
        HasAppended(Bucket(before, jid), c.value, m);
      }
    }
  }

  ghost predicate Held(s: State, batch: seq<Message>) {
    forall i :: 0 <= i < |batch| && Filled(batch[i].key.remoteJid)
      ==> HasMessage(Bucket(s, batch[i].key.remoteJid.value), batch[i])
  }

  lemma {:induction false} HeldBatch(s: State, batch: seq<Message>, kind: string, all: seq<Message>, jid: string)
    requires Held(s, all) && batch <= all
    ensures Upsert(s, batch, kind).messages == s.messages
    ensures Unread(Upsert(s, batch, kind), jid) == Unread(s, jid)
  {
    if batch != [] {
      var n := |batch| - 1;
      HeldBatch(s, batch[..n], kind, all, jid);
      UpsertStep(s, batch, kind);
      assert batch[n] == all[n];
    }
  }

  /** However much later a batch with ids comes again, it adds no message and counts nothing as unread. */
  lemma LaterRedelivery(s: State, batch: seq<Message>, kind: string, between: seq<Act>, again: string, jid: string)
    requires Identified(batch)
    ensures
      var now := ApplyAll(Upsert(s, batch, kind), between);
      Upsert(now, batch, again).messages == now.messages && Unread(Upsert(now, batch, again), jid) == Unread(now, jid)
  {
    hide Upsert, ApplyAll;
    var once := Upsert(s, batch, kind);
    var now := ApplyAll(once, between);
    forall i | 0 <= i < |batch| && Filled(batch[i].key.remoteJid)
      ensures HasMessage(Bucket(now, batch[i].key.remoteJid.value), batch[i])
    {
      CoversAll(s, batch, kind, i);
      StaysThere(once, between, batch[i].key.remoteJid.value, batch[i]);
    }
    HeldBatch(now, batch, again, batch, jid);
  }
}
