/** The in-memory message store: buckets of messages, chats with their unread counts, contacts. */
module Store {
  import opened Common

  datatype Key = Key(remoteJid: Option<string>, id: Option<string>, fromMe: bool, participant: Option<string>)

  /** The reaction inside a message: fields that are not set read as empty or zero. */
  datatype ReactionMessage = ReactionMessage(remoteJid: string, id: string, fromMe: bool, participant: string,
                                             text: string, timestamp: int)

  /** A message body; what the store does not look into is kept as bytes. */
  datatype Body = Body(reaction: Option<ReactionMessage>, others: Bytes)

  datatype Message = Message(key: Key, timestamp: Option<int>, pushName: Option<string>, body: Option<Body>)

  /** `_message_key_tuple` */
  datatype MessageId = MessageId(remoteJid: Option<string>, id: Option<string>, participant: Option<string>)

  function IdOf(key: Key): MessageId {
    MessageId(key.remoteJid, key.id, key.participant)
  }

  datatype Reaction = Reaction(key: Key, text: string, timestamp: Option<int>, fromJid: Option<string>)

  function OrNone(s: string): Option<string> {
    if s == "" then None else Some(s)
  }

  /** `_reaction_update` */
  function ReactionOf(m: Message): Option<Reaction> {
    if m.body.None? || m.body.value.reaction.None? then None
    else
      var r := m.body.value.reaction.value;
      Some(Reaction(
        Key(if r.remoteJid != "" then Some(r.remoteJid) else m.key.remoteJid, OrNone(r.id), r.fromMe,
            OrNone(r.participant)),
        r.text,
        if r.timestamp == 0 then None else Some(r.timestamp),
        if Filled(m.key.participant) then m.key.participant else m.key.remoteJid))
  }

  /** The fields of a status update; None is a field that is there without a value. */
  type Fields = map<string, Option<int>>

  function StatusOf(fields: Fields): Option<int> {
    if "status" in fields then fields["status"] else None
  }

  // ---- the state as a value -----------------------------------------------------------

  datatype ChatValue = ChatValue(timestamp: Option<int>, unread: int, name: Option<string>)

  datatype ContactValue = ContactValue(name: Option<string>, notify: Option<string>)

  type Buckets = map<string, seq<Message>>

  type Reactions = map<MessageId, seq<Reaction>>

  type Updates = map<MessageId, Fields>

  datatype State = State(messages: Buckets, chats: map<string, ChatValue>, contacts: map<string, ContactValue>,
                         reactions: Reactions, updates: Updates)

  const NEW_CHAT := ChatValue(None, 0, None)
  const NEW_CONTACT := ContactValue(None, None)

  function Get<K(==), V>(m: map<K, V>, k: K, default: V): V {
    if k in m then m[k] else default
  }

  /** `_has_message`: whether a message with the same, non-empty id is there. */
  predicate HasMessage(bucket: seq<Message>, m: Message) {
    exists i :: 0 <= i < |bucket| && Filled(bucket[i].key.id) && bucket[i].key.id == m.key.id
  }

  function AddMessage(messages: Buckets, jid: string, m: Message): Buckets {
    var bucket := Get(messages, jid, []);
    messages[jid := if HasMessage(bucket, m) then bucket else bucket + [m]]
  }

  function Reacted(reactions: Reactions, m: Message): Reactions {
    match ReactionOf(m)
    case None => reactions
    case Some(r) => reactions[IdOf(r.key) := Get(reactions, IdOf(r.key), []) + [r]]
  }

  function Merged(updates: Updates, key: Key, fields: Fields): Updates {
    updates[IdOf(key) := Get(updates, IdOf(key), map[]) + fields]
  }

  function ReceivedChat(c: ChatValue, m: Message, counted: bool): ChatValue {
    var later := m.timestamp.Some? && (c.timestamp.None? || m.timestamp.value > c.timestamp.value);
    ChatValue(
      if later then m.timestamp else c.timestamp,
      if counted then c.unread + 1 else c.unread,
      if Filled(m.pushName) && !Filled(c.name) then m.pushName else c.name)
  }

  function ReceivedContact(c: ContactValue, pushName: Option<string>): ContactValue {
    ContactValue(if Filled(c.name) then c.name else pushName, pushName)
  }

  function SyncedChat(c: ChatValue, timestamp: Option<int>, name: Option<string>, unread: int): ChatValue {
    ChatValue(if timestamp.Some? then timestamp else c.timestamp, unread, if Filled(name) then name else c.name)
  }

  function SyncedContact(c: ContactValue, name: Option<string>, notify: Option<string>): ContactValue {
    ContactValue(if Filled(name) then name else c.name, if Filled(notify) then notify else c.notify)
  }

  /** The contact that a message names: the participant, or else the chat. */
  function Sender(m: Message): string
    requires Filled(m.key.remoteJid)
  {
    if Filled(m.key.participant) then m.key.participant.value else m.key.remoteJid.value
  }

  function ReceivedContacts(contacts: map<string, ContactValue>, m: Message): map<string, ContactValue>
    requires Filled(m.key.remoteJid)
  {
    if Filled(m.pushName)
    then contacts[Sender(m) := ReceivedContact(Get(contacts, Sender(m), NEW_CONTACT), m.pushName)]
    else contacts
  }

  // ---- what the store is told, one item at a time -------------------------------------

  datatype Act =
    | Delivered(message: Message, isNotify: bool)
    | Updated(key: Key, fields: Fields)
    | ChatSynced(id: string, timestamp: Option<int>, name: Option<string>, unread: int)
    | ContactSynced(id: string, name: Option<string>, notify: Option<string>)
    | MessageSynced(message: Message)

  /** A status update that marks a chat as read. */
  predicate MarksRead(a: Act) {
    && a.Updated? && Filled(a.key.remoteJid) && !a.key.fromMe
    && StatusOf(a.fields).Some? && StatusOf(a.fields).value >= 3
  }

  function Apply(s: State, a: Act): State {
    match a
    case Delivered(m, notify) =>
      if !Filled(m.key.remoteJid) then s
      else
        var jid := m.key.remoteJid.value;
        var isNew := !HasMessage(Get(s.messages, jid, []), m);
        State(
          AddMessage(s.messages, jid, m),
          s.chats[jid := ReceivedChat(Get(s.chats, jid, NEW_CHAT), m, isNew && notify && !m.key.fromMe)],
          ReceivedContacts(s.contacts, m),
          Reacted(s.reactions, m),
          s.updates)
    case Updated(key, fields) =>
      var logged := s.(updates := Merged(s.updates, key, fields));
      if MarksRead(a) && key.remoteJid.value in s.chats
      then logged.(chats := s.chats[key.remoteJid.value := s.chats[key.remoteJid.value].(unread := 0)])
      else logged
    case ChatSynced(id, timestamp, name, unread) =>
      s.(chats := s.chats[id := SyncedChat(Get(s.chats, id, NEW_CHAT), timestamp, name, unread)])
    case ContactSynced(id, name, notify) =>
      s.(contacts := s.contacts[id := SyncedContact(Get(s.contacts, id, NEW_CONTACT), name, notify)])
    case MessageSynced(m) =>
      if Filled(m.key.remoteJid) then s.(messages := AddMessage(s.messages, m.key.remoteJid.value, m)) else s
  }

  function ApplyAll(s: State, acts: seq<Act>): State {
    if acts == [] then s else Apply(ApplyAll(s, acts[..|acts| - 1]), acts[|acts| - 1])
  }

  lemma {:induction false} ApplyJoin(s: State, a: seq<Act>, b: seq<Act>)
    ensures ApplyAll(s, a + b) == ApplyAll(ApplyAll(s, a), b)
  {
    if b == [] {
      assert a + b == a;
    } else {
      assert (a + b)[..|a + b| - 1] == a + b[..|b| - 1];
      ApplyJoin(s, a, b[..|b| - 1]);
    }
  }

  // ---- batches ------------------------------------------------------------------------

  function UpsertActs(messages: seq<Message>, kind: string): (r: seq<Act>)
    ensures |r| == |messages|
  {
    seq(|messages|, i requires 0 <= i < |messages| => Delivered(messages[i], kind == "notify"))
  }

  /** `proto.WebMessageInfo`: fields that are not set read as empty or zero. */
  datatype WebMessageInfo = WebMessageInfo(remoteJid: string, id: string, fromMe: bool, participant: string,
                                           timestamp: int, pushName: string, body: Option<Body>)

  function FromInfo(info: WebMessageInfo): Message {
    Message(Key(OrNone(info.remoteJid), OrNone(info.id), info.fromMe, OrNone(info.participant)),
            if info.timestamp == 0 then None else Some(info.timestamp), OrNone(info.pushName), info.body)
  }

  datatype HistoryChat = HistoryChat(id: string, name: Option<string>, timestamp: Option<int>, unread: int)
  datatype HistoryContact = HistoryContact(id: string, name: Option<string>, notify: Option<string>)
  datatype History = History(chats: seq<HistoryChat>, contacts: seq<HistoryContact>, messages: seq<WebMessageInfo>)

  function ChatActs(chats: seq<HistoryChat>): seq<Act> {
    seq(|chats|, i requires 0 <= i < |chats| =>
      ChatSynced(chats[i].id, chats[i].timestamp, chats[i].name, chats[i].unread))
  }

  function ContactActs(contacts: seq<HistoryContact>): seq<Act> {
    seq(|contacts|, i requires 0 <= i < |contacts| =>
      ContactSynced(contacts[i].id, contacts[i].name, contacts[i].notify))
  }

  function MessageActs(messages: seq<WebMessageInfo>): seq<Act> {
    seq(|messages|, i requires 0 <= i < |messages| => MessageSynced(FromInfo(messages[i])))
  }

  function HistoryActs(h: History): seq<Act> {
    ChatActs(h.chats) + ContactActs(h.contacts) + MessageActs(h.messages)
  }

  datatype Update = Update(key: Key, fields: Fields)

  function UpdateActs(updates: seq<Update>): seq<Act> {
    seq(|updates|, i requires 0 <= i < |updates| => Updated(updates[i].key, updates[i].fields))
  }

  // ---- what the caller is told --------------------------------------------------------

  /** The chat that an act changes or creates. */
  function ChangedChat(s: State, a: Act): Option<string> {
    match a
    case Delivered(m, _) => if Filled(m.key.remoteJid) then m.key.remoteJid else None
    case Updated(key, _) => if MarksRead(a) && key.remoteJid.value in s.chats then key.remoteJid else None
    case ChatSynced(id, _, _, _) => Some(id)
    case _ => None
  }

  /** The contact that an act changes or creates. */
  function ChangedContact(a: Act): Option<string> {
    match a
    case Delivered(m, _) => if Filled(m.key.remoteJid) && Filled(m.pushName) then Some(Sender(m)) else None
    case ContactSynced(id, _, _) => Some(id)
    case _ => None
  }

  function ToldReaction(a: Act): seq<Reaction> {
    if a.Delivered? && Filled(a.message.key.remoteJid) && ReactionOf(a.message).Some?
    then [ReactionOf(a.message).value] else []
  }

  /** An id noted once, when it first comes up. */
  function Noted(ids: seq<string>, id: Option<string>): seq<string> {
    if id.None? || id.value in ids then ids else ids + [id.value]
  }

  function ChangedChats(s: State, acts: seq<Act>): seq<string> {
    if acts == [] then []
    else
      var before, last := acts[..|acts| - 1], acts[|acts| - 1];
      Noted(ChangedChats(s, before), ChangedChat(ApplyAll(s, before), last))
  }

  function ChangedContacts(acts: seq<Act>): seq<string> {
    if acts == [] then [] else Noted(ChangedContacts(acts[..|acts| - 1]), ChangedContact(acts[|acts| - 1]))
  }

  function ToldReactions(acts: seq<Act>): seq<Reaction> {
    if acts == [] then [] else ToldReactions(acts[..|acts| - 1]) + ToldReaction(acts[|acts| - 1])
  }

  /** Acts that concern neither chats, contacts nor reactions add nothing to what is told. */
  lemma {:induction false} ToldJoin(s: State, a: seq<Act>, b: seq<Act>)
    ensures (forall i :: 0 <= i < |b| ==> b[i].ContactSynced? || b[i].MessageSynced?)
      ==> ChangedChats(s, a + b) == ChangedChats(s, a)
    ensures (forall i :: 0 <= i < |b| ==> b[i].ChatSynced? || b[i].MessageSynced?)
      ==> ChangedContacts(a + b) == ChangedContacts(a)
    ensures (forall i :: 0 <= i < |a| ==> a[i].ChatSynced? || a[i].MessageSynced?)
      ==> ChangedContacts(a + b) == ChangedContacts(b)
    ensures (forall i :: 0 <= i < |b| ==> !b[i].Delivered?) ==> ToldReactions(a + b) == ToldReactions(a)
  {
    hide ApplyAll;
    if b == [] {
      assert a + b == a;
      if forall i :: 0 <= i < |a| ==> a[i].ChatSynced? || a[i].MessageSynced? {
        NoContacts(a);
      }
    } else {
      var n := |b| - 1;
      assert (a + b)[..|a + b| - 1] == a + b[..n];
      ToldJoin(s, a, b[..n]);
    }
  }

  lemma {:induction false} NoContacts(acts: seq<Act>)
    requires forall i :: 0 <= i < |acts| ==> acts[i].ChatSynced? || acts[i].MessageSynced?
    ensures ChangedContacts(acts) == []
  {
    if acts != [] {
      NoContacts(acts[..|acts| - 1]);
    }
  }

  /** Every noted id is filed. */
  lemma {:induction false} NotedFiled(s: State, acts: seq<Act>)
    ensures forall id :: id in ChangedChats(s, acts) ==> id in ApplyAll(s, acts).chats
    ensures forall id :: id in ChangedContacts(acts) ==> id in ApplyAll(s, acts).contacts
  {
    hide HasMessage, AddMessage, Reacted, Merged;
    if acts != [] {
      NotedFiled(s, acts[..|acts| - 1]);
    }
  }

  lemma ApplyNext(s: State, acts: seq<Act>, i: nat)
    requires i < |acts|
    ensures ApplyAll(s, acts[..i + 1]) == Apply(ApplyAll(s, acts[..i]), acts[i])
    ensures ChangedChats(s, acts[..i + 1])
      == Noted(ChangedChats(s, acts[..i]), ChangedChat(ApplyAll(s, acts[..i]), acts[i]))
    ensures ChangedContacts(acts[..i + 1]) == Noted(ChangedContacts(acts[..i]), ChangedContact(acts[i]))
    ensures ToldReactions(acts[..i + 1]) == ToldReactions(acts[..i]) + ToldReaction(acts[i])
  {
    assert acts[..i + 1][..i] == acts[..i];
  }

  // ---- the store ----------------------------------------------------------------------

  class Chat {
    const id: string
    var conversationTimestamp: Option<int>
    var unreadCount: int
    var name: Option<string>

    constructor (id: string)
      ensures this.id == id && Value() == NEW_CHAT
    {
      this.id := id;
      conversationTimestamp, unreadCount, name := None, 0, None;
    }

    function Value(): ChatValue
      reads this
    {
      ChatValue(conversationTimestamp, unreadCount, name)
    }

    /** What a received message changes. */
    method Receive(m: Message, counted: bool)
      modifies this
      ensures Value() == ReceivedChat(old(Value()), m, counted)
    {
      if m.timestamp.Some? && (conversationTimestamp.None? || m.timestamp.value > conversationTimestamp.value) {
        conversationTimestamp := m.timestamp;
      }
      if Filled(m.pushName) && !Filled(name) {
        name := m.pushName;
      }
      if counted {
        unreadCount := unreadCount + 1;
      }
    }

    /** What a history sync changes. */
    method Sync(item: HistoryChat)
      modifies this
      ensures Value() == SyncedChat(old(Value()), item.timestamp, item.name, item.unread)
    {
      if item.timestamp.Some? {
        conversationTimestamp := item.timestamp;
      }
      if Filled(item.name) {
        name := item.name;
      }
      unreadCount := item.unread;
    }
  }

  class Contact {
    const id: string
    var name: Option<string>
    var notify: Option<string>

    constructor (id: string)
      ensures this.id == id && Value() == NEW_CONTACT
    {
      this.id := id;
      name, notify := None, None;
    }

    function Value(): ContactValue
      reads this
    {
      ContactValue(name, notify)
    }

    method Receive(pushName: Option<string>)
      modifies this
      ensures Value() == ReceivedContact(old(Value()), pushName)
    {
      notify := pushName;
      if !Filled(name) {
        name := pushName;
      }
    }

    method Sync(item: HistoryContact)
      modifies this
      ensures Value() == SyncedContact(old(Value()), item.name, item.notify)
    {
      if Filled(item.name) {
        name := item.name;
      }
      if Filled(item.notify) {
        notify := item.notify;
      }
    }
  }

  /** `_has_message` */
  method FindMessage(bucket: seq<Message>, m: Message) returns (found: bool)
    ensures found == HasMessage(bucket, m)
  {
    for i := 0 to |bucket|
      invariant forall k :: 0 <= k < i ==> !(Filled(bucket[k].key.id) && bucket[k].key.id == m.key.id)
    {
      if Filled(bucket[i].key.id) && bucket[i].key.id == m.key.id {
        return true;
      }
    }
    return false;
  }

  datatype StoreUpdate = StoreUpdate(chats: seq<Chat>, contacts: seq<Contact>, reactions: seq<Reaction>)

  class InMemoryStore {
    var messages: Buckets
    var chats: map<string, Chat>
    var contacts: map<string, Contact>
    var reactions: Reactions
    var messageUpdates: Updates

    constructor ()
      ensures Valid() && View() == State(map[], map[], map[], map[], map[])
    {
      messages, chats, contacts, reactions, messageUpdates := map[], map[], map[], map[], map[];
    }

    /** No chat or contact object is filed under two ids. */
    ghost predicate Valid()
      reads this`chats, this`contacts
    {
      && (forall a, b :: a in chats && b in chats && a != b ==> chats[a] != chats[b])
      && (forall a, b :: a in contacts && b in contacts && a != b ==> contacts[a] != contacts[b])
    }

    ghost function ChatValues(): map<string, ChatValue>
      reads this`chats, chats.Values
    {
      map j | j in chats :: chats[j].Value()
    }

    ghost function ContactValues(): map<string, ContactValue>
      reads this`contacts, contacts.Values
    {
      map j | j in contacts :: contacts[j].Value()
    }

    ghost function View(): State
      reads this, chats.Values, contacts.Values
    {
      State(messages, ChatValues(), ContactValues(), reactions, messageUpdates)
    }

    /** The objects that are filed under these ids, in this order. */
    ghost predicate Listed(u: StoreUpdate, chatIds: seq<string>, contactIds: seq<string>)
      reads this`chats, this`contacts
    {
      && |u.chats| == |chatIds| && |u.contacts| == |contactIds|
      && (forall i :: 0 <= i < |chatIds| ==> chatIds[i] in chats && u.chats[i] == chats[chatIds[i]])
      && (forall i :: 0 <= i < |contactIds| ==> contactIds[i] in contacts && u.contacts[i] == contacts[contactIds[i]])
    }

    method List(chatIds: seq<string>, contactIds: seq<string>, told: seq<Reaction>) returns (u: StoreUpdate)
      requires forall id :: id in chatIds ==> id in chats
      requires forall id :: id in contactIds ==> id in contacts
      ensures Listed(u, chatIds, contactIds) && u.reactions == told
    {
      var changedChats: seq<Chat>, changedContacts: seq<Contact> := [], [];
      for i := 0 to |chatIds|
        invariant |changedChats| == i && forall k :: 0 <= k < i ==> changedChats[k] == chats[chatIds[k]]
      {
        changedChats := changedChats + [chats[chatIds[i]]];
      }
      for i := 0 to |contactIds|
        invariant |changedContacts| == i && forall k :: 0 <= k < i ==> changedContacts[k] == contacts[contactIds[k]]
      {
        changedContacts := changedContacts + [contacts[contactIds[i]]];
      }
      u := StoreUpdate(changedChats, changedContacts, told);
    }

    /** The chat of an id, filed now if there was none. */
    method ChatFor(jid: string) returns (chat: Chat)
      requires Valid()
      modifies this`chats
      ensures Valid() && jid in chats && chats[jid] == chat
      ensures jid in old(chats) ==> chats == old(chats)
      ensures jid !in old(chats) ==> fresh(chat) && chats == old(chats)[jid := chat]
      ensures fresh(chats.Values - old(chats.Values))
      ensures chat.Value() == Get(old(ChatValues()), jid, NEW_CHAT)
      ensures ChatValues() == old(ChatValues())[jid := chat.Value()]
    {
      if jid in chats {
        chat := chats[jid];
      } else {
        chat := new Chat(jid);
        chats := chats[jid := chat];
      }
    }

    method ContactFor(id: string) returns (contact: Contact)
      requires Valid()
      modifies this`contacts
      ensures Valid() && id in contacts && contacts[id] == contact
      ensures id in old(contacts) ==> contacts == old(contacts)
      ensures id !in old(contacts) ==> fresh(contact) && contacts == old(contacts)[id := contact]
      ensures fresh(contacts.Values - old(contacts.Values))
      ensures contact.Value() == Get(old(ContactValues()), id, NEW_CONTACT)
      ensures ContactValues() == old(ContactValues())[id := contact.Value()]
    {
      if id in contacts {
        contact := contacts[id];
      } else {
        contact := new Contact(id);
        contacts := contacts[id := contact];
      }
    }

    /** A changed chat changes its own entry only. */
    twostate lemma OneChat(jid: string)
      requires old(Valid()) && jid in old(chats) && unchanged(this)
      requires forall j :: j in chats && j != jid ==> unchanged(chats[j])
      ensures ChatValues() == old(ChatValues())[jid := chats[jid].Value()]
    {
    }

    twostate lemma OneContact(id: string)
      requires old(Valid()) && id in old(contacts) && unchanged(this)
      requires forall j :: j in contacts && j != id ==> unchanged(contacts[j])
      ensures ContactValues() == old(ContactValues())[id := contacts[id].Value()]
    {
    }

    /** The chat's part of receiving a message. */
    method ReceiveInChat(jid: string, m: Message, counted: bool)
      requires Valid()
      modifies this`chats, chats.Values
      ensures Valid() && fresh(chats.Values - old(chats.Values))
      ensures ChatValues() == old(ChatValues())[jid := ReceivedChat(Get(old(ChatValues()), jid, NEW_CHAT), m, counted)]
      ensures ContactValues() == old(ContactValues())
    {
      hide ChatValues, ReceivedChat;
      var chat := ChatFor(jid);
      label Filed:
      chat.Receive(m, counted);
      OneChat@Filed(jid);
    }

    /** The contact's part of receiving a message. */
    method ReceiveFromContact(m: Message)
      requires Valid() && Filled(m.key.remoteJid)
      modifies this`contacts, contacts.Values
      ensures Valid() && fresh(contacts.Values - old(contacts.Values))
      ensures ContactValues() == ReceivedContacts(old(ContactValues()), m) && ChatValues() == old(ChatValues())
    {
      hide ContactValues, ReceivedContact;
      if Filled(m.pushName) {
        var contact := ContactFor(Sender(m));
        label Filed:
        contact.Receive(m.pushName);
        OneContact@Filed(Sender(m));
      }
    }

    /** One message of an upsert. */
    method Receive(m: Message, kind: string)
      requires Valid()
      modifies this, chats.Values, contacts.Values
      ensures Valid() && fresh(chats.Values - old(chats.Values)) && fresh(contacts.Values - old(contacts.Values))
      ensures View() == Apply(old(View()), Delivered(m, kind == "notify"))
    {
      hide ChatValues, ContactValues, HasMessage, AddMessage, ReceivedChat, ReceivedContacts, Valid, Reacted;
      if Filled(m.key.remoteJid) {
        var jid := m.key.remoteJid.value;
        var isNew := AddToBucket(jid, m);
        reactions := Reacted(reactions, m);
        ReceiveInBooks(jid, m, isNew && kind == "notify" && !m.key.fromMe);
      }
    }

    /** The chat's and the contact's part. */
    method ReceiveInBooks(jid: string, m: Message, counted: bool)
      requires Valid() && Filled(m.key.remoteJid)
      modifies this`chats, this`contacts, chats.Values, contacts.Values
      ensures Valid() && fresh(chats.Values - old(chats.Values)) && fresh(contacts.Values - old(contacts.Values))
      ensures ChatValues() == old(ChatValues())[jid := ReceivedChat(Get(old(ChatValues()), jid, NEW_CHAT), m, counted)]
      ensures ContactValues() == ReceivedContacts(old(ContactValues()), m)
    {
      hide ChatValues, ContactValues, ReceivedChat, ReceivedContacts, Valid;
      ReceiveInChat(jid, m, counted);
      ReceiveFromContact(m);
    }

    /** A message put into its bucket, unless it is there. */
    method AddToBucket(jid: string, m: Message) returns (isNew: bool)
      modifies this`messages
      ensures isNew == !HasMessage(Get(old(messages), jid, []), m)
      ensures messages == AddMessage(old(messages), jid, m)
    {
      var bucket := Get(messages, jid, []);
      var found := FindMessage(bucket, m);
      messages := messages[jid := if found then bucket else bucket + [m]];
      return !found;
    }

    /** `apply_messages_upsert` */
    method ApplyMessagesUpsert(batch: seq<Message>, kind: string) returns (u: StoreUpdate)
      requires Valid()
      modifies this, chats.Values, contacts.Values
      ensures Valid() && fresh(chats.Values - old(chats.Values)) && fresh(contacts.Values - old(contacts.Values))
      ensures View() == ApplyAll(old(View()), UpsertActs(batch, kind))
      ensures Listed(u, ChangedChats(old(View()), UpsertActs(batch, kind)), ChangedContacts(UpsertActs(batch, kind)))
      ensures u.reactions == ToldReactions(UpsertActs(batch, kind))
    {
      hide Apply, ChatValues, ContactValues, Valid, Listed;
      ghost var acts := UpsertActs(batch, kind);
      var changedChats: seq<string>, changedContacts: seq<string>, told: seq<Reaction> := [], [], [];
      for i := 0 to |batch|
        invariant Valid() && fresh(chats.Values - old(chats.Values)) && fresh(contacts.Values - old(contacts.Values))
        invariant View() == ApplyAll(old(View()), acts[..i])
        invariant changedChats == ChangedChats(old(View()), acts[..i])
        invariant changedContacts == ChangedContacts(acts[..i]) && told == ToldReactions(acts[..i])
      {
        ApplyNext(old(View()), acts, i);
        Receive(batch[i], kind);
        if Filled(batch[i].key.remoteJid) {
          changedChats := Noted(changedChats, batch[i].key.remoteJid);
          if Filled(batch[i].pushName) {
            changedContacts := Noted(changedContacts, Some(Sender(batch[i])));
          }
          if ReactionOf(batch[i]).Some? {
            told := told + [ReactionOf(batch[i]).value];
          }
        }
      }
      assert acts[..|batch|] == acts;
      NotedFiled(old(View()), acts);
      SameKeys();
      u := List(changedChats, changedContacts, told);
    }

    /** The ids of the values are those of the objects. */
    lemma SameKeys()
      ensures View().chats.Keys == chats.Keys && View().contacts.Keys == contacts.Keys
    {
    }

    /** `apply_messages_update` */
    method ApplyMessagesUpdate(updates: seq<Update>) returns (u: StoreUpdate)
      requires Valid()
      modifies this`messageUpdates, chats.Values
      ensures View() == ApplyAll(old(View()), UpdateActs(updates))
      ensures Listed(u, ChangedChats(old(View()), UpdateActs(updates)), []) && u.reactions == []
    {
      hide Apply, ChatValues, ContactValues, Listed;
      ghost var acts := UpdateActs(updates);
      var changed: seq<string> := [];
      for i := 0 to |updates|
        invariant View() == ApplyAll(old(View()), acts[..i])
        invariant changed == ChangedChats(old(View()), acts[..i])
      {
        ApplyNext(old(View()), acts, i);
        SameKeys();
        if MarksRead(Updated(updates[i].key, updates[i].fields)) && updates[i].key.remoteJid.value in chats {
          changed := Noted(changed, updates[i].key.remoteJid);
        }
        ApplyUpdate(updates[i]);
      }
      assert acts[..|updates|] == acts;
      NotedFiled(old(View()), acts);
      SameKeys();
      u := List(changed, [], []);
    }

    method ApplyUpdate(u: Update)
      requires Valid()
      modifies this`messageUpdates, chats.Values
      ensures View() == Apply(old(View()), Updated(u.key, u.fields))
    {
      hide Merged;
      messageUpdates := Merged(messageUpdates, u.key, u.fields);
      label Logged:
      if Filled(u.key.remoteJid) && StatusOf(u.fields).Some? {
        var jid := u.key.remoteJid.value;
        if jid in chats && !u.key.fromMe && StatusOf(u.fields).value >= 3 {
          chats[jid].unreadCount := 0;
          OneChat@Logged(jid);
        }
      }
    }

    method SyncChat(item: HistoryChat)
      requires Valid()
      modifies this`chats, chats.Values
      ensures Valid() && fresh(chats.Values - old(chats.Values))
      ensures View() == Apply(old(View()), ChatSynced(item.id, item.timestamp, item.name, item.unread))
    {
      hide ChatValues, ContactValues, SyncedChat, AddMessage, Reacted, Merged, ReceivedChat, ReceivedContact,
          HasMessage, MarksRead;
      var chat := ChatFor(item.id);
      label Filed:
      chat.Sync(item);
      OneChat@Filed(item.id);
    }

    method SyncContact(item: HistoryContact)
      requires Valid()
      modifies this`contacts, contacts.Values
      ensures Valid() && fresh(contacts.Values - old(contacts.Values))
      ensures View() == Apply(old(View()), ContactSynced(item.id, item.name, item.notify))
    {
      hide ChatValues, ContactValues, SyncedContact, AddMessage, Reacted, Merged, ReceivedChat, ReceivedContact,
          HasMessage, MarksRead;
      var contact := ContactFor(item.id);
      label Filed:
      contact.Sync(item);
      OneContact@Filed(item.id);
    }

    method SyncMessage(info: WebMessageInfo)
      modifies this`messages
      ensures View() == Apply(old(View()), MessageSynced(FromInfo(info)))
    {
      hide ChatValues, ContactValues, AddMessage;
      var m := FromInfo(info);
      if Filled(m.key.remoteJid) {
        var _ := AddToBucket(m.key.remoteJid.value, m);
      }
    }

    /** `apply_history_sync` */
    method ApplyHistorySync(h: History) returns (u: StoreUpdate)
      requires Valid()
      modifies this, chats.Values, contacts.Values
      ensures Valid() && fresh(chats.Values - old(chats.Values)) && fresh(contacts.Values - old(contacts.Values))
      ensures View() == ApplyAll(old(View()), HistoryActs(h))
      ensures Listed(u, ChangedChats(old(View()), HistoryActs(h)), ChangedContacts(HistoryActs(h))) && u.reactions == []
    {
      hide ApplyAll, ChatActs, ContactActs, MessageActs, HistoryActs, ChatValues, ContactValues, Valid, Listed,
          ChangedChats, ChangedContacts;
      var changedChats := SyncChats(h.chats);
      var changedContacts := SyncContacts(h.contacts);
      SyncMessages(h.messages);
      HistoryTold(old(View()), h);
      NotedFiled(old(View()), HistoryActs(h));
      SameKeys();
      u := List(changedChats, changedContacts, []);
    }

    /** The loop over the chats of a history. */
    method SyncChats(items: seq<HistoryChat>) returns (changed: seq<string>)
      requires Valid()
      modifies this`chats, chats.Values
      ensures Valid() && fresh(chats.Values - old(chats.Values))
      ensures View() == ApplyAll(old(View()), ChatActs(items)) && changed == ChangedChats(old(View()), ChatActs(items))
    {
      hide Apply, ChatValues, ContactValues, Valid;
      ghost var acts := ChatActs(items);
      changed := [];
      for i := 0 to |items|
        invariant Valid() && fresh(chats.Values - old(chats.Values))
        invariant View() == ApplyAll(old(View()), acts[..i]) && changed == ChangedChats(old(View()), acts[..i])
      {
        ApplyNext(old(View()), acts, i);
        SyncChat(items[i]);
        changed := Noted(changed, Some(items[i].id));
      }
      assert acts[..|items|] == acts;
    }

    /** The loop over the contacts of a history. */
    method SyncContacts(items: seq<HistoryContact>) returns (changed: seq<string>)
      requires Valid()
      modifies this`contacts, contacts.Values
      ensures Valid() && fresh(contacts.Values - old(contacts.Values))
      ensures View() == ApplyAll(old(View()), ContactActs(items)) && changed == ChangedContacts(ContactActs(items))
    {
      hide Apply, ChatValues, ContactValues, Valid;
      ghost var acts := ContactActs(items);
      changed := [];
      for i := 0 to |items|
        invariant Valid() && fresh(contacts.Values - old(contacts.Values))
        invariant View() == ApplyAll(old(View()), acts[..i]) && changed == ChangedContacts(acts[..i])
      {
        ApplyNext(old(View()), acts, i);
        SyncContact(items[i]);
        changed := Noted(changed, Some(items[i].id));
      }
      assert acts[..|items|] == acts;
    }

    /** The loop over the messages of a history. */
    method SyncMessages(infos: seq<WebMessageInfo>)
      modifies this`messages
      ensures View() == ApplyAll(old(View()), MessageActs(infos))
    {
      hide Apply, ChatValues, ContactValues;
      ghost var acts := MessageActs(infos);
      for i := 0 to |infos|
        invariant View() == ApplyAll(old(View()), acts[..i])
      {
        ApplyNext(old(View()), acts, i);
        SyncMessage(infos[i]);
      }
      assert acts[..|infos|] == acts;
    }
  }

  lemma HistoryTold(s: State, h: History)
    ensures ApplyAll(s, HistoryActs(h))
      == ApplyAll(ApplyAll(ApplyAll(s, ChatActs(h.chats)), ContactActs(h.contacts)), MessageActs(h.messages))
    ensures ChangedChats(s, HistoryActs(h)) == ChangedChats(s, ChatActs(h.chats))
    ensures ChangedContacts(HistoryActs(h)) == ChangedContacts(ContactActs(h.contacts))
  {
    hide Apply, ApplyAll, ChangedChats, ChangedContacts;
    var first, second, third := ChatActs(h.chats), ContactActs(h.contacts), MessageActs(h.messages);
    ApplyJoin(s, first, second);
    ApplyJoin(s, first + second, third);
    ToldJoin(s, first, second);
    ToldJoin(s, first + second, third);
  }
}
