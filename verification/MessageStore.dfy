/** The encrypted, blind-indexed local store: ratchet sessions and the message status ledger (client/src/main.rs). */
module MessageStore {
  import opened Primitives
  import opened Wrappers

  /** One status transition, as written to the history ledger. */
  datatype Record = Record(messageId: string, fromNid: string, toNid: string, oldStatus: byte, newStatus: byte,
                           updatedAt: string, reason: string)

  /** The store's key as the operations it supports: the keyed blind index, encryption under an explicit nonce, and
      the JSON form of a ledger record. */
  datatype Vault = Vault(
    blindIndex: string -> string,
    encrypt: (string, string) -> string,
    decrypt: string -> Option<string>,
    toJson: Record -> string,
    fromJson: string -> Option<Record>)
  {
    ghost predicate Lawful() {
      && (forall nonce, text :: decrypt(encrypt(nonce, text)) == Some(text))
      && (forall r :: fromJson(toJson(r)) == Some(r))
    }
  }

  // ----- Tables

  datatype SessionRow = SessionRow(nidEnc: string, data: string, updatedAt: string)

  /** ratchet_sessions, by its unique blind index. */
  type Sessions = map<string, SessionRow>

  datatype MessageRow = MessageRow(id: nat, fromEnc: string, toEnc: string, ciphertext: string, timestampEnc: string,
                                   delivered: bool, status: byte, statusUpdatedAt: string, messageIdEnc: string)

  datatype HistoryRow = HistoryRow(index: string, recordEnc: string, createdAt: string)

  /** messages, by its unique blind index; the next row id; message_history in insertion order. */
  datatype Ledger = Ledger(messages: map<string, MessageRow>, nextId: nat, history: seq<HistoryRow>)

  // ----- Sessions

  function Saved(v: Vault, t: Sessions, peer: string, json: string, now: string, nonces: (string, string)): Sessions {
    t[v.blindIndex(peer) := SessionRow(v.encrypt(nonces.0, peer), v.encrypt(nonces.1, json), now)]
  }

  function Deleted(v: Vault, t: Sessions, peer: string): Sessions { t - {v.blindIndex(peer)} }

  /** The stored text, no session, or a row that does not decrypt. */
  datatype Loaded = Session(text: string) | NoSession | Undecryptable

  function Loads(v: Vault, t: Sessions, peer: string): Loaded {
    if v.blindIndex(peer) !in t then NoSession
    else
      match v.decrypt(t[v.blindIndex(peer)].data)
      case None => Undecryptable
      case Some(text) => Session(text)
  }

  // ----- Messages

  /** What a caller of store_message supplies, with the nonces of the five encryptions. */
  datatype NewMessage = NewMessage(fromNid: string, toNid: string, ciphertext: string, status: byte, messageId: string,
                                   now: string, nonces: (string, string, string, string, string))

  function RowFor(v: Vault, id: nat, m: NewMessage): MessageRow {
    MessageRow(id, v.encrypt(m.nonces.0, m.fromNid), v.encrypt(m.nonces.1, m.toNid), v.encrypt(m.nonces.2, m.ciphertext),
               v.encrypt(m.nonces.3, m.now), m.status >= 2, m.status, m.now, v.encrypt(m.nonces.4, m.messageId))
  }

  /** INSERT OR IGNORE. */
  function Inserted(v: Vault, t: Ledger, m: NewMessage): Ledger {
    if v.blindIndex(m.messageId) in t.messages then t
    else t.(messages := t.messages[v.blindIndex(m.messageId) := RowFor(v, t.nextId, m)], nextId := t.nextId + 1)
  }

  function WithoutId(t: Ledger, id: nat): Ledger {
    t.(messages := map index | index in t.messages && t.messages[index].id != id :: t.messages[index])
  }

  function Reason(status: byte): string {
    if status == 1 then "relay_ack" else if status == 2 then "delivered" else if status == 3 then "read_receipt"
    else "status_change"
  }

  function OrEmpty(text: Option<string>): string { if text.Some? then text.value else "" }

  function Transition(v: Vault, row: MessageRow, messageId: string, status: byte, now: string): Record {
    Record(messageId, OrEmpty(v.decrypt(row.fromEnc)), OrEmpty(v.decrypt(row.toEnc)), row.status, status, now, Reason(status))
  }

  function Updated(v: Vault, t: Ledger, messageId: string, status: byte, now: string, nonce: string): Ledger {
    var index := v.blindIndex(messageId);
    if index !in t.messages then t
    else
      var row := t.messages[index];
      var record := v.encrypt(nonce, v.toJson(Transition(v, row, messageId, status, now)));
      t.(messages := t.messages[index := row.(status := status, statusUpdatedAt := now, delivered := status >= 2)],
         history := t.history + [HistoryRow(index, record, now)])
  }

  class Store {
    const vault: Vault
    var sessions: Sessions
    var ledger: Ledger

    constructor (v: Vault)
      ensures vault == v && sessions == map[] && ledger == Ledger(map[], 1, [])
    {
      vault, sessions, ledger := v, map[], Ledger(map[], 1, []);
    }

    method SaveSession(peer: string, json: string, now: string, nonces: (string, string))
      modifies this`sessions
      ensures sessions == Saved(vault, old(sessions), peer, json, now, nonces)
    {
      var data := vault.encrypt(nonces.1, json);
      var index := vault.blindIndex(peer);
      var nid := vault.encrypt(nonces.0, peer);
      if index in sessions {
        sessions := sessions[index := sessions[index].(nidEnc := nid, data := data, updatedAt := now)];
      } else {
        sessions := sessions[index := SessionRow(nid, data, now)];
      }
    }

    method LoadSession(peer: string) returns (r: Loaded)
      ensures r == Loads(vault, sessions, peer)
    {
      var index := vault.blindIndex(peer);
      if index !in sessions {
        return NoSession;
      }
      var text := vault.decrypt(sessions[index].data);
      r := if text.Some? then Session(text.value) else Undecryptable;
    }

    method DeleteSession(peer: string)
      modifies this`sessions
      ensures sessions == Deleted(vault, old(sessions), peer)
    {
      sessions := sessions - {vault.blindIndex(peer)};
    }

    method StoreMessage(m: NewMessage)
      modifies this`ledger
      ensures ledger == Inserted(vault, old(ledger), m)
    {
      var index := vault.blindIndex(m.messageId);
      if index !in ledger.messages {
        var row := RowFor(vault, ledger.nextId, m);
        ledger := ledger.(messages := ledger.messages[index := row], nextId := ledger.nextId + 1);
      }
    }

    method DeleteMessage(id: nat) returns (found: bool)
      modifies this`ledger
      ensures ledger == WithoutId(old(ledger), id)
      ensures found <==> exists index :: index in old(ledger).messages && old(ledger).messages[index].id == id
    {
      var kept := WithoutId(ledger, id);
      found := kept.messages != ledger.messages;
      assert !found ==> forall index :: index in ledger.messages ==> index in kept.messages;
      ledger := kept;
    }

    method UpdateMessageStatus(messageId: string, status: byte, now: string, nonce: string) returns (found: bool)
      modifies this`ledger
      ensures ledger == Updated(vault, old(ledger), messageId, status, now, nonce)
      ensures found <==> vault.blindIndex(messageId) in old(ledger).messages
    {
      var index := vault.blindIndex(messageId);
      if index !in ledger.messages {
        return false;
      }
      var row := ledger.messages[index];
      var record := Transition(vault, row, messageId, status, now);
      ledger := ledger.(messages :=
        ledger.messages[index := row.(status := status, statusUpdatedAt := now, delivered := status >= 2)]);
      ledger := ledger.(history := ledger.history + [HistoryRow(index, vault.encrypt(nonce, vault.toJson(record)), now)]);
      return true;
    }
  }

  // ----- Sessions: the encrypted table against a plain map

  datatype SessionOp =
    | Save(peer: string, json: string, now: string, nonces: (string, string))
    | Load(peer: string)
    | Delete(peer: string)

  function SessionsAfter(v: Vault, ops: seq<SessionOp>): Sessions {
    if ops == [] then map[]
    else
      var t := SessionsAfter(v, ops[..|ops| - 1]);
      match ops[|ops| - 1]
      case Save(peer, json, now, nonces) => Saved(v, t, peer, json, now, nonces)
      case Load(_) => t
      case Delete(peer) => Deleted(v, t, peer)
  }

  /** The same run on a plain map from peer to session text. */
  function PlainAfter(ops: seq<SessionOp>): map<string, string> {
    if ops == [] then map[]
    else
      var t := PlainAfter(ops[..|ops| - 1]);
      match ops[|ops| - 1]
      case Save(peer, json, _, _) => t[peer := json]
      case Load(_) => t
      case Delete(peer) => t - {peer}
  }

  function PlainLoads(t: map<string, string>, peer: string): Loaded {
    if peer in t then Session(t[peer]) else NoSession
  }

  ghost predicate Over(ops: seq<SessionOp>, ids: set<string>) {
    forall i :: 0 <= i < |ops| ==> ops[i].peer in ids
  }

  ghost predicate InjectiveOn(v: Vault, ids: set<string>) {
    forall a, b :: a in ids && b in ids && v.blindIndex(a) == v.blindIndex(b) ==> a == b
  }

  /** After every run on the given peers, loading any of them answers as the plain map does. */
  ghost predicate AnswersAsPlain(v: Vault, ids: set<string>) {
    forall ops: seq<SessionOp>, peer: string :: Over(ops, ids) && peer in ids ==>
      Loads(v, SessionsAfter(v, ops), peer) == PlainLoads(PlainAfter(ops), peer)
  }

  lemma {:induction false} SessionsAgree(v: Vault, ids: set<string>, ops: seq<SessionOp>, peer: string)
    requires v.Lawful() && InjectiveOn(v, ids) && Over(ops, ids) && peer in ids
    ensures Loads(v, SessionsAfter(v, ops), peer) == PlainLoads(PlainAfter(ops), peer)
    decreases |ops|
  {
    if ops != [] {
      var last := ops[|ops| - 1];
      SessionsAgree(v, ids, ops[..|ops| - 1], peer);
      assert last.peer in ids;
      if last.Save? {
        assert v.decrypt(v.encrypt(last.nonces.1, last.json)) == Some(last.json);
      }
    }
  }

  lemma CollisionShows(v: Vault, ids: set<string>, a: string, b: string)
    requires v.Lawful() && a in ids && b in ids && a != b && v.blindIndex(a) == v.blindIndex(b)
    ensures !AnswersAsPlain(v, ids)
  {
    var ops := [Save(a, "session", "", ("", ""))];
    assert ops[..0] == [];
    assert SessionsAfter(v, ops) == Saved(v, map[], a, "session", "", ("", ""));
    assert PlainAfter(ops) == map[a := "session"];
    assert Over(ops, ids);
    assert Loads(v, SessionsAfter(v, ops), b) != PlainLoads(PlainAfter(ops), b);
  }

  /** The encrypted, blind-indexed table is indistinguishable from a plain map, over every run and every choice of
      nonces, exactly when the blind index does not collide on the peers used. */
  lemma IndexedStoreExact(v: Vault, ids: set<string>)
    requires v.Lawful()
    ensures AnswersAsPlain(v, ids) <==> InjectiveOn(v, ids)
  {
    if InjectiveOn(v, ids) {
      forall ops: seq<SessionOp>, peer: string | Over(ops, ids) && peer in ids
        ensures Loads(v, SessionsAfter(v, ops), peer) == PlainLoads(PlainAfter(ops), peer)
      {
        SessionsAgree(v, ids, ops, peer);
      }
    } else {
      var a, b :| a in ids && b in ids && v.blindIndex(a) == v.blindIndex(b) && a != b;
      CollisionShows(v, ids, a, b);
    }
  }

  /** The last operation on a blind index that left a session there. */
  function LastSaved(v: Vault, ops: seq<SessionOp>, index: string): Option<SessionOp> {
    if ops == [] then None
    else
      var last := ops[|ops| - 1];
      if last.Load? || v.blindIndex(last.peer) != index then LastSaved(v, ops[..|ops| - 1], index)
      else if last.Save? then Some(last)
      else None
  }

  /** In every run, and whether or not blind indices collide: a row is there exactly when its index was saved and not
      deleted since, and its columns are those of the last save. */
  lemma {:induction false} SessionColumns(v: Vault, ops: seq<SessionOp>, index: string)
    requires v.Lawful()
    ensures var t, saved := SessionsAfter(v, ops), LastSaved(v, ops, index);
            && (index in t <==> saved.Some?)
            && (saved.Some? ==>
                  && saved.value.Save? && v.decrypt(t[index].nidEnc) == Some(saved.value.peer)
                  && v.decrypt(t[index].data) == Some(saved.value.json) && t[index].updatedAt == saved.value.now)
    decreases |ops|
  {
    if ops != [] {
      SessionColumns(v, ops[..|ops| - 1], index);
    }
  }

  // ----- The status ledger

  datatype LedgerOp =
    | Add(m: NewMessage)
    | SetStatus(messageId: string, status: byte, now: string, nonce: string)
    | Remove(id: nat)

  function LedgerAfter(v: Vault, ops: seq<LedgerOp>): Ledger {
    if ops == [] then Ledger(map[], 1, [])
    else
      var t := LedgerAfter(v, ops[..|ops| - 1]);
      match ops[|ops| - 1]
      case Add(m) => Inserted(v, t, m)
      case SetStatus(messageId, status, now, nonce) => Updated(v, t, messageId, status, now, nonce)
      case Remove(id) => WithoutId(t, id)
  }

  /** Where a stored message began: what store_message was given, the length of the history then, and the position of
      that operation in the run. */
  datatype Origin = Origin(m: NewMessage, since: nat, at: nat)

  /** The origins of the messages present after a run, by blind index. */
  function Origins(v: Vault, ops: seq<LedgerOp>): map<string, Origin> {
    if ops == [] then map[]
    else
      var before := LedgerAfter(v, ops[..|ops| - 1]);
      var origins := Origins(v, ops[..|ops| - 1]);
      match ops[|ops| - 1]
      case Add(m) =>
        if v.blindIndex(m.messageId) in before.messages then origins
        else origins[v.blindIndex(m.messageId) := Origin(m, |before.history|, |ops| - 1)]
      case SetStatus(_, _, _, _) => origins
      case Remove(id) => map index | index in origins && index in WithoutId(before, id).messages :: origins[index]
  }

  function ReadRecord(v: Vault, row: HistoryRow): Option<Record> {
    match v.decrypt(row.recordEnc)
    case None => None
    case Some(text) => v.fromJson(text)
  }

  /** The ledger records for one blind index, from position `since` on, decrypted. */
  function RecordsFor(v: Vault, history: seq<HistoryRow>, index: string, since: nat): seq<Option<Record>> {
    if |history| <= since then []
    else
      var last := history[|history| - 1];
      var earlier := RecordsFor(v, history[..|history| - 1], index, since);
      if last.index == index then earlier + [ReadRecord(v, last)] else earlier
  }

  /** The records replay the message from its inserted status to status `to`: every old status is the status before
      it, and every record names the message's own sender and recipient. */
  predicate Replays(v: Vault, records: seq<Option<Record>>, m: NewMessage, to: byte) {
    if records == [] then m.status == to
    else
      var last := records[|records| - 1];
      && last.Some? && last.value.newStatus == to && last.value.reason == Reason(to)
      && last.value.fromNid == m.fromNid && last.value.toNid == m.toNid
      && v.blindIndex(last.value.messageId) == v.blindIndex(m.messageId)
      && Replays(v, records[..|records| - 1], m, last.value.oldStatus)
  }

  /** The encrypted columns of a row read back as what was stored. */
  ghost predicate ReadsBack(v: Vault, row: MessageRow, m: NewMessage) {
    && v.decrypt(row.fromEnc) == Some(m.fromNid) && v.decrypt(row.toEnc) == Some(m.toNid)
    && v.decrypt(row.ciphertext) == Some(m.ciphertext) && v.decrypt(row.timestampEnc) == Some(m.now)
    && v.decrypt(row.messageIdEnc) == Some(m.messageId)
  }

  /** One stored message: its columns, its delivered mark and its ledger. */
  ghost predicate EntryOk(v: Vault, t: Ledger, index: string, origin: Origin)
    requires index in t.messages
  {
    && index == v.blindIndex(origin.m.messageId)
    && ReadsBack(v, t.messages[index], origin.m)
    && (t.messages[index].delivered <==> t.messages[index].status >= 2)
    && origin.since <= |t.history|
    && Replays(v, RecordsFor(v, t.history, index, origin.since), origin.m, t.messages[index].status)
  }

  ghost predicate LedgerOk(v: Vault, t: Ledger, origins: map<string, Origin>) {
    && t.messages.Keys == origins.Keys
    && forall index :: index in t.messages ==> EntryOk(v, t, index, origins[index])
  }

  lemma AppendedRecord(v: Vault, history: seq<HistoryRow>, row: HistoryRow, index: string, since: nat)
    requires since <= |history|
    ensures RecordsFor(v, history + [row], index, since)
            == if row.index == index then RecordsFor(v, history, index, since) + [ReadRecord(v, row)]
               else RecordsFor(v, history, index, since)
  {
    assert (history + [row])[..|history|] == history;
  }

  lemma UpdateReplays(v: Vault, t: Ledger, origins: map<string, Origin>,
                      messageId: string, status: byte, now: string, nonce: string)
    requires v.Lawful() && LedgerOk(v, t, origins)
    ensures LedgerOk(v, Updated(v, t, messageId, status, now, nonce), origins)
  {
    hide RecordsFor, Replays, EntryOk;
    var target := v.blindIndex(messageId);
    if target in t.messages {
      var after := Updated(v, t, messageId, status, now, nonce);
      forall index | index in after.messages
        ensures EntryOk(v, after, index, origins[index])
      {
        EntryUpdated(v, t, index, origins[index], messageId, status, now, nonce);
      }
    }
  }

  lemma EntryUpdated(v: Vault, t: Ledger, index: string, origin: Origin,
                     messageId: string, status: byte, now: string, nonce: string)
    requires v.Lawful() && v.blindIndex(messageId) in t.messages && index in t.messages && EntryOk(v, t, index, origin)
    ensures EntryOk(v, Updated(v, t, messageId, status, now, nonce), index, origin)
  {
    hide RecordsFor;
    var target := v.blindIndex(messageId);
    var after := Updated(v, t, messageId, status, now, nonce);
    var record := Transition(v, t.messages[target], messageId, status, now);
    var row := HistoryRow(target, v.encrypt(nonce, v.toJson(record)), now);
    assert after.history == t.history + [row];
    assert v.decrypt(v.encrypt(nonce, v.toJson(record))) == Some(v.toJson(record));
    AppendedRecord(v, t.history, row, index, origin.since);
    if index == target {
      var earlier := RecordsFor(v, t.history, index, origin.since);
      assert (earlier + [Some(record)])[..|earlier|] == earlier;
    }
  }

  lemma InsertReplays(v: Vault, t: Ledger, origins: map<string, Origin>, m: NewMessage, at: nat)
    requires v.Lawful() && LedgerOk(v, t, origins) && v.blindIndex(m.messageId) !in t.messages
    ensures LedgerOk(v, Inserted(v, t, m), origins[v.blindIndex(m.messageId) := Origin(m, |t.history|, at)])
  {
    hide EntryOk;
    var target := v.blindIndex(m.messageId);
    var after := Inserted(v, t, m);
    var origins' := origins[target := Origin(m, |t.history|, at)];
    forall index | index in after.messages
      ensures EntryOk(v, after, index, origins'[index])
    {
      EntryInserted(v, t, index, if index in origins then origins[index] else origins'[index], m, at);
    }
  }

  lemma EntryInserted(v: Vault, t: Ledger, index: string, origin: Origin, m: NewMessage, at: nat)
    requires v.Lawful() && v.blindIndex(m.messageId) !in t.messages
    ensures index in t.messages && EntryOk(v, t, index, origin) ==> EntryOk(v, Inserted(v, t, m), index, origin)
    ensures EntryOk(v, Inserted(v, t, m), v.blindIndex(m.messageId), Origin(m, |t.history|, at))
  {}

  lemma RemoveReplays(v: Vault, t: Ledger, origins: map<string, Origin>, id: nat)
    requires LedgerOk(v, t, origins)
    ensures LedgerOk(v, WithoutId(t, id), map index | index in origins && index in WithoutId(t, id).messages :: origins[index])
  {
    hide RecordsFor, Replays;
    forall index | index in WithoutId(t, id).messages
      ensures EntryOk(v, WithoutId(t, id), index, origins[index])
    {
      assert EntryOk(v, t, index, origins[index]);
    }
  }

  /** In every run from an empty store, for each stored message: its encrypted columns read back as what was stored,
      it is marked delivered exactly when its status is at least 2, and its ledger records since it was inserted
      replay from the inserted status to the current one. */
  lemma {:induction false} LedgerReplays(v: Vault, ops: seq<LedgerOp>)
    requires v.Lawful()
    ensures LedgerOk(v, LedgerAfter(v, ops), Origins(v, ops))
    decreases |ops|
  {
    if ops != [] {
      var before, origins := LedgerAfter(v, ops[..|ops| - 1]), Origins(v, ops[..|ops| - 1]);
      LedgerReplays(v, ops[..|ops| - 1]);
      match ops[|ops| - 1]
      case Add(m) =>
        if v.blindIndex(m.messageId) !in before.messages {
          InsertReplays(v, before, origins, m, |ops| - 1);
        }
      case SetStatus(messageId, status, now, nonce) => UpdateReplays(v, before, origins, messageId, status, now, nonce);
      case Remove(id) => RemoveReplays(v, before, origins, id);
    } else {
      assert LedgerOk(v, Ledger(map[], 1, []), map[]);
    }
  }

  // ----- The status against the operations asked for

  const REASONS: map<byte, string> := map[1 := "relay_ack", 2 := "delivered", 3 := "read_receipt"]

  /** An operation that sets the status of the message with this blind index. */
  predicate Sets(v: Vault, op: LedgerOp, index: string) { op.SetStatus? && v.blindIndex(op.messageId) == index }

  /** The status of a message and when it was set, by the operations since it was stored: those of the last one that
      sets it, or else the stored ones. */
  function StatusBy(v: Vault, m: NewMessage, later: seq<LedgerOp>): (byte, string) {
    if later == [] then (m.status, m.now)
    else
      var last := later[|later| - 1];
      if Sets(v, last, v.blindIndex(m.messageId)) then (last.status, last.now) else StatusBy(v, m, later[..|later| - 1])
  }

  /** The ledger records of a message, by the operations since it was stored: one for each that sets its status. */
  function RecordsBy(v: Vault, m: NewMessage, later: seq<LedgerOp>): seq<Option<Record>> {
    if later == [] then []
    else
      var earlier, last := later[..|later| - 1], later[|later| - 1];
      if Sets(v, last, v.blindIndex(m.messageId)) then RecordsBy(v, m, earlier) + [RecordBy(v, m, earlier, last)]
      else RecordsBy(v, m, earlier)
  }

  function RecordBy(v: Vault, m: NewMessage, earlier: seq<LedgerOp>, op: LedgerOp): Option<Record>
    requires op.SetStatus?
  {
    Some(Record(op.messageId, m.fromNid, m.toNid, StatusBy(v, m, earlier).0, op.status, op.now,
                if op.status in REASONS then REASONS[op.status] else "status_change"))
  }

  ghost predicate FollowsOps(v: Vault, t: Ledger, ops: seq<LedgerOp>, index: string, o: Origin)
    requires index in t.messages
  {
    && o.at < |ops| && ops[o.at] == Add(o.m) && index == v.blindIndex(o.m.messageId) && o.since <= |t.history|
    && (t.messages[index].status, t.messages[index].statusUpdatedAt) == StatusBy(v, o.m, ops[o.at + 1..])
    && RecordsFor(v, t.history, index, o.since) == RecordsBy(v, o.m, ops[o.at + 1..])
  }

  lemma LaterOp(v: Vault, m: NewMessage, ops: seq<LedgerOp>, op: LedgerOp, at: nat)
    requires at < |ops|
    ensures var sets, later, more := Sets(v, op, v.blindIndex(m.messageId)), ops[at + 1..], (ops + [op])[at + 1..];
            && StatusBy(v, m, more) == (if sets then (op.status, op.now) else StatusBy(v, m, later))
            && RecordsBy(v, m, more) == RecordsBy(v, m, later) + if sets then [RecordBy(v, m, later, op)] else []
  {
    var more := (ops + [op])[at + 1..];
    assert more == ops[at + 1..] + [op] && more[..|more| - 1] == ops[at + 1..];
  }

  lemma SetFollows(v: Vault, t: Ledger, ops: seq<LedgerOp>, op: LedgerOp, index: string, o: Origin)
    requires v.Lawful() && index in t.messages && FollowsOps(v, t, ops, index, o) && op.SetStatus?
    requires ReadsBack(v, t.messages[index], o.m)
    ensures FollowsOps(v, Updated(v, t, op.messageId, op.status, op.now, op.nonce), ops + [op], index, o)
  {
    hide RecordsFor, StatusBy, RecordsBy;
    LaterOp(v, o.m, ops, op, o.at);
    var target := v.blindIndex(op.messageId);
    if target in t.messages {
      var after := Updated(v, t, op.messageId, op.status, op.now, op.nonce);
      var record := Transition(v, t.messages[target], op.messageId, op.status, op.now);
      var row := HistoryRow(target, v.encrypt(op.nonce, v.toJson(record)), op.now);
      assert after.history == t.history + [row];
      assert v.decrypt(v.encrypt(op.nonce, v.toJson(record))) == Some(v.toJson(record));
      AppendedRecord(v, t.history, row, index, o.since);
    }
  }

  lemma OtherFollows(v: Vault, t: Ledger, after: Ledger, ops: seq<LedgerOp>, op: LedgerOp, index: string, o: Origin)
    requires index in t.messages && FollowsOps(v, t, ops, index, o) && !op.SetStatus?
    requires index in after.messages && after.messages[index] == t.messages[index] && after.history == t.history
    ensures FollowsOps(v, after, ops + [op], index, o)
  {
    hide RecordsFor, StatusBy, RecordsBy;
    LaterOp(v, o.m, ops, op, o.at);
  }

  lemma AddFollows(v: Vault, t: Ledger, ops: seq<LedgerOp>, m: NewMessage)
    requires v.blindIndex(m.messageId) !in t.messages
    ensures FollowsOps(v, Inserted(v, t, m), ops + [Add(m)], v.blindIndex(m.messageId), Origin(m, |t.history|, |ops|))
  {
    assert (ops + [Add(m)])[|ops| + 1..] == [];
  }

  /** In every run, a stored message has the status and the time of the last operation since it was stored that sets it,
      or those it was stored with; and its ledger records since then are one for each such operation, in order. */
  lemma {:induction false} StatusFollows(v: Vault, ops: seq<LedgerOp>, index: string)
    requires v.Lawful() && index in LedgerAfter(v, ops).messages
    ensures index in Origins(v, ops) && FollowsOps(v, LedgerAfter(v, ops), ops, index, Origins(v, ops)[index])
    decreases |ops|
  {
    LedgerReplays(v, ops);
    hide FollowsOps, EntryOk, StatusBy, RecordsBy, RecordsFor;
    if ops != [] {
      var init, op := ops[..|ops| - 1], ops[|ops| - 1];
      var t := LedgerAfter(v, init);
      assert ops == init + [op];
      LedgerReplays(v, init);
      if index in t.messages {
        StatusFollows(v, init, index);
        StatusStep(v, init, op, index);
      } else {
        assert op.Add? && index == v.blindIndex(op.m.messageId);
        AddFollows(v, t, init, op.m);
      }
    }
  }

  lemma StatusStep(v: Vault, init: seq<LedgerOp>, op: LedgerOp, index: string)
    requires v.Lawful() && index in LedgerAfter(v, init).messages && index in LedgerAfter(v, init + [op]).messages
    requires index in Origins(v, init) && EntryOk(v, LedgerAfter(v, init), index, Origins(v, init)[index])
    requires FollowsOps(v, LedgerAfter(v, init), init, index, Origins(v, init)[index])
    ensures index in Origins(v, init + [op]) && Origins(v, init + [op])[index] == Origins(v, init)[index]
    ensures FollowsOps(v, LedgerAfter(v, init + [op]), init + [op], index, Origins(v, init)[index])
  {
    assert (init + [op])[..|init|] == init;
    hide FollowsOps, RecordsFor, Replays;
    var t, o := LedgerAfter(v, init), Origins(v, init)[index];
    match op
    case SetStatus(_, _, _, _) => SetFollows(v, t, init, op, index, o);
    case Add(m) => OtherFollows(v, t, Inserted(v, t, m), init, op, index, o);
    case Remove(id) => OtherFollows(v, t, WithoutId(t, id), init, op, index, o);
  }

  /** The origin of a stored message is where it entered the store: it was not there just before, and has been there
      ever since. */
  lemma {:induction false} OriginExact(v: Vault, ops: seq<LedgerOp>, index: string, k: nat)
    requires v.Lawful() && index in LedgerAfter(v, ops).messages
    ensures index in Origins(v, ops) && Origins(v, ops)[index].at < |ops|
    ensures index !in LedgerAfter(v, ops[..Origins(v, ops)[index].at]).messages
    ensures Origins(v, ops)[index].at < k <= |ops| ==> index in LedgerAfter(v, ops[..k]).messages
    decreases |ops|
  {
    hide LedgerOk;
    LedgerReplays(v, ops);
    SameKeys(v, LedgerAfter(v, ops), Origins(v, ops));
    if ops != [] {
      var init := ops[..|ops| - 1];
      LedgerReplays(v, init);
      SameKeys(v, LedgerAfter(v, init), Origins(v, init));
      assert ops[..|ops|] == ops;
      if index in LedgerAfter(v, init).messages {
        OriginExact(v, init, index, k);
        assert init[..Origins(v, init)[index].at] == ops[..Origins(v, init)[index].at];
        assert k <= |init| ==> init[..k] == ops[..k];
      }
    }
  }

  lemma SameKeys(v: Vault, t: Ledger, origins: map<string, Origin>)
    requires LedgerOk(v, t, origins)
    ensures t.messages.Keys == origins.Keys
  {}

  /** Every row of the history decrypts to a record for its blind index, stamped with the row's own time. */
  lemma {:induction false} HistoryStamped(v: Vault, ops: seq<LedgerOp>, k: nat)
    requires v.Lawful() && k < |LedgerAfter(v, ops).history|
    ensures var row := LedgerAfter(v, ops).history[k];
            var record := ReadRecord(v, row);
            record.Some? && v.blindIndex(record.value.messageId) == row.index && record.value.updatedAt == row.createdAt
    decreases |ops|
  {
    if ops != [] {
      var init, op := ops[..|ops| - 1], ops[|ops| - 1];
      var t := LedgerAfter(v, init);
      if k < |t.history| {
        HistoryStamped(v, init, k);
      } else {
        var record := Transition(v, t.messages[v.blindIndex(op.messageId)], op.messageId, op.status, op.now);
        assert v.decrypt(v.encrypt(op.nonce, v.toJson(record))) == Some(v.toJson(record));
        assert v.fromJson(v.toJson(record)) == Some(record);
      }
    }
  }

  ghost predicate IdsDistinct(t: Ledger) {
    && (forall index :: index in t.messages ==> t.messages[index].id < t.nextId)
    && (forall a, b :: a in t.messages && b in t.messages && t.messages[a].id == t.messages[b].id ==> a == b)
  }

  lemma StepKeepsIds(v: Vault, t: Ledger, op: LedgerOp)
    requires IdsDistinct(t)
    ensures op.Add? ==> IdsDistinct(Inserted(v, t, op.m))
    ensures op.SetStatus? ==> IdsDistinct(Updated(v, t, op.messageId, op.status, op.now, op.nonce))
    ensures op.Remove? ==> IdsDistinct(WithoutId(t, op.id))
  {}

  lemma {:induction false} RowIdsDistinct(v: Vault, ops: seq<LedgerOp>)
    ensures IdsDistinct(LedgerAfter(v, ops))
    decreases |ops|
  {
    if ops != [] {
      hide IdsDistinct;
      RowIdsDistinct(v, ops[..|ops| - 1]);
      StepKeepsIds(v, LedgerAfter(v, ops[..|ops| - 1]), ops[|ops| - 1]);
    }
  }

  /** In every run deleting by the row id of a stored message takes exactly that message. */
  lemma DeleteTakesOne(v: Vault, ops: seq<LedgerOp>, index: string)
    requires index in LedgerAfter(v, ops).messages
    ensures var t := LedgerAfter(v, ops);
            WithoutId(t, t.messages[index].id) == t.(messages := t.messages - {index})
  {
    RowIdsDistinct(v, ops);
    hide LedgerAfter;
    var t := LedgerAfter(v, ops);
    assert WithoutId(t, t.messages[index].id).messages.Keys == t.messages.Keys - {index};
  }

  /** Storing a message id that is already there changes nothing. */
  lemma DuplicateIgnored(v: Vault, ops: seq<LedgerOp>, m: NewMessage)
    requires v.blindIndex(m.messageId) in LedgerAfter(v, ops).messages
    ensures LedgerAfter(v, ops + [Add(m)]) == LedgerAfter(v, ops)
    ensures Origins(v, ops + [Add(m)]) == Origins(v, ops)
  {
    assert (ops + [Add(m)])[..|ops|] == ops;
  }
}
