/**
  The `messages` table and the queries and updates the app runs on it, over
  an in-memory sequence of rows. Row order carries no meaning; the queries
  order their results by timestamp, newest first.
*/
module ChatDao {
  import opened Text
  import opened Sorting
  import opened Converters

  /**
    A row of `messages`. The status is stored under its name; an absent
    attachment is `None`.
  */
  datatype MessageRow = MessageRow(
    id: int,
    deviceAddress: string,
    deviceName: string,
    text: string,
    isFromMe: bool,
    timestamp: int,
    isRead: bool,
    status: string,
    messageType: string,
    attachmentPath: Option<string>)

  /** A row of `getLastConversations`: a message and its conversation's unread count. */
  datatype ConversationTuple = ConversationTuple(
    id: int,
    deviceAddress: string,
    deviceName: string,
    text: string,
    isFromMe: bool,
    timestamp: int,
    isRead: bool,
    unreadCount: nat)

  function RowId(m: MessageRow): int {
    m.id
  }

  function RowTime(m: MessageRow): int {
    m.timestamp
  }

  function TupleTime(t: ConversationTuple): int {
    t.timestamp
  }

  /** The table's integrity: one row per id, every id positive and below the next generated one. */
  predicate WellFormed(rows: seq<MessageRow>, nextId: int) {
    nextId > 0 && DistinctBy(rows, RowId) && forall i :: 0 <= i < |rows| ==> 0 < rows[i].id < nextId
  }

  /** An unread incoming message. */
  predicate Unread(m: MessageRow) {
    !m.isRead && !m.isFromMe
  }

  /** The number of rows that satisfy `Unread` and belong to `address`, or to any address when `None`. */
  function CountUnread(rows: seq<MessageRow>, address: Option<string>): (n: nat)
    ensures n <= |rows|
  {
    if |rows| == 0 then 0
    else
      var last := rows[|rows| - 1];
      CountUnread(rows[..|rows| - 1], address) +
        (if Unread(last) && (address.None? || last.deviceAddress == address.value) then 1 else 0)
  }

  /** `getUnreadCount()`. */
  function GetUnreadCount(rows: seq<MessageRow>): nat {
    CountUnread(rows, None)
  }

  /** The count is zero exactly when no row is counted. */
  lemma {:induction false} CountUnreadZero(rows: seq<MessageRow>, address: Option<string>)
    ensures CountUnread(rows, address) == 0 <==>
      forall i :: 0 <= i < |rows| ==> !(Unread(rows[i]) && (address.None? || rows[i].deviceAddress == address.value))
  {
    if |rows| > 0 {
      var init := rows[..|rows| - 1];
      CountUnreadZero(init, address);
      assert forall i :: 0 <= i < |init| ==> init[i] == rows[i];
    }
  }

  /** The count of a table equals the sum over its two parts. */
  lemma {:induction false} CountUnreadAppend(a: seq<MessageRow>, b: seq<MessageRow>, address: Option<string>)
    decreases |b|
    ensures CountUnread(a + b, address) == CountUnread(a, address) + CountUnread(b, address)
  {
    var ab := a + b;
    if |b| == 0 {
      assert ab == a;
    } else {
      assert ab[..|ab| - 1] == a + b[..|b| - 1];
      assert ab[|ab| - 1] == b[|b| - 1];
      CountUnreadAppend(a, b[..|b| - 1], address);
    }
  }

  /** The rows of `address`, in table order. */
  function RowsOf(rows: seq<MessageRow>, address: string): (r: seq<MessageRow>)
    ensures forall m :: multiset(r)[m] == if m.deviceAddress == address then multiset(rows)[m] else 0
  {
    if |rows| == 0 then []
    else
      var init := rows[..|rows| - 1];
      var last := rows[|rows| - 1];
      assert rows == init + [last];
      if last.deviceAddress == address then RowsOf(init, address) + [last] else RowsOf(init, address)
  }

  /**
    `getMessages(address)`: exactly the rows of `address`, each as often as
    it is stored, newest first.
  */
  function GetMessages(rows: seq<MessageRow>, address: string): (r: seq<MessageRow>)
    ensures SortedDesc(r, RowTime)
    ensures forall m :: multiset(r)[m] == if m.deviceAddress == address then multiset(rows)[m] else 0
    ensures forall m :: m in r <==> m in rows && m.deviceAddress == address
  {
    var r := SortDesc(RowsOf(rows, address), RowTime);
    assert forall m :: m in r <==> m in rows && m.deviceAddress == address by {
      forall m ensures m in r <==> m in rows && m.deviceAddress == address {
        assert m in r <==> m in multiset(r);
        assert m in rows <==> m in multiset(rows);
      }
    }
    r
  }

  /** The newest timestamp among the rows of `address`, if it has any. */
  function Latest(rows: seq<MessageRow>, address: string): (t: Option<int>)
    ensures t.None? <==> forall i :: 0 <= i < |rows| ==> rows[i].deviceAddress != address
    ensures t.Some? ==>
      (exists i :: 0 <= i < |rows| && rows[i].deviceAddress == address && rows[i].timestamp == t.value) &&
      (forall i :: 0 <= i < |rows| && rows[i].deviceAddress == address ==> rows[i].timestamp <= t.value)
  {
    if |rows| == 0 then None
    else
      var init := rows[..|rows| - 1];
      var last := rows[|rows| - 1];
      var t0 := Latest(init, address);
      assert forall i :: 0 <= i < |init| ==> rows[i] == init[i];
      if last.deviceAddress != address then t0
      else if t0.None? || t0.value < last.timestamp then Some(last.timestamp)
      else t0
  }

  /** Whether a row is the newest of its conversation (one of them, when several share the time). */
  predicate IsLatest(rows: seq<MessageRow>, m: MessageRow) {
    Latest(rows, m.deviceAddress) == Some(m.timestamp)
  }

  function ToTuple(rows: seq<MessageRow>, m: MessageRow): ConversationTuple {
    ConversationTuple(m.id, m.deviceAddress, m.deviceName, m.text, m.isFromMe, m.timestamp, m.isRead,
      CountUnread(rows, Some(m.deviceAddress)))
  }

  /** The newest rows of each conversation among `part`, as tuples counted over the whole table. */
  function LatestTuples(rows: seq<MessageRow>, part: seq<MessageRow>): (r: seq<ConversationTuple>)
    ensures forall t :: t in r ==> exists m :: m in part && IsLatest(rows, m) && t == ToTuple(rows, m)
    ensures forall m :: m in part && IsLatest(rows, m) ==> ToTuple(rows, m) in r
  {
    if |part| == 0 then []
    else
      var rest := LatestTuples(rows, part[1..]);
      assert forall m :: m in part[1..] ==> m in part;
      assert forall m :: m in part ==> m == part[0] || m in part[1..];
      if IsLatest(rows, part[0]) then [ToTuple(rows, part[0])] + rest else rest
  }

  /**
    `getLastConversations()`: for every conversation, its newest message
    (every one of them, when several share the newest timestamp) with the
    conversation's unread count, newest conversation first.
  */
  function GetLastConversations(rows: seq<MessageRow>): (r: seq<ConversationTuple>)
    ensures SortedDesc(r, TupleTime)
  {
    SortDesc(LatestTuples(rows, rows), TupleTime)
  }

  /**
    Each conversation row is a stored message at least as new as every other
    message of its address, and carries that address's number of unread
    incoming messages.
  */
  lemma LastConversationsSound(rows: seq<MessageRow>, t: ConversationTuple)
    requires t in GetLastConversations(rows)
    ensures exists m :: m in rows && t == ToTuple(rows, m)
    ensures forall i :: 0 <= i < |rows| && rows[i].deviceAddress == t.deviceAddress ==> rows[i].timestamp <= t.timestamp
    ensures t.unreadCount == CountUnread(rows, Some(t.deviceAddress))
  {
    LastConversationOf(rows, t);
  }

  /** A conversation row is the tuple of a newest message. */
  lemma LastConversationOf(rows: seq<MessageRow>, t: ConversationTuple)
    requires t in GetLastConversations(rows)
    ensures exists m :: m in rows && IsLatest(rows, m) && t == ToTuple(rows, m)
  {
    var part := LatestTuples(rows, rows);
    assert multiset(GetLastConversations(rows)) == multiset(part);
    assert t in multiset(part);
    assert t in part;
  }

  /** Every address in the table has a conversation row. */
  lemma LastConversationsCover(rows: seq<MessageRow>, i: int)
    requires 0 <= i < |rows|
    ensures exists t :: t in GetLastConversations(rows) && t.deviceAddress == rows[i].deviceAddress
  {
    var a := rows[i].deviceAddress;
    var part := LatestTuples(rows, rows);
    var k :| 0 <= k < |rows| && rows[k].deviceAddress == a && rows[k].timestamp == Latest(rows, a).value;
    var t := ToTuple(rows, rows[k]);
    assert IsLatest(rows, rows[k]);
    assert t in part;
    assert t in multiset(part);
    assert t in GetLastConversations(rows);
  }

  /** `insert` with REPLACE on an auto-generated key: the new table, the next key, and the row's id. */
  function InsertRow(rows: seq<MessageRow>, nextId: int, m: MessageRow): (seq<MessageRow>, int, int) {
    if m.id == 0 then (rows + [m.(id := nextId)], nextId + 1, nextId)
    else (WithoutId(rows, m.id) + [m], if nextId <= m.id then m.id + 1 else nextId, m.id)
  }

  /** The rows whose id is not `id`, in order. */
  function WithoutId(rows: seq<MessageRow>, id: int): (r: seq<MessageRow>)
    ensures forall m :: m in r <==> m in rows && m.id != id
    ensures forall m :: multiset(r)[m] <= multiset(rows)[m]
  {
    if |rows| == 0 then []
    else
      var init := rows[..|rows| - 1];
      var last := rows[|rows| - 1];
      assert rows == init + [last];
      if last.id == id then WithoutId(init, id) else WithoutId(init, id) + [last]
  }

  /**
    After an insert the row is stored under the returned id, which is new
    when the message had none; it is the only row with that id, every other
    row is kept, and the table stays well formed.
  */
  lemma InsertSpec(rows: seq<MessageRow>, nextId: int, m: MessageRow)
    requires WellFormed(rows, nextId)
    requires m.id >= 0
    ensures var (rows', nextId', id) := InsertRow(rows, nextId, m);
      WellFormed(rows', nextId') &&
      m.(id := id) in rows' &&
      (forall x :: x in rows' && x.id == id ==> x == m.(id := id)) &&
      (forall x :: x in rows && x.id != id ==> x in rows') &&
      (forall x :: x in rows' ==> x == m.(id := id) || (x in rows && x.id != id)) &&
      (m.id == 0 ==> id == nextId && |rows'| == |rows| + 1 && forall x :: x in rows ==> x.id != id) &&
      (m.id != 0 ==> id == m.id)
  {
    var (rows', nextId', id) := InsertRow(rows, nextId, m);
    if m.id == 0 {
      assert rows' == rows + [m.(id := nextId)];
      assert DistinctBy(rows', RowId) by {
        forall i, j | 0 <= i < j < |rows'| ensures RowId(rows'[i]) != RowId(rows'[j]) {
          if j < |rows| { assert rows'[i] == rows[i] && rows'[j] == rows[j]; }
          else { assert rows'[i] == rows[i]; }
        }
      }
    } else {
      var kept := WithoutId(rows, m.id);
      assert rows' == kept + [m];
      assert forall x :: x in kept ==> x.id != m.id;
      DistinctSub(rows, kept);
      assert DistinctBy(rows', RowId) by {
        forall i, j | 0 <= i < j < |rows'| ensures RowId(rows'[i]) != RowId(rows'[j]) {
          assert rows'[i] == kept[i];
          if j < |kept| {
            assert rows'[j] == kept[j];
          } else {
            assert rows'[j] == m && kept[i] in kept;
          }
        }
      }
      forall x | x in rows' ensures 0 < x.id < nextId' {
        if x != m { assert x in kept && x in rows; }
      }
    }
  }

  /** Dropping rows from a table with one row per id leaves one row per id. */
  lemma DistinctSub(rows: seq<MessageRow>, sub: seq<MessageRow>)
    requires DistinctBy(rows, RowId)
    requires forall m :: multiset(sub)[m] <= multiset(rows)[m]
    ensures DistinctBy(sub, RowId)
  {
    forall i, j | 0 <= i < j < |sub| ensures RowId(sub[i]) != RowId(sub[j]) {
      var x, y := sub[i], sub[j];
      assert x in rows by { assert x in multiset(sub); }
      assert y in rows by { assert y in multiset(sub); }
      var p :| 0 <= p < |rows| && rows[p] == x;
      var q :| 0 <= q < |rows| && rows[q] == y;
      CountOnce(rows, p);
      if x == y {
        TwoOccurrences(sub, i, j);
        assert false;
      }
      if p < q {
        assert RowId(rows[p]) != RowId(rows[q]);
      } else {
        assert RowId(rows[q]) != RowId(rows[p]);
      }
    }
  }

  /** An element at two positions occurs at least twice. */
  lemma TwoOccurrences(s: seq<MessageRow>, i: int, j: int)
    requires 0 <= i < j < |s| && s[i] == s[j]
    ensures multiset(s)[s[i]] >= 2
  {
    assert s == s[..i] + [s[i]] + s[i + 1..j] + [s[j]] + s[j + 1..];
  }

  /** In a table with one row per id, a row occurs once. */
  lemma CountOnce(rows: seq<MessageRow>, p: int)
    requires DistinctBy(rows, RowId) && 0 <= p < |rows|
    ensures multiset(rows)[rows[p]] == 1
  {
    assert rows == rows[..p] + [rows[p]] + rows[p + 1..];
    forall k | 0 <= k < |rows| && k != p ensures rows[k] != rows[p] {
      if k < p { assert RowId(rows[k]) != RowId(rows[p]); } else { assert RowId(rows[p]) != RowId(rows[k]); }
    }
    assert rows[p] !in rows[..p];
    assert rows[p] !in rows[p + 1..];
  }

  /** `updateMessageStatus(id, status)`: the status of the row with that id. */
  function UpdateStatus(rows: seq<MessageRow>, id: int, status: MessageStatus): (r: seq<MessageRow>)
    ensures |r| == |rows|
    ensures forall i :: 0 <= i < |rows| ==>
      r[i] == if rows[i].id == id then rows[i].(status := StatusName(status)) else rows[i]
  {
    seq(|rows|, i requires 0 <= i < |rows| =>
      if rows[i].id == id then rows[i].(status := StatusName(status)) else rows[i])
  }

  /** `updateDeviceName(address, name)`: the name on every row of that address. */
  function UpdateDeviceName(rows: seq<MessageRow>, address: string, name: string): (r: seq<MessageRow>)
    ensures |r| == |rows|
    ensures forall i :: 0 <= i < |rows| ==>
      r[i] == if rows[i].deviceAddress == address then rows[i].(deviceName := name) else rows[i]
  {
    seq(|rows|, i requires 0 <= i < |rows| =>
      if rows[i].deviceAddress == address then rows[i].(deviceName := name) else rows[i])
  }

  /** `markAsRead(address)`: every unread row of that address becomes read. */
  function MarkAsRead(rows: seq<MessageRow>, address: string): (r: seq<MessageRow>)
    ensures |r| == |rows|
    ensures forall i :: 0 <= i < |rows| ==>
      r[i] == if rows[i].deviceAddress == address && !rows[i].isRead then rows[i].(isRead := true) else rows[i]
  {
    seq(|rows|, i requires 0 <= i < |rows| =>
      if rows[i].deviceAddress == address && !rows[i].isRead then rows[i].(isRead := true) else rows[i])
  }

  /**
    After `markAsRead(address)` the address has no unread message, the count
    of every other address is unchanged, and the overall count falls by the
    address's former count.
  */
  lemma {:induction false} MarkAsReadCounts(rows: seq<MessageRow>, address: string, other: string)
    requires other != address
    ensures CountUnread(MarkAsRead(rows, address), Some(address)) == 0
    ensures CountUnread(MarkAsRead(rows, address), Some(other)) == CountUnread(rows, Some(other))
    ensures GetUnreadCount(MarkAsRead(rows, address)) == GetUnreadCount(rows) - CountUnread(rows, Some(address))
  {
    if |rows| > 0 {
      var init := rows[..|rows| - 1];
      var r := MarkAsRead(rows, address);
      assert r[..|r| - 1] == MarkAsRead(init, address);
      MarkAsReadCounts(init, address, other);
    }
  }

  /** Ids, addresses and content never change under the three updates; the table stays well formed. */
  lemma UpdatesKeepWellFormed(rows: seq<MessageRow>, nextId: int, id: int, s: MessageStatus, a: string, n: string)
    requires WellFormed(rows, nextId)
    ensures WellFormed(UpdateStatus(rows, id, s), nextId)
    ensures WellFormed(UpdateDeviceName(rows, a, n), nextId)
    ensures WellFormed(MarkAsRead(rows, a), nextId)
  {
    var r1, r2, r3 := UpdateStatus(rows, id, s), UpdateDeviceName(rows, a, n), MarkAsRead(rows, a);
    assert forall i :: 0 <= i < |rows| ==>
      RowId(r1[i]) == RowId(rows[i]) && RowId(r2[i]) == RowId(rows[i]) && RowId(r3[i]) == RowId(rows[i]);
  }

  /** The `messages` table of the Room database. */
  class MessagesTable {
    var rows: seq<MessageRow>
    var nextId: int

    ghost predicate Valid()
      reads this
    {
      WellFormed(rows, nextId)
    }

    constructor ()
      ensures Valid() && rows == [] && nextId == 1
    {
      rows := [];
      nextId := 1;
    }

    method Insert(m: MessageRow) returns (id: int)
      requires Valid() && m.id >= 0
      modifies this
      ensures Valid()
      ensures (rows, nextId, id) == InsertRow(old(rows), old(nextId), m)
    {
      InsertSpec(rows, nextId, m);
      if m.id == 0 {
        id := nextId;
        rows := rows + [m.(id := id)];
        nextId := nextId + 1;
      } else {
        id := m.id;
        rows := WithoutId(rows, id) + [m];
        if nextId <= id {
          nextId := id + 1;
        }
      }
    }

    method UpdateMessageStatus(id: int, status: MessageStatus)
      requires Valid()
      modifies this
      ensures Valid() && nextId == old(nextId)
      ensures rows == UpdateStatus(old(rows), id, status)
    {
      UpdatesKeepWellFormed(rows, nextId, id, status, "", "");
      rows := UpdateStatus(rows, id, status);
    }

    method SetDeviceName(address: string, name: string)
      requires Valid()
      modifies this
      ensures Valid() && nextId == old(nextId)
      ensures rows == UpdateDeviceName(old(rows), address, name)
    {
      UpdatesKeepWellFormed(rows, nextId, 0, SENT, address, name);
      rows := UpdateDeviceName(rows, address, name);
    }

    method SetRead(address: string)
      requires Valid()
      modifies this
      ensures Valid() && nextId == old(nextId)
      ensures rows == MarkAsRead(old(rows), address)
    {
      UpdatesKeepWellFormed(rows, nextId, 0, SENT, address, "");
      rows := MarkAsRead(rows, address);
    }
  }
}
