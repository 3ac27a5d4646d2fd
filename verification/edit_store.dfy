/** The message-edit store: one record per edited message, keyed by
    (account, session, database, table, local id), held as a map in place of
    the SQLite table.  Snapshots are kept as value trees after the blob
    transform; the JSON text encoding around them is not modelled. */
module EditStore {
  import opened Wrappers
  import opened Text
  import opened Json
  import opened BlobCodec
  import MessageId

  const MissingKeys: string := "Missing required keys for message edit store."

  datatype Key = Key(account: string, session: string, db: string, table: string, localId: int)

  /** A table row; `editedCols` is the decoded `edited_cols_json`, `None`
      for SQL NULL. */
  datatype Record = Record(
    firstEditedAt: int,
    lastEditedAt: int,
    editCount: int,
    originalMsg: Value,
    originalResource: Option<Value>,
    editedCols: Option<Value>)

  type Store = map<Key, Record>

  predicate NonBlank(s: string) {
    Strip(s) != ""
  }

  /** The key the store functions build from their arguments, when every
      part is non-blank and the local id positive. */
  function KeyOf(account: string, session: string, db: string, table: string, localId: int): Option<Key> {
    if NonBlank(account) && NonBlank(session) && NonBlank(db) && NonBlank(table) && localId > 0
    then Some(Key(Strip(account), Strip(session), Strip(db), Strip(table), localId))
    else None
  }

  // ---------------------------------------------------------------------
  // Store invariant

  /** Lower-case, stripped, non-blank column names. */
  predicate ColumnName(c: string) {
    c != "" && IsStripped(c) && Lower(c) == c
  }

  predicate StrictlySorted(xs: seq<string>) {
    forall i, j :: 0 <= i < j < |xs| ==> Less(xs[i], xs[j])
  }

  /** A list of texts as a JSON array. */
  function Strs(cs: seq<string>): (v: Value)
    ensures v.List? && |v.items| == |cs|
    ensures forall i :: 0 <= i < |cs| ==> v.items[i] == Str(cs[i])
  {
    List(seq(|cs|, i requires 0 <= i < |cs| => Str(cs[i])))
  }

  predicate ColumnsNormal(c: Option<Value>) {
    c.None? ||
      (&& c.value.List?
       && (forall i :: 0 <= i < |c.value.items| ==> c.value.items[i].Str? && ColumnName(c.value.items[i].s))
       && (forall i, j :: 0 <= i < j < |c.value.items| ==> Less(c.value.items[i].s, c.value.items[j].s)))
  }

  predicate KeyNormal(k: Key) {
    && k.account != "" && IsStripped(k.account)
    && k.session != "" && IsStripped(k.session)
    && k.db != "" && IsStripped(k.db)
    && k.table != "" && IsStripped(k.table)
    && k.localId > 0
  }

  /** What every write keeps true of the table. */
  predicate Inv(st: Store) {
    forall k :: k in st ==> KeyNormal(k) && RecordNormal(st[k])
  }

  predicate RecordNormal(rec: Record) {
    && rec.editCount >= 1
    && IsJsonData(rec.originalMsg)
    && (rec.originalResource.Some? ==> IsJsonData(rec.originalResource.value))
    && ColumnsNormal(rec.editedCols)
  }

  lemma InvUpdate(st: Store, k: Key, rec: Record)
    requires Inv(st) && KeyNormal(k) && RecordNormal(rec)
    ensures Inv(st[k := rec])
  {
  }

  lemma KeyOfIsNormal(account: string, session: string, db: string, table: string, localId: int)
    requires KeyOf(account, session, db, table, localId).Some?
    ensures KeyNormal(KeyOf(account, session, db, table, localId).value)
  {
    StripIsStripped(account);
    StripIsStripped(session);
    StripIsStripped(db);
    StripIsStripped(table);
  }

  // ---------------------------------------------------------------------
  // upsert_original_once

  /** The stored form of a message snapshot; a falsy one (missing, empty
      or zero) is `{}`. */
  function Snapshot(msg: Value): Value {
    Jsonify(if Truthy(msg) then msg else Dict([]))
  }

  /** The state change of `upsert_original_once` on a valid key: the first
      call stores the snapshot; later calls only bump the counters. */
  function UpsertAt(st: Store, k: Key, msg: Value, resource: Option<Value>, ts: int): (r: Store)
    ensures r.Keys == st.Keys + {k}
    ensures forall k' :: k' in st && k' != k ==> r[k'] == st[k']
    ensures k !in st ==>
      && r[k].firstEditedAt == ts && r[k].lastEditedAt == ts && r[k].editCount == 1
      && r[k].originalMsg == Snapshot(msg) && r[k].editedCols.None?
      && r[k].originalResource == (if resource.Some? then Some(Jsonify(resource.value)) else None)
    ensures k in st ==>
      && r[k].lastEditedAt == ts && r[k].editCount == st[k].editCount + 1
      && r[k].firstEditedAt == st[k].firstEditedAt
      && r[k].originalMsg == st[k].originalMsg
      && r[k].originalResource == st[k].originalResource
      && r[k].editedCols == st[k].editedCols
  {
    if k !in st then
      var res := if resource.Some? then Some(Jsonify(resource.value)) else None;
      st[k := Record(ts, ts, 1, Snapshot(msg), res, None)]
    else
      st[k := st[k].(lastEditedAt := ts, editCount := st[k].editCount + 1)]
  }

  /** `upsert_original_once`: a blank key part or a non-positive local id is
      an error; otherwise the keyed update above. */
  function Upsert(st: Store, account: string, session: string, db: string, table: string, localId: int,
                  msg: Value, resource: Option<Value>, ts: int): (r: Result<Store, string>)
    ensures r.Err? <==> KeyOf(account, session, db, table, localId).None?
    ensures r.Err? ==> r.error == MissingKeys
    ensures r.Ok? ==> r.value == UpsertAt(st, KeyOf(account, session, db, table, localId).value, msg, resource, ts)
  {
    match KeyOf(account, session, db, table, localId)
    case None => Err(MissingKeys)
    case Some(k) => Ok(UpsertAt(st, k, msg, resource, ts))
  }

  lemma UpsertKeepsInv(st: Store, k: Key, msg: Value, resource: Option<Value>, ts: int)
    requires Inv(st) && KeyNormal(k)
    ensures Inv(UpsertAt(st, k, msg, resource, ts))
  {
  }

  /** A second edit never overwrites the first snapshot: the record keeps
      the first time, snapshot and resource, counts two edits and carries
      the second time as the last. */
  lemma UpsertTwice(st: Store, k: Key, msg1: Value, res1: Option<Value>, ts1: int, msg2: Value, res2: Option<Value>, ts2: int)
    requires k !in st
    ensures
      var st2 := UpsertAt(UpsertAt(st, k, msg1, res1, ts1), k, msg2, res2, ts2);
      st2[k] == Record(ts1, ts2, 2, Snapshot(msg1), if res1.Some? then Some(Jsonify(res1.value)) else None, None)
  {
  }

  /** Loading a stored snapshot gives back the message, up to tuples, when
      its blobs are admissible; a falsy message loads back as `{}`. */
  lemma SnapshotLoads(msg: Value)
    requires Admissible(msg)
    ensures Dejsonify(Snapshot(msg)) == if Truthy(msg) then TuplesToLists(msg) else Dict([])
  {
    if Truthy(msg) {
      BlobRoundTrip(msg);
    } else {
      BlobRoundTrip(Dict([]));
    }
  }

  // ---------------------------------------------------------------------
  // Column lists

  /** `str(x or "").strip()` for a decoded JSON array item; containers are
      read as blank. */
  function ItemText(x: Value): (t: string)
    ensures IsStripped(t)
  {
    match x
    case Str(s) => StripIsStripped(s); Strip(s)
    case Num(n) =>
      if n == 0 then ""
      else
        var s := IntToStr(n);
        var d := NatToStr(if n < 0 then -n else n);
        assert s[|s| - 1] == d[|d| - 1];
        s
    case Bool(b) => if b then "True" else ""
    case _ => ""
  }

  /** The non-blank item texts, in order. */
  function NonBlankTexts(xs: seq<Value>): (r: seq<string>)
    ensures forall i :: 0 <= i < |r| ==> r[i] != "" && IsStripped(r[i])
  {
    if |xs| == 0 then []
    else
      var rest := NonBlankTexts(xs[1..]);
      var t := ItemText(xs[0]);
      if t != "" then [t] + rest else rest
  }

  /** `_parse_json_str_list` on the decoded column payload: anything that
      is not an array reads as the empty list. */
  function ParseStrList(payload: Option<Value>): (r: seq<string>)
    ensures forall i :: 0 <= i < |r| ==> r[i] != "" && IsStripped(r[i])
  {
    match payload
    case None => []
    case Some(List(xs)) => NonBlankTexts(xs)
    case Some(Tuple(xs)) => NonBlankTexts(xs)
    case Some(_) => []
  }

  /** The stripped, non-blank column names given by a caller, in order. */
  function CleanColumns(cols: seq<string>): (r: seq<string>)
    ensures forall i :: 0 <= i < |r| ==> r[i] != "" && IsStripped(r[i])
  {
    NonBlankTexts(Strs(cols).items)
  }

  function LowerAll(xs: seq<string>): (r: seq<string>)
    ensures |r| == |xs| && forall i :: 0 <= i < |xs| ==> r[i] == Lower(xs[i])
  {
    seq(|xs|, i requires 0 <= i < |xs| => Lower(xs[i]))
  }

  /** Insertion into a strictly sorted list without duplicates. */
  function InsertSorted(xs: seq<string>, x: string): (r: seq<string>)
    requires StrictlySorted(xs)
    ensures StrictlySorted(r)
    ensures forall y :: y in r <==> y in xs || y == x
  {
    if |xs| == 0 then [x]
    else if x == xs[0] then xs
    else if Less(x, xs[0]) then
      forall j | 0 < j < |xs| ensures Less(x, xs[j]) {
        LessTransitive(x, xs[0], xs[j]);
      }
      [x] + xs
    else
      var rest := InsertSorted(xs[1..], x);
      LessTotal(x, xs[0]);
      assert forall j :: 0 <= j < |rest| ==> rest[j] in xs[1..] || rest[j] == x;
      [xs[0]] + rest
  }

  /** `sorted(set(xs))`. */
  function SortedSet(xs: seq<string>): (r: seq<string>)
    ensures StrictlySorted(r)
    ensures forall y :: y in r <==> y in xs
  {
    if |xs| == 0 then [] else InsertSorted(SortedSet(xs[..|xs| - 1]), xs[|xs| - 1])
  }

  /** A strictly sorted list is determined by its elements. */
  lemma {:induction false} SortedUnique(a: seq<string>, b: seq<string>)
    requires StrictlySorted(a) && StrictlySorted(b)
    requires forall x :: x in a <==> x in b
    ensures a == b
  {
    assert |b| > 0 ==> b[0] in a;
    if |a| > 0 {
      assert a[0] in b;
      assert b[0] in a;
      if a[0] != b[0] {
        var i :| 0 <= i < |a| && a[i] == b[0];
        var j :| 0 <= j < |b| && b[j] == a[0];
        LessAsymmetric(a[0], b[0]);
      }
      forall x ensures x in a[1..] <==> x in b[1..] {
        if x in a[1..] {
          var i :| 1 <= i < |a| && a[i] == x;
          assert x in a && x in b;
          LessIrreflexive(a[0]);
          assert x != b[0];
          var j :| 0 <= j < |b| && b[j] == x;
          assert b[1..][j - 1] == x;
        }
        if x in b[1..] {
          var i :| 1 <= i < |b| && b[i] == x;
          assert x in b && x in a;
          LessIrreflexive(b[0]);
          assert x != a[0];
          var j :| 0 <= j < |a| && a[j] == x;
          assert a[1..][j - 1] == x;
        }
      }
      SortedUnique(a[1..], b[1..]);
    }
  }

  /** The column list `merge_edited_columns` stores. */
  function MergedColumns(existing: seq<string>, incoming: seq<string>): seq<string> {
    SortedSet(LowerAll(existing) + LowerAll(incoming))
  }

  /** `merge_edited_columns` on a valid key; the flag is the return value. */
  function MergeAt(st: Store, k: Key, columns: seq<string>): (r: (bool, Store))
    ensures CleanColumns(columns) == [] ==> r == (true, st)
    ensures CleanColumns(columns) != [] && k !in st ==> r == (false, st)
    ensures CleanColumns(columns) != [] && k in st ==>
      && r.0
      && r.1.Keys == st.Keys
      && (forall k' :: k' in st && k' != k ==> r.1[k'] == st[k'])
      && r.1[k] == st[k].(editedCols := r.1[k].editedCols)
      && ParseStrList(r.1[k].editedCols) == MergedColumns(ParseStrList(st[k].editedCols), CleanColumns(columns))
  {
    var incoming := CleanColumns(columns);
    if incoming == [] then (true, st)
    else if k !in st then (false, st)
    else
      var merged := MergedColumns(ParseStrList(st[k].editedCols), incoming);
      MergedAreNames(ParseStrList(st[k].editedCols), incoming);
      StoreColumns(st, k, merged);
      (true, st[k := WithColumns(st[k], merged)])
  }

  /** Storing a column list at `k` changes that record's list and nothing
      else. */
  lemma StoreColumns(st: Store, k: Key, cs: seq<string>)
    requires k in st && forall i :: 0 <= i < |cs| ==> ColumnName(cs[i])
    ensures var r := st[k := WithColumns(st[k], cs)];
      && r.Keys == st.Keys
      && (forall k' :: k' in st && k' != k ==> r[k'] == st[k'])
      && r[k] == st[k].(editedCols := r[k].editedCols)
      && ParseStrList(r[k].editedCols) == cs
  {
  }

  /** A record whose column list is `cs`, stored as a JSON array. */
  function WithColumns(rec: Record, cs: seq<string>): (r: Record)
    requires forall i :: 0 <= i < |cs| ==> ColumnName(cs[i])
    ensures r == rec.(editedCols := Some(Strs(cs)))
    ensures ParseStrList(r.editedCols) == cs
    ensures StrictlySorted(cs) ==> ColumnsNormal(r.editedCols)
  {
    ParseStrs(cs);
    rec.(editedCols := Some(Strs(cs)))
  }

  /** `merge_edited_columns`: false for an invalid key. */
  function Merge(st: Store, account: string, session: string, db: string, table: string, localId: int,
                 columns: seq<string>): (r: (bool, Store))
    ensures KeyOf(account, session, db, table, localId).None? ==> r == (false, st)
    ensures KeyOf(account, session, db, table, localId).Some? ==>
      r == MergeAt(st, KeyOf(account, session, db, table, localId).value, columns)
  {
    match KeyOf(account, session, db, table, localId)
    case None => (false, st)
    case Some(k) => MergeAt(st, k, columns)
  }

  lemma LowerKeepsStripped(c: string)
    requires c != "" && IsStripped(c)
    ensures ColumnName(Lower(c))
  {
    LowerIdempotent(c);
  }

  /** Every merged entry is a column name. */
  lemma MergedAreNames(existing: seq<string>, incoming: seq<string>)
    requires forall i :: 0 <= i < |existing| ==> existing[i] != "" && IsStripped(existing[i])
    requires forall i :: 0 <= i < |incoming| ==> incoming[i] != "" && IsStripped(incoming[i])
    ensures forall i :: 0 <= i < |MergedColumns(existing, incoming)| ==> ColumnName(MergedColumns(existing, incoming)[i])
  {
    LowerAllNames(existing);
    LowerAllNames(incoming);
    var all := LowerAll(existing) + LowerAll(incoming);
    assert forall j :: 0 <= j < |all| ==> ColumnName(all[j]);
    var merged := MergedColumns(existing, incoming);
    forall i | 0 <= i < |merged| ensures ColumnName(merged[i]) {
      assert merged[i] in all;
    }
  }

  lemma LowerAllNames(xs: seq<string>)
    requires forall i :: 0 <= i < |xs| ==> xs[i] != "" && IsStripped(xs[i])
    ensures forall i :: 0 <= i < |xs| ==> ColumnName(LowerAll(xs)[i])
  {
    forall i | 0 <= i < |xs| ensures ColumnName(LowerAll(xs)[i]) {
      LowerKeepsStripped(xs[i]);
    }
  }

  lemma {:induction false} NonBlankTextsOfStrs(cs: seq<string>)
    requires forall i :: 0 <= i < |cs| ==> cs[i] != "" && IsStripped(cs[i])
    ensures NonBlankTexts(Strs(cs).items) == cs
  {
    if |cs| > 0 {
      StrippedIsFixed(cs[0]);
      assert Strs(cs).items[1..] == Strs(cs[1..]).items;
      NonBlankTextsOfStrs(cs[1..]);
    }
  }

  /** A stored list of column names reads back as itself. */
  lemma ParseStrs(cs: seq<string>)
    requires forall i :: 0 <= i < |cs| ==> ColumnName(cs[i])
    ensures ParseStrList(Some(Strs(cs))) == cs
  {
    NonBlankTextsOfStrs(cs);
  }

  /** Merging the same columns again changes nothing. */
  lemma MergeIdempotent(st: Store, k: Key, columns: seq<string>)
    ensures MergeAt(MergeAt(st, k, columns).1, k, columns) == MergeAt(st, k, columns)
  {
    var once := MergeAt(st, k, columns);
    var incoming := CleanColumns(columns);
    if incoming != [] && k in st {
      var merged := MergedColumns(ParseStrList(st[k].editedCols), incoming);
      MergedAreNames(ParseStrList(st[k].editedCols), incoming);
      assert once.1[k] == WithColumns(st[k], merged);
      var again := MergedColumns(merged, incoming);
      LowerAllOfNames(merged);
      SortedUnique(again, merged);
      assert once.1[k := once.1[k].(editedCols := Some(Strs(again)))] == once.1;
    }
  }

  lemma LowerAllOfNames(cs: seq<string>)
    requires forall i :: 0 <= i < |cs| ==> ColumnName(cs[i])
    ensures LowerAll(cs) == cs
  {
  }

  /** Merging keeps the column list a sorted list of names. */
  lemma MergeKeepsInv(st: Store, k: Key, columns: seq<string>)
    requires Inv(st)
    ensures Inv(MergeAt(st, k, columns).1)
  {
    var incoming := CleanColumns(columns);
    if incoming != [] && k in st {
      var merged := MergedColumns(ParseStrList(st[k].editedCols), incoming);
      MergedAreNames(ParseStrList(st[k].editedCols), incoming);
      var rec := WithColumns(st[k], merged);
      assert MergeAt(st, k, columns).1 == st[k := rec];
      assert RecordNormal(rec);
      InvUpdate(st, k, rec);
    }
  }

  // ---------------------------------------------------------------------
  // Moving, reading and deleting one record

  /** The state change of `update_message_edit_local_id` for a valid key
      and a different positive new id: the record moves when it exists and
      the new key is free; a primary-key collision leaves the table as is. */
  function MoveAt(st: Store, ko: Key, newId: int): (r: (bool, Store))
    ensures r.0 <==> ko in st && ko.(localId := newId) !in st
    ensures r.0 ==> r.1 == (st - {ko})[ko.(localId := newId) := st[ko]]
    ensures !r.0 ==> r.1 == st
  {
    var kn := ko.(localId := newId);
    if ko !in st then (false, st)
    else if kn in st then (false, st)
    else (true, (st - {ko})[kn := st[ko]])
  }

  /** `update_message_edit_local_id`. */
  function MoveLocalId(st: Store, account: string, session: string, db: string, table: string,
                       oldId: int, newId: int): (r: (bool, Store))
    ensures KeyOf(account, session, db, table, oldId).None? || newId <= 0 ==> r == (false, st)
    ensures KeyOf(account, session, db, table, oldId).Some? && newId == oldId ==> r == (true, st)
    ensures KeyOf(account, session, db, table, oldId).Some? && newId > 0 && newId != oldId ==>
      r == MoveAt(st, KeyOf(account, session, db, table, oldId).value, newId)
  {
    match KeyOf(account, session, db, table, oldId)
    case None => (false, st)
    case Some(ko) =>
      if newId <= 0 then (false, st)
      else if oldId == newId then (true, st)
      else MoveAt(st, ko, newId)
  }

  lemma MoveKeepsInv(st: Store, ko: Key, newId: int)
    requires Inv(st) && newId > 0
    ensures Inv(MoveAt(st, ko, newId).1)
  {
  }

  /** Moving a record and moving it back restores the store. */
  lemma MoveAndBack(st: Store, ko: Key, newId: int)
    requires MoveAt(st, ko, newId).0
    ensures MoveAt(MoveAt(st, ko, newId).1, ko.(localId := newId), ko.localId) == (true, st)
  {
    var kn := ko.(localId := newId);
    var moved := (st - {ko})[kn := st[ko]];
    assert kn.(localId := ko.localId) == ko;
    assert (moved - {kn})[ko := moved[kn]] == st;
  }

  /** The key a `(account, session, message id)` request names. */
  function RequestKey(account: string, session: string, messageId: string): (r: Option<Key>)
    ensures r.Some? ==> KeyNormal(r.value)
    ensures r.Some? ==> MessageId.Parse(messageId).Ok?
  {
    if !NonBlank(account) || !NonBlank(session) || messageId == "" then None
    else
      match MessageId.Parse(messageId)
      case Err(_) => None
      case Ok(m) =>
        StripIsStripped(account);
        StripIsStripped(session);
        StripIsStripped(m.db);
        StripIsStripped(m.table);
        Some(Key(Strip(account), Strip(session), m.db, m.table, m.localId))
  }

  datatype Edit = Edit(record: Record, messageId: string)

  /** `get_message_edit`: the record and its canonical message id. */
  function GetEdit(st: Store, account: string, session: string, messageId: string): (r: Option<Edit>)
    ensures r.Some? <==> RequestKey(account, session, messageId).Some? && RequestKey(account, session, messageId).value in st
    ensures r.Some? ==>
      var k := RequestKey(account, session, messageId).value;
      r.value.record == st[k] && MessageId.Parse(r.value.messageId) == Ok(MessageId.MessageId(k.db, k.table, k.localId))
  {
    match RequestKey(account, session, messageId)
    case None => None
    case Some(k) =>
      if k !in st then None
      else
        MessageId.ParseIsCanonical(messageId);
        Some(Edit(st[k], MessageId.Format(k.db, k.table, k.localId)))
  }

  /** `delete_message_edit`: true exactly when a record was removed. */
  function Delete(st: Store, account: string, session: string, messageId: string): (r: (bool, Store))
    ensures r.0 <==> RequestKey(account, session, messageId).Some? && RequestKey(account, session, messageId).value in st
    ensures r.1 == if r.0 then st - {RequestKey(account, session, messageId).value} else st
  {
    match RequestKey(account, session, messageId)
    case None => (false, st)
    case Some(k) => if k in st then (true, st - {k}) else (false, st)
  }

  lemma DeleteKeepsInv(st: Store, account: string, session: string, messageId: string)
    requires Inv(st)
    ensures Inv(Delete(st, account, session, messageId).1)
  {
  }

  /** Deleting twice removes once: the second call finds nothing. */
  lemma DeleteTwice(st: Store, account: string, session: string, messageId: string)
    ensures
      var once := Delete(st, account, session, messageId);
      Delete(once.1, account, session, messageId) == (false, once.1)
  {
  }

  /** The key a request names once the message id is parsed. */
  lemma RequestKeyOfFormat(account: string, session: string, db: string, table: string, localId: int)
    requires KeyOf(account, session, db, table, localId).Some?
    requires ':' !in db && ':' !in table
    ensures RequestKey(account, session, MessageId.Format(db, table, localId)) == KeyOf(account, session, db, table, localId)
  {
    MessageId.ParseFormat(db, table, localId);
  }

  /** An upserted record is found again under its formatted message id. */
  lemma UpsertThenGet(st: Store, account: string, session: string, db: string, table: string, localId: int,
                      msg: Value, resource: Option<Value>, ts: int)
    requires KeyOf(account, session, db, table, localId).Some?
    requires ':' !in db && ':' !in table
    ensures
      var k := KeyOf(account, session, db, table, localId).value;
      var st1 := UpsertAt(st, k, msg, resource, ts);
      GetEdit(st1, account, session, MessageId.Format(db, table, localId)) == Some(Edit(st1[k], MessageId.Format(k.db, k.table, k.localId)))
  {
    RequestKeyOfFormat(account, session, db, table, localId);
  }

  lemma KeyOfLocalId(account: string, session: string, db: string, table: string, oldId: int, newId: int)
    requires KeyOf(account, session, db, table, oldId).Some? && newId > 0
    ensures KeyOf(account, session, db, table, newId) == Some(KeyOf(account, session, db, table, oldId).value.(localId := newId))
  {
  }

  /** After a move the record is found under the new id and not the old. */
  lemma MoveThenGet(st: Store, account: string, session: string, db: string, table: string, oldId: int, newId: int)
    requires KeyOf(account, session, db, table, oldId).Some?
    requires ':' !in db && ':' !in table
    requires newId > 0 && MoveAt(st, KeyOf(account, session, db, table, oldId).value, newId).0
    ensures
      var moved := MoveAt(st, KeyOf(account, session, db, table, oldId).value, newId).1;
      && GetEdit(moved, account, session, MessageId.Format(db, table, oldId)).None?
      && GetEdit(moved, account, session, MessageId.Format(db, table, newId)).Some?
  {
    var ko := KeyOf(account, session, db, table, oldId).value;
    var kn := ko.(localId := newId);
    KeyOfLocalId(account, session, db, table, oldId, newId);
    RequestKeyOfFormat(account, session, db, table, oldId);
    RequestKeyOfFormat(account, session, db, table, newId);
    var moved := MoveAt(st, ko, newId).1;
    MovedKeys(st, ko, newId);
    GetOfKey(moved, account, session, MessageId.Format(db, table, oldId), ko);
    GetOfKey(moved, account, session, MessageId.Format(db, table, newId), kn);
  }

  /** A successful move drops the old key and holds the new one. */
  lemma MovedKeys(st: Store, ko: Key, newId: int)
    requires MoveAt(st, ko, newId).0
    ensures ko !in MoveAt(st, ko, newId).1 && ko.(localId := newId) in MoveAt(st, ko, newId).1
  {
  }

  /** A request that names key `k` finds a row exactly when `k` is in the
      table. */
  lemma GetOfKey(st: Store, account: string, session: string, messageId: string, k: Key)
    requires RequestKey(account, session, messageId) == Some(k)
    ensures GetEdit(st, account, session, messageId).Some? <==> k in st
  {
  }

  // ---------------------------------------------------------------------
  // list_sessions

  datatype SessionStat = SessionStat(session: string, msgCount: nat, lastEditedAt: int)

  /** The session values an account's rows carry. */
  function RawSessions(st: Store, a: string): set<string> {
    set k | k in st && k.account == a :: k.session
  }

  /** The rows `GROUP BY session_id` puts together. */
  function Group(st: Store, a: string, s: string): set<Key> {
    set k | k in st && k.account == a && k.session == s
  }

  /** The latest edit time among a non-empty set of rows. */
  ghost function LatestOf(st: Store, g: set<Key>): (m: int)
    requires g != {} && g <= st.Keys
    ensures exists k :: k in g && st[k].lastEditedAt == m
    ensures forall k :: k in g ==> st[k].lastEditedAt <= m
    decreases |g|
  {
    var k :| k in g;
    if g == {k} then st[k].lastEditedAt
    else
      var m := LatestOf(st, g - {k});
      if st[k].lastEditedAt >= m then st[k].lastEditedAt else m
  }

  /** The output entry of the group of session value `s`. */
  ghost function StatOf(st: Store, a: string, s: string): SessionStat
    requires s in RawSessions(st, a)
  {
    var g := Group(st, a, s);
    var k :| k in st && k.account == a && k.session == s;
    assert k in g;
    SessionStat(Strip(s), |g|, LatestOf(st, g))
  }

  predicate Descending(xs: seq<SessionStat>) {
    forall i, j :: 0 <= i < j < |xs| ==> xs[i].lastEditedAt >= xs[j].lastEditedAt
  }

  function InsertDescending(xs: seq<SessionStat>, x: SessionStat): (r: seq<SessionStat>)
    requires Descending(xs)
    ensures Descending(r) && |r| == |xs| + 1
    ensures forall y :: y in r <==> y in xs || y == x
  {
    if |xs| == 0 || x.lastEditedAt >= xs[0].lastEditedAt then [x] + xs
    else
      var rest := InsertDescending(xs[1..], x);
      assert forall y :: y in xs[1..] ==> y.lastEditedAt <= xs[0].lastEditedAt;
      [xs[0]] + rest
  }

  /** Count and latest edit time of one session group. */
  method GroupStat(st: Store, a: string, s: string) returns (stat: SessionStat)
    requires s in RawSessions(st, a)
    ensures stat == StatOf(st, a, s)
    ensures stat.msgCount >= 1
  {
    var g := Group(st, a, s);
    var k0 :| k0 in st && k0.account == a && k0.session == s;
    var latest := st[k0].lastEditedAt;
    ghost var top := k0;
    var seen := {k0};
    var rest := g - {k0};
    while rest != {}
      invariant seen + rest == g && seen !! rest
      invariant top in seen && st[top].lastEditedAt == latest
      invariant forall k :: k in seen ==> st[k].lastEditedAt <= latest
      decreases |rest|
    {
      var k :| k in rest;
      if st[k].lastEditedAt > latest {
        latest := st[k].lastEditedAt;
        top := k;
      }
      MoveOne(seen, rest, k);
      seen := seen + {k};
      rest := rest - {k};
    }
    LatestIsMax(st, g, top);
    stat := SessionStat(Strip(s), |g|, latest);
  }

  /** A row of the group whose time bounds all others holds the latest
      time. */
  lemma LatestIsMax(st: Store, g: set<Key>, top: Key)
    requires g <= st.Keys && top in g
    requires forall k :: k in g ==> st[k].lastEditedAt <= st[top].lastEditedAt
    ensures LatestOf(st, g) == st[top].lastEditedAt
  {
  }

  /** The session values of account `a` whose stripped name is not blank. */
  function Named(st: Store, a: string): (r: set<string>)
    ensures r <= RawSessions(st, a)
  {
    set s | s in RawSessions(st, a) && Strip(s) != ""
  }

  /** Every entry is the entry of a named group in `done`. */
  ghost predicate Sound(out: seq<SessionStat>, st: Store, a: string, done: set<string>)
    requires done <= RawSessions(st, a)
  {
    forall t :: t in out ==> exists s :: s in done && Strip(s) != "" && t == StatOf(st, a, s)
  }

  /** Every named group in `done` has its entry. */
  ghost predicate Complete(out: seq<SessionStat>, st: Store, a: string, done: set<string>)
    requires done <= RawSessions(st, a)
  {
    forall s :: s in done && Strip(s) != "" ==> StatOf(st, a, s) in out
  }

  lemma ListStep(out: seq<SessionStat>, st: Store, a: string, done: set<string>, s: string)
    requires done <= RawSessions(st, a) && s in RawSessions(st, a)
    requires Descending(out) && Sound(out, st, a, done) && Complete(out, st, a, done)
    requires Strip(s) != ""
    ensures Sound(InsertDescending(out, StatOf(st, a, s)), st, a, done + {s})
    ensures Complete(InsertDescending(out, StatOf(st, a, s)), st, a, done + {s})
  {
    var r := InsertDescending(out, StatOf(st, a, s));
    forall t | t in r ensures exists s' :: s' in done + {s} && Strip(s') != "" && t == StatOf(st, a, s') {
      if t != StatOf(st, a, s) {
        var s' :| s' in done && Strip(s') != "" && t == StatOf(st, a, s');
      }
    }
  }

  /** `list_sessions`: one entry per session value with a non-blank name,
      latest first; the order of entries with equal times is left open. */
  method ListSessions(st: Store, account: string) returns (out: seq<SessionStat>)
    ensures Strip(account) == "" ==> out == []
    ensures Descending(out)
    ensures forall t :: t in out ==> t.session != "" && t.msgCount >= 1
    ensures Strip(account) != "" ==>
      && Sound(out, st, Strip(account), RawSessions(st, Strip(account)))
      && Complete(out, st, Strip(account), RawSessions(st, Strip(account)))
      && |out| == |Named(st, Strip(account))|
  {
    var a := Strip(account);
    if a == "" {
      return [];
    }
    out := CollectStats(st, a);
  }

  /** The entries of all named session groups of account `a`. */
  method CollectStats(st: Store, a: string) returns (out: seq<SessionStat>)
    ensures Descending(out)
    ensures forall t :: t in out ==> t.session != "" && t.msgCount >= 1
    ensures Sound(out, st, a, RawSessions(st, a)) && Complete(out, st, a, RawSessions(st, a))
    ensures |out| == |Named(st, a)|
  {
    out := [];
    var todo := Named(st, a);
    ghost var done: set<string> := {};
    while todo != {}
      invariant done + todo == Named(st, a) && done !! todo
      invariant Collected(st, a, out, done)
      decreases |todo|
    {
      var s :| s in todo;
      out := AddSession(st, a, out, done, s);
      MoveOne(done, todo, s);
      todo := todo - {s};
      done := done + {s};
    }
    CollectDone(st, a, out);
  }

  /** The loop's state: `out` holds the entries of exactly the groups in
      `done`, latest first. */
  ghost predicate Collected(st: Store, a: string, out: seq<SessionStat>, done: set<string>) {
    && done <= RawSessions(st, a)
    && |out| == |done|
    && Descending(out) && Sound(out, st, a, done) && Complete(out, st, a, done)
  }

  /** One step of the grouping loop: the entry of session value `s` joins
      the entries of `done`, keeping them latest first. */
  method AddSession(st: Store, a: string, out: seq<SessionStat>, ghost done: set<string>, s: string)
    returns (next: seq<SessionStat>)
    requires Collected(st, a, out, done)
    requires s in Named(st, a) && s !in done
    ensures Collected(st, a, next, done + {s})
  {
    var stat := GroupStat(st, a, s);
    ListStep(out, st, a, done, s);
    next := InsertDescending(out, stat);
    AddFresh(done, s);
  }

  lemma MoveOne<T>(done: set<T>, todo: set<T>, x: T)
    requires x in todo && done !! todo
    ensures (done + {x}) + (todo - {x}) == done + todo && (done + {x}) !! (todo - {x})
  {
  }

  lemma AddFresh(xs: set<string>, x: string)
    requires x !in xs
    ensures |xs + {x}| == |xs| + 1
  {
  }

  /** Once every named group is done, the entries cover all session
      values: the blank ones have no entry to miss. */
  lemma CollectDone(st: Store, a: string, out: seq<SessionStat>)
    requires Sound(out, st, a, Named(st, a)) && Complete(out, st, a, Named(st, a))
    ensures forall t :: t in out ==> t.session != "" && t.msgCount >= 1
    ensures Sound(out, st, a, RawSessions(st, a)) && Complete(out, st, a, RawSessions(st, a))
  {
    forall t | t in out ensures t.session != "" && t.msgCount >= 1 {
      var s :| s in Named(st, a) && Strip(s) != "" && t == StatOf(st, a, s);
      StatOfNamed(st, a, s);
    }
  }

  /** The entry of a named group carries its name and at least one row. */
  lemma StatOfNamed(st: Store, a: string, s: string)
    requires s in RawSessions(st, a) && Strip(s) != ""
    ensures StatOf(st, a, s).session != "" && StatOf(st, a, s).msgCount >= 1
  {
    var k :| k in st && k.account == a && k.session == s;
    assert k in Group(st, a, s);
  }
}
