/**
 * The vocabulary store: an in-memory cache `wordData` (id -> word, definition,
 * note) kept beside a durable table `vocabulary` with an AUTOINCREMENT primary key.
 *
 * The durable table is modelled as a value: its rows in insertion order and the
 * AUTOINCREMENT counter `nextId` (one more than the largest id ever issued; an
 * id is never handed out twice, not even after a DELETE). A transaction that is
 * rolled back restores both. A failing statement or commit is a boolean
 * parameter of the operation that can fail.
 */
module VocabDb {

  datatype Option<T> = None | Some(value: T)

  /** What the cache holds for one id: the `{word, definition, note}` dictionary. */
  datatype Entry = Entry(word: string, definition: string, note: string)

  /** One row of the `vocabulary` table. */
  datatype Row = Row(id: int, entry: Entry)

  /** The durable table: rows in insertion (= rowid) order and the AUTOINCREMENT counter. */
  datatype Table = Table(rows: seq<Row>, nextId: int)

  /** The whole store: the table, the cache and the cache's key order (Python dicts keep insertion order). */
  datatype Store = Store(table: Table, wordData: map<int, Entry>, keyOrder: seq<int>)

  /** A table as AUTOINCREMENT leaves it: ids positive, increasing in row order, all below the counter. */
  predicate WellFormed(t: Table)
  {
    && 1 <= t.nextId
    && (forall i :: 0 <= i < |t.rows| ==> 1 <= t.rows[i].id < t.nextId)
    && (forall i, j :: 0 <= i < j < |t.rows| ==> t.rows[i].id < t.rows[j].id)
  }

  predicate Distinct(s: seq<int>)
  {
    forall i, j :: 0 <= i < j < |s| ==> s[i] != s[j]
  }

  function Ids(rows: seq<Row>): seq<int>
  {
    seq(|rows|, i requires 0 <= i < |rows| => rows[i].id)
  }

  function Entries(rows: seq<Row>): seq<Entry>
  {
    seq(|rows|, i requires 0 <= i < |rows| => rows[i].entry)
  }

  /**
   * The store invariant: a well-formed table; the key order lists cache keys
   * without repetition and as many as the cache has (so every key exactly once,
   * see KeysListed); every cache key is an id the counter has already issued.
   */
  ghost predicate Consistent(s: Store)
  {
    && WellFormed(s.table)
    && Distinct(s.keyOrder)
    && (forall i :: 0 <= i < |s.keyOrder| ==> s.keyOrder[i] in s.wordData)
    && |s.keyOrder| == |s.wordData|
    && (forall k :: k in s.wordData ==> 1 <= k < s.table.nextId)
  }

  // ---------------------------------------------------------------------------
  // Construction: CREATE TABLE IF NOT EXISTS, then load every row into the cache
  // ---------------------------------------------------------------------------

  /**
   * `CREATE TABLE IF NOT EXISTS`: an existing table (Some) is kept as it is, a
   * missing one (None) is created empty with the counter at its start.
   */
  function CreateTable(stored: Option<Table>): (t: Table)
    requires stored.Some? ==> WellFormed(stored.value)
    ensures WellFormed(t)
    ensures stored.Some? ==> t == stored.value
    ensures stored.None? ==> t.rows == []
  {
    match stored
    case None => Table([], 1)
    case Some(existing) => existing
  }

  /** The cache `create_table` builds: each row's id mapped to its entry. */
  function CacheOf(rows: seq<Row>): map<int, Entry>
  {
    if rows == [] then map[]
    else CacheOf(rows[..|rows| - 1])[rows[|rows| - 1].id := rows[|rows| - 1].entry]
  }

  /** The store right after construction over table `t`: the cache holds each row's entry under its id, in row order. */
  ghost function Loaded(t: Table): (s: Store)
    requires WellFormed(t)
    ensures s.table == t && s.keyOrder == Ids(t.rows)
    ensures forall i :: 0 <= i < |t.rows| ==> t.rows[i].id in s.wordData && s.wordData[t.rows[i].id] == t.rows[i].entry
  {
    CacheOfLookup(t.rows);
    Store(t, CacheOf(t.rows), Ids(t.rows))
  }

  /**
   * The loop of `create_table` over `SELECT * FROM vocabulary`: one dictionary
   * update per row, in row order.
   */
  method LoadWordData(rows: seq<Row>) returns (wordData: map<int, Entry>, keyOrder: seq<int>)
    requires forall i, j :: 0 <= i < j < |rows| ==> rows[i].id != rows[j].id
    ensures forall i :: 0 <= i < |rows| ==> rows[i].id in wordData && wordData[rows[i].id] == rows[i].entry
    ensures forall k :: k in wordData ==> exists i :: 0 <= i < |rows| && rows[i].id == k
    ensures keyOrder == Ids(rows)
  {
    wordData, keyOrder := map[], [];
    var n := 0;
    while n < |rows|
      invariant 0 <= n <= |rows|
      invariant forall i :: 0 <= i < n ==> rows[i].id in wordData && wordData[rows[i].id] == rows[i].entry
      invariant forall k :: k in wordData ==> exists i :: 0 <= i < n && rows[i].id == k
      invariant keyOrder == Ids(rows[..n])
    {
      var row := rows[n];
      // every id is new here, so the dictionary appends it to its key order
      wordData := wordData[row.id := row.entry];
      keyOrder := keyOrder + [row.id];
      n := n + 1;
    }
  }

  /** Cardinality of a repetition-free sequence's elements. */
  lemma {:induction false} DistinctCard(s: seq<int>)
    requires Distinct(s)
    ensures |set k | k in s| == |s|
  {
    if s != [] {
      var last := s[|s| - 1];
      var init := s[..|s| - 1];
      DistinctCard(init);
      assert (set k | k in s) == (set k | k in init) + {last};
      assert last !in (set k | k in init);
    }
  }

  /** A subset as large as its superset is the superset. */
  lemma SubsetCard(a: set<int>, b: set<int>)
    requires a <= b && |a| == |b|
    ensures a == b
  {
    assert b == a + (b - a);
    assert a * (b - a) == {};
    assert |b - a| == 0;
  }

  /** In a consistent store every cache key appears in the key order. */
  lemma KeysListed(s: Store)
    requires Consistent(s)
    ensures forall k :: k in s.wordData <==> k in s.keyOrder
  {
    var listed := set k | k in s.keyOrder;
    DistinctCard(s.keyOrder);
    forall k | k in listed ensures k in s.wordData {
      var i :| 0 <= i < |s.keyOrder| && s.keyOrder[i] == k;
    }
    SubsetCard(listed, s.wordData.Keys);
  }

  /**
   * After construction the cache has exactly one key per table row, each key
   * holding that row's entry, and the store invariant holds.
   */
  lemma LoadedConsistent(t: Table)
    requires WellFormed(t)
    ensures Consistent(Loaded(t))
    ensures |Loaded(t).wordData| == |t.rows|
    ensures forall i :: 0 <= i < |t.rows| ==>
      t.rows[i].id in Loaded(t).wordData && Loaded(t).wordData[t.rows[i].id] == t.rows[i].entry
  {
    var s := Loaded(t);
    CacheOfLookup(t.rows);
    assert Distinct(s.keyOrder);
    forall i | 0 <= i < |s.keyOrder| ensures s.keyOrder[i] in s.wordData {
      assert s.keyOrder[i] in Ids(t.rows);
    }
    var listed := set k | k in s.keyOrder;
    DistinctCard(s.keyOrder);
    forall k ensures k in listed <==> k in s.wordData {
      assert k in s.wordData <==> k in Ids(t.rows);
    }
    assert listed == s.wordData.Keys;
  }

  /** A map that holds every row's entry under its id and has no other key is `CacheOf` the rows. */
  lemma CacheOfUnique(rows: seq<Row>, m: map<int, Entry>)
    requires forall i, j :: 0 <= i < j < |rows| ==> rows[i].id != rows[j].id
    requires forall i :: 0 <= i < |rows| ==> rows[i].id in m && m[rows[i].id] == rows[i].entry
    requires forall k :: k in m ==> exists i :: 0 <= i < |rows| && rows[i].id == k
    ensures m == CacheOf(rows)
  {
    var c := CacheOf(rows);
    CacheOfLookup(rows);
    forall k ensures k in m <==> k in c {
      if k in c {
        var i :| 0 <= i < |rows| && Ids(rows)[i] == k;
        assert rows[i].id in m;
      }
      if k in m {
        var i :| 0 <= i < |rows| && rows[i].id == k;
        assert Ids(rows)[i] == k;
      }
    }
    forall k | k in m ensures m[k] == c[k] {
      var i :| 0 <= i < |rows| && rows[i].id == k;
    }
  }

  /** Which keys `CacheOf` has and what each holds. */
  lemma {:induction false} CacheOfLookup(rows: seq<Row>)
    requires forall i, j :: 0 <= i < j < |rows| ==> rows[i].id != rows[j].id
    ensures forall k :: k in CacheOf(rows) <==> k in Ids(rows)
    ensures forall i :: 0 <= i < |rows| ==> rows[i].id in CacheOf(rows) && CacheOf(rows)[rows[i].id] == rows[i].entry
  {
    if rows != [] {
      var init, last := rows[..|rows| - 1], rows[|rows| - 1];
      CacheOfLookup(init);
      assert Ids(rows) == Ids(init) + [last.id];
      forall i | 0 <= i < |rows| ensures rows[i].id in CacheOf(rows) && CacheOf(rows)[rows[i].id] == rows[i].entry {
        if i < |rows| - 1 {
          assert init[i] == rows[i];
        }
      }
    }
  }

  // ---------------------------------------------------------------------------
  // Queries: check_word_exists and update_data
  // ---------------------------------------------------------------------------

  /** Some row's word equals `w` exactly (case-sensitive, no trimming). */
  ghost predicate HasWord(rows: seq<Row>, w: string)
  {
    exists i :: 0 <= i < |rows| && rows[i].entry.word == w
  }

  /** `SELECT ... WHERE word = ?` followed by `fetchone()`: the index of the first matching row. */
  function FirstMatch(rows: seq<Row>, w: string): (r: Option<nat>)
    ensures r.Some? ==> r.value < |rows| && rows[r.value].entry.word == w
    ensures r.Some? ==> forall j :: 0 <= j < r.value ==> rows[j].entry.word != w
    ensures r.None? ==> forall j :: 0 <= j < |rows| ==> rows[j].entry.word != w
  {
    if rows == [] then None
    else if rows[0].entry.word == w then Some(0)
    else match FirstMatch(rows[1..], w)
      case None => None
      case Some(i) => Some(i + 1)
  }

  /** The id `update_data` returns: that of the first row, in table order, whose word is `w`. */
  function ResolveId(rows: seq<Row>, w: string): (id: int)
    requires exists i :: 0 <= i < |rows| && rows[i].entry.word == w
    ensures exists i :: 0 <= i < |rows| && rows[i].id == id && rows[i].entry.word == w
                        && forall j :: 0 <= j < i ==> rows[j].entry.word != w
  {
    rows[FirstMatch(rows, w).value].id
  }

  /** On a well-formed table the first match is also the match with the lowest id. */
  lemma ResolveIdIsLowest(t: Table, w: string)
    requires WellFormed(t)
    requires exists i :: 0 <= i < |t.rows| && t.rows[i].entry.word == w
    ensures forall j :: 0 <= j < |t.rows| && t.rows[j].entry.word == w ==> ResolveId(t.rows, w) <= t.rows[j].id
    ensures 1 <= ResolveId(t.rows, w) < t.nextId
  {
    var k := FirstMatch(t.rows, w).value;
    forall j | 0 <= j < |t.rows| && t.rows[j].entry.word == w
      ensures t.rows[k].id <= t.rows[j].id
    {
      assert k <= j;
    }
  }

  // ---------------------------------------------------------------------------
  // Insert: add_new_word
  // ---------------------------------------------------------------------------

  /** `INSERT INTO vocabulary ...`: a new row under the counter's value, which then moves on. */
  function Inserted(t: Table, e: Entry): (r: Table)
    ensures |r.rows| == |t.rows| + 1 && r.rows[..|t.rows|] == t.rows
    ensures r.rows[|t.rows|] == Row(t.nextId, e) && t.nextId < r.nextId
    ensures WellFormed(t) ==> WellFormed(r)
  {
    Table(t.rows + [Row(t.nextId, e)], t.nextId + 1)
  }

  /**
   * Python's `word_data[k] = e` on the cache: the slot is written; an existing
   * key keeps its place in the dictionary's order, a new key goes last.
   */
  function SetItem(s: Store, k: int, e: Entry): (r: Store)
    ensures r.table == s.table
    ensures r.wordData.Keys == s.wordData.Keys + {k} && r.wordData[k] == e
    ensures r.wordData - {k} == s.wordData - {k}
    ensures |r.keyOrder| == |s.keyOrder| + (if k in s.wordData then 0 else 1)
    ensures r.keyOrder[..|s.keyOrder|] == s.keyOrder
  {
    s.(wordData := s.wordData[k := e], keyOrder := if k in s.wordData then s.keyOrder else s.keyOrder + [k])
  }

  /**
   * Writing the cache slot of an id the table has issued keeps the store
   * invariant; an existing key keeps its place and the cache its size, a key
   * the cache lacks is added at the end; no other slot changes.
   */
  lemma SetItemConsistent(s: Store, id: int, e: Entry)
    requires Consistent(s)
    requires 1 <= id < s.table.nextId
    ensures Consistent(SetItem(s, id, e))
    ensures SetItem(s, id, e).wordData[id] == e
    ensures SetItem(s, id, e).wordData.Keys == s.wordData.Keys + {id}
    ensures forall k :: k in s.wordData && k != id ==> SetItem(s, id, e).wordData[k] == s.wordData[k]
    ensures id in s.wordData ==> SetItem(s, id, e).keyOrder == s.keyOrder
    ensures id in s.wordData ==> |SetItem(s, id, e).wordData| == |s.wordData|
    ensures id !in s.wordData ==> SetItem(s, id, e).keyOrder == s.keyOrder + [id]
    ensures id !in s.wordData ==> |SetItem(s, id, e).wordData| == |s.wordData| + 1
  {
    var s' := SetItem(s, id, e);
    if id !in s.wordData {
      assert Distinct(s'.keyOrder);
    }
  }

  /** A successful `add_new_word`: the row is committed, then the cache gets the new id. */
  function AddNew(s: Store, e: Entry): (r: Store)
    ensures |r.table.rows| == |s.table.rows| + 1 && r.table.rows[..|s.table.rows|] == s.table.rows
    ensures r.table.rows[|s.table.rows|] == Row(s.table.nextId, e) && s.table.nextId < r.table.nextId
    ensures WellFormed(s.table) ==> WellFormed(r.table)
    ensures r.wordData.Keys == s.wordData.Keys + {s.table.nextId} && r.wordData[s.table.nextId] == e
    ensures r.wordData - {s.table.nextId} == s.wordData - {s.table.nextId}
  {
    SetItem(s.(table := Inserted(s.table, e)), s.table.nextId, e)
  }

  /**
   * A successful insert appends exactly one row with a fresh id (above every id
   * in the table and every cache key), writes that id's entry into the cache and
   * leaves every other cache key and value as it was; later ids are all larger.
   */
  lemma AddNewFresh(s: Store, e: Entry)
    requires Consistent(s)
    ensures var s', id := AddNew(s, e), s.table.nextId;
      && Consistent(s')
      && s'.table.rows == s.table.rows + [Row(id, e)]
      && (forall i :: 0 <= i < |s.table.rows| ==> s.table.rows[i].id < id)
      && id !in s.wordData
      && s'.wordData.Keys == s.wordData.Keys + {id}
      && s'.wordData[id] == e
      && (forall k :: k in s.wordData ==> s'.wordData[k] == s.wordData[k])
      && |s'.wordData| == |s.wordData| + 1
      && s'.keyOrder == s.keyOrder + [id]
      && id < s'.table.nextId
  {
    var id := s.table.nextId;
    var s' := AddNew(s, e);
    assert Distinct(s'.keyOrder) by {
      assert s'.keyOrder == s.keyOrder + [id];
    }
  }

  /**
   * Write-through: a store constructed afresh over the table a successful insert
   * left behind loads the inserted entry under the new id.
   */
  lemma ReloadSeesInsert(s: Store, e: Entry)
    requires Consistent(s)
    ensures WellFormed(AddNew(s, e).table)
    ensures var r := Loaded(AddNew(s, e).table).wordData;
      s.table.nextId in r && r[s.table.nextId] == e
  {
    AddNewFresh(s, e);
    var t := AddNew(s, e).table;
    LoadedConsistent(t);
    assert t.rows[|t.rows| - 1] == Row(s.table.nextId, e);
  }

  // ---------------------------------------------------------------------------
  // Bulk save: save_data
  // ---------------------------------------------------------------------------

  /** The cache's entries in its key order (`word_data.items()`). */
  function ValuesInOrder(order: seq<int>, m: map<int, Entry>): (es: seq<Entry>)
    requires forall i :: 0 <= i < |order| ==> order[i] in m
    ensures |es| == |order|
    ensures forall i :: 0 <= i < |order| ==> es[i] == m[order[i]]
  {
    if order == [] then [] else [m[order[0]]] + ValuesInOrder(order[1..], m)
  }

  /** Rows inserted one after another from counter value `start`. */
  function Renumbered(start: int, es: seq<Entry>): seq<Row>
  {
    seq(|es|, i requires 0 <= i < |es| => Row(start + i, es[i]))
  }

  /**
   * A successful `save_data`: `DELETE FROM vocabulary`, then one INSERT per
   * cache entry in the cache's order. The counter is not reset by the DELETE,
   * so the rows get new ids; the cache itself is left untouched.
   */
  function Save(s: Store): (r: Store)
    requires forall i :: 0 <= i < |s.keyOrder| ==> s.keyOrder[i] in s.wordData
    ensures r.wordData == s.wordData && r.keyOrder == s.keyOrder
    ensures |r.table.rows| == |s.keyOrder|
    ensures Entries(r.table.rows) == ValuesInOrder(s.keyOrder, s.wordData)
    ensures r.table.nextId == s.table.nextId + |s.keyOrder|
    ensures WellFormed(s.table) ==> WellFormed(r.table)
  {
    var es := ValuesInOrder(s.keyOrder, s.wordData);
    s.(table := Table(Renumbered(s.table.nextId, es), s.table.nextId + |es|))
  }

  /** Each entry occurs in the listed values as often as keys in the list carry it. */
  lemma {:induction false} CountInOrder(order: seq<int>, m: map<int, Entry>, e: Entry)
    requires Distinct(order)
    requires forall i :: 0 <= i < |order| ==> order[i] in m
    ensures multiset(ValuesInOrder(order, m))[e] == |set k | k in order && m[k] == e|
  {
    if order != [] {
      var rest := order[1..];
      assert Distinct(rest) by {
        forall i, j | 0 <= i < j < |rest| ensures rest[i] != rest[j] {
          assert rest[i] == order[i + 1] && rest[j] == order[j + 1];
        }
      }
      CountInOrder(rest, m, e);
      ValuesHead(order, m, e);
      HoldersHead(order, m, e);
    }
  }

  /** Peeling the first key off the list of values. */
  lemma ValuesHead(order: seq<int>, m: map<int, Entry>, e: Entry)
    requires order != []
    requires forall i :: 0 <= i < |order| ==> order[i] in m
    ensures multiset(ValuesInOrder(order, m))[e]
         == (if m[order[0]] == e then 1 else 0) + multiset(ValuesInOrder(order[1..], m))[e]
  {
    var k, rest := order[0], order[1..];
    assert order == [k] + rest;
    assert ValuesInOrder(order, m) == [m[k]] + ValuesInOrder(rest, m);
    assert multiset(ValuesInOrder(order, m)) == multiset{m[k]} + multiset(ValuesInOrder(rest, m));
  }

  /** Peeling the first key off the set of listed keys that hold `e`. */
  lemma HoldersHead(order: seq<int>, m: map<int, Entry>, e: Entry)
    requires order != [] && Distinct(order)
    requires forall i :: 0 <= i < |order| ==> order[i] in m
    ensures |set x | x in order && m[x] == e|
         == (if m[order[0]] == e then 1 else 0) + |set x | x in order[1..] && m[x] == e|
  {
    var k, rest := order[0], order[1..];
    assert order == [k] + rest;
    var all := set x | x in order && m[x] == e;
    var tail := set x | x in rest && m[x] == e;
    assert k !in rest by {
      forall j | 0 <= j < |rest| ensures rest[j] != k {
        assert rest[j] == order[j + 1];
      }
    }
    if m[k] == e {
      assert all == tail + {k};
    } else {
      assert all == tail;
    }
  }

  /**
   * After a successful save the table holds exactly one row per cache entry, in
   * the cache's order, as many rows as cache keys; the cache and its order are
   * unchanged, and the store invariant still holds.
   */
  lemma SaveWritesCache(s: Store)
    requires Consistent(s)
    ensures Consistent(Save(s))
    ensures Save(s).wordData == s.wordData && Save(s).keyOrder == s.keyOrder
    ensures |Save(s).table.rows| == |s.wordData|
    ensures forall j :: 0 <= j < |s.keyOrder| ==> Save(s).table.rows[j].entry == s.wordData[s.keyOrder[j]]
  {
  }

  /**
   * Full replacement as multisets: each entry occurs in the saved table exactly
   * as many times as there are cache keys holding it.
   */
  lemma SaveReplacesFully(s: Store)
    requires Consistent(s)
    ensures forall e :: multiset(Entries(Save(s).table.rows))[e] == |set k | k in s.wordData && s.wordData[k] == e|
  {
    var rows := Save(s).table.rows;
    assert Entries(rows) == ValuesInOrder(s.keyOrder, s.wordData);
    forall e ensures multiset(Entries(rows))[e] == |set k | k in s.wordData && s.wordData[k] == e| {
      CountInOrder(s.keyOrder, s.wordData, e);
      HoldersListed(s, e);
    }
  }

  /** The listed keys holding `e` are all the cache keys holding `e`. */
  lemma HoldersListed(s: Store, e: Entry)
    requires Consistent(s)
    ensures (set k | k in s.keyOrder && s.wordData[k] == e) == (set k | k in s.wordData && s.wordData[k] == e)
  {
    KeysListed(s);
    var listed := set k | k in s.keyOrder && s.wordData[k] == e;
    var cached := set k | k in s.wordData && s.wordData[k] == e;
    forall k ensures k in listed <==> k in cached {
      assert k in s.wordData <==> k in s.keyOrder;
    }
  }

  /**
   * No earlier row survives a save: every re-inserted row's id is larger than
   * every id the table held before, and the counter only moves forward.
   */
  lemma SaveDropsOldRows(s: Store)
    requires Consistent(s)
    ensures forall i, j :: 0 <= i < |s.table.rows| && 0 <= j < |Save(s).table.rows| ==>
      s.table.rows[i].id < Save(s).table.rows[j].id
    ensures forall j :: 0 <= j < |Save(s).table.rows| ==> s.table.nextId <= Save(s).table.rows[j].id
    ensures s.table.nextId <= Save(s).table.nextId
  {
  }

  /**
   * The re-keying quirk: a save re-inserts rows under fresh ids but keeps the
   * cache's keys, so afterwards no cache key is the id of any table row.
   */
  lemma SaveRekeysCache(s: Store)
    requires Consistent(s)
    ensures forall j :: 0 <= j < |Save(s).table.rows| ==> Save(s).table.rows[j].id !in Save(s).wordData
  {
    var rows := Save(s).table.rows;
    forall j | 0 <= j < |rows| ensures rows[j].id !in s.wordData {
      assert rows[j].id >= s.table.nextId;
    }
  }

  // ---------------------------------------------------------------------------
  // The store object
  // ---------------------------------------------------------------------------

  /** The store object of `db.py`: the connection's table and the cache dictionary. */
  class VocabularyDatabase {
    var table: Table
    var wordData: map<int, Entry>
    var keyOrder: seq<int>

    ghost function State(): Store
      reads this
    {
      Store(table, wordData, keyOrder)
    }

    ghost predicate Valid()
      reads this
    {
      Consistent(State())
    }

    /** Opens the store over `stored` (None: no table yet), creating the table if needed and loading the cache. */
    constructor (stored: Option<Table>)
      requires stored.Some? ==> WellFormed(stored.value)
      ensures Valid()
      ensures State() == Loaded(CreateTable(stored))
    {
      var t := CreateTable(stored);
      var cache, order := LoadWordData(t.rows);
      table, wordData, keyOrder := t, cache, order;
      new;
      CacheOfUnique(t.rows, wordData);
      LoadedConsistent(t);
    }

    /** `check_word_exists`: asks the table, not the cache. */
    method CheckWordExists(word: string) returns (found: bool)
      ensures found <==> exists i :: 0 <= i < |table.rows| && table.rows[i].entry.word == word
    {
      found := FirstMatch(table.rows, word).Some?;
    }

    /**
     * `add_new_word`: INSERT, take the new row id, commit, then write the cache.
     * `fails` stands for an error from the INSERT or the commit: the transaction
     * is rolled back (the counter too) and the error propagates (`ok` false).
     */
    method AddNewWord(word: string, definition: string, note: string, fails: bool) returns (ok: bool)
      requires Valid()
      modifies this
      ensures Valid()
      ensures ok == !fails
      ensures ok ==> State() == AddNew(old(State()), Entry(word, definition, note))
      ensures !ok ==> State() == old(State())
    {
      var e := Entry(word, definition, note);
      var before := table;
      table := Inserted(table, e);
      var newId := before.nextId;
      if fails {
        table := before;
        return false;
      }
      wordData, keyOrder := wordData[newId := e], if newId in wordData then keyOrder else keyOrder + [newId];
      ok := true;
      AddNewFresh(old(State()), e);
    }

    /**
     * `save_data`: inside one transaction, delete every row, then insert one row
     * per cache entry in the cache's order. `fails` stands for an error from any
     * of these statements or the commit: everything is rolled back.
     */
    method SaveData(fails: bool) returns (ok: bool)
      requires Valid()
      modifies this
      ensures Valid()
      ensures ok == !fails
      ensures ok ==> State() == Save(old(State()))
      ensures !ok ==> State() == old(State())
    {
      var before := table;
      var m, order := wordData, keyOrder;
      table := Table([], table.nextId);
      var i := 0;
      while i < |order|
        invariant 0 <= i <= |order|
        invariant wordData == m && keyOrder == order
        invariant forall k :: k in order ==> k in m
        invariant table.nextId == before.nextId + i
        invariant |table.rows| == i
        invariant forall j :: 0 <= j < i ==> table.rows[j] == Row(before.nextId + j, m[order[j]])
      {
        table := Inserted(table, m[order[i]]);
        i := i + 1;
      }
      if fails {
        table := before;
        return false;
      }
      ok := true;
      assert table == Save(old(State())).table;
      SaveWritesCache(old(State()));
    }

    /**
     * `update_data`: the id of the first row whose word is `word`. With no such
     * row `fetchone()` yields None and indexing it fails, hence the precondition.
     */
    method UpdateData(word: string) returns (id: int)
      requires exists i :: 0 <= i < |table.rows| && table.rows[i].entry.word == word
      ensures exists i :: 0 <= i < |table.rows| && table.rows[i].id == id && table.rows[i].entry.word == word
                          && forall j :: 0 <= j < i ==> table.rows[j].entry.word != word
      ensures id == ResolveId(table.rows, word)
    {
      id := table.rows[FirstMatch(table.rows, word).value].id;
    }
  }
}
