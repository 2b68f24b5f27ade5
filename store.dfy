/** The saved-connection store of pruebaVPS.py: the `connections` dictionary
    (name -> url, timestamp, last_used) and the `last_connection` key of the
    configuration document, with `save_connection` and the "touch on select"
    update of the interactive menu. */
module Store {
  import opened Wrappers

  /** One saved connection. `timestamp` and `lastUsed` are `time.time()` values. */
  datatype Record = Record(url: string, timestamp: real, lastUsed: real)

  /** The `connections` dictionary: its keys in insertion order (the order
      `list(connections.keys())` and `connections.items()` produce) and the
      record stored under each key. */
  datatype Table = Table(keys: seq<string>, entries: map<string, Record>)

  const EmptyTable: Table := Table([], map[])

  predicate Distinct(s: seq<string>) {
    forall i, j :: 0 <= i < j < |s| ==> s[i] != s[j]
  }

  /** Every key appears once in the order and has a record. */
  predicate WellFormed(t: Table) {
    && Distinct(t.keys)
    && (forall k :: k in t.keys ==> k in t.entries)
    && (forall k :: k in t.entries ==> k in t.keys)
  }

  /** `connections[name]`, with `None` where the subscript would fail: on a
      well-formed table a record is found exactly for the names in the key
      order. */
  function Lookup(t: Table, name: string): (r: Option<Record>)
    ensures WellFormed(t) ==> (r.Some? <==> name in t.keys)
    ensures r.Some? ==> name in t.entries && r.value == t.entries[name]
  {
    if name in t.entries then Some(t.entries[name]) else None
  }

  /** `connections[name] = rec`: a new key is appended to the order, an
      existing key keeps its place and has its record replaced. */
  function Upsert(t: Table, name: string, rec: Record): (r: Table)
    requires WellFormed(t)
    ensures WellFormed(r)
    ensures Lookup(r, name) == Some(rec)
    ensures forall n :: n != name ==> Lookup(r, n) == Lookup(t, n)
    ensures |r.keys| == |t.keys| + (if name in t.entries then 0 else 1)
    ensures r.keys[..|t.keys|] == t.keys
  {
    if name in t.entries then Table(t.keys, t.entries[name := rec])
    else
      var r := Table(t.keys + [name], t.entries[name := rec]);
      assert r.keys[..|t.keys|] == t.keys;
      r
  }

  /** `connections[name]['last_used'] = now` on a saved name. */
  function Touch(t: Table, name: string, now: real): (r: Table)
    requires WellFormed(t) && name in t.entries
    ensures WellFormed(r) && r.keys == t.keys
    ensures Lookup(r, name) == Some(Record(t.entries[name].url, t.entries[name].timestamp, now))
    ensures forall n :: n != name ==> Lookup(r, n) == Lookup(t, n)
  {
    Table(t.keys, t.entries[name := t.entries[name].(lastUsed := now)])
  }

  /** The saved connections in the order the menu numbers them. */
  function Listing(t: Table): (r: seq<(string, Record)>)
    requires WellFormed(t)
    ensures |r| == |t.keys|
    ensures forall i :: 0 <= i < |r| ==> r[i] == (t.keys[i], t.entries[t.keys[i]])
  {
    seq(|t.keys|, i requires 0 <= i < |t.keys| => (t.keys[i], t.entries[t.keys[i]]))
  }

  /** `conn_list[number - 1]`, guarded by `0 <= number - 1 < len(conn_list)`. */
  function Pick(t: Table, number: int): (r: Option<string>)
    requires WellFormed(t)
    ensures r.Some? <==> 1 <= number <= |t.keys|
    ensures r.Some? ==> r.value in t.entries
    ensures r.Some? ==> r.value == t.keys[number - 1]
  {
    var idx := number - 1;
    if 0 <= idx < |t.keys| then Some(t.keys[idx]) else None
  }

  /** The number printed in front of the `i`-th listed connection selects it. */
  lemma PickMatchesListing(t: Table, i: int)
    requires WellFormed(t) && 0 <= i < |t.keys|
    ensures Pick(t, i + 1) == Some(Listing(t)[i].0)
    ensures Listing(t)[i].1 == t.entries[Listing(t)[i].0]
  {
  }

  /** Every saved name is offered under exactly one number. */
  lemma PickNumbersEveryName(t: Table, name: string)
    requires WellFormed(t) && name in t.entries
    ensures exists number :: Pick(t, number) == Some(name)
    ensures forall m, n :: Pick(t, m) == Some(name) && Pick(t, n) == Some(name) ==> m == n
  {
    var i :| 0 <= i < |t.keys| && t.keys[i] == name;
    assert Pick(t, i + 1) == Some(name);
  }

  /** Saving twice under one name leaves one entry holding the second URL;
      its `timestamp` is the second save's time, not the first's. */
  lemma SaveTwice(t: Table, name: string, url1: string, now1: real, url2: string, now2: real)
    requires WellFormed(t)
    ensures Upsert(Upsert(t, name, Record(url1, now1, now1)), name, Record(url2, now2, now2))
         == Upsert(t, name, Record(url2, now2, now2))
    ensures Lookup(Upsert(Upsert(t, name, Record(url1, now1, now1)), name, Record(url2, now2, now2)), name)
         == Some(Record(url2, now2, now2))
  {
    var once := Upsert(t, name, Record(url1, now1, now1));
    assert name in once.entries;
    if name !in t.entries {
      assert once.keys == t.keys + [name];
    }
    assert once.entries[name := Record(url2, now2, now2)] == t.entries[name := Record(url2, now2, now2)];
  }

  /** Saving into a table that has no entry for `name` adds exactly that one
      name, at the end of the numbering. */
  lemma SaveNewName(t: Table, name: string, rec: Record)
    requires WellFormed(t) && name !in t.entries
    ensures Upsert(t, name, rec).keys == t.keys + [name]
  {
  }

  /** Every record's `last_used` is not earlier than its `timestamp`. */
  predicate TimesOrdered(t: Table) {
    forall n :: n in t.entries ==> t.entries[n].timestamp <= t.entries[n].lastUsed
  }

  /** A save writes equal times, so it keeps the times ordered. */
  lemma SaveKeepsTimesOrdered(t: Table, name: string, url: string, now: real)
    requires WellFormed(t) && TimesOrdered(t)
    ensures TimesOrdered(Upsert(t, name, Record(url, now, now)))
  {
  }

  /** Touching keeps the times ordered as long as the clock has not gone back
      past the record's own `timestamp`. */
  lemma TouchKeepsTimesOrdered(t: Table, name: string, now: real)
    requires WellFormed(t) && TimesOrdered(t) && name in t.entries
    requires t.entries[name].timestamp <= now
    ensures TimesOrdered(Touch(t, name, now))
  {
  }

  /** The configuration document as `json.load` returns it: the
      `connections` and `last_connection` keys, each possibly absent. */
  datatype Document = Document(connections: Option<Table>, lastConnection: Option<string>)

  /** What the JSON format guarantees: dictionary keys are unique. */
  predicate ValidDocument(d: Document) {
    d.connections.Some? ==> WellFormed(d.connections.value)
  }

  /** `load_config`: the stored document, or `{}` when the file does not exist. */
  function Loaded(file: Option<Document>): (d: Document)
    ensures file.None? ==> d.connections.None? && d.lastConnection.None?
    ensures file.Some? ==> d == file.value
  {
    file.GetOr(Document(None, None))
  }

  /** `config.get("connections", {})`. */
  function ConnectionsOf(d: Document): (t: Table)
    ensures ValidDocument(d) ==> WellFormed(t)
    ensures d.connections.None? ==> t.keys == [] && t.entries == map[]
    ensures d.connections.Some? ==> t == d.connections.value
  {
    d.connections.GetOr(EmptyTable)
  }

  /** A missing file, or a document without `connections`, reads as an empty table. */
  lemma MissingConnectionsAreEmpty(file: Option<Document>)
    requires file.Some? ==> file.value.connections.None?
    ensures ConnectionsOf(Loaded(file)) == EmptyTable
    ensures Listing(ConnectionsOf(Loaded(file))) == []
    ensures forall n :: Pick(ConnectionsOf(Loaded(file)), n).None?
  {
  }

  /** The three outcomes of the "connect to saved session" branch. */
  datatype Selection = NoConnections | InvalidNumber | Selected(name: string, url: string)

  /** The configuration dictionary loaded into memory and updated in place. */
  class Config {
    var connections: Option<Table>
    var lastConnection: Option<string>

    ghost predicate Valid()
      reads this
    {
      ValidDocument(ToDocument())
    }

    /** The dictionary `save_config` writes out. */
    function ToDocument(): Document
      reads this
    {
      Document(connections, lastConnection)
    }

    /** `config.get("connections", {})`. */
    function Connections(): Table
      reads this
    {
      ConnectionsOf(ToDocument())
    }

    /** `config = self.load_config()`. */
    constructor Load(file: Option<Document>)
      requires file.Some? ==> ValidDocument(file.value)
      ensures Valid() && ToDocument() == Loaded(file)
    {
      var d := Loaded(file);
      connections := d.connections;
      lastConnection := d.lastConnection;
    }

    /** `save_connection(url, name)` at time `now`: the entry for `name` is
        written afresh (both times set to `now`), every other entry is kept,
        and `last_connection` becomes `name`. */
    method SaveConnection(url: string, name: string, now: real)
      requires Valid()
      modifies this
      ensures Valid()
      ensures connections == Some(Upsert(old(Connections()), name, Record(url, now, now)))
      ensures lastConnection == Some(name)
    {
      var table := Connections();
      var updated := Upsert(table, name, Record(url, now, now));
      connections := Some(updated);
      lastConnection := Some(name);
      assert ToDocument() == Document(Some(updated), Some(name));
    }

    /** The "connect to saved session" branch of `interactive_menu`, given the
        number typed: with no saved connections, or a number outside
        1..|keys|, nothing changes; otherwise only the chosen entry's
        `last_used` becomes `now`, and `last_connection` is left as it was. */
    method SelectSaved(number: int, now: real) returns (s: Selection)
      requires Valid()
      modifies this
      ensures Valid()
      ensures old(Connections()).keys == [] ==> s == NoConnections
      ensures old(Connections()).keys != [] && Pick(old(Connections()), number).None? ==> s == InvalidNumber
      ensures Pick(old(Connections()), number).Some? ==> s.Selected?
      ensures s.NoConnections? || s.InvalidNumber? ==> connections == old(connections)
      ensures s.Selected? ==>
                Pick(old(Connections()), number) == Some(s.name)
                && s.url == old(Connections()).entries[s.name].url
                && connections == Some(Touch(old(Connections()), s.name, now))
      ensures lastConnection == old(lastConnection)
    {
      var table := Connections();
      if table.keys == [] {
        return NoConnections;
      }
      var picked := Pick(table, number);
      if picked.None? {
        return InvalidNumber;
      }
      var name := picked.value;
      var url := table.entries[name].url;
      connections := Some(Touch(table, name, now));
      s := Selected(name, url);
    }
  }
}
