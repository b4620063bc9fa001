// The file-backed stores (pkg/clients/*_store.go): a map of records under a
// lock, rewritten to a file through a temporary file and a rename after each
// change. The users, groups, adapters and assignments stores share this code
// line for line; `Medium` holds what tells them apart.
module FileStore {
  import opened Common
  import opened ByteStrings
  import opened StorageCrypto

  // encoding/json on a list of records. `persisted` is what a record becomes
  // by going through JSON, which drops the fields marked "-".
  datatype Codec<!V> = Codec(encode: seq<V> -> Bytes, decode: Bytes -> Option<seq<V>>, persisted: V -> V)

  datatype Medium<!V> = Medium(codec: Codec<V>, id: V -> string, aead: Aead, crypto: Option<Key>)

  ghost predicate LawfulMedium<V(!new)>(m: Medium<V>) {
    && m.aead.Lawful()
    && (forall vs: seq<V> :: m.codec.decode(m.codec.encode(vs)) == Some(Each(m.codec.persisted, vs)))
    && (forall vs: seq<V> :: m.codec.encode(vs) != [] && m.codec.encode(vs)[0] == '[' as int)
    && (forall b: Bytes, v: V :: m.codec.decode(b).Some? && v in m.codec.decode(b).value ==> m.codec.persisted(v) == v)
    && (forall v: V :: m.id(m.codec.persisted(v)) == m.id(v))
  }

  function Each<V>(f: V -> V, vs: seq<V>): (r: seq<V>)
    ensures |r| == |vs|
  {
    seq(|vs|, i requires 0 <= i < |vs| => f(vs[i]))
  }

  // ---- Saving and loading as functions ----------------------------------

  // Every record sits under its own ID.
  ghost predicate KeyedById<V>(m: Medium<V>, records: map<string, V>) {
    forall k :: k in records ==> m.id(records[k]) == k
  }

  // Some order in which Go may range over the map.
  ghost predicate Enumerates<V>(order: seq<string>, records: map<string, V>) {
    && (forall k :: k in order <==> k in records)
    && (forall i, j :: 0 <= i < j < |order| ==> order[i] != order[j])
  }

  ghost function InOrder<V>(order: seq<string>, records: map<string, V>): (vs: seq<V>)
    requires forall k :: k in order ==> k in records
    ensures |vs| == |order|
  {
    seq(|order|, i requires 0 <= i < |order| => records[order[i]])
  }

  // What a file holding the map contains, for one order and one nonce.
  ghost function Content<V>(m: Medium<V>, order: seq<string>, nonce: Bytes, records: map<string, V>): Bytes
    requires Enumerates(order, records) && |nonce| == NONCE_SIZE
  {
    Encrypt(m.aead, m.crypto, nonce, m.codec.encode(InOrder(order, records)))
  }

  function InsertAll<V>(m: Medium<V>, vs: seq<V>): map<string, V> {
    if vs == [] then map[] else InsertAll(m, vs[..|vs| - 1])[m.id(vs[|vs| - 1]) := vs[|vs| - 1]]
  }

  // loadFromFile into an empty map.
  function Load<V>(m: Medium<V>, file: Option<Bytes>): Result<map<string, V>> {
    match file
    case None => Ok(map[])
    case Some(data) =>
      if data == [] then Ok(map[])
      else
        match Decrypt(m.aead, m.crypto, data)
        case Err(e) => Err(e)
        case Ok(plain) =>
          match m.codec.decode(plain)
          case None => Err("failed to parse file")
          case Some(vs) => Ok(InsertAll(m, vs))
  }

  // What a new process starts with: nothing, if the file cannot be read.
  function Recovered<V>(m: Medium<V>, file: Option<Bytes>): map<string, V> {
    match Load(m, file) case Ok(loaded) => loaded case Err(_) => map[]
  }

  // What is left of a map after a round through the file.
  ghost function Persisted<V>(m: Medium<V>, records: map<string, V>): map<string, V> {
    map k | k in records :: m.codec.persisted(records[k])
  }

  lemma {:induction false} InsertAllInOrder<V(!new)>(m: Medium<V>, order: seq<string>, records: map<string, V>)
    requires LawfulMedium(m) && KeyedById(m, records)
    requires forall k :: k in order ==> k in records
    requires forall i, j :: 0 <= i < j < |order| ==> order[i] != order[j]
    ensures InsertAll(m, Each(m.codec.persisted, InOrder(order, records))) ==
            map k | k in order :: m.codec.persisted(records[k])
  {
    if order != [] {
      var n := |order| - 1;
      InsertAllInOrder(m, order[..n], records);
      var vs := Each(m.codec.persisted, InOrder(order, records));
      assert vs[..n] == Each(m.codec.persisted, InOrder(order[..n], records));
      assert vs[n] == m.codec.persisted(records[order[n]]);
      assert forall k :: k in order <==> k in order[..n] || k == order[n];
    }
  }

  // The file holds the list's JSON, sealed if there is a key.
  ghost predicate Holds<V>(m: Medium<V>, nonce: Bytes, list: seq<V>, file: Option<Bytes>) {
    && file.Some?
    && match m.crypto
       case None => file.value == m.codec.encode(list)
       case Some(key) => Seals(m.aead, key, nonce, m.codec.encode(list), file.value)
  }

  // Loading a saved file gives the persisted map back, whatever order the
  // map was written in and whichever nonce sealed it, encrypted or not.
  lemma {:induction false} LoadOfContent<V(!new)>(m: Medium<V>, order: seq<string>, nonce: Bytes, records: map<string, V>)
    requires LawfulMedium(m) && KeyedById(m, records) && Enumerates(order, records) && |nonce| == NONCE_SIZE
    ensures Load(m, Some(Content(m, order, nonce, records))) == Ok(Persisted(m, records))
  {
    var plain := m.codec.encode(InOrder(order, records));
    InsertAllInOrder(m, order, records);
    if m.crypto.Some? {
      EnvelopeRoundTrip(m.aead, m.crypto.value, nonce, plain);
      EncryptNotEmpty(m.aead, m.crypto.value, nonce, plain);
    }
    assert (map k | k in order :: m.codec.persisted(records[k])) == Persisted(m, records);
  }

  lemma {:induction false} ContentHolds<V(!new)>(m: Medium<V>, order: seq<string>, nonce: Bytes, records: map<string, V>)
    requires m.aead.Lawful() && Enumerates(order, records) && |nonce| == NONCE_SIZE
    ensures Holds(m, nonce, InOrder(order, records), Some(Content(m, order, nonce, records)))
  {
    if m.crypto.Some? {
      EncryptSeals(m.aead, m.crypto.value, nonce, m.codec.encode(InOrder(order, records)));
    }
  }

  lemma {:induction false} EncryptNotEmpty(aead: Aead, key: Key, nonce: Bytes, data: Bytes)
    requires |nonce| == NONCE_SIZE
    ensures Encrypt(aead, Some(key), nonce, data) != []
  {
    var b := nonce + aead.seal(key, nonce, data);
    assert |b| >= 12;
  }

  // Turning encryption on keeps what was stored in plain text.
  lemma {:induction false} PlainFileStillLoads<V(!new)>(m: Medium<V>, order: seq<string>, records: map<string, V>)
    requires LawfulMedium(m) && KeyedById(m, records) && Enumerates(order, records)
    ensures Load(m, Some(m.codec.encode(InOrder(order, records)))) == Ok(Persisted(m, records))
  {
    InsertAllInOrder(m, order, records);
    PlainListKept(m.aead, m.crypto, m.codec.encode(InOrder(order, records)));
    assert (map k | k in order :: m.codec.persisted(records[k])) == Persisted(m, records);
  }

  // ---- The operations on the map: the in-memory stores ------------------

  datatype Outcome = Done | Exists | NotFound | NotSaved

  datatype Change<V> = Create(record: V) | Update(record: V) | Delete(id: string)

  // What the in-memory twin of a store does, and what it answers.
  function Apply<V>(m: Medium<V>, records: map<string, V>, c: Change<V>): (map<string, V>, Outcome) {
    match c
    case Create(v) => if m.id(v) in records then (records, Exists) else (records[m.id(v) := v], Done)
    case Update(v) => if m.id(v) in records then (records[m.id(v) := v], Done) else (records, NotFound)
    case Delete(id) => if id in records then (records - {id}, Done) else (records, NotFound)
  }

  lemma {:induction false} ApplyKeepsKeys<V>(m: Medium<V>, records: map<string, V>, c: Change<V>)
    requires KeyedById(m, records)
    ensures KeyedById(m, Apply(m, records, c).0)
  {
  }

  function IdOf<V>(m: Medium<V>, c: Change<V>): string {
    if c.Delete? then c.id else m.id(c.record)
  }

  // Changes of different records do not interfere: either order gives the
  // same map and the same answers.
  lemma {:induction false} ChangesCommute<V>(m: Medium<V>, records: map<string, V>, c: Change<V>, d: Change<V>)
    requires IdOf(m, c) != IdOf(m, d)
    ensures var (rc, ac) := Apply(m, records, c);
            var (rd, ad) := Apply(m, records, d);
            && Apply(m, rc, d) == (Apply(m, rd, c).0, ad)
            && Apply(m, rd, c).1 == ac
  {
    ApplyElsewhere(m, records, c, IdOf(m, d));
    ApplyElsewhere(m, records, d, IdOf(m, c));
    var rc, rd := Apply(m, records, c).0, Apply(m, records, d).0;
    ApplyElsewhere(m, rc, d, IdOf(m, c));
    ApplyElsewhere(m, rd, c, IdOf(m, d));
    var x, y := Apply(m, rc, d).0, Apply(m, rd, c).0;
    assert x.Keys == y.Keys;
    assert x == y;
  }

  lemma {:induction false} ApplyElsewhere<V>(m: Medium<V>, records: map<string, V>, c: Change<V>, k: string)
    requires k != IdOf(m, c)
    ensures var after := Apply(m, records, c).0;
            (k in after <==> k in records) && (k in records ==> after[k] == records[k])
  {
  }

  // For one record: creation succeeds exactly when update and deletion do
  // not, a second creation is refused, and deletion undoes creation.
  lemma {:induction false} CreateUpdateDelete<V>(m: Medium<V>, records: map<string, V>, v: V)
    ensures Apply(m, records, Create(v)).1 == Done <==> Apply(m, records, Update(v)).1 == NotFound
    ensures Apply(m, records, Create(v)).1 == Done <==> Apply(m, records, Delete(m.id(v))).1 == NotFound
    ensures Apply(m, Apply(m, records, Create(v)).0, Create(v)) == (Apply(m, records, Create(v)).0, Exists)
    ensures Apply(m, records, Create(v)).1 == Done ==>
              Apply(m, Apply(m, records, Create(v)).0, Delete(m.id(v))) == (records, Done)
    ensures forall c :: c in {Create(v), Update(v)} && Apply(m, records, c).1 == Done ==>
              m.id(v) in Apply(m, records, c).0 && Apply(m, records, c).0[m.id(v)] == v
    ensures m.id(v) !in Apply(m, records, Delete(m.id(v))).0
    ensures forall c: Change<V> :: Apply(m, records, c).1 != Done ==> Apply(m, records, c).0 == records
  {
    if m.id(v) !in records {
      assert records[m.id(v) := v] - {m.id(v)} == records;
    }
  }

  // The store object writes all the records of the map, in some order.
  ghost predicate Written<V>(m: Medium<V>, nonce: Bytes, records: map<string, V>, file: Option<Bytes>) {
    exists order :: Enumerates(order, records) && Holds(m, nonce, InOrder(order, records), file)
  }

  // ---- The store object -------------------------------------------------

  // Where a save may fail; a failed write leaves some bytes in the temporary
  // file.
  datatype Fault = NoFault | BeforeWrite | DuringWrite(partial: Bytes) | DuringRename

  class Disk {
    var file: Option<Bytes>
    var temp: Option<Bytes>

    constructor ()
      ensures file == None && temp == None
    {
      file, temp := None, None;
    }
  }

  class Store<!V(!new)> {
    const medium: Medium<V>
    const disk: Disk
    var records: map<string, V>

    ghost predicate Valid()
      reads this
    {
      LawfulMedium(medium) && KeyedById(medium, records)
    }

    // The file read back gives what the map amounts to once persisted.
    ghost predicate Synced()
      reads this, disk
    {
      Load(medium, disk.file) == Ok(Persisted(medium, records))
    }

    // A file that cannot be read is reported and the store starts empty.
    constructor (medium: Medium<V>, disk: Disk)
      requires LawfulMedium(medium)
      ensures Valid() && this.medium == medium && this.disk == disk
      ensures records == Recovered(medium, disk.file)
    {
      this.medium, this.disk := medium, disk;
      var loaded := Load(medium, disk.file);
      records := if loaded.Ok? then loaded.value else map[];
      new;
      RecoveredIsKeyed(medium, disk.file);
    }

    method SaveToFile(nonce: Bytes, fault: Fault) returns (saved: bool)
      requires Valid() && |nonce| == NONCE_SIZE
      modifies disk
      ensures saved <==> fault.NoFault?
      ensures saved ==> Synced() && disk.temp == None
      ensures saved ==> Written(medium, nonce, records, disk.file)
      ensures !saved ==> disk.file == old(disk.file)
    {
      if fault.BeforeWrite? {
        return false;
      }
      ghost var order: seq<string> := [];
      var list: seq<V> := [];
      var rest := records.Keys;
      while rest != {}
        invariant rest <= records.Keys
        invariant forall k :: k in order <==> k in records && k !in rest
        invariant forall i, j :: 0 <= i < j < |order| ==> order[i] != order[j]
        invariant forall k :: k in order ==> k in records
        invariant list == InOrder(order, records)
      {
        var k :| k in rest;
        list := list + [records[k]];
        order := order + [k];
        rest := rest - {k};
      }
      var data := Encrypt(medium.aead, medium.crypto, nonce, medium.codec.encode(list));
      if fault.DuringWrite? {
        disk.temp := Some(fault.partial);
        return false;
      }
      disk.temp := Some(data);
      if fault.DuringRename? {
        return false;
      }
      disk.file, disk.temp := disk.temp, None;
      assert data == Content(medium, order, nonce, records);
      LoadOfContent(medium, order, nonce, records);
      ContentHolds(medium, order, nonce, records);
      assert Holds(medium, nonce, InOrder(order, records), disk.file);
      return true;
    }

    method Create(record: V, nonce: Bytes, fault: Fault) returns (r: Outcome)
      requires Valid() && |nonce| == NONCE_SIZE
      modifies this, disk
      ensures Valid() && After(old(records), old(disk.file), Change.Create(record), nonce, fault, r)
    {
      if medium.id(record) in records {
        return Exists;
      }
      records := records[medium.id(record) := record];
      var saved := SaveToFile(nonce, fault);
      r := if saved then Done else NotSaved;
    }

    method Update(record: V, nonce: Bytes, fault: Fault) returns (r: Outcome)
      requires Valid() && |nonce| == NONCE_SIZE
      modifies this, disk
      ensures Valid() && After(old(records), old(disk.file), Change.Update(record), nonce, fault, r)
    {
      if medium.id(record) !in records {
        return NotFound;
      }
      records := records[medium.id(record) := record];
      var saved := SaveToFile(nonce, fault);
      r := if saved then Done else NotSaved;
    }

    method Delete(id: string, nonce: Bytes, fault: Fault) returns (r: Outcome)
      requires Valid() && |nonce| == NONCE_SIZE
      modifies this, disk
      ensures Valid() && After(old(records), old(disk.file), Change.Delete(id), nonce, fault, r)
    {
      if id !in records {
        return NotFound;
      }
      records := records - {id};
      var saved := SaveToFile(nonce, fault);
      r := if saved then Done else NotSaved;
    }

    // Despite its name it refuses an ID it already holds.
    method UpsertAsync(record: V, nonce: Bytes, fault: Fault) returns (r: Outcome)
      requires Valid() && |nonce| == NONCE_SIZE
      modifies this, disk
      ensures Valid() && After(old(records), old(disk.file), Change.Create(record), nonce, fault, r)
    {
      r := Create(record, nonce, fault);
    }

    // The map is always that of the in-memory twin. The file follows it when
    // the save succeeds; when it fails the file is as before, and the map is
    // not rolled back.
    ghost predicate After(was: map<string, V>, file: Option<Bytes>, c: Change<V>, nonce: Bytes, fault: Fault, r: Outcome)
      reads this, disk
    {
      var (now, answer) := Apply(medium, was, c);
      && records == now
      && r == (if answer.Done? && !fault.NoFault? then NotSaved else answer)
      && (r.Done? ==> Synced() && Written(medium, nonce, records, disk.file))
      && (!r.Done? ==> disk.file == file)
    }
  }

  lemma {:induction false} InsertAllIsKeyed<V>(m: Medium<V>, vs: seq<V>)
    ensures KeyedById(m, InsertAll(m, vs))
  {
    if vs != [] {
      InsertAllIsKeyed(m, vs[..|vs| - 1]);
    }
  }

  lemma {:induction false} RecoveredIsKeyed<V>(m: Medium<V>, file: Option<Bytes>)
    ensures KeyedById(m, Recovered(m, file))
  {
    if file.Some? && file.value != [] {
      var plain := Decrypt(m.aead, m.crypto, file.value);
      if plain.Ok? && m.codec.decode(plain.value).Some? {
        InsertAllIsKeyed(m, m.codec.decode(plain.value).value);
      }
    }
  }

  lemma {:induction false} InsertAllHolds<V>(m: Medium<V>, vs: seq<V>, k: string)
    requires k in InsertAll(m, vs)
    ensures InsertAll(m, vs)[k] in vs
  {
    if k in InsertAll(m, vs[..|vs| - 1]) {
      InsertAllHolds(m, vs[..|vs| - 1], k);
    }
  }

  // No file and an empty one load to nothing; any other fails to load
  // exactly when it cannot be decrypted or holds no list.
  lemma {:induction false} LoadFailsIff<V>(m: Medium<V>, data: Bytes)
    ensures Load(m, None) == Ok(map[]) && Load(m, Some([])) == Ok(map[])
    ensures Load(m, Some(data)).Err? <==>
            data != [] && (Decrypt(m.aead, m.crypto, data).Err? || m.codec.decode(Decrypt(m.aead, m.crypto, data).value).None?)
  {
  }

  // Of records with one ID in a file the last one is loaded, and nothing is
  // loaded that the file does not list.
  lemma {:induction false} LastOfEachID<V>(m: Medium<V>, vs: seq<V>, k: string)
    ensures k in InsertAll(m, vs) <==> exists i :: 0 <= i < |vs| && m.id(vs[i]) == k
    ensures forall i :: 0 <= i < |vs| && m.id(vs[i]) == k && (forall j :: i < j < |vs| ==> m.id(vs[j]) != k) ==>
              k in InsertAll(m, vs) && InsertAll(m, vs)[k] == vs[i]
  {
    if vs != [] {
      var n := |vs| - 1;
      LastOfEachID(m, vs[..n], k);
      assert forall i :: 0 <= i < n ==> vs[..n][i] == vs[i];
    }
  }

  // What has been loaded has nothing left to lose in the file.
  lemma {:induction false} RecoveredIsPersisted<V(!new)>(m: Medium<V>, file: Option<Bytes>)
    requires LawfulMedium(m)
    ensures Persisted(m, Recovered(m, file)) == Recovered(m, file)
  {
    var loaded := Recovered(m, file);
    forall k | k in loaded
      ensures m.codec.persisted(loaded[k]) == loaded[k]
    {
      var plain := Decrypt(m.aead, m.crypto, file.value).value;
      InsertAllHolds(m, m.codec.decode(plain).value, k);
    }
  }
}
