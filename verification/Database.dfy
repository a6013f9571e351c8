/** The key-value store: an index over a record store (src/database.cpp). */
module Database {
  import opened Basics
  import opened SlottedPage
  import opened KeyOrder
  import opened KeyText
  import opened DataAccessor
  import opened TreeInvariant
  import opened BPlusTree
  import opened TreeHeight
  import opened NodeOps
  import opened PageFile
  import opened DataFileManager
  import opened BlobStore
  import opened Commands

  type Stored = map<RecordID, Rec>

  /** The index entry c leads to a record whose key has this code. */
  ghost predicate EntryOk(contents: Contents, records: Stored, c: int)
    requires c in contents
  {
    contents[c] in records && Code(records[contents[c]].key) == c
  }

  /** A stored record is indexed, and is what the model says. */
  ghost predicate RecordOk(contents: Contents, records: Stored, model: Model, id: RecordID)
    requires id in records
  {
    var rec := records[id];
    && IsKey(rec.key) && ProcessKey(rec.key) == rec.key
    && Code(rec.key) in contents && contents[Code(rec.key)] == id
    && rec.key in model && model[rec.key] == rec.value
  }

  ghost predicate KeyOk(contents: Contents, records: Stored, k: Key) {
    IsKey(k) && Code(k) in contents && contents[Code(k)] in records && records[contents[Code(k)]].key == k
  }

  /** Index, record store and model agree: indexed ids are stored, stored records are indexed, and nothing else exists. */
  ghost predicate Joined(contents: Contents, records: Stored, model: Model) {
    && (forall c {:trigger EntryOk(contents, records, c)} :: c in contents ==> EntryOk(contents, records, c))
    && (forall id {:trigger RecordOk(contents, records, model, id)} :: id in records ==> RecordOk(contents, records, model, id))
    && (forall k {:trigger KeyOk(contents, records, k)} :: k in model ==> KeyOk(contents, records, k))
  }

  /** What the index and the record store say about a key. */
  lemma JoinedAt(contents: Contents, records: Stored, model: Model, k: Key)
    requires Joined(contents, records, model) && IsKey(k)
    ensures Code(k) in contents <==> k in model
    ensures k in model ==> contents[Code(k)] in records && records[contents[Code(k)]] == Rec(k, model[k])
                           && ProcessKey(k) == k
  {
    assert k in model ==> KeyOk(contents, records, k);
    if Code(k) in contents {
      assert EntryOk(contents, records, Code(k));
      var id := contents[Code(k)];
      assert RecordOk(contents, records, model, id);
      CodeInjective(records[id].key, k);
    }
  }

  /** Different keys have different records. */
  lemma DistinctRecords(contents: Contents, records: Stored, model: Model, k1: Key, k2: Key)
    requires Joined(contents, records, model) && k1 in model && k2 in model && k1 != k2
    ensures Code(k1) in contents && Code(k2) in contents && contents[Code(k1)] != contents[Code(k2)]
  {
    assert KeyOk(contents, records, k1) && KeyOk(contents, records, k2);
  }

  lemma JoinedAdd(contents: Contents, records: Stored, model: Model, k: Key, value: seq<Byte>, id: RecordID)
    requires Joined(contents, records, model) && IsKey(k) && ProcessKey(k) == k
    requires Code(k) !in contents && id !in records
    ensures Joined(contents[Code(k) := id], records[id := Rec(k, value)], model[k := value])
  {
    var contents', records', model' := contents[Code(k) := id], records[id := Rec(k, value)], model[k := value];
    forall c | c in contents' ensures EntryOk(contents', records', c) {
      assert c in contents ==> EntryOk(contents, records, c);
    }
    forall x | x in records' ensures RecordOk(contents', records', model', x) {
      assert x in records ==> RecordOk(contents, records, model, x);
    }
    forall h | h in model' ensures KeyOk(contents', records', h) {
      assert h in model ==> KeyOk(contents, records, h);
      if h != k { CodeInjective(h, k); }
    }
  }

  /** The record of a key, if it has one. */
  ghost function RecordsOf(contents: Contents, k: Key): set<RecordID> {
    if Code(k) in contents then {contents[Code(k)]} else {}
  }

  lemma JoinedDrop(contents: Contents, records: Stored, model: Model, k: Key)
    requires Joined(contents, records, model) && IsKey(k)
    ensures Code(k) in contents <==> k in model
    ensures Code(k) in contents ==> contents[Code(k)] in records
    ensures Joined(contents - {Code(k)}, records - RecordsOf(contents, k), model - {k})
  {
    JoinedAt(contents, records, model, k);
    var contents', records', model' := contents - {Code(k)}, records - RecordsOf(contents, k), model - {k};
    forall c | c in contents' ensures EntryOk(contents', records', c) {
      assert EntryOk(contents, records, c);
    }
    forall x | x in records' ensures RecordOk(contents', records', model', x) {
      assert RecordOk(contents, records, model, x);
      CodeInjective(records[x].key, k);
    }
    forall h | h in model' ensures KeyOk(contents', records', h) {
      assert KeyOk(contents, records, h);
      CodeInjective(h, k);
    }
  }

  class DataBase {
    const tree: BPlusTree
    const accessor: DataAccessor
    /** What a user sees: values by processed key. */
    ghost var model: Model

    ghost predicate Valid()
      reads this, tree, tree.file, accessor, accessor.files, accessor.blobStore, accessor.blobStore.file
    {
      && tree.Valid() && accessor.Valid()
      && Joined(tree.contents, accessor.store.records, model)
    }

    /** A new, empty store with its files. */
    constructor (leafMaxSize: nat, internalMaxSize: nat)
      requires leafMaxSize >= 2
      ensures Valid() && model == map[] && tree.contents == map[]
      ensures fresh(tree) && fresh(tree.file) && fresh(accessor) && fresh(accessor.files)
      ensures fresh(accessor.blobStore) && fresh(accessor.blobStore.file)
      ensures tree.file.Room() == accessor.blobStore.file.Room() == PAGE_LIMIT - 1
    {
      var indexFile := new PageFile<Node>();
      var blobFile := new PageFile<BlobPage>();
      var files := new DataFileManager();
      var blobStore := new BlobStore(blobFile);
      tree := new BPlusTree(indexFile, leafMaxSize, internalMaxSize);
      accessor := new DataAccessor(files, blobStore);
      model := map[];
    }

    /** Opens the store that another object left behind in its files. */
    constructor Reopen(closed: DataBase)
      requires closed.Valid()
      ensures Valid() && model == closed.model && tree.contents == closed.tree.contents
      ensures fresh(tree) && fresh(accessor) && fresh(accessor.blobStore)
      ensures tree.file == closed.tree.file && accessor.files == closed.accessor.files
      ensures accessor.blobStore.file == closed.accessor.blobStore.file
    {
      tree := new BPlusTree.Reopen(closed.tree);
      var blobStore := new BlobStore.Reopen(closed.accessor.blobStore);
      accessor := new DataAccessor.Reopen(closed.accessor, blobStore);
      model := closed.model;
    }

    /** An upper bound for the index pages that one insertion takes. */
    ghost function PagesForInsert(): nat
      reads tree
    {
      Log2(|tree.contents|) + 2
    }

    /** The value stored under a key. */
    method Get(key: Key) returns (key': Key, r: Option<seq<Byte>>)
      requires Valid() && IsBytes(key)
      ensures key' == ProcessKey(key)
      ensures r == if key' in model then Some(model[key']) else None
    {
      key' := ProcessKey(key);
      ProcessedKey(key);
      JoinedAt(tree.contents, accessor.store.records, model, key');
      var result := FindID(key');
      if result == None {
        return key', None;
      }
      Located(accessor.files.dataPages, accessor.store, result.value);
      r := accessor.GetRecordValue(key', result.value);
    }

    /** The record id that the index holds for a key. */
    method FindID(key: Key) returns (r: Option<RecordID>)
      requires tree.Valid() && IsKey(key)
      ensures r == if Code(key) in tree.contents then Some(tree.contents[Code(key)]) else None
    {
      CodeInSpace(key);
      r := tree.GetValue(Code(key));
    }

    method Exist(key: Key) returns (key': Key, r: bool)
      requires Valid() && IsBytes(key)
      ensures key' == ProcessKey(key) && (r <==> key' in model)
    {
      key' := ProcessKey(key);
      ProcessedKey(key);
      JoinedAt(tree.contents, accessor.store.records, model, key');
      var result := FindID(key');
      return key', result != None;
    }

    /** Removes a key with its value; true if there was one. */
    method Remove(key: Key) returns (key': Key, r: bool)
      requires Valid() && IsBytes(key)
      modifies this, tree, tree.file, accessor, accessor.files, accessor.blobStore, accessor.blobStore.file
      ensures Valid() && key' == ProcessKey(key) && (r <==> key' in old(model))
      ensures model == old(model) - {key'}
      ensures tree.file.Room() >= old(tree.file.Room())
      ensures |tree.contents| <= old(|tree.contents|)
      ensures accessor.blobStore.file.Room() >= old(accessor.blobStore.file.Room())
    {
      key' := ProcessKey(key);
      ProcessedKey(key);
      JoinedDrop(tree.contents, accessor.store.records, model, key');
      model := model - {key'};
      r := Unlink(key');
    }

    /** Removes the index entry of a key and the record it leads to. */
    method Unlink(key: Key) returns (r: bool)
      requires tree.Valid() && accessor.Valid() && IsKey(key)
      requires Code(key) in tree.contents ==> tree.contents[Code(key)] in accessor.store.records
      modifies tree, tree.file, accessor, accessor.files, accessor.blobStore, accessor.blobStore.file
      ensures tree.Valid() && accessor.Valid() && (r <==> Code(key) in old(tree.contents))
      ensures tree.contents == old(tree.contents) - {Code(key)}
      ensures accessor.store.records == old(accessor.store.records) - RecordsOf(old(tree.contents), key)
      ensures tree.file.Room() >= old(tree.file.Room())
      ensures |tree.contents| <= old(|tree.contents|)
      ensures accessor.blobStore.file.Room() >= old(accessor.blobStore.file.Room())
    {
      CodeInSpace(key);
      SmallerMap(tree.contents, Code(key));
      var result := tree.Remove(Code(key));
      RemoveIfAny(result);
      return result != None;
    }

    method RemoveIfAny(id: Option<RecordID>)
      requires accessor.Valid() && (id.Some? ==> id.value in accessor.store.records)
      modifies accessor, accessor.files, accessor.blobStore, accessor.blobStore.file
      ensures accessor.Valid() && accessor.blobStore.file.Room() >= old(accessor.blobStore.file.Room())
      ensures accessor.store.records == old(accessor.store.records) - if id.Some? then {id.value} else {}
    {
      if id.Some? {
        accessor.RemoveRecord(id.value);
      }
    }

    /** Stores a value under a key, replacing the value that was there. Removing the old value processes the key,
        which is passed by reference, a second time. The store stays consistent exactly if the length can be stored. */
    method Set(key: Key, value: seq<Byte>) returns (key': Key)
      requires Valid() && IsBytes(key)
      requires tree.file.Room() >= PagesForInsert()
      requires accessor.blobStore.file.Room() >= BlobPagesFor(|value|)
      modifies this, tree, tree.file, accessor, accessor.files, accessor.blobStore, accessor.blobStore.file
      ensures Valid() <==> Storable(|value|)
      ensures key' == ProcessKey(ProcessKey(key)) && model == old(model)[key' := value]
      ensures Contained(|value|) ==>
                && tree.Valid() && accessor.blobStore.Valid()
                && tree.file.Room() >= old(tree.file.Room() - PagesForInsert()) && |tree.contents| <= old(|tree.contents|) + 1
                && accessor.blobStore.file.Room() >= old(accessor.blobStore.file.Room()) - BlobPagesFor(|value|)
    {
      ProcessedTwice(key);
      var existed;
      key', existed := Remove(ProcessKey(key));
      Replace(old(model), key', value);
      Log2Monotone(|tree.contents|, old(|tree.contents|));
      Store(key', value);
    }

    /** Stores a value under a key that is not in use. */
    method Store(key: Key, value: seq<Byte>)
      requires Valid() && IsKey(key) && ProcessKey(key) == key && key !in model
      requires tree.file.Room() >= PagesForInsert()
      requires accessor.blobStore.file.Room() >= BlobPagesFor(|value|)
      modifies this, tree, tree.file, accessor, accessor.files, accessor.blobStore, accessor.blobStore.file
      ensures (Valid() <==> Storable(|value|)) && model == old(model)[key := value]
      ensures Contained(|value|) ==>
                && tree.Valid() && accessor.blobStore.Valid()
                && tree.file.Room() >= old(tree.file.Room() - PagesForInsert()) && |tree.contents| <= old(|tree.contents|) + 1
                && accessor.blobStore.file.Room() == old(accessor.blobStore.file.Room()) - BlobPagesFor(|value|)
    {
      JoinedAt(tree.contents, accessor.store.records, model, key);
      ghost var contents, records, before := tree.contents, accessor.store.records, model;
      model := model[key := value];
      var id := Link(key, value);
      if Storable(|value|) {
        JoinedAdd(contents, records, before, key, value, id);
      }
    }

    /** Stores a record and an index entry that leads to it. */
    method Link(key: Key, value: seq<Byte>) returns (id: RecordID)
      requires tree.Valid() && accessor.Valid() && IsKey(key) && Code(key) !in tree.contents
      requires tree.file.Room() >= PagesForInsert()
      requires accessor.blobStore.file.Room() >= BlobPagesFor(|value|)
      modifies tree, tree.file, accessor, accessor.files, accessor.blobStore, accessor.blobStore.file
      ensures accessor.Valid() <==> Storable(|value|)
      ensures Contained(|value|) ==>
                && tree.Valid() && accessor.blobStore.Valid() && tree.contents == old(tree.contents)[Code(key) := id]
                && tree.file.Room() >= old(tree.file.Room() - PagesForInsert())
                && accessor.blobStore.file.Room() == old(accessor.blobStore.file.Room()) - BlobPagesFor(|value|)
      ensures Storable(|value|) ==>
                && id !in old(accessor.store.records)
                && accessor.store.records == old(accessor.store.records)[id := Rec(key, value)]
    {
      id := AddRecord(key, value);
      Index(key, id);
    }

    method AddRecord(key: Key, value: seq<Byte>) returns (id: RecordID)
      requires accessor.Valid() && IsKey(key) && accessor.blobStore.file.Room() >= BlobPagesFor(|value|)
      modifies accessor, accessor.files, accessor.blobStore, accessor.blobStore.file
      ensures accessor.Valid() <==> Storable(|value|)
      ensures Contained(|value|) ==>
                && accessor.blobStore.Valid()
                && accessor.blobStore.file.Room() == old(accessor.blobStore.file.Room()) - BlobPagesFor(|value|)
      ensures Storable(|value|) ==>
                && id !in old(accessor.store.records)
                && accessor.store.records == old(accessor.store.records)[id := Rec(key, value)]
    {
      id := accessor.InsertRecord(key, value);
    }

    /** Adds an index entry for a key that has none. */
    method Index(key: Key, id: RecordID)
      requires tree.Valid() && IsKey(key) && Code(key) !in tree.contents && tree.file.Room() >= PagesForInsert()
      modifies tree, tree.file
      ensures tree.Valid() && tree.contents == old(tree.contents)[Code(key) := id]
      ensures tree.file.Room() >= old(tree.file.Room() - PagesForInsert())
    {
      CodeInSpace(key);
      TreeHeightBound();
      var ok := tree.Insert(Code(key), id);
      // the source would take the record back if the key were in use
      assert ok;
    }

    /** What is left in the files once the command has taken no more than it may. */
    ghost predicate LeavesRoom(indexRoom: int, blobRoom: int, entries: nat, c: Command)
      requires tree.file.Valid() && accessor.blobStore.file.Valid()
      reads tree, tree.file, accessor, accessor.blobStore, accessor.blobStore.file
    {
      && tree.file.Room() >= indexRoom - IndexPagesOf(entries, c) && |tree.contents| <= entries + EntriesOf(c)
      && accessor.blobStore.file.Room() >= blobRoom - BlobPagesOf(c)
    }

    /** Carries out one command. The store stays consistent exactly if the command is harmless. */
    method Execute(c: Command) returns (r: Answer)
      requires Valid() && IsBytes(c.key)
      requires tree.file.Room() >= IndexPagesOf(|tree.contents|, c) && accessor.blobStore.file.Room() >= BlobPagesOf(c)
      modifies this, tree, tree.file, accessor, accessor.files, accessor.blobStore, accessor.blobStore.file
      ensures Valid() <==> Harmless(c)
      ensures model == Apply(old(model), c) && r == Reply(old(model), c) && AnswerIs(old(model), [], c, r)
      ensures Valid() ==> LeavesRoom(old(tree.file.Room()), old(accessor.blobStore.file.Room()), old(|tree.contents|), c)
    {
      ReplyDecided(model, [], c);
      match c
      case SetOf(_, _) =>
        r := ExecuteSet(c);
      case RemoveOf(_) =>
        r := ExecuteRemove(c);
      case _ =>
        r := Query(c);
    }

    method ExecuteSet(c: Command) returns (r: Answer)
      requires Valid() && IsBytes(c.key) && c.SetOf?
      requires tree.file.Room() >= IndexPagesOf(|tree.contents|, c) && accessor.blobStore.file.Room() >= BlobPagesOf(c)
      modifies this, tree, tree.file, accessor, accessor.files, accessor.blobStore, accessor.blobStore.file
      ensures Valid() <==> Harmless(c)
      ensures model == Apply(old(model), c) && r == Reply(old(model), c)
      ensures Valid() ==> LeavesRoom(old(tree.file.Room()), old(accessor.blobStore.file.Room()), old(|tree.contents|), c)
    {
      assert Apply(model, c) == model[ProcessKey(ProcessKey(c.key)) := c.value] && Reply(model, c) == Done;
      r := Done;
      var _ := Set(c.key, c.value);
    }

    method ExecuteRemove(c: Command) returns (r: Answer)
      requires Valid() && IsBytes(c.key) && c.RemoveOf?
      requires tree.file.Room() >= IndexPagesOf(|tree.contents|, c) && accessor.blobStore.file.Room() >= BlobPagesOf(c)
      modifies this, tree, tree.file, accessor, accessor.files, accessor.blobStore, accessor.blobStore.file
      ensures Valid() && model == Apply(old(model), c) && r == Reply(old(model), c)
      ensures LeavesRoom(old(tree.file.Room()), old(accessor.blobStore.file.Room()), old(|tree.contents|), c)
    {
      var _, b := Remove(c.key);
      r := Flag(b);
    }

    method Query(c: Command) returns (r: Answer)
      requires Valid() && IsBytes(c.key) && (c.GetOf? || c.ExistOf?)
      ensures r == Reply(model, c)
    {
      if c.GetOf? {
        var _, value := Get(c.key);
        r := Found(value);
      } else {
        var _, b := Exist(c.key);
        r := Flag(b);
      }
    }

    /** Carries out a run of commands, as far as the first set that damages the store. Every answer is decided by the writes
        before it, as a map would have it, and the store stays consistent exactly if no command of the run damages it. */
    method Run(cmds: seq<Command>) returns (answers: seq<Answer>)
      requires Valid() && ByteKeys(cmds)
      requires Affordable(tree.file.Room(), accessor.blobStore.file.Room(), |tree.contents|, cmds)
      modifies this, tree, tree.file, accessor, accessor.files, accessor.blobStore, accessor.blobStore.file
      ensures Valid() <==> AllHarmless(cmds)
      ensures |answers| <= |cmds| && answers == Replies(old(model), cmds[..|answers|])
      ensures AnswersAre(old(model), cmds, answers)
      ensures model == After(old(model), cmds[..|answers|]) && LeftBy(old(model), cmds[..|answers|], model)
      ensures |answers| < |cmds| ==> StoppedAt(cmds, |answers|)
    {
      answers := CarryOut(cmds);
      RepliesDecided(old(model), cmds[..|answers|]);
      SamePrefix(old(model), cmds, answers);
      AfterDecided(old(model), cmds[..|answers|]);
    }

    /** The loop over the commands: answers and contents follow the map step by step. */
    method CarryOut(cmds: seq<Command>) returns (answers: seq<Answer>)
      requires Valid() && ByteKeys(cmds)
      requires Affordable(tree.file.Room(), accessor.blobStore.file.Room(), |tree.contents|, cmds)
      modifies this, tree, tree.file, accessor, accessor.files, accessor.blobStore, accessor.blobStore.file
      ensures Valid() <==> AllHarmless(cmds)
      ensures |answers| <= |cmds| && answers == Replies(old(model), cmds[..|answers|])
      ensures model == After(old(model), cmds[..|answers|])
      ensures |answers| < |cmds| ==> StoppedAt(cmds, |answers|)
    {
      answers := [];
      assert cmds[0..] == cmds;
      for i := 0 to |cmds|
        invariant Valid() && model == After(old(model), cmds[..i]) && answers == Replies(old(model), cmds[..i])
        invariant AllHarmless(cmds[..i])
        invariant Affordable(tree.file.Room(), accessor.blobStore.file.Room(), |tree.contents|, cmds[i..])
      {
        NextPrefix(old(model), cmds, i);
        NextHarmless(cmds, i);
        ghost var indexRoom, blobRoom, entries := tree.file.Room(), accessor.blobStore.file.Room(), |tree.contents|;
        AffordNext(indexRoom, blobRoom, entries, 0, 0, 0, cmds[i..]);
        var answer := Execute(cmds[i]);
        answers := answers + [answer];
        if !Harmless(cmds[i]) {
          return;
        }
        AffordNext(indexRoom, blobRoom, entries, tree.file.Room(), accessor.blobStore.file.Room(), |tree.contents|, cmds[i..]);
      }
      assert cmds[..|cmds|] == cmds;
    }

    /** Once every key is removed, the index file has all its pages back, unless it refused to delete some. */
    lemma EmptyIndexFile()
      requires tree.Valid() && tree.contents == map[] && tree.refused == {}
      ensures tree.file.used == map[]
    {
      tree.AllInTree();
      if tree.rootPageID != INVALID_PAGE_ID {
        HeightBound(tree.Snapshot(), tree.contents, tree.Lim());
      }
      assert tree.file.used.Keys == {};
    }

    lemma TreeHeightBound()
      requires tree.Valid()
      ensures tree.Height() + 1 <= PagesForInsert()
    {
      if tree.rootPageID != INVALID_PAGE_ID {
        HeightBound(tree.Snapshot(), tree.contents, tree.Lim());
      }
    }
  }

  /** A run on a new store: a key has the value of the last set that wrote it, unless a delete came after, and every answer
      tells what the writes before it have left. The run is carried out to its end, and leaves a consistent store, exactly
      if none of its commands damages the store. */
  method RunOnNewStore(leafMaxSize: nat, internalMaxSize: nat, cmds: seq<Command>) returns (db: DataBase, answers: seq<Answer>)
    requires leafMaxSize >= 2 && ByteKeys(cmds)
    requires Affordable(PAGE_LIMIT - 1, PAGE_LIMIT - 1, 0, cmds)
    ensures db.Valid() <==> AllHarmless(cmds)
    ensures AnswersAre(map[], cmds, answers) && LeftBy(map[], cmds[..|answers|], db.model)
    ensures |answers| < |cmds| ==> StoppedAt(cmds, |answers|)
    ensures AllHarmless(cmds) ==> |answers| == |cmds|
    ensures answers == Replies(map[], cmds[..|answers|]) && db.model == After(map[], cmds[..|answers|])
  {
    db := new DataBase(leafMaxSize, internalMaxSize);
    answers := db.Run(cmds);
    assert cmds[..|cmds|] == cmds;
  }

  /** One set of the shortest mishandled length damages a new store. */
  method DamageExample(leafMaxSize: nat, internalMaxSize: nat, key: Key) returns (db: DataBase)
    requires leafMaxSize >= 2 && IsBytes(key)
    ensures !db.Valid()
  {
    var value: seq<Byte> := seq(4062, _ => 0);
    var c := SetOf(key, value);
    assert !Harmless(c) && [c][0] == c && [c][1..] == [];
    var answers;
    db, answers := RunOnNewStore(leafMaxSize, internalMaxSize, [c]);
  }

  lemma Replace(m: Model, k: Key, value: seq<Byte>)
    ensures (m - {k})[k := value] == m[k := value]
  {
  }

  lemma CodeInSpace(k: Key)
    requires IsKey(k)
    ensures 0 <= Code(k) < KEY_SPACE
  {
    CodeRange(k);
    KeySpaceSize();
  }

  lemma SmallerMap(contents: Contents, c: int)
    ensures |contents - {c}| <= |contents|
  {
    assert |(contents - {c}).Keys| == |contents - {c}| && |contents.Keys| == |contents|;
    assert (contents - {c}).Keys == contents.Keys - {c};
  }
}
