/**
 * The contact book (hw12.py:82-120): a dictionary from contact name to
 * record, in insertion order, pickled to a file after every add and every
 * delete that removes something.
 */
module AddressBooks {
  import opened Lists
  import opened Records
  import Chunking

  /** `keys` lists the keys of `entries`, each once, in dictionary order. */
  ghost predicate WellFormed(keys: seq<string>, entries: map<string, Record>) {
    Distinct(keys) && (set k | k in keys) == entries.Keys
  }

  /**
   * The records of `keys`, looked up one by one (the comprehension of line
   * 107). Over the whole key order of a book it lists every record of the
   * book and nothing else.
   */
  function Lookup(keys: seq<string>, entries: map<string, Record>): (r: seq<Record>)
    requires forall k :: k in keys ==> k in entries
    ensures |r| == |keys| && forall i :: 0 <= i < |keys| ==> r[i] == entries[keys[i]]
    ensures WellFormed(keys, entries) ==> (set x | x in r) == entries.Values
  {
    var r := seq(|keys|, i requires 0 <= i < |keys| => entries[keys[i]]);
    LookupCovers(keys, entries, r);
    r
  }

  lemma LookupCovers(keys: seq<string>, entries: map<string, Record>, r: seq<Record>)
    requires forall k :: k in keys ==> k in entries
    requires |r| == |keys| && forall i :: 0 <= i < |keys| ==> r[i] == entries[keys[i]]
    ensures WellFormed(keys, entries) ==> (set x | x in r) == entries.Values
  {
    if WellFormed(keys, entries) {
      forall v | v in entries.Values ensures v in r {
        var k :| k in entries && entries[k] == v;
        assert k in (set k | k in keys);
        var i :| 0 <= i < |keys| && keys[i] == k;
        assert r[i] == v;
      }
    }
  }

  /** Looking up a slice of the keys gives the same slice of the records (one page of line 107). */
  lemma LookupSlice(keys: seq<string>, entries: map<string, Record>, i: int, j: int)
    requires forall k :: k in keys ==> k in entries
    requires 0 <= i <= j <= |keys|
    ensures Lookup(keys[i..j], entries) == Lookup(keys, entries)[i..j]
  {
  }

  /** What the pickle file holds: nothing yet, or the dictionary last saved, with its key order. */
  datatype Stored = Absent | Saved(keys: seq<string>, entries: map<string, Record>)

  /** The file the book is pickled to, standing for the external storage named by `filename`. */
  class Store {
    var contents: Stored

    ghost predicate Valid()
      reads this
    {
      contents.Saved? ==> WellFormed(contents.keys, contents.entries)
    }

    /** A location where nothing has been saved yet. */
    constructor ()
      ensures Valid() && contents == Absent
    {
      contents := Absent;
    }
  }

  class AddressBook {
    const store: Store
    var keys: seq<string>
    var data: map<string, Record>

    ghost predicate Valid()
      reads this, store
    {
      WellFormed(keys, data) && store.Valid()
    }

    /** The file holds exactly the book: what `save_data` leaves behind. */
    ghost predicate Synced()
      reads this, store
    {
      store.contents == Saved(keys, data)
    }

    /** `__init__`: the book starts as whatever the file holds, or empty when there is no file. */
    constructor (store: Store)
      requires store.Valid()
      ensures Valid() && this.store == store
      ensures store.contents.Absent? ==> keys == [] && data == map[]
      ensures store.contents.Saved? ==> keys == store.contents.keys && data == store.contents.entries
    {
      this.store := store;
      keys := [];
      data := map[];
      new;
      LoadData();
    }

    /** `load_data`: replaces the book by the file's contents, or by the empty book when there is no file. */
    method LoadData()
      requires store.Valid()
      modifies this
      ensures Valid()
      ensures store.contents.Absent? ==> keys == [] && data == map[]
      ensures store.contents.Saved? ==> keys == store.contents.keys && data == store.contents.entries
    {
      match store.contents
      case Absent =>
        keys, data := [], map[];
      case Saved(k, m) =>
        keys, data := k, m;
    }

    /** `save_data`: the file is overwritten with the whole book. */
    method SaveData()
      requires Valid()
      modifies store
      ensures Valid() && Synced()
    {
      store.contents := Saved(keys, data);
    }

    /** `find`: the record stored under `name`, or null. */
    function Find(name: string): (r: Record?)
      reads this
      ensures WellFormed(keys, data) ==> (r != null <==> name in keys)
      ensures r != null ==> r in data.Values
    {
      if name in data then data[name] else null
    }

    /**
     * `add_record`: the record is stored under its name, replacing any
     * record of that name in its dictionary position or going last when the
     * name is new; every other name keeps its record; then the book is saved.
     */
    method AddRecord(r: Record)
      requires Valid()
      modifies this, store
      ensures Valid() && Synced()
      ensures Find(r.name.value) == r
      ensures forall k :: k != r.name.value ==> Find(k) == old(Find(k))
      ensures data.Keys == old(data.Keys) + {r.name.value}
      ensures keys == if r.name.value in old(data) then old(keys) else old(keys) + [r.name.value]
    {
      var key := r.name.value;
      if key !in data {
        keys := keys + [key];
      }
      data := data[key := r];
      SaveData();
    }

    /**
     * `delete`: a present name is removed, from the mapping and from the
     * key order, and the book is saved; an absent one changes nothing,
     * and nothing is saved.
     */
    method Delete(name: string)
      requires Valid()
      modifies this, store
      ensures Valid()
      ensures name in old(data) ==> Synced()
      ensures name in old(data) ==> data == old(data) - {name} && keys == Removed(old(keys), name)
      ensures name !in old(data) ==> keys == old(keys) && data == old(data) && store.contents == old(store.contents)
    {
      if name in data {
        RemovedDistinct(keys, name);
        keys := Removed(keys, name);
        data := data - {name};
        SaveData();
      }
    }

    /** The records in dictionary order. */
    function Listing(): (r: seq<Record>)
      reads this
      requires WellFormed(keys, data)
    {
      Lookup(keys, data)
    }

    /**
     * `iterator`, run to completion over a snapshot of the keys: pages of
     * `chunkSize` records in dictionary order, the last possibly shorter.
     * A chunk size below 1 is refused unless the book is empty, where the
     * source's loop also stops at once.
     */
    method Iterator(chunkSize: int := Chunking.DefaultChunkSize) returns (chunks: seq<seq<Record>>)
      requires Valid()
      requires chunkSize > 0 || keys == []
      ensures chunks == Chunking.Chunks(Listing(), chunkSize)
    {
      var names := keys;
      var n := |names|;
      ghost var all := Listing();
      var current := 0;
      chunks := [];
      while current < n
        invariant 0 <= current
        invariant chunks + Chunking.Chunks(if current < n then all[current..] else [], chunkSize) == Chunking.Chunks(all, chunkSize)
        decreases n - current
      {
        var end := current + chunkSize;
        var stop := if end < n then end else n;
        var chunk := Lookup(names[current..stop], data);
        LookupSlice(names, data, current, stop);
        NextChunk(all, current, chunkSize);
        chunks := chunks + [chunk];
        current := end;
      }
    }
  }

  /** One step of the paging loop: the page at `i` is `xs[i:i + k]` and the rest starts at `i + k`. */
  lemma NextChunk(xs: seq<Record>, i: int, k: int)
    requires 0 <= i < |xs| && k > 0
    ensures Chunking.Chunks(xs[i..], k)
      == [xs[i..if i + k < |xs| then i + k else |xs|]]
         + Chunking.Chunks(if i + k < |xs| then xs[i + k..] else [], k)
  {
    var t := xs[i..];
    if |t| > k {
      assert t[..k] == xs[i..i + k] && t[k..] == xs[i + k..];
    } else {
      assert t == xs[i..|xs|];
    }
  }

  /**
   * Opening a second book on the file of a book that has just been saved
   * gives the same names, in the same order, with the same records.
   */
  method Reopen(book: AddressBook) returns (copy: AddressBook)
    requires book.Valid() && book.Synced()
    ensures fresh(copy) && copy.store == book.store
    ensures copy.keys == book.keys && copy.data == book.data
  {
    copy := new AddressBook(book.store);
  }
}
