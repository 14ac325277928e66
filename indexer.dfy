/** The `Indexer` of Program.cs: the process-wide cache from a file's full path to the
    write time it had when it was last looked at and whether it was then found valid. */
module Index {
  import opened Wrappers

  /** `Tuple<DateTime, bool>`: the file's last write time (UTC, as a tick count) and
      whether its line endings were last found valid. */
  datatype Entry = Entry(mtime: int, valid: bool)

  class Indexer {
    /** `_index`, meaningful once `initialized` holds. */
    var index: map<string, Entry>
    /** `_index != null`: `Init` has run. */
    var initialized: bool

    /** `new Indexer()`: the dictionary field starts out as null. */
    constructor ()
      ensures !initialized && index == map[]
    {
      index := map[];
      initialized := false;
    }

    /** `Init`: `persisted` is the deserialized content of `index.bin` when that file
        exists, and None when it does not; the index starts from it, or empty. */
    method Init(persisted: Option<map<string, Entry>>)
      modifies this
      ensures initialized
      ensures persisted.None? ==> index == map[]
      ensures persisted.Some? ==> index == persisted.value
    {
      if persisted.Some? {
        index := persisted.value;
      } else {
        index := map[];
      }
      initialized := true;
    }

    /** `Get`: the stored entry, or None (the source's null) for a path never stored. */
    method Get(path: string) returns (item: Option<Entry>)
      requires initialized
      ensures item.Some? <==> path in index
      ensures item.Some? ==> item.value == index[path]
    {
      if path in index {
        item := Some(index[path]);
      } else {
        item := None;
      }
    }

    /** `Upsert`: `_index[path] = value`, overwriting any earlier entry for the path and
        leaving every other path as it was. */
    method Upsert(path: string, value: Entry)
      requires initialized
      modifies this`index
      ensures index == old(index)[path := value]
      ensures path in index && index[path] == value
      ensures forall p :: p != path ==> (p in index <==> p in old(index))
      ensures forall p :: p != path && p in index ==> index[p] == old(index)[p]
    {
      index := index[path := value];
    }

    /** `Save`: what is written to `index.bin`, replacing any earlier content. */
    method Save() returns (persisted: map<string, Entry>)
      requires initialized
      ensures persisted == index
    {
      persisted := index;
    }
  }

  /** Saving an index and initialising a fresh indexer from what was saved gives back
      the same entries, and two upserts of one path leave the later value. */
  method SaveThenInit(ix: Indexer, path: string, first: Entry, second: Entry)
    returns (reloaded: Indexer)
    requires ix.initialized
    modifies ix`index
    ensures fresh(reloaded) && reloaded.initialized
    ensures reloaded.index == ix.index == old(ix.index)[path := second]
  {
    ix.Upsert(path, first);
    ix.Upsert(path, second);
    var saved := ix.Save();
    reloaded := new Indexer();
    reloaded.Init(Some(saved));
    var item := reloaded.Get(path);
    assert item == Some(second);
  }
}
