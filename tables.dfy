/**
 * The repository pattern every `*Management` class repeats: a list loaded
 * from the entity's file, a dict indexing it by key, and mutations that
 * change the dict, write ALL of its values to the file, then reload both
 * the list and the dict from the file.
 */
module Tables {
  import opened OrderedDicts
  import opened Outcomes

  class Table<R> {
    /** The record's primary key (`email_address`, `user_id`, `course_id`, `grade_id`). */
    const keyOf: R -> string
    /** The rows of the entity's file, in file order. */
    var store: seq<R>
    /** The loaded list (`self.students`, `self.users`, ...). */
    var items: seq<R>
    /** The index (`self.student_dict`, `self.users_dict`, ...). */
    var dict: Dict<R>

    /** The list is always what was last loaded from the file, and the index is keyed by each record's own key. */
    ghost predicate Valid()
      reads this
    {
      items == store && dict.Valid() && KeyedBy(keyOf, dict)
    }

    /** The file, hence the list, holds exactly the index's values in insertion order. */
    ghost predicate Persisted()
      reads this
    {
      Valid() && store == dict.Values()
    }

    /** `__init__`: load the file (`[]` when it does not exist) and index it. */
    constructor (keyOf: R -> string, file: seq<R>)
      ensures Valid() && this.keyOf == keyOf
      ensures store == file && dict == FromList(keyOf, file)
    {
      this.keyOf := keyOf;
      store := file;
      items := file;
      dict := FromList(keyOf, file);
    }

    /** `reload_*`: the list becomes the file's rows and the index is rebuilt from them. */
    method Reload()
      modifies this
      ensures store == old(store) && items == store && dict == FromList(keyOf, store)
    {
      var rows := store;
      var d: Dict<R> := Dict([], map[]);
      var i := 0;
      while i < |rows|
        invariant 0 <= i <= |rows|
        invariant d == FromList(keyOf, rows[..i])
        invariant store == rows
      {
        FromListSnoc(keyOf, rows, i);
        d := d.Set(keyOf(rows[i]), rows[i]);
        i := i + 1;
      }
      assert rows[..|rows|] == rows;
      items, dict := rows, d;
    }

    /**
     * `save_*(data)`: `data[0]` raises IndexError on an empty collection before
     * the file is opened; otherwise the file is overwritten with `data` and
     * everything is reloaded.
     */
    method Save(data: seq<R>) returns (status: Status)
      modifies this
      ensures |data| == 0 ==> status == Raised(IndexError) && unchanged(this)
      ensures |data| > 0 ==> status == Done && store == data && items == data && dict == FromList(keyOf, data)
    {
      if |data| == 0 {
        return Raised(IndexError);
      }
      store := data;
      Reload();
      status := Done;
    }

    /** `get_*(key)`: the indexed record, KeyError when absent. */
    function Get(key: string): (r: Result<R>)
      requires Valid()
      reads this
      ensures r.Ok? <==> key in dict.entries
      ensures r.Ok? ==> keyOf(r.value) == key && r.value == dict.entries[key]
      ensures r.Err? ==> r.error == KeyError(key)
    {
      if key in dict.entries then Ok(dict.entries[key]) else Err(KeyError(key))
    }

    /**
     * The common tail of every mutation: the mutated index becomes `dict`,
     * then its values are saved; an empty index makes the save raise IndexError
     * with the list and file as they were.
     */
    method Commit(d: Dict<R>) returns (status: Status)
      requires items == store && d.Valid() && KeyedBy(keyOf, d)
      modifies this
      ensures Valid() && dict == d
      ensures |d.keys| == 0 ==> status == Raised(IndexError) && store == old(store) && items == old(items)
      ensures |d.keys| > 0 ==> status == Done && Persisted() && items == d.Values()
    {
      dict := d;
      FromListValues(keyOf, d);
      status := Save(d.Values());
    }

    /**
     * `dict[key] = record` then save: a present key keeps its place and holds
     * the new record, a new key goes last; the file and the list then hold
     * the index's values.
     */
    method Put(record: R) returns (status: Status)
      requires Valid()
      modifies this
      ensures Persisted() && status == Done
      ensures dict == old(dict).Set(keyOf(record), record)
      ensures keyOf(record) in old(dict.entries) ==>
        items == old(dict.Values())[IndexOf(old(dict.keys), keyOf(record)) := record]
      ensures keyOf(record) !in old(dict.entries) ==> items == old(dict.Values()) + [record]
    {
      var k := keyOf(record);
      if k in dict.entries {
        SetPresentValues(dict, k, record);
      } else {
        SetAbsentValues(dict, k, record);
      }
      status := Commit(dict.Set(k, record));
    }

    /**
     * `dict.pop(key)`, `dict[key] = record`, then save: KeyError with nothing
     * changed when the key is absent; otherwise the record moves to the end.
     */
    method Replace(record: R) returns (status: Status)
      requires Valid()
      modifies this
      ensures Valid()
      ensures keyOf(record) !in old(dict.entries) ==>
        status == Raised(KeyError(keyOf(record))) && unchanged(this)
      ensures keyOf(record) in old(dict.entries) ==>
        && status == Done && Persisted()
        && dict == old(dict).Pop(keyOf(record)).Set(keyOf(record), record)
        && items == old(dict.Values())[..IndexOf(old(dict.keys), keyOf(record))]
                    + old(dict.Values())[IndexOf(old(dict.keys), keyOf(record)) + 1..] + [record]
    {
      var k := keyOf(record);
      if k !in dict.entries {
        return Raised(KeyError(k));
      }
      PopSetMovesLast(dict, k, record);
      status := Commit(dict.Pop(k).Set(k, record));
    }

    /**
     * `dict.pop(key)` then save: KeyError with nothing changed when the key is
     * absent. Removing the last record leaves the index empty, and saving the
     * empty collection then raises IndexError with the list and file as they were.
     */
    method Remove(key: string) returns (status: Status)
      requires Valid()
      modifies this
      ensures Valid()
      ensures key !in old(dict.entries) ==> status == Raised(KeyError(key)) && unchanged(this)
      ensures key in old(dict.entries) ==> dict == old(dict).Pop(key) && key !in dict.entries
      ensures key in old(dict.entries) && |old(dict.keys)| == 1 ==>
        status == Raised(IndexError) && store == old(store) && items == old(items)
      ensures key in old(dict.entries) && |old(dict.keys)| > 1 ==>
        && status == Done && Persisted()
        && items == old(dict.Values())[..IndexOf(old(dict.keys), key)]
                    + old(dict.Values())[IndexOf(old(dict.keys), key) + 1..]
    {
      if key !in dict.entries {
        return Raised(KeyError(key));
      }
      PopValues(dict, key);
      status := Commit(dict.Pop(key));
    }
  }
}
