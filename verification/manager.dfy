/** `FileTagManager`: the in-memory tag store, its dirty flag, the wake-up
    queue of the background saver, and the file on disk as last written. */
module Manager {
  import opened TagText
  import opened TagLists
  import opened TagStore
  import opened SaveRetry

  /** The database file's content: a dict as `json.dump` writes it. */
  datatype Snapshot = Snapshot(order: seq<string>, db: Db)

  datatype Option<T> = None | Some(value: T)

  /** Files per batch in `add_tags_to_directory`. */
  const BatchSize: nat := 100

  /** The tag loop of `add_tags` on the entry's list `existing`: each tag is
      stripped and lower-cased, and appended when non-empty and not yet present. */
  method AppendNormalised(existing: seq<string>, tags: seq<string>) returns (list: seq<string>)
    ensures list == MergeTags(existing, NormaliseAll(tags))
  {
    ghost var ns := NormaliseAll(tags);
    list := existing;
    var i := 0;
    while i < |tags|
      invariant i <= |tags|
      invariant list == MergeTags(existing, ns[..i])
    {
      assert ns[..i + 1][..i] == ns[..i];
      var tag := Normalise(tags[i]);
      if tag != "" && tag !in list {
        list := list + [tag];
      }
      i := i + 1;
    }
    assert ns[..i] == ns;
  }

  class FileTagManager {
    /** `str(Path(p))`, the canonical form of a path; kept abstract. */
    const canon: string -> string

    /** `tags_db`, with its key insertion order. */
    var tagsDb: Db
    var order: seq<string>
    /** `_pending_changes` */
    var pending: bool
    /** The wake-up tokens waiting in `_save_queue`. */
    var signals: nat
    /** The content of `file_tags.json`, or `None` once a save on win32 has
        removed the file without writing a new one. */
    var persisted: Option<Snapshot>

    ghost predicate Valid()
      reads this
    {
      Consistent(tagsDb, order)
    }

    /** `__init__`, given what `_load_db` returned and the path canonicaliser. */
    constructor (canon: string -> string, loadedOrder: seq<string>, loaded: Db)
      requires Consistent(loaded, loadedOrder)
      ensures Valid()
      ensures this.canon == canon
      ensures tagsDb == loaded && order == loadedOrder
      ensures !pending && signals == 0 && persisted == Some(Snapshot(loadedOrder, loaded))
    {
      this.canon := canon;
      tagsDb := loaded;
      order := loadedOrder;
      pending := false;
      signals := 0;
      persisted := Some(Snapshot(loadedOrder, loaded));
    }

    /** `queue_save`: sets the dirty flag and wakes the saver. */
    method QueueSave()
      modifies this`pending, this`signals
      ensures pending && signals == old(signals) + 1
    {
      pending := true;
      signals := signals + 1;
    }

    /** The tag loop shared by `add_tags` and `add_tags_to_directory`:
        `if key not in tags_db: tags_db[key] = []`, then each normalised,
        non-empty, absent tag is appended. */
    method AppendTags(key: string, tags: seq<string>)
      requires Valid()
      modifies this`tagsDb, this`order
      ensures Valid()
      ensures tagsDb == WithTags(old(tagsDb), key, tags)
      ensures order == WithKey(old(order), key)
    {
      ghost var db0 := tagsDb;
      if key !in tagsDb {
        tagsDb := tagsDb[key := []];
        order := order + [key];
      }
      assert tagsDb[key] == Lookup(db0, key);
      var list := AppendNormalised(tagsDb[key], tags);
      tagsDb := tagsDb[key := list];
      assert tagsDb == db0[key := list];
      AddTagsConsistent(db0, old(order), key, tags);
    }

    /** `add_tags(filepath, tags)` */
    method AddTags(filepath: string, tags: seq<string>)
      requires Valid()
      modifies this`tagsDb, this`order, this`pending, this`signals
      ensures Valid()
      ensures tagsDb == WithTags(old(tagsDb), canon(filepath), tags)
      ensures order == WithKey(old(order), canon(filepath))
      ensures pending && signals == old(signals) + 1
    {
      var key := canon(filepath);
      AppendTags(key, tags);
      QueueSave();
    }

    /** `add_tags_to_directory` over the already enumerated `files`; the
        progress callback, when `reportProgress` holds, is the list of its calls. */
    method AddTagsToDirectory(files: seq<string>, tags: seq<string>, reportProgress: bool)
      returns (total: nat, progress: seq<Report>)
      requires Valid()
      modifies this`tagsDb, this`order, this`pending, this`signals
      ensures Valid()
      ensures total == |files|
      ensures progress == if reportProgress then ProgressCalls(|files|) else []
      ensures tagsDb == ApplyToFiles(old(tagsDb), files, tags)
      ensures order == FilesOrder(old(order), files)
      ensures pending == (old(pending) || |files| > 0)
      ensures signals == old(signals) + (|files| + 99) / 100
    {
      total := |files|;
      progress := [];
      var i := 0;
      ghost var batches := 0;
      ghost var done := 0;
      while i < total
        invariant i == BatchSize * batches
        invariant done == if i < total then i else total
        invariant batches <= |ProgressCalls(total)|
        invariant Valid()
        invariant tagsDb == ApplyToFiles(old(tagsDb), files[..done], tags)
        invariant order == FilesOrder(old(order), files[..done])
        invariant progress == if reportProgress then ProgressCalls(total)[..batches] else []
        invariant pending == (old(pending) || i > 0)
        invariant signals == old(signals) + batches
      {
        var end := if i + BatchSize < total then i + BatchSize else total;
        ProgressStep(total, batches);
        BatchStep(old(tagsDb), old(order), files, tags, i, end);
        TagBatch(files[i..end], tags);
        QueueSave();
        if reportProgress {
          progress := progress + [Report(end, total)];
        }
        i := i + BatchSize;
        batches := batches + 1;
        done := end;
      }
      BatchCount(total, batches);
      assert files[..total] == files;
    }

    /** The inner loop `for filepath in batch`: each file of the batch is
        tagged in turn. */
    method TagBatch(batch: seq<string>, tags: seq<string>)
      requires Valid()
      modifies this`tagsDb, this`order
      ensures Valid()
      ensures tagsDb == ApplyToFiles(old(tagsDb), batch, tags)
      ensures order == FilesOrder(old(order), batch)
    {
      ghost var db0, order0 := tagsDb, order;
      for j := 0 to |batch|
        invariant Valid()
        invariant tagsDb == ApplyToFiles(db0, batch[..j], tags)
        invariant order == FilesOrder(order0, batch[..j])
      {
        FilesStep(db0, order0, batch, tags, j);
        AppendTags(batch[j], tags);
      }
      assert batch[..|batch|] == batch;
    }

    /** `remove_tag(filepath, tag)`: the tag is matched as given, not normalised. */
    method RemoveTag(filepath: string, tag: string)
      requires Valid()
      modifies this`tagsDb, this`order, this`pending, this`signals
      ensures Valid()
      ensures tagsDb == RemovedTag(old(tagsDb), canon(filepath), tag)
      ensures order == RemovedOrder(old(tagsDb), old(order), canon(filepath), tag)
      ensures var present := canon(filepath) in old(tagsDb) && tag in old(tagsDb)[canon(filepath)];
              if present then pending && signals == old(signals) + 1
              else pending == old(pending) && signals == old(signals)
    {
      var key := canon(filepath);
      RemoveTagConsistent(tagsDb, order, key, tag);
      if key in tagsDb && tag in tagsDb[key] {
        // the entry's list after `list.remove(tag)`
        var rest := RemoveFirst(tagsDb[key], tag);
        if rest == [] {
          tagsDb := tagsDb - {key};
          order := RemoveFirst(order, key);
        } else {
          tagsDb := tagsDb[key := rest];
        }
        QueueSave();
      }
    }

    /** `get_tags(filepath)` */
    function GetTags(filepath: string): (r: seq<string>)
      reads this
      ensures canon(filepath) !in tagsDb ==> r == []
      ensures canon(filepath) in tagsDb ==> r == tagsDb[canon(filepath)]
    {
      Lookup(tagsDb, canon(filepath))
    }

    /** `search_by_tags(search_tags)` */
    function SearchByTags(queries: seq<string>): (r: seq<string>)
      reads this
      requires Valid()
      ensures forall k :: k in r <==> k in tagsDb && forall q :: q in queries ==> Normalise(q) in tagsDb[k]
      ensures NoDup(r) && IsSubsequence(r, order)
    {
      Search(tagsDb, order, queries)
    }

    /** One turn of `_save_worker`'s loop, with `outcomes` the outcomes the
        write attempts of `_save_db_with_retry()` meet. An empty queue makes the
        turn do nothing; otherwise one token is taken and, if the flag is set,
        the database is saved and the flag cleared, unless the save raised. */
    method SaveWorkerStep(outcomes: seq<Attempt>)
      requires Valid() && MaxRetries <= |outcomes|
      modifies this`signals, this`pending, this`persisted
      ensures Valid()
      ensures old(signals) == 0 ==>
                signals == 0 && pending == old(pending) && persisted == old(persisted)
      ensures old(signals) > 0 && !old(pending) ==>
                signals == old(signals) - 1 && !pending && persisted == old(persisted)
      ensures old(signals) > 0 && old(pending) ==>
                var result := Retry(outcomes, MaxRetries, InitialDelay).result;
                signals == old(signals) - 1 &&
                pending == result.Raised? &&
                persisted == (if result == Returned(true) then Some(Snapshot(order, tagsDb))
                              else if RemovedFrom(outcomes, MaxRetries, 0) then None
                              else old(persisted))
    {
      if signals == 0 {
        return;
      }
      signals := signals - 1;
      if pending {
        var result, _, removed := SaveWithRetry(outcomes, MaxRetries, InitialDelay);
        if result == Returned(true) {
          persisted := Some(Snapshot(order, tagsDb));
        } else if removed {
          persisted := None;
        }
        if result.Raised? {
          return;
        }
        pending := false;
      }
    }
  }
}
