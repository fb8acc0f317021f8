/** The tag store as a value: a Python dict from path to tag list, given as a
    map together with its key insertion order. The functions here say what
    each operation of the file tag manager does to that value. */
module TagStore {
  import opened TagText
  import opened TagLists

  type Db = map<string, seq<string>>

  /** What one call of the progress callback receives. */
  datatype Report = Report(processed: nat, total: nat)

  /** The keys of the dict, each once, in insertion order. */
  ghost predicate Consistent(db: Db, order: seq<string>) {
    NoDup(order) && forall k :: k in db <==> k in order
  }

  /** `tags_db.get(key, [])` */
  function Lookup(db: Db, key: string): seq<string> {
    if key in db then db[key] else []
  }

  /** A dict assignment `d[key] = ...` appends a new key and keeps an old key's place. */
  function WithKey(order: seq<string>, key: string): (r: seq<string>)
    ensures NoDup(order) ==> NoDup(r)
    ensures forall k :: k in r <==> k in order || k == key
    ensures |order| <= |r| && r[..|order|] == order
  {
    if key in order then order
    else if NoDup(order) then
      NoDupAppend(order, [key]);
      order + [key]
    else order + [key]
  }

  /** The dict after `add_tags` on `key`: the entry is created (possibly empty),
      and each normalised non-empty tag it lacks is appended in first-occurrence
      order; no other entry changes. */
  function WithTags(db: Db, key: string, tags: seq<string>): (r: Db)
    ensures r.Keys == db.Keys + {key}
    ensures forall j :: j in db && j != key ==> r[j] == db[j]
    ensures r[key] == Lookup(db, key) + Dedup(Kept(Lookup(db, key), NormaliseAll(tags)))
    ensures forall x :: x in r[key] <==> x in Lookup(db, key) || (x != "" && x in NormaliseAll(tags))
    ensures NoDup(Lookup(db, key)) ==> NoDup(r[key])
  {
    var ns := NormaliseAll(tags);
    MergeTagsSpec(Lookup(db, key), ns);
    MergeTagsMembers(Lookup(db, key), ns);
    MergeTagsNoDup(Lookup(db, key), ns);
    db[key := MergeTags(Lookup(db, key), ns)]
  }

  lemma AddTagsConsistent(db: Db, order: seq<string>, key: string, tags: seq<string>)
    requires Consistent(db, order)
    ensures Consistent(WithTags(db, key, tags), WithKey(order, key))
  {
  }

  /** Tags that are all blank still create the entry, with an empty list. */
  lemma AddBlankTagsCreatesEntry(db: Db, key: string, tags: seq<string>)
    requires key !in db
    requires forall i :: 0 <= i < |tags| ==> Normalise(tags[i]) == ""
    ensures key in WithTags(db, key, tags) && WithTags(db, key, tags)[key] == []
  {
    KeptNone([], NormaliseAll(tags));
    assert Dedup([]) == [];
  }

  /** Adding the same tags to the same path twice is the same as adding them once. */
  lemma AddTagsIdempotent(db: Db, order: seq<string>, key: string, tags: seq<string>)
    ensures WithTags(WithTags(db, key, tags), key, tags) == WithTags(db, key, tags)
    ensures WithKey(WithKey(order, key), key) == WithKey(order, key)
  {
    MergeTagsIdempotent(Lookup(db, key), NormaliseAll(tags));
  }

  /** The dict after the tag loop of `add_tags_to_directory` has run over
      `files`, in order, with the raw (not canonicalised) file paths as keys.
      Its properties are stated by `ApplyToFilesSpec`. */
  function ApplyToFiles(db: Db, files: seq<string>, tags: seq<string>): Db {
    if files == [] then db
    else WithTags(ApplyToFiles(db, files[..|files| - 1], tags), files[|files| - 1], tags)
  }

  /** The batch loop leaves the old keys and adds the listed files; a listed
      file gets the tag loop applied to its old list, once however often it is
      listed; every other entry is unchanged. */
  lemma {:induction false} ApplyToFilesSpec(db: Db, files: seq<string>, tags: seq<string>)
    ensures forall k :: k in ApplyToFiles(db, files, tags) <==> k in db || k in files
    ensures forall f :: f in files ==> ApplyToFiles(db, files, tags)[f] == MergeTags(Lookup(db, f), NormaliseAll(tags))
    ensures forall j :: j in db && j !in files ==> ApplyToFiles(db, files, tags)[j] == db[j]
  {
    if files != [] {
      var front := files[..|files| - 1];
      var f := files[|files| - 1];
      ApplyToFilesSpec(db, front, tags);
      MergeTagsIdempotent(Lookup(db, f), NormaliseAll(tags));
      assert forall g :: g in files <==> g in front || g == f;
    }
  }

  /** The key order after `files` have been assigned in order. Its properties
      are stated by `FilesOrderSpec`. */
  function FilesOrder(order: seq<string>, files: seq<string>): seq<string> {
    if files == [] then order
    else WithKey(FilesOrder(order, files[..|files| - 1]), files[|files| - 1])
  }

  /** The files of `s` that `order` lacks, repeats included, in the order given. */
  function Absent(order: seq<string>, s: seq<string>): seq<string> {
    if s == [] then []
    else
      var f := s[|s| - 1];
      Absent(order, s[..|s| - 1]) + (if f !in order then [f] else [])
  }

  lemma {:induction false} AbsentMembers(order: seq<string>, s: seq<string>)
    ensures forall x :: x in Absent(order, s) <==> x !in order && x in s
  {
    if s != [] {
      var front := s[..|s| - 1];
      AbsentMembers(order, front);
      assert s == front + [s[|s| - 1]];
    }
  }

  lemma DedupSnoc(s: seq<string>, x: string)
    ensures Dedup(s + [x]) == if x in Dedup(s) then Dedup(s) else Dedup(s) + [x]
  {
    assert (s + [x])[..|s|] == s;
  }

  /** One file more: `WithKey` extends the reference form by that file when
      the old keys lack it. */
  lemma FilesOrderStep(order: seq<string>, a: seq<string>, f: string)
    ensures WithKey(order + Dedup(a), f) == order + Dedup(a + (if f !in order then [f] else []))
  {
    if f !in order {
      DedupSnoc(a, f);
    } else {
      assert a + [] == a;
    }
  }

  /** The listed files join the key order after the old keys, each file the
      dict lacked once, in order of first occurrence. */
  lemma {:induction false} FilesOrderSpec(order: seq<string>, files: seq<string>)
    ensures FilesOrder(order, files) == order + Dedup(Absent(order, files))
  {
    if files != [] {
      var front := files[..|files| - 1];
      var f := files[|files| - 1];
      FilesOrderSpec(order, front);
      FilesOrderStep(order, Absent(order, front), f);
    }
  }

  /** Consequences of `FilesOrderSpec`: no duplicates are introduced, the
      order holds exactly the old keys and the listed files, and the old keys
      come first. */
  lemma FilesOrderMembers(order: seq<string>, files: seq<string>)
    ensures NoDup(order) ==> NoDup(FilesOrder(order, files))
    ensures forall k :: k in FilesOrder(order, files) <==> k in order || k in files
    ensures |order| <= |FilesOrder(order, files)| && FilesOrder(order, files)[..|order|] == order
  {
    var d := Dedup(Absent(order, files));
    FilesOrderSpec(order, files);
    AbsentMembers(order, files);
    assert (order + d)[..|order|] == order;
    if NoDup(order) {
      NoDupAppend(order, d);
    }
  }

  /** Tagging one more file of the list. */
  lemma FilesStep(db: Db, order: seq<string>, files: seq<string>, tags: seq<string>, j: nat)
    requires j < |files|
    ensures ApplyToFiles(db, files[..j + 1], tags) == WithTags(ApplyToFiles(db, files[..j], tags), files[j], tags)
    ensures FilesOrder(order, files[..j + 1]) == WithKey(FilesOrder(order, files[..j]), files[j])
  {
    assert files[..j + 1][..j] == files[..j];
  }

  /** Tagging `a + b` is tagging `a`, then `b`. */
  lemma {:induction false} ApplyToFilesAppend(db: Db, a: seq<string>, b: seq<string>, tags: seq<string>)
    ensures ApplyToFiles(db, a + b, tags) == ApplyToFiles(ApplyToFiles(db, a, tags), b, tags)
  {
    if b != [] {
      ApplyToFilesAppend(db, a, b[..|b| - 1], tags);
      assert (a + b)[..|a + b| - 1] == a + b[..|b| - 1];
    } else {
      assert a + b == a;
    }
  }

  /** Assigning the keys `a + b` is assigning `a`, then `b`. */
  lemma {:induction false} FilesOrderAppend(order: seq<string>, a: seq<string>, b: seq<string>)
    ensures FilesOrder(order, a + b) == FilesOrder(FilesOrder(order, a), b)
  {
    if b != [] {
      FilesOrderAppend(order, a, b[..|b| - 1]);
      assert (a + b)[..|a + b| - 1] == a + b[..|b| - 1];
    } else {
      assert a + b == a;
    }
  }

  /** The batch `files[lo..hi]` continues the files already tagged. */
  lemma BatchStep(db: Db, order: seq<string>, files: seq<string>, tags: seq<string>, lo: nat, hi: nat)
    requires lo <= hi <= |files|
    ensures ApplyToFiles(db, files[..hi], tags) == ApplyToFiles(ApplyToFiles(db, files[..lo], tags), files[lo..hi], tags)
    ensures FilesOrder(order, files[..hi]) == FilesOrder(FilesOrder(order, files[..lo]), files[lo..hi])
  {
    assert files[..hi] == files[..lo] + files[lo..hi];
    ApplyToFilesAppend(db, files[..lo], files[lo..hi], tags);
    FilesOrderAppend(order, files[..lo], files[lo..hi]);
  }

  lemma ApplyToFilesConsistent(db: Db, order: seq<string>, files: seq<string>, tags: seq<string>)
    requires Consistent(db, order)
    ensures Consistent(ApplyToFiles(db, files, tags), FilesOrder(order, files))
  {
    ApplyToFilesSpec(db, files, tags);
    FilesOrderMembers(order, files);
  }

  /** Batch application gives every listed file every normalised non-empty tag. */
  lemma ApplyToFilesCovers(db: Db, files: seq<string>, tags: seq<string>, f: string, t: string)
    requires f in files && t in tags && Normalise(t) != ""
    ensures f in ApplyToFiles(db, files, tags)
    ensures Normalise(t) in ApplyToFiles(db, files, tags)[f]
  {
    ApplyToFilesSpec(db, files, tags);
    MergeTagsMembers(Lookup(db, f), NormaliseAll(tags));
    var i :| 0 <= i < |tags| && tags[i] == t;
    assert NormaliseAll(tags)[i] == Normalise(t);
  }

  /** The dict after `remove_tag(key, tag)`: the first occurrence of `tag` is
      dropped and an emptied entry deleted, when both are present; otherwise
      nothing changes. */
  function RemovedTag(db: Db, key: string, tag: string): (r: Db)
    ensures key !in db || tag !in db[key] ==> r == db
    ensures forall j :: j in db && j != key ==> j in r && r[j] == db[j]
    ensures r.Keys <= db.Keys
    ensures key in db && tag in db[key] ==>
              (key in r <==> |db[key]| > 1) &&
              (key in r ==> multiset(r[key]) == multiset(db[key]) - multiset{tag})
  {
    if key in db && tag in db[key] then
      var rest := RemoveFirst(db[key], tag);
      RemoveFirstCount(db[key], tag);
      assert |multiset(rest)| == |multiset(db[key])| - 1;
      if rest == [] then db - {key} else db[key := rest]
    else db
  }

  /** The key order after `remove_tag`: a deleted entry leaves the order. */
  function RemovedOrder(db: Db, order: seq<string>, key: string, tag: string): seq<string> {
    if key in db && tag in db[key] && RemoveFirst(db[key], tag) == [] then RemoveFirst(order, key)
    else order
  }

  lemma RemoveTagConsistent(db: Db, order: seq<string>, key: string, tag: string)
    requires Consistent(db, order)
    ensures Consistent(RemovedTag(db, key, tag), RemovedOrder(db, order, key, tag))
  {
    RemoveFirstNoDup(order, key);
  }

  /** Removing a tag from a list without duplicates leaves the tag absent and
      the other tags in their order; removing the only tag deletes the entry. */
  lemma RemoveTagEffect(db: Db, key: string, tag: string, i: nat)
    requires key in db && i < |db[key]| && db[key][i] == tag && NoDup(db[key])
    ensures tag !in Lookup(RemovedTag(db, key, tag), key)
    ensures Lookup(RemovedTag(db, key, tag), key) == db[key][..i] + db[key][i + 1..]
    ensures key in RemovedTag(db, key, tag) <==> db[key] != [tag]
  {
    var s := db[key];
    RemoveFirstNoDup(s, tag);
    assert tag !in s[..i];
    RemoveFirstAt(s, tag, i);
    if |s| == 1 {
      assert s == [tag];
    }
  }

  /** `all(tag in tags for tag in search_tags)` with the query normalised. */
  predicate Matches(db: Db, key: string, queries: seq<string>) {
    key in db && forall q :: q in queries ==> Normalise(q) in db[key]
  }

  /** `search_by_tags`: the keys, in dict order, whose list holds every
      normalised query tag. */
  function Search(db: Db, order: seq<string>, queries: seq<string>): (r: seq<string>)
    ensures forall k :: k in r <==> k in order && Matches(db, k, queries)
    ensures IsSubsequence(r, order)
    ensures NoDup(order) ==> NoDup(r)
  {
    if order == [] then []
    else
      var front := order[..|order| - 1];
      var k := order[|order| - 1];
      var r := Search(db, front, queries);
      assert forall x :: x in order <==> x in front || x == k;
      if Matches(db, k, queries) then
        assert (r + [k])[..|r|] == r;
        assert NoDup(order) ==> k !in front;
        if NoDup(order) then NoDupAppend(r, [k]); r + [k]
        else r + [k]
      else r
  }

  /** An empty query returns every key of the dict, in order. */
  lemma {:induction false} SearchEmptyQuery(db: Db, order: seq<string>)
    requires forall k :: k in order ==> k in db
    ensures Search(db, order, []) == order
  {
    if order != [] {
      var front := order[..|order| - 1];
      var k := order[|order| - 1];
      SearchEmptyQuery(db, front);
      assert Matches(db, k, []);
      assert Search(db, order, []) == Search(db, front, []) + [k];
      assert order == front + [k];
    }
  }

  /** After tags are added to a path, searching for those tags finds it. */
  lemma SearchFindsAdded(db: Db, order: seq<string>, key: string, tags: seq<string>)
    requires forall i :: 0 <= i < |tags| ==> Normalise(tags[i]) != ""
    ensures key in Search(WithTags(db, key, tags), WithKey(order, key), tags)
  {
    var r := WithTags(db, key, tags);
    forall q | q in tags
      ensures Normalise(q) in r[key]
    {
      var i :| 0 <= i < |tags| && tags[i] == q;
      assert NormaliseAll(tags)[i] == Normalise(q);
    }
  }

  /** A stored tag, as shown to the user, finds its path when searched for. */
  lemma SearchFindsStoredTag(db: Db, order: seq<string>, key: string, tag: string)
    requires key in order && key in db && Normalise(tag) in db[key]
    ensures key in Search(db, order, [Normalise(tag)])
  {
    NormaliseIdempotent(tag);
    assert Matches(db, key, [Normalise(tag)]);
  }

  /** A path matches a query exactly when it matches the query normalised. */
  lemma MatchesNormalised(db: Db, key: string, queries: seq<string>)
    ensures Matches(db, key, NormaliseAll(queries)) == Matches(db, key, queries)
  {
    forall i | 0 <= i < |queries|
      ensures Normalise(NormaliseAll(queries)[i]) == Normalise(queries[i])
    {
      NormaliseIdempotent(queries[i]);
    }
  }

  /** Search normalises the query itself: giving it tags already normalised,
      as shown to the user, returns the same paths in the same order. */
  lemma {:induction false} SearchNormalisedQuery(db: Db, order: seq<string>, queries: seq<string>)
    ensures Search(db, order, NormaliseAll(queries)) == Search(db, order, queries)
  {
    if order != [] {
      SearchNormalisedQuery(db, order[..|order| - 1], queries);
      MatchesNormalised(db, order[|order| - 1], queries);
    }
  }

  /** The calls of the progress callback for `n` files in batches of 100:
      full batches, then the remainder, counted cumulatively against `n`. */
  function ProgressCalls(n: nat): (r: seq<Report>)
    ensures |r| == (n + 99) / 100
    ensures forall k :: 0 <= k < |r| ==> r[k].total == n && r[k].processed <= n
    ensures forall k :: 0 <= k < |r| - 1 ==> r[k].processed == 100 * (k + 1)
    ensures n > 0 ==> r[|r| - 1].processed == n
    ensures forall k :: 0 < k < |r| ==> r[k - 1].processed < r[k].processed
  {
    seq((n + 99) / 100, k requires 0 <= k => Report(if 100 * k + 100 < n then 100 * k + 100 else n, n))
  }

  /** The call made after the batch starting at file `100 * b`. */
  lemma ProgressStep(n: nat, b: nat)
    requires 100 * b < n
    ensures b < |ProgressCalls(n)|
    ensures ProgressCalls(n)[..b + 1]
            == ProgressCalls(n)[..b] + [Report(if 100 * b + 100 < n then 100 * b + 100 else n, n)]
  {
    var r := ProgressCalls(n);
    assert r[b] == Report(if 100 * b + 100 < n then 100 * b + 100 else n, n);
    assert r[..b + 1] == r[..b] + [r[b]];
  }

  /** Once the batches cover all `n` files, every call has been made. */
  lemma BatchCount(n: nat, b: nat)
    requires b <= |ProgressCalls(n)| && n <= 100 * b
    ensures b == |ProgressCalls(n)|
  {
  }

  /** 250 files are reported after 100, 200 and 250 of them. */
  lemma ProgressFor250()
    ensures ProgressCalls(250) == [Report(100, 250), Report(200, 250), Report(250, 250)]
  {
    var r := ProgressCalls(250);
    assert r[0] == Report(100, 250) && r[1] == Report(200, 250) && r[2] == Report(250, 250);
  }
}
