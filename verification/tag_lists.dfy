/** The list operations behind a path's tag list: appending already
    normalised tags without duplicates (the loop of `add_tags`) and Python's
    `list.remove`. */
module TagLists {

  predicate NoDup<T(==)>(s: seq<T>) {
    forall i, j :: 0 <= i < j < |s| ==> s[i] != s[j]
  }

  /** `r` is `s` with some elements left out and the rest in their order. */
  predicate IsSubsequence<T(==)>(r: seq<T>, s: seq<T>) {
    r == [] ||
    (s != [] &&
     ((r[|r| - 1] == s[|s| - 1] && IsSubsequence(r[..|r| - 1], s[..|s| - 1]))
      || IsSubsequence(r, s[..|s| - 1])))
  }

  /** The tag list left by the loop `for tag in tags: tag = tag.strip().lower();
      if tag and tag not in lst: lst.append(tag)`, started on `existing`, with
      `ns` the tags already normalised. */
  function MergeTags(existing: seq<string>, ns: seq<string>): seq<string> {
    if ns == [] then existing
    else
      var r := MergeTags(existing, ns[..|ns| - 1]);
      var t := ns[|ns| - 1];
      if t != "" && t !in r then r + [t] else r
  }

  /** Reference definition, part one: the non-empty tags of `ns` that
      `existing` lacks, repeats included, in the order given. */
  function Kept(existing: seq<string>, ns: seq<string>): seq<string> {
    if ns == [] then []
    else
      var t := ns[|ns| - 1];
      Kept(existing, ns[..|ns| - 1]) + (if t != "" && t !in existing then [t] else [])
  }

  lemma {:induction false} KeptMembers(existing: seq<string>, ns: seq<string>)
    ensures forall x :: x in Kept(existing, ns) <==> x !in existing && x != "" && x in ns
  {
    if ns != [] {
      var front := ns[..|ns| - 1];
      KeptMembers(existing, front);
      assert ns == front + [ns[|ns| - 1]];
    }
  }

  /** Reference definition, part two: the first occurrence of every element of `s`. */
  function Dedup(s: seq<string>): (r: seq<string>)
    ensures forall x :: x in r <==> x in s
    ensures NoDup(r)
  {
    if s == [] then []
    else
      var d := Dedup(s[..|s| - 1]);
      if s[|s| - 1] in d then d else d + [s[|s| - 1]]
  }

  /** The tag loop keeps `existing` as it is and appends, in order of first
      occurrence, each normalised non-empty tag that `existing` lacks. */
  lemma {:induction false} MergeTagsSpec(existing: seq<string>, ns: seq<string>)
    ensures MergeTags(existing, ns) == existing + Dedup(Kept(existing, ns))
  {
    if ns != [] {
      var front := ns[..|ns| - 1];
      var t := ns[|ns| - 1];
      MergeTagsSpec(existing, front);
      var r := MergeTags(existing, front);
      var k := Kept(existing, front);
      var d := Dedup(k);
      assert r == existing + d;
      if t != "" && t !in existing {
        var k' := k + [t];
        assert Kept(existing, ns) == k';
        assert k'[..|k'| - 1] == k;
        assert Dedup(k') == if t in d then d else d + [t];
        assert t in r <==> t in d;
      } else {
        assert Kept(existing, ns) == k + [];
        assert k + [] == k;
      }
    }
  }

  /** After the loop the list holds exactly the old tags and the non-empty
      new ones. */
  lemma MergeTagsMembers(existing: seq<string>, ns: seq<string>)
    ensures forall x :: x in MergeTags(existing, ns) <==> x in existing || (x != "" && x in ns)
  {
    MergeTagsSpec(existing, ns);
    KeptMembers(existing, ns);
  }

  lemma NoDupAppend<T>(a: seq<T>, b: seq<T>)
    requires NoDup(a) && NoDup(b)
    requires forall x :: x in b ==> x !in a
    ensures NoDup(a + b)
  {
    forall i, j | 0 <= i < j < |a + b|
      ensures (a + b)[i] != (a + b)[j]
    {
      if j < |a| {
        assert (a + b)[i] == a[i] && (a + b)[j] == a[j];
      } else if i < |a| {
        assert (a + b)[i] == a[i] && (a + b)[j] == b[j - |a|];
        assert b[j - |a|] in b;
      } else {
        assert (a + b)[i] == b[i - |a|] && (a + b)[j] == b[j - |a|];
      }
    }
  }

  /** A list without duplicates stays without duplicates. */
  lemma MergeTagsNoDup(existing: seq<string>, ns: seq<string>)
    ensures NoDup(existing) ==> NoDup(MergeTags(existing, ns))
  {
    MergeTagsSpec(existing, ns);
    KeptMembers(existing, ns);
    if NoDup(existing) {
      NoDupAppend(existing, Dedup(Kept(existing, ns)));
    }
  }

  lemma {:induction false} KeptNone(existing: seq<string>, ns: seq<string>)
    requires forall x :: x in ns && x != "" ==> x in existing
    ensures Kept(existing, ns) == []
  {
    if ns != [] {
      var front := ns[..|ns| - 1];
      assert forall x :: x in front ==> x in ns;
      KeptNone(existing, front);
    }
  }

  /** Running the tag loop a second time with the same tags changes nothing. */
  lemma MergeTagsIdempotent(existing: seq<string>, ns: seq<string>)
    ensures MergeTags(MergeTags(existing, ns), ns) == MergeTags(existing, ns)
  {
    var r := MergeTags(existing, ns);
    MergeTagsMembers(existing, ns);
    KeptNone(r, ns);
    MergeTagsSpec(r, ns);
    assert Dedup([]) == [];
    assert r + [] == r;
  }

  /** Python's `s.remove(x)` when `x in s`: drops the first occurrence only. */
  function RemoveFirst(s: seq<string>, x: string): (r: seq<string>)
    ensures x !in s ==> r == s
  {
    if s == [] then []
    else if s[0] == x then s[1..]
    else [s[0]] + RemoveFirst(s[1..], x)
  }

  /** When `x` occurs, exactly one copy of it is taken out. */
  lemma {:induction false} RemoveFirstCount(s: seq<string>, x: string)
    requires x in s
    ensures multiset(RemoveFirst(s, x)) == multiset(s) - multiset{x}
  {
    assert s == [s[0]] + s[1..];
    if s[0] != x {
      RemoveFirstCount(s[1..], x);
    }
  }

  /** In a list without duplicates, removal takes out `x` and nothing else. */
  lemma {:induction false} RemoveFirstNoDup(s: seq<string>, x: string)
    requires NoDup(s)
    ensures NoDup(RemoveFirst(s, x))
    ensures forall y :: y in RemoveFirst(s, x) <==> y in s && y != x
  {
    if s != [] && s[0] != x {
      assert s == [s[0]] + s[1..];
      assert NoDup(s[1..]);
      RemoveFirstNoDup(s[1..], x);
      NoDupAppend([s[0]], RemoveFirst(s[1..], x));
    }
  }

  /** The remaining elements keep their order: what was before the removed
      occurrence, then what was after it. */
  lemma {:induction false} RemoveFirstAt(s: seq<string>, x: string, i: nat)
    requires i < |s| && s[i] == x && forall j :: 0 <= j < i ==> s[j] != x
    ensures RemoveFirst(s, x) == s[..i] + s[i + 1..]
  {
    if i > 0 {
      var t := s[1..];
      RemoveFirstAt(t, x, i - 1);
      assert RemoveFirst(s, x) == [s[0]] + RemoveFirst(t, x);
      assert s[..i] == [s[0]] + t[..i - 1];
      assert s[i + 1..] == t[i..];
    }
  }
}
