/**
 The caption index that the training dataset builds from the parsed
 annotation list: which image ids occur, which captions belong to each id,
 and the order in which ids first appear. Everything here is a reference
 definition over the annotation sequence; the dataset's constructor is
 proved to build exactly these values.
 */
module CaptionIndex {

  /** One element of the annotation file's `annotations` list. */
  datatype Annotation = Annotation(imageId: int, caption: string)

  /** The set of image ids that occur in the records. */
  function ImageIds(anns: seq<Annotation>): set<int>
  {
    set i | 0 <= i < |anns| :: anns[i].imageId
  }

  /**
   The captions of the records whose id is `id`, in record order and with
   duplicates kept.
   */
  function CaptionsOf(anns: seq<Annotation>, id: int): (r: seq<string>)
    ensures |r| <= |anns|
  {
    if anns == [] then []
    else
      var last := anns[|anns| - 1];
      CaptionsOf(anns[..|anns| - 1], id) + (if last.imageId == id then [last.caption] else [])
  }

  /** The grouped index: each id that occurs, mapped to its captions. */
  function Index(anns: seq<Annotation>): (m: map<int, seq<string>>)
    ensures m.Keys == ImageIds(anns)
  {
    map id | id in ImageIds(anns) :: CaptionsOf(anns, id)
  }

  /** The distinct ids, listed in the order in which each first occurs. */
  function FirstAppearance(anns: seq<Annotation>): (r: seq<int>)
  {
    if anns == [] then []
    else
      var earlier := FirstAppearance(anns[..|anns| - 1]);
      var id := anns[|anns| - 1].imageId;
      if id in earlier then earlier else earlier + [id]
  }

  /** The position of the first record with id `id`. */
  function FirstIndex(anns: seq<Annotation>, id: int): (i: nat)
    requires id in ImageIds(anns)
    ensures i < |anns| && anns[i].imageId == id
    ensures forall j :: 0 <= j < i ==> anns[j].imageId != id
  {
    var init := anns[..|anns| - 1];
    if id in ImageIds(init) then
      FirstIndex(init, id)
    else
      assert forall j :: 0 <= j < |init| ==> init[j].imageId in ImageIds(init);
      |anns| - 1
  }

  /** No value occurs twice. */
  predicate Distinct(s: seq<int>)
  {
    forall p, q :: 0 <= p < q < |s| ==> s[p] != s[q]
  }

  /** The summed lengths of the lists that `index` holds under `keys` (a missing key holds none). */
  function TotalLength(index: map<int, seq<string>>, keys: seq<int>): nat
  {
    if keys == [] then 0
    else
      var last := keys[|keys| - 1];
      TotalLength(index, keys[..|keys| - 1]) + (if last in index then |index[last]| else 0)
  }

  /** The summed numbers of captions that the records hold for `keys`. */
  ghost function CaptionCount(anns: seq<Annotation>, keys: seq<int>): nat
  {
    if keys == [] then 0
    else CaptionCount(anns, keys[..|keys| - 1]) + |CaptionsOf(anns, keys[|keys| - 1])|
  }

  // ---------------------------------------------------------------------
  // Membership of ids

  lemma ImageIdsSnoc(anns: seq<Annotation>, a: Annotation)
    ensures ImageIds(anns + [a]) == ImageIds(anns) + {a.imageId}
  {
    var s := anns + [a];
    forall id | id in ImageIds(s) ensures id in ImageIds(anns) + {id} && (id == a.imageId || id in ImageIds(anns)) {
      var i :| 0 <= i < |s| && s[i].imageId == id;
      if i < |anns| { assert anns[i] == s[i]; }
    }
    forall id | id in ImageIds(anns) ensures id in ImageIds(s) {
      var i :| 0 <= i < |anns| && anns[i].imageId == id;
      assert s[i] == anns[i];
    }
    assert s[|anns|] == a;
  }

  /** An id has a non-empty caption list exactly when some record carries it. */
  lemma {:induction false} CaptionsNonEmpty(anns: seq<Annotation>, id: int)
    ensures CaptionsOf(anns, id) != [] <==> id in ImageIds(anns)
  {
    if anns != [] {
      var init, last := anns[..|anns| - 1], anns[|anns| - 1];
      assert anns == init + [last];
      CaptionsNonEmpty(init, id);
      ImageIdsSnoc(init, last);
    }
  }

  /** Every list of the grouped index is non-empty. */
  lemma IndexListsNonEmpty(anns: seq<Annotation>)
    ensures forall id :: id in Index(anns) ==> Index(anns)[id] != []
  {
    forall id | id in Index(anns) ensures Index(anns)[id] != [] {
      CaptionsNonEmpty(anns, id);
    }
  }

  // ---------------------------------------------------------------------
  // Captions: order and multiplicity

  /**
   Grouping distributes over concatenation of the record list: the captions
   of a later stretch of records follow those of an earlier one.
   */
  lemma {:induction false} CaptionsOfAppend(a: seq<Annotation>, b: seq<Annotation>, id: int)
    ensures CaptionsOf(a + b, id) == CaptionsOf(a, id) + CaptionsOf(b, id)
  {
    if b == [] {
      assert a + b == a;
    } else {
      var binit, last := b[..|b| - 1], b[|b| - 1];
      assert (a + b)[..|a + b| - 1] == a + binit;
      CaptionsOfAppend(a, binit, id);
    }
  }

  /** A single record contributes its caption to its own id and to no other. */
  lemma CaptionsOfSingle(a: Annotation, id: int)
    ensures CaptionsOf([a], id) == if a.imageId == id then [a.caption] else []
  {
    assert [a][..0] == [];
  }

  /**
   Duplicates are kept and nothing is invented: a caption occurs in the list
   of `id` exactly as many times as the record `(id, caption)` occurs.
   */
  lemma {:induction false} CaptionMultiplicity(anns: seq<Annotation>, id: int, c: string)
    ensures multiset(CaptionsOf(anns, id))[c] == multiset(anns)[Annotation(id, c)]
  {
    if anns != [] {
      var init, last := anns[..|anns| - 1], anns[|anns| - 1];
      assert anns == init + [last];
      CaptionMultiplicity(init, id, c);
    }
  }

  /** A caption is listed under `id` iff a record pairs it with `id`. */
  lemma {:induction false} CaptionMembership(anns: seq<Annotation>, id: int, c: string)
    ensures c in CaptionsOf(anns, id) <==> Annotation(id, c) in anns
  {
    CaptionMultiplicity(anns, id, c);
  }

  // ---------------------------------------------------------------------
  // The grouped index, one record at a time

  /** Adding a record appends its caption to its id's list, creating the list if needed. */
  lemma IndexSnoc(anns: seq<Annotation>, a: Annotation)
    ensures Index(anns + [a]) ==
      Index(anns)[a.imageId := (if a.imageId in Index(anns) then Index(anns)[a.imageId] else []) + [a.caption]]
  {
    var s := anns + [a];
    assert s[..|s| - 1] == anns;
    ImageIdsSnoc(anns, a);
    var lhs, old_ := Index(s), Index(anns);
    var rhs := old_[a.imageId := (if a.imageId in old_ then old_[a.imageId] else []) + [a.caption]];
    assert lhs.Keys == rhs.Keys;
    forall id | id in lhs ensures lhs[id] == rhs[id] {
      assert lhs[id] == CaptionsOf(anns, id) + (if a.imageId == id then [a.caption] else []);
      if id == a.imageId && a.imageId !in old_ {
        CaptionsNonEmpty(anns, id);
      }
    }
  }

  // ---------------------------------------------------------------------
  // Order of first appearance

  /** The listed ids are exactly the ids that occur. */
  lemma {:induction false} FirstAppearanceElements(anns: seq<Annotation>)
    ensures forall id :: id in FirstAppearance(anns) <==> id in ImageIds(anns)
  {
    if anns != [] {
      var init, last := anns[..|anns| - 1], anns[|anns| - 1];
      assert anns == init + [last];
      FirstAppearanceElements(init);
      ImageIdsSnoc(init, last);
    }
  }

  /** No id is listed twice. */
  lemma {:induction false} FirstAppearanceDistinct(anns: seq<Annotation>)
    ensures Distinct(FirstAppearance(anns))
  {
    if anns != [] {
      FirstAppearanceDistinct(anns[..|anns| - 1]);
    }
  }

  /** Within the records, an id's first record is unaffected by appending a record. */
  lemma FirstIndexSnoc(anns: seq<Annotation>, a: Annotation, id: int)
    requires id in ImageIds(anns)
    ensures id in ImageIds(anns + [a]) && FirstIndex(anns + [a], id) == FirstIndex(anns, id)
  {
    var s := anns + [a];
    ImageIdsSnoc(anns, a);
    assert s[..|s| - 1] == anns;
  }

  /** An id listed earlier first occurs in an earlier record. */
  lemma {:induction false} FirstAppearanceOrdered(anns: seq<Annotation>, p: nat, q: nat)
    requires p < q < |FirstAppearance(anns)|
    ensures FirstAppearance(anns)[p] in ImageIds(anns) && FirstAppearance(anns)[q] in ImageIds(anns)
    ensures FirstIndex(anns, FirstAppearance(anns)[p]) < FirstIndex(anns, FirstAppearance(anns)[q])
  {
    var init, last := anns[..|anns| - 1], anns[|anns| - 1];
    assert anns == init + [last];
    var earlier, r := FirstAppearance(init), FirstAppearance(anns);
    FirstAppearanceElements(init);
    FirstAppearanceElements(anns);
    assert r[p] in r && r[q] in r;
    FirstIndexSnoc(init, last, r[p]);
    if q < |earlier| {
      FirstAppearanceOrdered(init, p, q);
      FirstIndexSnoc(init, last, r[q]);
    } else {
      // r[q] is the id of the last record, which no earlier record carries
      assert r[q] == last.imageId && last.imageId !in ImageIds(init);
      assert FirstIndex(anns, r[q]) == |init|;
    }
  }

  /**
   The key list and the grouped index agree: each listed id is a key, each
   key is listed exactly once, and each key has captions.
   */
  lemma KeyListMatchesIndex(anns: seq<Annotation>)
    ensures forall i :: 0 <= i < |FirstAppearance(anns)| ==> FirstAppearance(anns)[i] in Index(anns)
    ensures forall id :: id in Index(anns) ==> id in FirstAppearance(anns)
    ensures Distinct(FirstAppearance(anns))
    ensures forall id :: id in Index(anns) ==> Index(anns)[id] != []
  {
    var r := FirstAppearance(anns);
    FirstAppearanceElements(anns);
    FirstAppearanceDistinct(anns);
    IndexListsNonEmpty(anns);
    forall i | 0 <= i < |r| ensures r[i] in Index(anns) {
      assert r[i] in r;
    }
  }

  lemma {:induction false} DistinctCardinality(s: seq<int>)
    requires Distinct(s)
    ensures |set x | x in s| == |s|
  {
    if s != [] {
      var init, last := s[..|s| - 1], s[|s| - 1];
      assert s == init + [last];
      DistinctCardinality(init);
      assert (set x | x in s) == (set x | x in init) + {last};
      assert last !in (set x | x in init);
    }
  }

  /** As many ids are listed as there are distinct ids in the records. */
  lemma FirstAppearanceLength(anns: seq<Annotation>)
    ensures |FirstAppearance(anns)| == |ImageIds(anns)|
  {
    var r := FirstAppearance(anns);
    FirstAppearanceDistinct(anns);
    FirstAppearanceElements(anns);
    DistinctCardinality(r);
    assert (set x | x in r) == ImageIds(anns);
  }

  // ---------------------------------------------------------------------
  // Nothing dropped, nothing duplicated

  lemma {:induction false} CaptionCountEmpty(keys: seq<int>)
    ensures CaptionCount([], keys) == 0
  {
    if keys != [] {
      CaptionCountEmpty(keys[..|keys| - 1]);
    }
  }

  lemma {:induction false} CaptionCountSnoc(anns: seq<Annotation>, a: Annotation, keys: seq<int>)
    ensures CaptionCount(anns + [a], keys) == CaptionCount(anns, keys) + multiset(keys)[a.imageId]
  {
    if keys != [] {
      var init, last := keys[..|keys| - 1], keys[|keys| - 1];
      assert keys == init + [last];
      CaptionCountSnoc(anns, a, init);
      var s := anns + [a];
      assert s[..|s| - 1] == anns;
    }
  }

  lemma {:induction false} DistinctOccursOnce(keys: seq<int>, k: int)
    requires Distinct(keys) && k in keys
    ensures multiset(keys)[k] == 1
  {
    var init, last := keys[..|keys| - 1], keys[|keys| - 1];
    assert keys == init + [last];
    if last == k {
      assert k !in init;
    } else {
      DistinctOccursOnce(init, k);
    }
  }

  /** Counting over keys that list every id once counts every record once. */
  lemma {:induction false} CaptionCountAll(anns: seq<Annotation>, keys: seq<int>)
    requires Distinct(keys)
    requires forall id :: id in ImageIds(anns) ==> id in keys
    ensures CaptionCount(anns, keys) == |anns|
  {
    if anns == [] {
      CaptionCountEmpty(keys);
    } else {
      var init, last := anns[..|anns| - 1], anns[|anns| - 1];
      assert anns == init + [last];
      ImageIdsSnoc(init, last);
      CaptionCountAll(init, keys);
      CaptionCountSnoc(init, last, keys);
      DistinctOccursOnce(keys, last.imageId);
    }
  }

  lemma {:induction false} TotalLengthOfIndex(anns: seq<Annotation>, keys: seq<int>)
    ensures TotalLength(Index(anns), keys) == CaptionCount(anns, keys)
  {
    if keys != [] {
      TotalLengthOfIndex(anns, keys[..|keys| - 1]);
      CaptionsNonEmpty(anns, keys[|keys| - 1]);
    }
  }

  /** The caption lists, taken over the listed ids, hold exactly one caption per record. */
  lemma CaptionsAccountedFor(anns: seq<Annotation>)
    ensures TotalLength(Index(anns), FirstAppearance(anns)) == |anns|
  {
    var keys := FirstAppearance(anns);
    FirstAppearanceElements(anns);
    FirstAppearanceDistinct(anns);
    TotalLengthOfIndex(anns, keys);
    CaptionCountAll(anns, keys);
  }
}
