/** The tag table: one row per (tag, cache_id) pair, carrying that association's
    own expire_time. The map key makes the pair unique; tags and ids compare as exact strings. */
module TagStore {
  import opened Expiry

  /** The key of a tag row: the pair (tag, cache_id). */
  datatype TagKey = TagKey(tag: string, cacheId: string)

  /** Tag rows, mapped to their expire_time. */
  type TagTable = map<TagKey, int>

  /** The `$tags` argument of save: an array of tags, or one non-array value. */
  datatype TagArg = TagList(tags: seq<string>) | SingleTag(tag: string)

  /** A single non-array value is wrapped into a one-element list, so only an
      empty array yields no tags. */
  function Normalise(arg: TagArg): (ts: seq<string>)
    ensures ts == [] <==> arg == TagList([])
    ensures arg.SingleTag? ==> ts == [arg.tag]
    ensures arg.TagList? ==> ts == arg.tags
  {
    match arg
    case TagList(ts) => ts
    case SingleTag(x) => [x]
  }

  function Elems(s: seq<string>): (e: set<string>)
  {
    set x | x in s
  }

  /** The tags among `ts` already stored for `id` (the SELECT tag ... WHERE cache_id = id AND tag IN ts). */
  function ExistingTags(t: TagTable, id: string, ts: seq<string>): (e: set<string>)
  {
    set x | x in ts && TagKey(x, id) in t
  }

  /** array_diff: the elements of `ts` outside `existing`, in order, repeats kept. */
  function Difference(ts: seq<string>, existing: set<string>): (d: seq<string>)
    ensures forall x :: x in d <==> x in ts && x !in existing
    ensures forall x :: multiset(d)[x] == if x in existing then 0 else multiset(ts)[x]
  {
    if ts == [] then []
    else
      var rest := Difference(ts[1..], existing);
      assert ts == [ts[0]] + ts[1..];
      if ts[0] in existing then rest else [ts[0]] + rest
  }

  lemma ElemsPrefix(s: seq<string>, i: nat)
    requires i < |s|
    ensures Elems(s[..i + 1]) == Elems(s[..i]) + {s[i]}
  {
  }

  lemma DifferenceElems(ts: seq<string>, existing: set<string>)
    ensures Elems(Difference(ts, existing)) == Elems(ts) - existing
  {
  }

  /** The keys (x, id) for every tag x in `s`. */
  function Pairs(id: string, s: set<string>): (p: set<TagKey>)
  {
    set x | x in s :: TagKey(x, id)
  }

  /** Distinct tags give distinct keys: one key per tag. */
  lemma {:induction false} PairsCount(id: string, s: set<string>)
    ensures |Pairs(id, s)| == |s|
  {
    if s != {} {
      var x :| x in s;
      PairsCount(id, s - {x});
      assert Pairs(id, s) == Pairs(id, s - {x}) + {TagKey(x, id)};
    }
  }

  /** The effect of INSERT IGNORE of (x, id, expire) for every x in `s`: missing pairs
      are added with `expire`, pairs already present keep their row as it was. */
  function WithTags(t: TagTable, id: string, s: set<string>, expire: int): (r: TagTable)
    ensures forall k :: k in t ==> k in r && r[k] == t[k]
  {
    map k | k in t.Keys + Pairs(id, s) :: if k in t then t[k] else expire
  }

  /** No pair is stored twice: inserting the tags of `s` adds exactly one row per tag
      whose pair with `id` is missing, and nothing for the others. */
  lemma WithTagsGrowth(t: TagTable, id: string, s: set<string>, expire: int)
    ensures |WithTags(t, id, s, expire)| == |t| + |set x | x in s && TagKey(x, id) !in t|
  {
    var missing := set x | x in s && TagKey(x, id) !in t;
    PairsCount(id, missing);
    assert WithTags(t, id, s, expire).Keys == t.Keys + Pairs(id, missing);
    assert t.Keys * Pairs(id, missing) == {};
  }

  /** The rows whose association is stale at `now`. */
  function ExpiredKeys(t: TagTable, now: int): (x: set<TagKey>)
  {
    set k | k in t && IsExpired(t[k], now)
  }

  /** DELETE WHERE expire_time > 0 AND expire_time <= now on the tag table. */
  function Sweep(t: TagTable, now: int): (r: TagTable)
    ensures forall k :: k in r <==> k in t && !IsExpired(t[k], now)
    ensures forall k :: k in r ==> r[k] == t[k]
  {
    t - ExpiredKeys(t, now)
  }

  /** What WithTags means row by row: every given tag is associated with `id`, old rows
      keep their expire_time, new rows carry `expire`, and rows for other ids do not change. */
  lemma WithTagsRows(t: TagTable, id: string, s: set<string>, expire: int)
    ensures forall x :: x in s ==> TagKey(x, id) in WithTags(t, id, s, expire)
    ensures forall k :: k in t ==> k in WithTags(t, id, s, expire) && WithTags(t, id, s, expire)[k] == t[k]
    ensures forall k :: k in WithTags(t, id, s, expire) && k !in t ==>
              k.cacheId == id && k.tag in s && WithTags(t, id, s, expire)[k] == expire
  {
  }

  /** Inserting one more tag with INSERT IGNORE extends the inserted set by that tag. */
  lemma WithTagsInsertOne(t: TagTable, id: string, s: set<string>, x: string, expire: int)
    ensures var w := WithTags(t, id, s, expire);
            (if TagKey(x, id) in w then w else w[TagKey(x, id) := expire])
            == WithTags(t, id, s + {x}, expire)
  {
  }

  /** Tags whose pair is already stored can be left out of the insert without changing its effect. */
  lemma WithTagsSkipPresent(t: TagTable, id: string, s: set<string>, present: set<string>, expire: int)
    requires forall x :: x in present ==> TagKey(x, id) in t
    ensures WithTags(t, id, s - present, expire) == WithTags(t, id, s, expire)
  {
  }

  /** The SELECT and array_diff together: the tags left to insert are exactly the given
      tags whose pair with `id` is not stored yet, each with its multiplicity in `ts`. */
  lemma MissingTags(t: TagTable, id: string, ts: seq<string>)
    ensures var d := Difference(ts, ExistingTags(t, id, ts));
            && (forall x :: x in d <==> x in ts && TagKey(x, id) !in t)
            && (forall x :: TagKey(x, id) !in t ==> multiset(d)[x] == multiset(ts)[x])
  {
  }

  lemma WithTagsNone(t: TagTable, id: string, expire: int)
    ensures WithTags(t, id, {}, expire) == t
  {
  }

  /** Inserting the same tags again, whatever the new expire value, changes nothing. */
  lemma WithTagsIdempotent(t: TagTable, id: string, s: set<string>, e1: int, e2: int)
    ensures WithTags(WithTags(t, id, s, e1), id, s, e2) == WithTags(t, id, s, e1)
  {
  }
}
