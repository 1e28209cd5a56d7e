/** The tag-lifetime database cache backend: save writes the entry (when data is
    stored) and the tag associations with one shared expire_time; clean dispatches
    on its mode string. */
module Backend {
  import opened Expiry
  import opened EntryStore
  import opened TagStore

  datatype Option<T> = None | Some(value: T)

  /** The two tables the backend writes. */
  datatype Tables = Tables(entries: EntryTable, tags: TagTable)

  /** The five cleaning modes clean accepts. */
  datatype Mode = All | Old | MatchingTag | NotMatchingTag | MatchingAnyTag

  /** The Zend_Cache constant that names each mode. */
  function ModeName(m: Mode): (name: string)
  {
    match m
    case All => "all"
    case Old => "old"
    case MatchingTag => "matchingTag"
    case NotMatchingTag => "notMatchingTag"
    case MatchingAnyTag => "matchingAnyTag"
  }

  /** The switch of clean: one of the five constants selects its mode, anything else none. */
  function ParseMode(s: string): (m: Option<Mode>)
    ensures m.None? <==> s !in {"all", "old", "matchingTag", "notMatchingTag", "matchingAnyTag"}
    ensures m.Some? ==> ModeName(m.value) == s
  {
    if s == "all" then Some(All)
    else if s == "old" then Some(Old)
    else if s == "matchingTag" then Some(MatchingTag)
    else if s == "notMatchingTag" then Some(NotMatchingTag)
    else if s == "matchingAnyTag" then Some(MatchingAnyTag)
    else None
  }

  /** What clean reports: the truthiness of the value it returns, or the exception for an
      unknown mode. In OLD mode with stored data that value is a row count, truthy when positive. */
  datatype CleanOutcome = Cleaned(ok: bool) | InvalidMode

  /** What the inherited tag-driven cleaner reports: the entry ids it deleted and its result. */
  datatype ByTagsOutcome = ByTagsOutcome(removedIds: set<string>, ok: bool)

  /** The inherited _cleanByTags, an external collaborator of this backend. */
  type ByTagsCleaner = (Tables, Mode, TagArg) -> ByTagsOutcome

  /** The tag table after _saveTagsWithLifetime (which always reports true). */
  function SaveTagsSpec(t: TagTable, id: string, arg: TagArg, expire: int): (r: TagTable)
    ensures r.Keys == t.Keys + Pairs(id, Elems(Normalise(arg)))
    ensures forall k :: k in r ==> r[k] == if k in t then t[k] else expire
  {
    var ts := Normalise(arg);
    if ts == [] then t else WithTags(t, id, Elems(ts), expire)
  }

  /** The tables and the result after save. `rowCount` is what the database reports
      for the entry upsert; it is consulted only when data is stored. */
  function SaveSpec(s: Tables, storeData: bool, configured: Lifetime, data: string, id: string,
                    arg: TagArg, lifetimeArg: LifetimeArg, now: int, rowCount: nat): (r: (Tables, bool))
    ensures r.1 <==> !storeData || rowCount > 0
    ensures !r.1 ==> r.0 == s
    ensures r.1 ==> r.0.tags == SaveTagsSpec(s.tags, id, arg, ExpireTime(GetLifetime(lifetimeArg, configured), now))
    ensures r.1 && storeData ==>
              r.0.entries == Upsert(s.entries, id, data, now, ExpireTime(GetLifetime(lifetimeArg, configured), now))
    ensures !storeData ==> r.0.entries == s.entries
  {
    var expire := ExpireTime(GetLifetime(lifetimeArg, configured), now);
    if storeData && rowCount == 0 then (s, false)
    else
      var entries := if storeData then Upsert(s.entries, id, data, now, expire) else s.entries;
      (Tables(entries, SaveTagsSpec(s.tags, id, arg, expire)), true)
  }

  /** The tables and the outcome after clean. In OLD mode with stored data the result is
      the number of deleted entries, so it is true only when some entry was deleted. */
  function CleanSpec(s: Tables, storeData: bool, mode: string, arg: TagArg, now: int,
                     byTags: ByTagsCleaner): (r: (Tables, CleanOutcome))
    ensures r.1 == InvalidMode <==> ParseMode(mode).None?
    ensures r.1 == InvalidMode ==> r.0 == s
    ensures r.0.entries.Keys <= s.entries.Keys && r.0.tags.Keys <= s.tags.Keys
    ensures forall id :: id in r.0.entries ==> r.0.entries[id] == s.entries[id]
    ensures forall k :: k in r.0.tags ==> r.0.tags[k] == s.tags[k]
  {
    match ParseMode(mode)
    case None => (s, InvalidMode)
    case Some(All) =>
      (Tables(if storeData then map[] else s.entries, map[]), Cleaned(true))
    case Some(Old) =>
      var ok := if storeData then |ExpiredIds(s.entries, now)| > 0 else true;
      (Tables(if storeData then EntryStore.Sweep(s.entries, now) else s.entries,
              TagStore.Sweep(s.tags, now)), Cleaned(ok))
    case Some(m) =>
      var o := byTags(s, m, arg);
      (Tables(if storeData then s.entries - o.removedIds else s.entries, s.tags), Cleaned(o.ok))
  }

  class CacheBackend {
    /** Whether entries are persisted (the `store_data` option). */
    const storeData: bool
    /** The configured default lifetime that `false` selects. */
    const lifetime: Lifetime
    var entries: EntryTable
    var tags: TagTable

    function State(): Tables
      reads this
    {
      Tables(entries, tags)
    }

    /** A backend over tables that already hold `entries` and `tags`. */
    constructor (storeData: bool, lifetime: Lifetime, entries: EntryTable, tags: TagTable)
      ensures this.storeData == storeData && this.lifetime == lifetime
      ensures State() == Tables(entries, tags)
    {
      this.storeData := storeData;
      this.lifetime := lifetime;
      this.entries := entries;
      this.tags := tags;
    }

    /** save: compute the expire_time once, upsert the entry when data is stored
        (giving up when no row was affected), then save the tags with that expire_time. */
    method Save(data: string, id: string, arg: TagArg, lifetimeArg: LifetimeArg, now: int, rowCount: nat)
      returns (ok: bool)
      modifies this
      ensures (State(), ok) == SaveSpec(old(State()), storeData, lifetime, data, id, arg, lifetimeArg, now, rowCount)
    {
      var l := GetLifetime(lifetimeArg, lifetime);
      var expire := ExpireTime(l, now);
      if storeData {
        if rowCount == 0 {
          return false;
        }
        entries := Upsert(entries, id, data, now, expire);
      }
      ok := SaveTagsWithLifetime(id, arg, expire);
    }

    /** _saveTagsWithLifetime: insert the (tag, id) pairs not yet stored, one per missing tag,
        ignoring any pair already present. */
    method SaveTagsWithLifetime(id: string, arg: TagArg, expire: int) returns (ok: bool)
      modifies this
      ensures ok
      ensures entries == old(entries)
      ensures tags == SaveTagsSpec(old(tags), id, arg, expire)
    {
      var ts := Normalise(arg);
      if ts == [] {
        return true;
      }
      ghost var t0 := tags;
      var existing := ExistingTags(tags, id, ts);
      var insertTags := Difference(ts, existing);
      if insertTags != [] {
        var i := 0;
        while i < |insertTags|
          invariant 0 <= i <= |insertTags|
          invariant entries == old(entries)
          invariant tags == WithTags(t0, id, Elems(insertTags[..i]), expire)
        {
          var x := insertTags[i];
          ghost var done := Elems(insertTags[..i]);
          WithTagsInsertOne(t0, id, done, x, expire);
          ElemsPrefix(insertTags, i);
          if TagKey(x, id) !in tags {
            tags := tags[TagKey(x, id) := expire];
          }
          assert tags == WithTags(t0, id, done + {x}, expire);
          i := i + 1;
        }
        assert insertTags[..i] == insertTags;
      } else {
        WithTagsNone(t0, id, expire);
      }
      DifferenceElems(ts, existing);
      WithTagsSkipPresent(t0, id, Elems(ts), existing, expire);
      ok := true;
    }

    /** clean: truncate both tables (ALL), sweep stale rows (OLD), delegate the three
        tag-matching modes, and throw for any other mode. */
    method Clean(mode: string, arg: TagArg, now: int, byTags: ByTagsCleaner) returns (r: CleanOutcome)
      modifies this
      ensures (State(), r) == CleanSpec(old(State()), storeData, mode, arg, now, byTags)
    {
      match ParseMode(mode)
      case None =>
        r := InvalidMode;
      case Some(All) =>
        if storeData {
          entries := map[];
        }
        tags := map[];
        r := Cleaned(true);
      case Some(Old) =>
        var ok := true;
        if storeData {
          var removed := ExpiredIds(entries, now);
          entries := entries - removed;
          ok := |removed| > 0;
        }
        tags := TagStore.Sweep(tags, now);
        r := Cleaned(ok);
      case Some(m) =>
        var o := byTags(State(), m, arg);
        if storeData {
          entries := entries - o.removedIds;
        }
        r := Cleaned(o.ok);
    }
  }
}
