/** Properties of save and clean, stated on the specification functions that the
    backend's methods are proved against. */
module BackendProperties {
  import opened Expiry
  import opened EntryStore
  import opened TagStore
  import opened Backend

  /** One successful save writes a single expire_time: the entry row (when data is stored)
      and every tag row it inserts carry the same value. */
  lemma SaveSharesOneExpireTime(s: Tables, storeData: bool, configured: Lifetime, data: string, id: string,
                                arg: TagArg, lifetimeArg: LifetimeArg, now: int, rowCount: nat)
    requires !storeData || rowCount > 0
    ensures var (s', ok) := SaveSpec(s, storeData, configured, data, id, arg, lifetimeArg, now, rowCount);
            var expire := ExpireTime(GetLifetime(lifetimeArg, configured), now);
            && ok
            && (storeData ==> id in s'.entries && s'.entries[id].expireTime == expire)
            && (forall k :: k in s'.tags && k !in s.tags ==> k.cacheId == id && s'.tags[k] == expire)
  {
  }

  /** A lifetime override makes save independent of the configured default lifetime, and
      `false` behaves exactly as passing the configured default explicitly. */
  lemma SaveLifetimeOverride(s: Tables, storeData: bool, c1: Lifetime, c2: Lifetime, data: string, id: string,
                             arg: TagArg, l: Lifetime, now: int, rowCount: nat)
    ensures SaveSpec(s, storeData, c1, data, id, arg, Specific(l), now, rowCount)
            == SaveSpec(s, storeData, c2, data, id, arg, Specific(l), now, rowCount)
    ensures SaveSpec(s, storeData, c1, data, id, arg, UseDefault, now, rowCount)
            == SaveSpec(s, storeData, c2, data, id, arg, Specific(c1), now, rowCount)
  {
  }

  /** With data stored, saving an existing id overwrites only its data and expire_time;
      a new id is inserted with both timestamps set to the save's clock. Other entries stay. */
  lemma SaveUpsertsEntry(s: Tables, configured: Lifetime, data: string, id: string,
                         arg: TagArg, lifetimeArg: LifetimeArg, now: int, rowCount: nat)
    requires rowCount > 0
    ensures var s' := SaveSpec(s, true, configured, data, id, arg, lifetimeArg, now, rowCount).0;
            var expire := ExpireTime(GetLifetime(lifetimeArg, configured), now);
            && s'.entries.Keys == s.entries.Keys + {id}
            && (id in s.entries ==> s'.entries[id] == s.entries[id].(data := data, expireTime := expire))
            && (id !in s.entries ==> s'.entries[id] == Entry(data, now, now, expire))
            && (forall k :: k in s.entries && k != id ==> s'.entries[k] == s.entries[k])
  {
  }

  /** With data stored, an upsert that affects no row makes save fail and leaves both tables as they were. */
  lemma SaveFailsWithoutAffectedRows(s: Tables, configured: Lifetime, data: string, id: string,
                                     arg: TagArg, lifetimeArg: LifetimeArg, now: int)
    ensures SaveSpec(s, true, configured, data, id, arg, lifetimeArg, now, 0) == (s, false)
  {
  }

  /** Without stored data, save never touches the entry table and always succeeds. */
  lemma SaveWithoutDataKeepsEntries(s: Tables, configured: Lifetime, data: string, id: string,
                                    arg: TagArg, lifetimeArg: LifetimeArg, now: int, rowCount: nat)
    ensures var (s', ok) := SaveSpec(s, false, configured, data, id, arg, lifetimeArg, now, rowCount);
            ok && s'.entries == s.entries
  {
  }

  /** After saving tags, every given tag is associated with the id; rows that existed keep their
      expire_time; the only new rows are (tag, id) for given tags, carrying the new expire_time;
      rows of other ids are unchanged. */
  lemma SaveTagsAssociatesEveryTag(t: TagTable, id: string, arg: TagArg, expire: int)
    ensures var t' := SaveTagsSpec(t, id, arg, expire);
            && (forall x :: x in Normalise(arg) ==> TagKey(x, id) in t')
            && (forall k :: k in t ==> k in t' && t'[k] == t[k])
            && (forall k :: k in t' && k !in t ==> k.cacheId == id && k.tag in Normalise(arg) && t'[k] == expire)
            && (forall k :: k in t' && k.cacheId != id ==> k in t && t'[k] == t[k])
  {
  }

  /** An empty tag list changes nothing, and a single non-array tag acts as a one-element list. */
  lemma SaveTagsEmptyAndSingle(t: TagTable, id: string, x: string, expire: int)
    ensures SaveTagsSpec(t, id, TagList([]), expire) == t
    ensures SaveTagsSpec(t, id, SingleTag(x), expire) == SaveTagsSpec(t, id, TagList([x]), expire)
    ensures TagKey(x, id) in SaveTagsSpec(t, id, SingleTag(x), expire)
  {
  }

  /** Repeated tags collapse: two tag lists with the same tags, in any order and with any
      repetition, have the same effect. */
  lemma SaveTagsDuplicatesCollapse(t: TagTable, id: string, a: seq<string>, b: seq<string>, expire: int)
    requires Elems(a) == Elems(b)
    ensures SaveTagsSpec(t, id, TagList(a), expire) == SaveTagsSpec(t, id, TagList(b), expire)
  {
  }

  /** Saving the same tags again, with any other expire_time, leaves the tag table as it is:
      associations are inserted once and never refreshed. */
  lemma SaveTagsDoesNotRefresh(t: TagTable, id: string, arg: TagArg, e1: int, e2: int)
    ensures SaveTagsSpec(SaveTagsSpec(t, id, arg, e1), id, arg, e2) == SaveTagsSpec(t, id, arg, e1)
  {
  }

  /** Two saves of one id: the second overwrites the entry's data and expire_time, while the
      association (t1, k1) keeps the expire_time of the first save and (t2, k1) stays. */
  lemma ResaveKeepsFirstTagExpiry(now1: int, now2: int)
    ensures var first := SaveSpec(Tables(map[], map[]), true, Infinite, "v1", "k1",
                                  TagList(["t1", "t2"]), Specific(Seconds(100)), now1, 1).0;
            var second := SaveSpec(first, true, Infinite, "v2", "k1",
                                   TagList(["t1"]), Specific(Seconds(50)), now2, 2).0;
            && second.entries["k1"].data == "v2"
            && (now2 + 50 != 0 ==> second.entries["k1"].expireTime == now2 + 50)
            && (now1 + 100 != 0 ==> second.tags[TagKey("t1", "k1")] == now1 + 100)
            && TagKey("t2", "k1") in second.tags
  {
  }

  /** clean(ALL) empties the tag table, and the entry table exactly when data is stored. */
  lemma CleanAllEmpties(s: Tables, storeData: bool, arg: TagArg, now: int, byTags: ByTagsCleaner)
    ensures var (s', r) := CleanSpec(s, storeData, "all", arg, now, byTags);
            && r == Cleaned(true)
            && s'.tags == map[]
            && s'.entries == (if storeData then map[] else s.entries)
  {
  }

  /** clean(OLD) deletes exactly the rows with 0 < expire_time <= now, from the tag table and,
      when data is stored, from the entry table; rows with 0 or a later expire_time survive. */
  lemma CleanOldSweepsExactly(s: Tables, storeData: bool, arg: TagArg, now: int, byTags: ByTagsCleaner)
    ensures var (s', r) := CleanSpec(s, storeData, "old", arg, now, byTags);
            && r.Cleaned?
            && (forall k :: k in s'.tags <==> k in s.tags && !(0 < s.tags[k] <= now))
            && (forall k :: k in s'.tags ==> s'.tags[k] == s.tags[k])
            && (storeData ==> forall id :: id in s'.entries <==>
                  id in s.entries && !(0 < s.entries[id].expireTime <= now))
            && (storeData ==> forall id :: id in s'.entries ==> s'.entries[id] == s.entries[id])
            && (!storeData ==> s'.entries == s.entries)
  {
  }

  /** The result of clean(OLD) does not depend on the tag table; it is true without stored
      data, and with stored data it is true exactly when some entry was stale. */
  lemma CleanOldResultIgnoresTags(e: EntryTable, t1: TagTable, t2: TagTable, storeData: bool,
                                  arg: TagArg, now: int, byTags: ByTagsCleaner)
    ensures CleanSpec(Tables(e, t1), storeData, "old", arg, now, byTags).1
            == CleanSpec(Tables(e, t2), storeData, "old", arg, now, byTags).1
    ensures CleanSpec(Tables(e, t1), storeData, "old", arg, now, byTags).1
            == Cleaned(!storeData || exists id :: id in e && IsExpired(e[id].expireTime, now))
  {
  }

  /** The three tag-matching modes delegate and never touch the tag table; the entry table
      loses the ids the delegate reports only when data is stored. */
  lemma CleanByTagsKeepsTagTable(s: Tables, storeData: bool, mode: string, arg: TagArg, now: int,
                                 byTags: ByTagsCleaner)
    requires mode == "matchingTag" || mode == "notMatchingTag" || mode == "matchingAnyTag"
    ensures var (s', r) := CleanSpec(s, storeData, mode, arg, now, byTags);
            var o := byTags(s, ParseMode(mode).value, arg);
            && s'.tags == s.tags
            && s'.entries == (if storeData then s.entries - o.removedIds else s.entries)
            && r == Cleaned(o.ok)
  {
  }

  /** Any mode other than the five fails with the invalid-mode error and deletes nothing. */
  lemma CleanRejectsUnknownMode(s: Tables, storeData: bool, mode: string, arg: TagArg, now: int,
                                byTags: ByTagsCleaner)
    requires mode !in {"all", "old", "matchingTag", "notMatchingTag", "matchingAnyTag"}
    ensures CleanSpec(s, storeData, mode, arg, now, byTags) == (s, InvalidMode)
  {
  }

  /** The five mode names are exactly the ones clean accepts. */
  lemma ModeNamesParse(m: Mode)
    ensures ParseMode(ModeName(m)) == Some(m)
  {
  }

  /** What save writes with a zero or infinite lifetime survives every later clean(OLD),
      whatever the clock then says. */
  lemma UnboundedSaveSurvivesSweep(s: Tables, storeData: bool, configured: Lifetime, data: string, id: string,
                                   arg: TagArg, lifetimeArg: LifetimeArg, now: int, rowCount: nat,
                                   later: int, byTags: ByTagsCleaner)
    requires GetLifetime(lifetimeArg, configured) == Infinite || GetLifetime(lifetimeArg, configured) == Seconds(0)
    requires !storeData || rowCount > 0
    ensures var s1 := SaveSpec(s, storeData, configured, data, id, arg, lifetimeArg, now, rowCount).0;
            var s2 := CleanSpec(s1, storeData, "old", arg, later, byTags).0;
            && (storeData ==> id in s2.entries)
            && (forall k :: k in s1.tags && k !in s.tags ==> k in s2.tags)
  {
  }

  /** What save writes with a positive lifetime is swept by clean(OLD) exactly from the save's
      clock plus that lifetime on: earlier sweeps keep it, later ones remove it. */
  lemma FiniteSaveSweptAfterLifetime(s: Tables, storeData: bool, configured: Lifetime, data: string, id: string,
                                     arg: TagArg, lifetimeArg: LifetimeArg, now: int, rowCount: nat,
                                     later: int, byTags: ByTagsCleaner)
    requires now >= 0
    requires GetLifetime(lifetimeArg, configured).Seconds? && GetLifetime(lifetimeArg, configured).n > 0
    requires !storeData || rowCount > 0
    ensures var s1 := SaveSpec(s, storeData, configured, data, id, arg, lifetimeArg, now, rowCount).0;
            var s2 := CleanSpec(s1, storeData, "old", arg, later, byTags).0;
            var swept := later >= now + GetLifetime(lifetimeArg, configured).n;
            && (storeData ==> (id in s2.entries <==> !swept))
            && (forall k :: k in s1.tags && k !in s.tags ==> (k in s2.tags <==> !swept))
  {
  }
}
