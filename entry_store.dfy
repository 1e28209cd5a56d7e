/** The optional entry table: cache id -> (data, create_time, update_time, expire_time).
    It is used only when the backend persists data (`store_data`). */
module EntryStore {
  import opened Expiry

  datatype Entry = Entry(data: string, createTime: int, updateTime: int, expireTime: int)

  type EntryTable = map<string, Entry>

  /** INSERT ... ON DUPLICATE KEY UPDATE data, expire_time: a new id gets all five columns,
      an existing id gets new data and expire_time and keeps both of its timestamps. */
  function Upsert(t: EntryTable, id: string, data: string, now: int, expire: int): (r: EntryTable)
    ensures r.Keys == t.Keys + {id}
    ensures r[id].data == data && r[id].expireTime == expire
    ensures r[id].createTime == (if id in t then t[id].createTime else now)
    ensures r[id].updateTime == (if id in t then t[id].updateTime else now)
    ensures forall k :: k in t && k != id ==> r[k] == t[k]
  {
    t[id := if id in t then t[id].(data := data, expireTime := expire) else Entry(data, now, now, expire)]
  }

  /** The ids whose entry is stale at `now`. */
  function ExpiredIds(t: EntryTable, now: int): (x: set<string>)
  {
    set id | id in t && IsExpired(t[id].expireTime, now)
  }

  /** DELETE WHERE expire_time > 0 AND expire_time <= now on the entry table. */
  function Sweep(t: EntryTable, now: int): (r: EntryTable)
    ensures forall id :: id in r <==> id in t && !IsExpired(t[id].expireTime, now)
    ensures forall id :: id in r ==> r[id] == t[id]
  {
    t - ExpiredIds(t, now)
  }
}
