/** The usage tables: for each of the quote, screenshot and combination tables, a record per
    partition key holding how often that item was posted and when it was last updated.
    A key with no record reads as used zero times, as the store helper's `get_item` answers. */
module UsageStore {

  datatype Table = Quotes | Screenshots | Combination

  /** An RFC 3339 time stamp, taken from the clock by the caller; the model never looks inside it. */
  type Timestamp = string

  datatype StoreKey = StoreKey(table: Table, key: string)

  datatype Record = Record(timesUsed: nat, updatedOn: Timestamp)

  type Store = map<StoreKey, Record>

  /** What `get_item` hands back: the partition value that was asked for and its count. */
  datatype Item = Item(key: string, timesUsed: nat)

  /** The count stored for a key, zero when there is no record. */
  function TimesUsed(store: Store, table: Table, key: string): nat {
    if StoreKey(table, key) in store then store[StoreKey(table, key)].timesUsed else 0
  }

  /** `get_item`: the stored item, or `{times_used: 0, key: value}` when the key is absent. */
  function GetItem(store: Store, table: Table, key: string): (it: Item)
    ensures it.key == key
    ensures StoreKey(table, key) !in store ==> it.timesUsed == 0
    ensures StoreKey(table, key) in store ==> it.timesUsed == store[StoreKey(table, key)].timesUsed
  {
    Item(key, TimesUsed(store, table, key))
  }

  /** The uniqueness gate of `create_tweet`: a composite may be posted when its hash has been used zero times. */
  predicate IsUnique(store: Store, hash: string) {
    GetItem(store, Combination, hash).timesUsed == 0
  }

  /** The effect of one use on the store: the record of (table, key) now holds one more use and the
      given time; every other record is as it was. */
  function RecordUse(store: Store, table: Table, key: string, now: Timestamp): (after: Store)
    ensures after.Keys == store.Keys + {StoreKey(table, key)}
    ensures after[StoreKey(table, key)] == Record(TimesUsed(store, table, key) + 1, now)
    ensures forall k :: k in store && k != StoreKey(table, key) ==> after[k] == store[k]
  {
    store[StoreKey(table, key) := Record(TimesUsed(store, table, key) + 1, now)]
  }

  /** Counting uses: the used key goes up by exactly one (so a first use gives one), every other
      key of every table keeps its count. */
  lemma RecordUseCounts(store: Store, table: Table, key: string, now: Timestamp, t: Table, k: string)
    ensures TimesUsed(RecordUse(store, table, key, now), t, k)
      == TimesUsed(store, t, k) + (if t == table && k == key then 1 else 0)
  {
  }

  /** A composite hash stops being unique once its use has been recorded. */
  lemma UsedHashIsNotUnique(store: Store, hash: string, now: Timestamp)
    ensures !IsUnique(RecordUse(store, Combination, hash, now), hash)
  {
  }

  /** The gate reads an absent record exactly like a record that says zero. */
  lemma IsUniqueIffUnused(store: Store, hash: string)
    ensures IsUnique(store, hash)
      <==> (StoreKey(Combination, hash) !in store || store[StoreKey(Combination, hash)].timesUsed == 0)
  {
  }
}
