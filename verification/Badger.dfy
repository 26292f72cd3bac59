/** The database under the window stores (internal/store/badger.go): one map from text
    keys to values, shared by every stream and by the message deduplication. */
module Badger {
  import opened Model
  import opened EventTime
  import opened StoreKeys
  import opened Tumbling

  datatype Entry = BucketEntry(bucket: Bucket) | CheckpointEntry(bytes: seq<nat>) | SeenEntry

  // ---- The checkpoint's eight bytes -------------------------------------------

  const TWO_63 := 0x8000_0000_0000_0000

  function Power256(width: nat): nat {
    if width == 0 then 1 else 256 * Power256(width - 1)
  }

  /** binary.BigEndian.PutUint64, for any width. */
  function ToBytes(n: nat, width: nat): (bytes: seq<nat>)
    ensures |bytes| == width && forall b | b in bytes :: b < 256
  {
    if width == 0 then [] else ToBytes(n / 256, width - 1) + [n % 256]
  }

  function FromBytes(bytes: seq<nat>): nat {
    if bytes == [] then 0 else 256 * FromBytes(bytes[..|bytes| - 1]) + bytes[|bytes| - 1]
  }

  lemma {:induction false} BytesRoundTrip(n: nat, width: nat)
    requires n < Power256(width)
    ensures FromBytes(ToBytes(n, width)) == n
  {
    if width == 0 {
    } else {
      BytesRoundTrip(n / 256, width - 1);
      assert ToBytes(n, width)[..width - 1] == ToBytes(n / 256, width - 1);
    }
  }

  /** uint64 of an int64: two's complement. */
  function EncodeTs(ts: int): seq<nat> {
    ToBytes(ts % (2 * TWO_63), 8)
  }

  function DecodeTs(bytes: seq<nat>): int {
    var n := FromBytes(bytes);
    if n >= TWO_63 then n - 2 * TWO_63 else n
  }

  lemma CheckpointRoundTrip(ts: int)
    requires -TWO_63 <= ts < TWO_63
    ensures |EncodeTs(ts)| == 8 && DecodeTs(EncodeTs(ts)) == ts
  {
    assert Power256(8) == 2 * TWO_63 by {
      assert Power256(4) == 0x1_0000_0000;
      assert Power256(6) == 0x1_0000_0000_0000;
    }
    BytesRoundTrip(ts % (2 * TWO_63), 8);
  }

  /** The most significant byte comes first. */
  lemma CheckpointBytes()
    ensures EncodeTs(258) == [0, 0, 0, 0, 0, 0, 1, 2]
  {
    assert ToBytes(258, 3) == [0, 1, 2];
  }

  // ---- One namespace, seen as a store -----------------------------------------

  /** Everything under the prefix is a bucket filed under its own key. */
  ghost predicate Filed(db: map<string, Entry>, ns: string) {
    && (forall t | t in db && KeyPrefix(ns) <= t ::
          db[t].BucketEntry? && t == BucketKey(ns, db[t].bucket.key))
    && (CheckpointKey(ns) in db ==> db[CheckpointKey(ns)].CheckpointEntry?)
  }

  ghost function KeysIn(db: map<string, Entry>, ns: string): set<Key>
    requires Filed(db, ns)
  {
    set t | t in db && KeyPrefix(ns) <= t :: db[t].bucket.key
  }

  ghost function View(db: map<string, Entry>, ns: string): Disk
    requires Filed(db, ns)
  {
    Disk(map k | k in KeysIn(db, ns) :: db[BucketKey(ns, k)].bucket,
         if CheckpointKey(ns) in db && |db[CheckpointKey(ns)].bytes| == 8
         then Some(DecodeTs(db[CheckpointKey(ns)].bytes))
         else None)
  }

  /** No other window is filed under the text of this one. */
  ghost predicate IsFree(db: map<string, Entry>, ns: string, k: Key)
    requires Filed(db, ns)
  {
    forall l | l in View(db, ns).buckets && BucketKey(ns, l) == BucketKey(ns, k) :: l == k
  }

  lemma PrefixOfBucketKey(ns: string, k: Key)
    ensures KeyPrefix(ns) <= BucketKey(ns, k)
    ensures forall other :: BucketKey(ns, k) != CheckpointKey(other)
    ensures forall other :: !(KeyPrefix(ns) <= CheckpointKey(other)) && !(KeyPrefix(ns) <= SeenKey(other))
  {
    forall other ensures BucketKey(ns, k) != CheckpointKey(other) {
      assert BucketKey(ns, k)[0] == 'w' && CheckpointKey(other)[0] == 'c';
    }
    forall other ensures !(KeyPrefix(ns) <= CheckpointKey(other)) && !(KeyPrefix(ns) <= SeenKey(other)) {
      assert KeyPrefix(ns)[0] == 'w' && CheckpointKey(other)[0] == 'c' && SeenKey(other)[0] == 's';
    }
  }

  /** A key is in the view exactly when its bucket is in the database. */
  lemma ViewHas(db: map<string, Entry>, ns: string, k: Key)
    requires Filed(db, ns)
    ensures k in View(db, ns).buckets <==>
              BucketKey(ns, k) in db && db[BucketKey(ns, k)].BucketEntry? && db[BucketKey(ns, k)].bucket.key == k
    ensures k in View(db, ns).buckets ==> View(db, ns).buckets[k] == db[BucketKey(ns, k)].bucket
  {
    PrefixOfBucketKey(ns, k);
  }

  /** Whatever is filed under the text of a key is in the view, under its own key. */
  lemma TextIsTaken(db: map<string, Entry>, ns: string, k: Key)
    requires Filed(db, ns) && BucketKey(ns, k) in db
    ensures var l := db[BucketKey(ns, k)].bucket.key; l in View(db, ns).buckets && BucketKey(ns, l) == BucketKey(ns, k)
  {
    PrefixOfBucketKey(ns, k);
  }

  lemma SaveAt(db: map<string, Entry>, ns: string, b: Bucket, k: Key)
    requires Filed(db, ns)
    ensures var after := db[BucketKey(ns, b.key) := BucketEntry(b)];
            && Filed(after, ns)
            && (k in View(after, ns).buckets <==>
                  k == b.key || (k in View(db, ns).buckets && BucketKey(ns, k) != BucketKey(ns, b.key)))
            && (k in View(after, ns).buckets ==>
                  View(after, ns).buckets[k] == if k == b.key then b else View(db, ns).buckets[k])
  {
    var after := db[BucketKey(ns, b.key) := BucketEntry(b)];
    PrefixOfBucketKey(ns, b.key);
    ViewHas(db, ns, k);
    ViewHas(after, ns, k);
  }

  /** Saving a bucket changes that bucket of that namespace, and nothing else, if and
      only if no other window is filed under its text. */
  lemma SaveChangesView(db: map<string, Entry>, ns: string, b: Bucket)
    requires Filed(db, ns)
    ensures var after := db[BucketKey(ns, b.key) := BucketEntry(b)];
            Filed(after, ns) && (Some(View(after, ns)) == Saved(Some(View(db, ns)), b) <==> IsFree(db, ns, b.key))
  {
    var after := db[BucketKey(ns, b.key) := BucketEntry(b)];
    SaveAt(db, ns, b, b.key);
    PrefixOfBucketKey(ns, b.key);
    var before, now := View(db, ns).buckets, View(after, ns).buckets;
    if IsFree(db, ns, b.key) {
      forall k
        ensures k in now <==> k in before[b.key := b]
        ensures k in now ==> now[k] == before[b.key := b][k]
      {
        SaveAt(db, ns, b, k);
      }
      assert now == before[b.key := b];
    } else {
      var l :| l in before && BucketKey(ns, l) == BucketKey(ns, b.key) && l != b.key;
      SaveAt(db, ns, b, l);
    }
  }

  lemma DeleteAt(db: map<string, Entry>, ns: string, key: Key, k: Key)
    requires Filed(db, ns)
    ensures var after := db - {BucketKey(ns, key)};
            && Filed(after, ns)
            && (k in View(after, ns).buckets <==> k in View(db, ns).buckets && BucketKey(ns, k) != BucketKey(ns, key))
            && (k in View(after, ns).buckets ==> View(after, ns).buckets[k] == View(db, ns).buckets[k])
  {
    var after := db - {BucketKey(ns, key)};
    PrefixOfBucketKey(ns, key);
    ViewHas(db, ns, k);
    ViewHas(after, ns, k);
  }

  /** Deleting removes that bucket of that namespace, and nothing else, under the same
      condition. */
  lemma DeleteChangesView(db: map<string, Entry>, ns: string, key: Key)
    requires Filed(db, ns)
    ensures var after := db - {BucketKey(ns, key)};
            Filed(after, ns) && (Some(View(after, ns)) == Deleted(Some(View(db, ns)), {key}) <==> IsFree(db, ns, key))
  {
    var after := db - {BucketKey(ns, key)};
    DeleteAt(db, ns, key, key);
    PrefixOfBucketKey(ns, key);
    var before, now := View(db, ns).buckets, View(after, ns).buckets;
    if IsFree(db, ns, key) {
      forall k
        ensures k in now <==> k in before - {key}
        ensures k in now ==> now[k] == before[k]
      {
        DeleteAt(db, ns, key, k);
      }
      assert now == before - {key};
    } else {
      var l :| l in before && BucketKey(ns, l) == BucketKey(ns, key) && l != key;
      DeleteAt(db, ns, key, l);
      assert l in before - {key};
    }
  }

  /** The buckets of a namespace are what the scan of its prefix sees. */
  lemma SameScanSameBuckets(db: map<string, Entry>, after: map<string, Entry>, ns: string)
    requires Filed(db, ns) && Filed(after, ns)
    requires forall t | KeyPrefix(ns) <= t :: (t in db <==> t in after) && (t in db ==> db[t] == after[t])
    ensures View(after, ns).buckets == View(db, ns).buckets
  {
    var before, now := View(db, ns).buckets, View(after, ns).buckets;
    forall k
      ensures k in now <==> k in before
      ensures k in now ==> now[k] == before[k]
    {
      PrefixOfBucketKey(ns, k);
      ViewHas(db, ns, k);
      ViewHas(after, ns, k);
    }
  }

  /** Two databases that differ only at keys of no concern to a namespace. */
  lemma UntouchedView(db: map<string, Entry>, after: map<string, Entry>, ns: string)
    requires Filed(db, ns)
    requires forall t | KeyPrefix(ns) <= t || t == CheckpointKey(ns) ::
               (t in db <==> t in after) && (t in db ==> db[t] == after[t])
    ensures Filed(after, ns) && View(after, ns) == View(db, ns)
  {
    assert Filed(after, ns);
    SameScanSameBuckets(db, after, ns);
  }

  /** The entries under a prefix, listed once each, are the buckets of the view. */
  lemma ScanIsView(db: map<string, Entry>, ns: string, order: seq<string>, buckets: seq<Bucket>)
    requires Filed(db, ns) && |order| == |buckets| && Distinct(order)
    requires forall t | t in order :: t in db && KeyPrefix(ns) <= t
    requires forall t | t in db && KeyPrefix(ns) <= t :: t in order
    requires forall i | 0 <= i < |order| :: order[i] in db && db[order[i]] == BucketEntry(buckets[i])
    ensures forall b | b in buckets :: b.key in View(db, ns).buckets && View(db, ns).buckets[b.key] == b
    ensures forall k | k in View(db, ns).buckets :: View(db, ns).buckets[k] in buckets
    ensures forall i, j | 0 <= i < j < |buckets| :: buckets[i].key != buckets[j].key
  {
    forall i | 0 <= i < |order|
      ensures order[i] == BucketKey(ns, buckets[i].key)
    {
      assert order[i] in order;
    }
    forall b | b in buckets ensures b.key in View(db, ns).buckets && View(db, ns).buckets[b.key] == b {
      var i :| 0 <= i < |buckets| && buckets[i] == b;
      assert order[i] in order;
      ViewHas(db, ns, b.key);
    }
    forall k | k in View(db, ns).buckets ensures View(db, ns).buckets[k] in buckets {
      ViewHas(db, ns, k);
      PrefixOfBucketKey(ns, k);
      var i :| 0 <= i < |order| && order[i] == BucketKey(ns, k);
      assert buckets[i] == View(db, ns).buckets[k];
    }
  }

  class Database {
    var db: map<string, Entry>

    /** The ids that were marked and have not expired since. */
    ghost var marked: set<string>

    ghost predicate Tracked()
      reads this
    {
      forall id :: SeenKey(id) in db <==> id in marked
    }

    /** No other store notices: neither the stores of other streams, as long as the
        namespaces are apart, nor the seen entries. */
    twostate predicate OthersUnchanged(ns: string)
      reads this
    {
      && (forall other | Apart(ns, other) && old(Filed(db, other)) ::
            Filed(db, other) && View(db, other) == old(View(db, other)))
      && marked == old(marked) && (old(Tracked()) ==> Tracked())
    }

    method Save(ns: string, b: Bucket)
      requires Filed(db, ns)
      modifies this
      ensures db == old(db)[BucketKey(ns, b.key) := BucketEntry(b)]
      ensures Filed(db, ns) && (Some(View(db, ns)) == Saved(Some(old(View(db, ns))), b) <==> old(IsFree(db, ns, b.key)))
      ensures OthersUnchanged(ns)
    {
      SaveChangesView(db, ns, b);
      BucketKeyConcernsOne(ns, b.key);
      db := db[BucketKey(ns, b.key) := BucketEntry(b)];
      forall other | Apart(ns, other) && old(Filed(db, other))
        ensures Filed(db, other) && View(db, other) == old(View(db, other))
      {
        UntouchedView(old(db), db, other);
      }
    }

    method Delete(ns: string, k: Key)
      requires Filed(db, ns)
      modifies this
      ensures db == old(db) - {BucketKey(ns, k)}
      ensures Filed(db, ns) && (Some(View(db, ns)) == Deleted(Some(old(View(db, ns))), {k}) <==> old(IsFree(db, ns, k)))
      ensures OthersUnchanged(ns)
    {
      DeleteChangesView(db, ns, k);
      BucketKeyConcernsOne(ns, k);
      db := db - {BucketKey(ns, k)};
      forall other | Apart(ns, other) && old(Filed(db, other))
        ensures Filed(db, other) && View(db, other) == old(View(db, other))
      {
        UntouchedView(old(db), db, other);
      }
    }

    method SaveCheckpoint(ns: string, maxTS: int)
      requires Filed(db, ns) && -TWO_63 <= maxTS < TWO_63
      modifies this
      ensures db == old(db)[CheckpointKey(ns) := CheckpointEntry(EncodeTs(maxTS))]
      ensures Filed(db, ns) && Some(View(db, ns)) == Checkpointed(Some(old(View(db, ns))), maxTS)
      ensures OthersUnchanged(ns)
    {
      CheckpointRoundTrip(maxTS);
      CheckpointChangesView(db, ns, EncodeTs(maxTS));
      CheckpointConcernsOne(ns);
      db := db[CheckpointKey(ns) := CheckpointEntry(EncodeTs(maxTS))];
      forall other | Apart(ns, other) && old(Filed(db, other))
        ensures Filed(db, other) && View(db, other) == old(View(db, other))
      {
        UntouchedView(old(db), db, other);
      }
    }

    /** A missing checkpoint is no error; one of the wrong length is. */
    method LoadCheckpoint(ns: string) returns (maxTS: int, found: bool, failed: bool)
      requires Filed(db, ns)
      ensures failed <==> CheckpointKey(ns) in db && |db[CheckpointKey(ns)].bytes| != 8
      ensures found <==> View(db, ns).checkpoint.Some?
      ensures maxTS == if found then View(db, ns).checkpoint.value else 0
    {
      maxTS, found, failed := 0, false, false;
      if CheckpointKey(ns) !in db {
        return;
      }
      var bytes := db[CheckpointKey(ns)].bytes;
      if |bytes| != 8 {
        failed := true;
        return;
      }
      maxTS, found := DecodeTs(bytes), true;
    }

    /** The prefix scan returns exactly the buckets saved and not deleted in this
        namespace, each once. */
    method LoadAll(ns: string) returns (buckets: seq<Bucket>)
      requires Filed(db, ns)
      ensures forall b | b in buckets :: b.key in View(db, ns).buckets && View(db, ns).buckets[b.key] == b
      ensures forall k | k in View(db, ns).buckets :: View(db, ns).buckets[k] in buckets
      ensures forall i, j | 0 <= i < j < |buckets| :: buckets[i].key != buckets[j].key
    {
      buckets := [];
      var todo := set t | t in db && KeyPrefix(ns) <= t;
      ghost var order: seq<string> := [];
      while todo != {}
        invariant forall t | t in todo :: t in db && KeyPrefix(ns) <= t && t !in order
        invariant forall t | t in order :: t in db && KeyPrefix(ns) <= t
        invariant forall t | t in db && KeyPrefix(ns) <= t :: t in todo || t in order
        invariant |order| == |buckets| && Distinct(order)
        invariant forall i | 0 <= i < |order| :: order[i] in db && db[order[i]] == BucketEntry(buckets[i])
      {
        var t :| t in todo;
        todo := todo - {t};
        buckets := buckets + [db[t].bucket];
        order := order + [t];
      }
      ScanIsView(db, ns, order, buckets);
    }

    /** The answer is about marks alone: whatever was saved, deleted or checkpointed since. */
    method Seen(id: string) returns (seen: bool)
      requires Tracked()
      ensures seen <==> id in marked
    {
      seen := SeenKey(id) in db;
    }

    /** Marking a message leaves every store as it is, and every other message. */
    method Mark(id: string)
      requires Tracked()
      modifies this
      ensures Tracked() && marked == old(marked) + {id}
      ensures forall ns | old(Filed(db, ns)) :: Filed(db, ns) && View(db, ns) == old(View(db, ns))
    {
      SeenKeyInjective(id);
      db := db[SeenKey(id) := SeenEntry];
      marked := marked + {id};
      forall ns | old(Filed(db, ns)) ensures Filed(db, ns) && View(db, ns) == old(View(db, ns)) {
        SeenConcernsNone(old(db), db, ns, id);
      }
    }

    /** The time to live of a mark runs out. */
    method Expire(id: string)
      requires Tracked()
      modifies this
      ensures Tracked() && marked == old(marked) - {id}
      ensures forall ns | old(Filed(db, ns)) :: Filed(db, ns) && View(db, ns) == old(View(db, ns))
    {
      SeenKeyInjective(id);
      db := db - {SeenKey(id)};
      marked := marked - {id};
      forall ns | old(Filed(db, ns)) ensures Filed(db, ns) && View(db, ns) == old(View(db, ns)) {
        SeenConcernsNone(old(db), db, ns, id);
      }
    }
  }

  lemma SeenKeyInjective(id: string)
    ensures forall other :: SeenKey(other) == SeenKey(id) <==> other == id
  {
    forall other | SeenKey(other) == SeenKey(id) ensures other == id {
      assert other == SeenKey(other)[|"seen/"|..] && id == SeenKey(id)[|"seen/"|..];
    }
  }

  lemma SeenConcernsNone(db: map<string, Entry>, after: map<string, Entry>, ns: string, id: string)
    requires Filed(db, ns)
    requires after == db[SeenKey(id) := SeenEntry] || after == db - {SeenKey(id)}
    ensures Filed(after, ns) && View(after, ns) == View(db, ns)
  {
    PrefixOfBucketKey(ns, Key("", 0));
    assert CheckpointKey(ns)[0] == 'c' && SeenKey(id)[0] == 's';
    UntouchedView(db, after, ns);
  }

  /** A bucket's key is of no concern to any other namespace. */
  lemma BucketKeyConcernsOne(ns: string, k: Key)
    ensures forall other | Apart(ns, other) ::
              !(KeyPrefix(other) <= BucketKey(ns, k)) && BucketKey(ns, k) != CheckpointKey(other)
    ensures forall id :: BucketKey(ns, k) != SeenKey(id)
  {
    PrefixOfBucketKey(ns, k);
    forall other | Apart(ns, other) ensures !(KeyPrefix(other) <= BucketKey(ns, k)) {
      ApartScansSeeNothing(other, ns, k);
    }
    forall id ensures BucketKey(ns, k) != SeenKey(id) {
      assert BucketKey(ns, k)[0] == 'w' && SeenKey(id)[0] == 's';
    }
  }

  lemma CheckpointChangesView(db: map<string, Entry>, ns: string, bytes: seq<nat>)
    requires Filed(db, ns) && |bytes| == 8
    ensures var after := db[CheckpointKey(ns) := CheckpointEntry(bytes)];
            Filed(after, ns) && View(after, ns) == View(db, ns).(checkpoint := Some(DecodeTs(bytes)))
  {
    var after := db[CheckpointKey(ns) := CheckpointEntry(bytes)];
    PrefixOfBucketKey(ns, Key("", 0));
    assert Filed(after, ns);
    SameScanSameBuckets(db, after, ns);
  }

  lemma CheckpointKeyInjective(ns: string, other: string)
    ensures CheckpointKey(ns) == CheckpointKey(other) ==> ns == other
  {
    assert ns == CheckpointKey(ns)[|"checkpoint/"|..];
    assert other == CheckpointKey(other)[|"checkpoint/"|..];
  }

  lemma CheckpointConcernsOne(ns: string)
    ensures forall other | Apart(ns, other) ::
              !(KeyPrefix(other) <= CheckpointKey(ns)) && CheckpointKey(ns) != CheckpointKey(other)
    ensures forall id :: CheckpointKey(ns) != SeenKey(id)
  {
    forall other | Apart(ns, other)
      ensures !(KeyPrefix(other) <= CheckpointKey(ns)) && CheckpointKey(ns) != CheckpointKey(other)
    {
      PrefixOfBucketKey(other, Key("", 0));
      CheckpointKeyInjective(ns, other);
    }
    forall id ensures CheckpointKey(ns) != SeenKey(id) {
      assert CheckpointKey(ns)[0] == 'c' && SeenKey(id)[0] == 's';
    }
  }
}
