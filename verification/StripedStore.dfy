/** The store object: sixteen maps and a separate counter that together behave like one map and its size. */
module StripedStore {
  import opened KvSpec
  import opened StripeLocks

  class KVStore {
    const home: Home
    const shards: array<Store>
    var size: nat
    ghost var contents: Store

    ghost predicate Valid()
      reads this, shards
    {
      ValidHome(home) && Partitioned(home, shards[..], contents) && size == |contents|
    }

    constructor (home: Home)
      requires ValidHome(home)
      ensures Valid() && fresh(shards) && contents == map[] && this.home == home
    {
      this.home := home;
      shards := new Store[SHARDS](i => map[]);
      size := 0;
      contents := map[];
    }

    method Get(key: Key) returns (found: Option<Value>)
      requires Valid()
      ensures found == Lookup(contents, key)
    {
      var shard := shards[home(key)];
      assert shard == shards[..][home(key)];
      if key !in shard { return None; }
      found := Some(shard[key]);
    }

    method Set(key: Key, value: Value)
      requires Valid()
      modifies this`size, this`contents, shards
      ensures Valid() && contents == old(contents)[key := value]
    {
      var i := home(key);
      ghost var before, all := shards[..], contents;
      PartitionedStep(home, before, all, Request.Set(key, value));
      contents := contents[key := value];
      assert Lookup(before[i], key) == Lookup(all, key);
      assert contents.Keys == all.Keys + {key};
      var known := key in shards[i];
      shards[i] := shards[i][key := value];
      assert shards[..] == before[i := before[i][key := value]];
      if known { return; }
      size := size + 1;
    }

    method Remove(key: Key) returns (removed: bool)
      requires Valid()
      modifies this`size, this`contents, shards
      ensures Valid() && contents == old(contents) - {key} && removed == (key in old(contents))
    {
      var i := home(key);
      ghost var before, all := shards[..], contents;
      assert Lookup(before[i], key) == Lookup(all, key);
      if key !in shards[i] {
        assert contents - {key} == contents;
        return false;
      }
      PartitionedStep(home, before, all, Delete(key));
      contents := contents - {key};
      assert contents.Keys == all.Keys - {key};
      shards[i] := shards[i] - {key};
      assert shards[..] == before[i := before[i] - {key}];
      size := size - 1;
      return true;
    }

    method Size() returns (n: nat)
      requires Valid()
      ensures n == |contents|
    {
      return size;
    }
  }
}
