/**
 The khash table: a map from keys to values over flag words, a key array and a value
 array, rehashed in place.
 */
module KHashTable {
  import opened Bits
  import opened Flags
  import opened Probe
  import opened Buckets

  /** Which of the three allocations of a resize succeed. */
  datatype Memory = Memory(flagsOk: bool, keysOk: bool, valsOk: bool)

  /** Some allocation fails that a resize needs: the flags, and the buffers if it grows. */
  predicate OutOfMemory(mem: Memory, growing: bool) {
    !mem.flagsOk || (growing && !(mem.keysOk && mem.valsOk))
  }

  class KHash<K(==, 0), V(0)> {
    const hash: K -> u32
    var nBuckets: nat
    var size: nat
    var nOccupied: nat
    var upperBound: nat
    var flags: array<u32>
    var keys: array<K>
    var vals: array<V>

    /** The flags the words stand for, one a bucket. */
    ghost var st: seq<Flag>
    /** The finite map the table stands for. */
    ghost var contents: map<K, V>

    ghost predicate Separate()
      reads this
    {
      flags as object != keys && flags as object != vals && keys as object != vals
    }

    ghost predicate Valid()
      reads this, flags, keys, vals
    {
      && Separate()
      && |st| == nBuckets <= keys.Length && nBuckets <= vals.Length
      && flags.Length == (if nBuckets == 0 then 0 else WordCount(nBuckets))
      && Represents(flags[..], st)
      && TableOk(hash, st, keys[..], vals[..], contents, size, nOccupied, upperBound)
    }

    /** `kh_init` */
    constructor (hash: K -> u32)
      ensures Valid() && contents == map[] && this.hash == hash && nBuckets == size == nOccupied == upperBound == 0
      ensures fresh(flags) && fresh(keys) && fresh(vals)
    {
      this.hash := hash;
      nBuckets, size, nOccupied, upperBound := 0, 0, 0, 0;
      flags, keys, vals := new u32[0], new K[0], new V[0];
      st, contents := [], map[];
    }

    /** `kh_clear` */
    method Clear()
      requires Valid()
      modifies this, flags
      ensures Valid() && contents == map[] && nBuckets == old(nBuckets) && size == nOccupied == 0
      ensures flags == old(flags) && keys == old(keys) && vals == old(vals)
    {
      if nBuckets != 0 {
        Pow2Multiple(nBuckets);
        SetAllEmpty(flags, nBuckets);
        st, contents := AllEmpty(nBuckets), map[];
        size, nOccupied := 0, 0;
      } else {
        StoresSize(LiveSet(st), keys[..], vals[..], contents);
      }
      assert LiveSet(st) == {} && UsedSet(st) == {};
    }

    /** `kh_get`: the bucket holding the key, or `n_buckets` when there is none. */
    method Get(key: K) returns (x: nat)
      requires Valid()
      ensures key in contents ==> x < nBuckets && st[x].Live? && keys[x] == key && vals[x] == contents[key]
      ensures key !in contents ==> x == nBuckets
    {
      if nBuckets != 0 {
        x := Search(key);
      } else {
        StoresSize(LiveSet(st), keys[..], vals[..], contents);
        assert LiveSet(st) == {};
        x := 0;
      }
    }

    /** The probe loop of `kh_get`. */
    method Search(key: K) returns (x: nat)
      requires Valid() && nBuckets != 0
      ensures key in contents ==> x < nBuckets && st[x].Live? && keys[x] == key && vals[x] == contents[key]
      ensures key !in contents ==> x == nBuckets
    {
      var step := 0;
      var i := FirstBucket(hash(key), nBuckets);
      var last := i;
      ghost var h, ks, vs := hash(key), keys[..], vals[..];
      while true
        invariant step < 2 * nBuckets - 1 && i == At(h, step, nBuckets)
        invariant Missed(h, st, ks, key, step)
        decreases 2 * nBuckets - step
      {
        var empty := ReadIsEmpty(flags, i, st);
        var del := ReadIsDel(flags, i, st);
        if empty || (!del && keys[i] == key) { break; }
        MissNext(h, st, ks, key, step);
        step := step + 1;
        i := NextBucket(i, step, nBuckets, h);
        FirstReturn(h, step, nBuckets);
        if i == last {
          Absent(hash, st, ks, vs, contents, key, step);
          return nBuckets;
        }
      }
      var either := ReadIsEither(flags, i, st);
      if either {
        Absent(hash, st, ks, vs, contents, key, step);
        x := nBuckets;
      } else {
        assert i in LiveSet(st);
        x := i;
      }
    }

    /** `kh_del` on an iterator: out-of-use buckets and the end iterator are ignored. */
    method Delete(x: nat)
      requires Valid() && x <= nBuckets
      modifies this, flags
      ensures nBuckets == old(nBuckets) && nOccupied == old(nOccupied)
      ensures flags == old(flags) && keys == old(keys) && vals == old(vals)
      ensures Valid()
      ensures contents == if x < nBuckets && old(st[x].Live?) then old(contents) - {keys[x]} else old(contents)
      ensures st == if x < nBuckets && old(st[x].Live?) then old(st)[x := Deleted] else old(st)
    {
      if x != nBuckets {
        var either := ReadIsEither(flags, x, st);
        if !either {
          ghost var ks, vs := keys[..], vals[..];
          DeleteOk(hash, st, ks, vs, contents, size, nOccupied, upperBound, x);
          SetIsDelTrue(flags, x, st);
          contents, st, size := contents - {ks[x]}, st[x := Deleted], size - 1;
          assert keys[..] == ks && vals[..] == vs;
        }
      }
    }

    /** A caller's `kh_value(h, x) = v`. */
    method Assign(x: nat, v: V)
      requires Valid() && x < nBuckets && st[x].Live?
      modifies this, vals
      ensures flags == old(flags) && keys == old(keys) && vals == old(vals)
      ensures Valid() && st == old(st) && nBuckets == old(nBuckets)
      ensures contents == old(contents[keys[x] := v])
    {
      AssignOk(hash, st, keys[..], vals[..], contents, size, nOccupied, upperBound, x, v);
      ghost var before := vals[..];
      vals[x] := v;
      assert vals[..] == before[x := v] && keys[..] == old(keys[..]) && flags[..] == old(flags[..]);
      contents := contents[keys[x] := v];
    }

    /** The slot search of `kh_put`: the key's own bucket if it is present, else a bucket on
        its probe path that can take it. Only when every bucket is live is there none, and
        the first bucket of the probe comes back. */
    method FindSlot(key: K) returns (x: nat)
      requires Valid() && nBuckets != 0
      ensures x < nBuckets
      ensures key in contents ==> st[x].Live? && keys[x] == key
      ensures key !in contents && size < nBuckets ==> !st[x].Live? && Reachable(hash(key), st, x)
      ensures key !in contents && size < nBuckets ==> SlotAt(hash(key), st, x)
      ensures key !in contents && size == nBuckets ==> st[x].Live? && keys[x] != key
    {
      var i := FirstBucket(hash(key), nBuckets);
      var empty := ReadIsEmpty(flags, i, st);
      if empty {
        x := i;
        Absent(hash, st, keys[..], vals[..], contents, key, 0);
        OnPath(hash(key), st, 0, 0);
        LiveWithinUsed(st);
        assert SlotRule(hash(key), st, 0, x);
      } else {
        x := ProbeForSlot(key, i);
      }
    }

    method ProbeForSlot(key: K, last: nat) returns (x: nat)
      requires Valid() && nBuckets != 0 && last == At(hash(key), 0, nBuckets)
      ensures x < nBuckets
      ensures key in contents ==> st[x].Live? && keys[x] == key
      ensures key !in contents && size < nBuckets ==> !st[x].Live? && Reachable(hash(key), st, x)
      ensures key !in contents && size < nBuckets ==> SlotAt(hash(key), st, x)
      ensures key !in contents && size == nBuckets ==> st[x].Live? && keys[x] != key
    {
      x := nBuckets;
      var site, i, step := nBuckets, last, 0;
      ghost var siteStep := 0;
      ghost var h, ks := hash(key), keys[..];
      while true
        invariant x == nBuckets
        invariant step < 2 * nBuckets - 1 && i == At(h, step, nBuckets)
        invariant Missed(h, st, ks, key, step)
        invariant SiteOk(h, st, step, site, siteStep)
        decreases 2 * nBuckets - step
      {
        var empty := ReadIsEmpty(flags, i, st);
        var del := ReadIsDel(flags, i, st);
        if empty || (!del && keys[i] == key) { break; }
        MissOne(h, st, ks, key, step, site, siteStep);
        if del { site, siteStep := i, step; }
        step := step + 1;
        i := NextBucket(i, step, nBuckets, h);
        FirstReturn(h, step, nBuckets);
        if i == last { x := site; break; }
      }
      if x == nBuckets {
        var empty := ReadIsEmpty(flags, i, st);
        if empty && site != nBuckets { x := site; } else { x := i; }
      }
      SlotFound(hash, st, ks, vals[..], contents, key, step, site, siteStep, x);
    }

    /** `kh_put`: the bucket now holding the key, and 0 (already present), 1 (taken from an
        empty bucket), 2 (taken from a tombstone) or -1 (out of memory).
        The one case in which the key does not get in is a table of 2^31 live buckets, which
        cannot grow; `ret` is then 0 and the bucket belongs to another key. */
    method Put(key: K, mem: Memory) returns (x: nat, ret: int)
      requires Valid()
      modifies this, flags, keys, vals
      ensures Fresh(old(flags), old(keys), old(vals))
      ensures Valid()
      ensures ret == -1 <==> old(PutFails(mem))
      ensures ret == -1 ==> contents == old(contents) && st == old(st) && x == nBuckets == old(nBuckets)
      ensures ret != -1 ==> x < nBuckets && st[x].Live? && (keys[x] == key <==> !old(Exhausted(key)))
      ensures ret == 0 ==> contents == old(contents) && (key in contents || old(Exhausted(key)))
      ensures ret == 1 || ret == 2 ==> key !in old(contents) && contents == old(contents)[key := vals[x]]
      ensures old(Exhausted(key)) ==> ret == 0
      ensures ret in {-1, 0, 1, 2}
      ensures ret == 2 ==> nBuckets == old(nBuckets) && old(st[x].Deleted?)
      ensures ret == 1 && old(nOccupied < upperBound) ==> nBuckets == old(nBuckets) && old(st[x].Empty?)
      ensures old(nOccupied < upperBound) && key !in old(contents) ==> PutRule(hash(key), old(st), x, ret)
      ensures old(nOccupied >= upperBound) && ret != -1 ==>
        nBuckets ==
          if old(nBuckets) == 0 then 4
          else if 2 * old(size) < old(nBuckets) || old(nBuckets) == MAX_BUCKETS then old(nBuckets)
          else 2 * old(nBuckets)
      ensures !old(PutResizes()) && (ret == 1 || ret == 2) ==> old(nBuckets) != 0 && SlotAt(hash(key), old(st), x)
      ensures old(PutResizes()) && ret != -1 ==> ret != 2 && Deleted !in st
      ensures old(nOccupied < upperBound) ==>
        && nBuckets == old(nBuckets) && x < |old(st)| && x < old(keys.Length)
        && flags == old(flags) && keys == old(keys) && vals == old(vals) && vals[..] == old(vals[..])
        && st == (if ret == 0 then old(st) else old(st)[x := Live])
        && keys[..] == (if ret == 0 then old(keys[..]) else old(keys[..])[x := key])
    {
      if nOccupied >= upperBound {
        x, ret := PutResizing(key, mem);
      } else {
        x, ret := PutInPlace(key);
      }
    }

    /** A put into a table below its load limit: no other bucket changes. */
    method PutInPlace(key: K) returns (x: nat, ret: int)
      requires Valid() && nOccupied < upperBound
      modifies this, flags, keys
      ensures Valid() && nBuckets == old(nBuckets)
      ensures flags == old(flags) && keys == old(keys) && vals == old(vals) && vals[..] == old(vals[..])
      ensures x < nBuckets && st[x].Live? && keys[x] == key && !old(Exhausted(key)) && ret in {0, 1, 2}
      ensures ret == 0 ==> contents == old(contents) && key in contents
      ensures ret != 0 ==> key !in old(contents) && contents == old(contents)[key := vals[x]]
      ensures ret != 0 ==> (if ret == 1 then old(st[x].Empty?) else old(st[x].Deleted?))
      ensures ret != 0 ==> SlotAt(hash(key), old(st), x) && PutRule(hash(key), old(st), x, ret)
      ensures st == (if ret == 0 then old(st) else old(st)[x := Live])
      ensures keys[..] == (if ret == 0 then old(keys[..]) else old(keys[..])[x := key])
    {
      LiveWithinUsed(st);
      ghost var before := st;
      x, ret := Insert(key);
      if ret != 0 { EmptyEndsProbe(hash(key), before, x, ret); }
    }

    /** A put into a table that has reached its load limit. */
    method PutResizing(key: K, mem: Memory) returns (x: nat, ret: int)
      requires Valid() && nOccupied >= upperBound
      modifies this, flags, keys, vals
      ensures Fresh(old(flags), old(keys), old(vals))
      ensures Valid()
      ensures ret == -1 <==> old(PutFails(mem))
      ensures ret == -1 ==> contents == old(contents) && st == old(st) && x == nBuckets == old(nBuckets)
      ensures ret != -1 ==> x < nBuckets && st[x].Live? && (keys[x] == key <==> !old(Exhausted(key)))
      ensures ret == 0 ==> contents == old(contents) && (key in contents || old(Exhausted(key)))
      ensures ret == 1 || ret == 2 ==> key !in old(contents) && contents == old(contents)[key := vals[x]]
      ensures old(Exhausted(key)) ==> ret == 0
      ensures ret in {-1, 0, 1, 2}
      ensures ret == 2 ==> nBuckets == old(nBuckets) && old(st[x].Deleted?)
      ensures ret != -1 ==>
        nBuckets ==
          if old(nBuckets) == 0 then 4
          else if 2 * old(size) < old(nBuckets) || old(nBuckets) == MAX_BUCKETS then old(nBuckets)
          else 2 * old(nBuckets)
      ensures !old(PutResizes()) && (ret == 1 || ret == 2) ==> old(nBuckets) != 0 && SlotAt(hash(key), old(st), x)
      ensures old(PutResizes()) && ret != -1 ==> ret != 2 && Deleted !in st
    {
      LiveWithinUsed(st);
      var rc := MakeRoom(mem);
      if rc < 0 { return nBuckets, -1; }
      x, ret := Insert(key);
    }

    /** A put now has to resize the table, to a size that its entries fit. */
    ghost predicate PutResizes()
      reads this
    {
      nOccupied >= upperBound && size < Upper(AskedSize(nBuckets, size))
    }

    /** A put would grow the buffers. */
    ghost predicate PutGrows()
      reads this
    {
      nBuckets < AskedSize(nBuckets, size)
    }

    ghost predicate PutFails(mem: Memory)
      reads this
    {
      PutResizes() && OutOfMemory(mem, PutGrows())
    }

    /** The growth decision of `kh_put`: clear tombstones when less than half the buckets
        are live, else double. Afterwards there is room, unless 2^31 buckets are not enough. */
    method MakeRoom(mem: Memory) returns (rc: int)
      requires Valid() && nOccupied >= upperBound
      modifies this, flags, keys, vals
      ensures Fresh(old(flags), old(keys), old(vals))
      ensures Valid() && contents == old(contents)
      ensures rc == if old(PutFails(mem)) then -1 else 0
      ensures rc == -1 ==> st == old(st) && nBuckets == old(nBuckets)
      ensures rc == 0 ==> nBuckets != 0 && (nOccupied < upperBound || nBuckets == MAX_BUCKETS)
      ensures size == old(size)
      ensures st == old(st) || Deleted !in st
      ensures if rc == -1 || !old(PutResizes()) then st == old(st) else Deleted !in st
      ensures rc == 0 ==> nBuckets == if old(PutResizes()) then old(AskedSize(nBuckets, size)) else old(nBuckets)
      ensures rc == 0 ==>
        nBuckets ==
          if old(nBuckets) == 0 then 4
          else if 2 * old(size) < old(nBuckets) || old(nBuckets) == MAX_BUCKETS then old(nBuckets)
          else 2 * old(nBuckets)
      ensures old(Full()) ==> rc == 0 && Full()
    {
      ghost var s0, n0 := size, nBuckets;
      LiveWithinUsed(st);
      var twice := if size >= 0x8000_0000 then 0 else 2 * size;
      var request := if nBuckets > twice then nBuckets - 1 else nBuckets + 1;
      var n;
      rc, n := Resize(request, mem);
      RoomAfterResize(n0, s0, n);
    }

    /** Each array is the one from before or a new one. */
    twostate predicate Fresh(flags0: array<u32>, keys0: array<K>, vals0: array<V>)
      reads this
    {
      && (flags == flags0 || fresh(flags))
      && (keys == keys0 || fresh(keys))
      && (vals == vals0 || fresh(vals))
    }

    /** `kh_resize` to the power of two at or above `request`: refused, changing nothing, when
        the entries would not fit below the load limit; else the same map in that many
        buckets, without tombstones. Out of memory, it leaves the map as it was. */
    method Resize(request: u32, mem: Memory) returns (rc: int, n: nat)
      requires Valid()
      modifies this, flags, keys, vals
      ensures Fresh(old(flags), old(keys), old(vals))
      ensures Valid() && contents == old(contents) && size == old(size)
      ensures SizeFor(request, n)
      ensures rc == if size < Upper(n) && OutOfMemory(mem, old(nBuckets) < n) then -1 else 0
      ensures rc == -1 || size >= Upper(n) ==>
        nBuckets == old(nBuckets) && st == old(st) && nOccupied == old(nOccupied)
      ensures rc == 0 && size < Upper(n) ==>
        nBuckets == n && nOccupied == size && Deleted !in st
    {
      n := RoundUp(request);
      if size >= Upper(n) { return 0, n; }
      rc := ResizeTo(n, mem);
    }

    /** The same for an accepted size. */
    method ResizeTo(n: nat, mem: Memory) returns (rc: int)
      requires Valid() && IsPow2(n) && 4 <= n <= MAX_BUCKETS && size < Upper(n)
      modifies this`flags, this`keys, this`vals, this`st, this`nBuckets, this`nOccupied, this`upperBound
      modifies flags, keys, vals
      ensures Fresh(old(flags), old(keys), old(vals)) && Valid()
      ensures rc == if OutOfMemory(mem, old(nBuckets) < n) then -1 else 0
      ensures rc == -1 ==> nBuckets == old(nBuckets) && st == old(st) && nOccupied == old(nOccupied)
      ensures rc == 0 ==> nBuckets == n && nOccupied == size && Deleted !in st
    {
      if !mem.flagsOk { return -1; }
      var newFlags := new u32[WordCount(n)];
      Pow2Multiple(n);
      SetAllEmpty(newFlags, n);
      if nBuckets < n {
        var ok := Grow(n, mem);
        if !ok { return -1; }
      }
      Rehash(newFlags, n);
      rc := 0;
    }

    /** The buffers of a larger table; if only the second cannot be had, the first stays. */
    method Grow(n: nat, mem: Memory) returns (ok: bool)
      requires Valid() && nBuckets < n
      modifies this`keys, this`vals
      ensures Valid() && (keys == old(keys) || fresh(keys)) && (vals == old(vals) || fresh(vals))
      ensures ok == (mem.keysOk && mem.valsOk)
      ensures ok ==> fresh(keys) && fresh(vals) && keys.Length == vals.Length == n
    {
      if !mem.keysOk { return false; }
      GrowKeys(n);
      if !mem.valsOk { return false; }
      GrowVals(n);
      ok := true;
    }

    method GrowKeys(n: nat)
      requires Valid() && nBuckets < n
      modifies this`keys
      ensures Valid() && fresh(keys) && keys.Length == n
    {
      ghost var ks := keys[..];
      keys := Realloc(keys, n);
      CopyOk(hash, st, ks, vals[..], contents, size, nOccupied, upperBound, keys[..], vals[..]);
    }

    method GrowVals(n: nat)
      requires Valid() && nBuckets < n
      modifies this`vals
      ensures Valid() && fresh(vals) && vals.Length == n
    {
      ghost var vs := vals[..];
      vals := Realloc(vals, n);
      CopyOk(hash, st, keys[..], vs, contents, size, nOccupied, upperBound, keys[..], vals[..]);
    }

    /** The rehash proper, once the buffers are large enough: another layout of the same map. */
    method Rehash(newFlags: array<u32>, n: nat)
      requires Valid() && n <= keys.Length && n <= vals.Length
      requires newFlags != flags && newFlags as object != keys && newFlags as object != vals
      requires newFlags.Length == WordCount(n) && Represents(newFlags[..], AllEmpty(n))
      requires IsPow2(n) && 4 <= n <= MAX_BUCKETS && size < Upper(n)
      modifies this`flags, this`keys, this`vals, this`st, this`nBuckets, this`nOccupied, this`upperBound
      modifies flags, keys, vals, newFlags
      ensures flags == newFlags && (keys == old(keys) || fresh(keys)) && (vals == old(vals) || fresh(vals))
      ensures Valid() && nBuckets == n && nOccupied == size && Deleted !in st
    {
      ghost var m := contents;
      ReadyToMove(n);
      ghost var o, w := MoveAll(newFlags, n, m);
      Install(newFlags, n, o, w);
    }

    lemma ReadyToMove(n: nat)
      requires Valid() && n <= keys.Length && n <= vals.Length
      requires IsPow2(n) && 4 <= n && size < Upper(n)
      ensures Moving(hash, st, AllEmpty(n), keys[..], vals[..], contents) && |contents| == size <= n
    {
      StartMoving(hash, st, n, keys[..], vals[..], contents);
      StoresSize(LiveSet(st), keys[..], vals[..], contents);
      UpperBounds(n);
    }

    /** The end of a rehash: give up the buffers' tails and take over the new flags. */
    method Install(newFlags: array<u32>, n: nat, ghost o: seq<Flag>, ghost w: seq<Flag>)
      requires InMotion(newFlags, o, w) && LiveSet(o) == {} && |w| == n
      requires Moving(hash, o, w, keys[..], vals[..], contents)
      requires newFlags.Length == WordCount(n) && 4 <= n <= MAX_BUCKETS && size == |contents| < Upper(n)
      modifies this`flags, this`keys, this`vals, this`st, this`nBuckets, this`nOccupied, this`upperBound
      ensures flags == newFlags && (keys == old(keys) || fresh(keys)) && (vals == old(vals) || fresh(vals))
      ensures Valid() && nBuckets == n && nOccupied == size && Deleted !in st
    {
      Shrink(n, o, w);
      Adopt(newFlags, n, w);
    }

    /** The new flags and counts take effect. */
    method Adopt(newFlags: array<u32>, n: nat, ghost w: seq<Flag>)
      requires Separate()
      requires newFlags as object != keys && newFlags as object != vals && newFlags.Length == WordCount(n)
      requires |w| == n <= keys.Length && 4 <= n <= vals.Length && Represents(newFlags[..], w)
      requires TableOk(hash, w, keys[..], vals[..], contents, size, size, Upper(n))
      modifies this`flags, this`st, this`nBuckets, this`nOccupied, this`upperBound
      ensures flags == newFlags && st == w && nBuckets == n && nOccupied == size && Valid()
    {
      flags, st := newFlags, w;
      nBuckets, nOccupied, upperBound := n, size, Upper(n);
    }

    /** Shortening the buffers loses nothing: every entry was placed below `n`. */
    method Shrink(n: nat, ghost o: seq<Flag>, ghost w: seq<Flag>)
      requires Separate() && LiveSet(o) == {} && |w| == n
      requires Moving(hash, o, w, keys[..], vals[..], contents)
      requires 4 <= n <= MAX_BUCKETS && size == |contents| < Upper(n)
      modifies this`keys, this`vals
      ensures (keys == old(keys) || fresh(keys)) && (vals == old(vals) || fresh(vals))
      ensures Separate() && keys.Length >= n && vals.Length >= n
      ensures TableOk(hash, w, keys[..], vals[..], contents, size, size, Upper(n)) && Deleted !in w
    {
      DoneMoving(hash, o, w, keys[..], vals[..], contents);
      ghost var ks, vs := keys[..], vals[..];
      if nBuckets > n {
        keys := Realloc(keys, n);
        vals := Realloc(vals, n);
        CopyOk(hash, w, ks, vs, contents, size, size, Upper(n), keys[..], vals[..]);
      }
    }

    /** The arrays in the middle of a rehash, old flags `o` and new flags `w`. */
    ghost predicate InMotion(newFlags: array<u32>, o: seq<Flag>, w: seq<Flag>)
      reads this, flags, newFlags
    {
      && Separate()
      && newFlags != flags && newFlags as object != keys && newFlags as object != vals
      && |o| == nBuckets && Represents(flags[..], o) && Represents(newFlags[..], w)
    }

    /** The loop over the old buckets. */
    method MoveAll(newFlags: array<u32>, n: nat, ghost m: map<K, V>) returns (ghost o: seq<Flag>, ghost w: seq<Flag>)
      requires |m| <= n <= MAX_BUCKETS && InMotion(newFlags, st, AllEmpty(n))
      requires Moving(hash, st, AllEmpty(n), keys[..], vals[..], m)
      modifies flags, keys, vals, newFlags
      ensures InMotion(newFlags, o, w) && LiveSet(o) == {} && |w| == n
      ensures Moving(hash, o, w, keys[..], vals[..], m)
    {
      o, w := st, AllEmpty(n);
      var j := 0;
      while j != nBuckets
        invariant j <= nBuckets && |w| == n
        invariant InMotion(newFlags, o, w) && Moving(hash, o, w, keys[..], vals[..], m)
        invariant forall i :: i in LiveSet(o) ==> j <= i
      {
        var either := ReadIsEither(flags, j, o);
        if !either {
          o, w := MoveFrom(j, newFlags, n, o, w, m);
        }
        j := j + 1;
      }
    }

    /** The entry of old bucket `j` and everything it kicks out in turn. */
    method MoveFrom(j: nat, newFlags: array<u32>, n: nat, ghost o: seq<Flag>, ghost w: seq<Flag>, ghost m: map<K, V>)
      returns (ghost o': seq<Flag>, ghost w': seq<Flag>)
      requires InMotion(newFlags, o, w) && j < nBuckets && o[j].Live? && |m| <= |w| == n <= MAX_BUCKETS
      requires Moving(hash, o, w, keys[..], vals[..], m)
      modifies flags, keys, vals, newFlags
      ensures InMotion(newFlags, o', w') && |w'| == n && LiveSet(o') <= LiveSet(o) - {j}
      ensures Moving(hash, o', w', keys[..], vals[..], m)
    {
      PickUp(hash, o, w, keys[..], vals[..], m, j);
      SetFlag(o, j, Deleted);
      var key, val := keys[j], vals[j];
      ghost var ks, vs := keys[..], vals[..];
      SetIsDelTrue(flags, j, o);
      assert keys[..] == ks && vals[..] == vs && newFlags[..] == old(newFlags[..]);
      o', w' := o[j := Deleted], w;
      var done := false;
      while !done
        invariant InMotion(newFlags, o', w') && |w'| == n && LiveSet(o') <= LiveSet(o) - {j}
        invariant done ==> Moving(hash, o', w', keys[..], vals[..], m)
        invariant !done ==> key in m && m[key] == val && Moving(hash, o', w', keys[..], vals[..], m - {key})
        decreases LiveSet(o'), !done
      {
        done, key, val, o', w' := Place(newFlags, n, key, val, o', w', m);
      }
    }

    /** One turn of the kick-out loop: the entry in hand goes to the first bucket of its new
        probe path that is free in the new layout. What was live there in the old layout
        is in hand next. */
    method Place(newFlags: array<u32>, n: nat, key: K, val: V, ghost o: seq<Flag>, ghost w: seq<Flag>, ghost m: map<K, V>)
      returns (done: bool, key': K, val': V, ghost o': seq<Flag>, ghost w': seq<Flag>)
      requires InMotion(newFlags, o, w) && |m| <= |w| == n <= MAX_BUCKETS && key in m && m[key] == val
      requires Moving(hash, o, w, keys[..], vals[..], m - {key})
      modifies flags, keys, vals, newFlags
      ensures InMotion(newFlags, o', w') && |w'| == n
      ensures done ==> o' == o && Moving(hash, o', w', keys[..], vals[..], m)
      ensures !done ==> LiveSet(o') < LiveSet(o) && key' in m && m[key'] == val'
      ensures !done ==> Moving(hash, o', w', keys[..], vals[..], m - {key'})
    {
      RoomToPlace(hash, o, w, keys[..], vals[..], m, key);
      var i := FindFree(newFlags, n, key, w);
      ghost var ks, vs := keys[..], vals[..];
      var either := true;
      if i < nBuckets { either := ReadIsEither(flags, i, o); }
      SetIsEmptyFalse(newFlags, i, w);
      w' := w[i := Live];
      key', val', o', done := keys[i], vals[i], o, either;
      if !either {
        KickOut(hash, o, w, ks, vs, m, i, key);
        SetFlag(o, i, Deleted);
        SetIsDelTrue(flags, i, o);
        o' := o[i := Deleted];
        assert i in LiveSet(o);
      } else {
        PutDown(hash, o, w, ks, vs, m, i, key);
      }
      keys[i] := key;
      vals[i] := val;
      assert keys[..] == ks[i := key] && vals[..] == vs[i := val];
    }

    /** The free-slot search in the new layout. */
    method FindFree(newFlags: array<u32>, n: nat, key: K, ghost w: seq<Flag>) returns (i: nat)
      requires |w| == n <= MAX_BUCKETS && IsPow2(n) && Represents(newFlags[..], w) && Empty in w
      ensures i < n && w[i].Empty? && Reachable(hash(key), w, i)
    {
      ghost var h := hash(key);
      ghost var free: nat :| free < n && w[free] == Empty;
      ghost var limit := StepOf(h, free, n);
      var step := 0;
      i := FirstBucket(hash(key), n);
      while true
        invariant step <= limit && i == At(h, step, n) && Buckets.Clear(h, w, step)
        decreases limit - step
      {
        var empty := ReadIsEmpty(newFlags, i, w);
        if empty { break; }
        step := step + 1;
        i := NextBucket(i, step, n, h);
      }
      OnPath(h, w, step, step);
    }

    /** Every bucket is live, and the table has its greatest size. */
    ghost predicate Full()
      reads this
    {
      nBuckets == MAX_BUCKETS && size == nBuckets
    }

    /** The table is full, and not with the key. */
    ghost predicate Exhausted(key: K)
      reads this
    {
      Full() && key !in contents
    }

    /** The second half of `kh_put`, in a table with room. */
    method Insert(key: K) returns (x: nat, ret: int)
      requires Valid() && nBuckets != 0 && (nOccupied < upperBound || nBuckets == MAX_BUCKETS)
      modifies this, flags, keys
      ensures flags == old(flags) && keys == old(keys) && vals == old(vals)
      ensures Valid() && nBuckets == old(nBuckets) && x < nBuckets && st[x].Live?
      ensures key in old(contents) ==> ret == 0 && keys[x] == key && contents == old(contents)
      ensures key !in old(contents) && old(size) < nBuckets ==>
        ret in {1, 2} && keys[x] == key && contents == old(contents)[key := vals[x]]
      ensures key !in old(contents) && old(size) == nBuckets ==>
        ret == 0 && keys[x] != key && contents == old(contents) && size == old(size) && nBuckets == MAX_BUCKETS
      ensures old(size) <= nBuckets
      ensures ret != 0 ==> ret == if old(st[x].Empty?) then 1 else 2
      ensures ret == 2 ==> old(st[x].Deleted?)
      ensures ret != 0 ==> SlotAt(hash(key), old(st), x)
      ensures Deleted !in old(st) ==> ret != 2 && Deleted !in st
      ensures st == (if ret == 0 then old(st) else old(st)[x := Live]) && vals[..] == old(vals[..])
      ensures keys[..] == if ret == 0 then old(keys[..]) else old(keys[..])[x := key]
    {
      LiveWithinUsed(st);
      UpperBounds(nBuckets);
      x := FindSlot(key);
      var empty := ReadIsEmpty(flags, x, st);
      var del := ReadIsDel(flags, x, st);
      if empty || del {
        Occupy(key, x, empty);
        ret := if empty then 1 else 2;
      } else {
        ret := 0;
      }
    }

    /** A bucket on the key's probe path, empty or a tombstone, becomes the key's. */
    method Occupy(key: K, x: nat, empty: bool)
      requires Valid() && key !in contents && x < nBuckets && !st[x].Live? && empty == st[x].Empty?
      requires Reachable(hash(key), st, x) && (empty ==> nOccupied < upperBound || nBuckets == MAX_BUCKETS)
      modifies this`st, this`contents, this`size, this`nOccupied, flags, keys
      ensures Valid() && st[x].Live? && keys[x] == key && contents == old(contents)[key := vals[x]]
      ensures st == old(st)[x := Live] && keys[..] == old(keys[..])[x := key] && vals[..] == old(vals[..])
    {
      ghost var ks, vs := keys[..], vals[..];
      InsertOk(hash, st, ks, vs, contents, size, nOccupied, upperBound, x, key);
      keys[x] := key;
      SetIsBothFalse(flags, x, st);
      contents, st, size := contents[key := vs[x]], st[x := Live], size + 1;
      nOccupied := if empty then nOccupied + 1 else nOccupied;
      assert keys[..] == ks[x := key] && vals[..] == vs;
    }
  }

  /** One more step of a probe that finds neither an empty bucket nor the key. */
  lemma MissNext<K>(h: nat, st: seq<Flag>, keys: seq<K>, key: K, step: nat)
    requires 1 <= |st| <= |keys| && Missed(h, st, keys, key, step)
    requires
      var i := At(h, step, |st|);
      !st[i].Empty? && (st[i].Live? ==> keys[i] != key)
    ensures Missed(h, st, keys, key, step + 1)
  {
    forall t: nat | t < step + 1
      ensures var i := At(h, t, |st|); !st[i].Empty? && (st[i].Live? ==> keys[i] != key)
    {
      if t < step { assert Missed(h, st, keys, key, step); }
    }
  }

  lemma MissOne<K>(h: nat, st: seq<Flag>, keys: seq<K>, key: K, step: nat, site: nat, siteStep: nat)
    requires 1 <= |st| <= |keys|
    requires Missed(h, st, keys, key, step) && SiteOk(h, st, step, site, siteStep)
    requires
      var i := At(h, step, |st|);
      !st[i].Empty? && (st[i].Live? ==> keys[i] != key)
    ensures Missed(h, st, keys, key, step + 1)
    ensures
      var i := At(h, step, |st|);
      if st[i].Deleted? then SiteOk(h, st, step + 1, i, step) else SiteOk(h, st, step + 1, site, siteStep)
  {
    MissNext(h, st, keys, key, step);
  }

  /** What the tombstone remembered by `kh_put` is: the last one seen, if any was. */
  ghost predicate SiteOk(h: nat, st: seq<Flag>, step: nat, site: nat, siteStep: nat)
    requires |st| >= 1
  {
    if site == |st| then
      forall t: nat :: t < step ==> !st[At(h, t, |st|)].Deleted?
    else
      && site < |st| && siteStep < step && At(h, siteStep, |st|) == site && st[site].Deleted?
      && forall u: nat :: siteStep < u < step ==> !st[At(h, u, |st|)].Deleted?
  }

  /** The probe for a new key ends at step `s`: at the first empty bucket or, if there is none, back
      where it began. */
  ghost predicate ProbeEnds(h: nat, st: seq<Flag>, s: nat)
    requires |st| >= 1
  {
    Buckets.Clear(h, st, s) && (st[At(h, s, |st|)].Empty? || s == 2 * |st| - 1)
  }

  /** `x` is the last tombstone met before step `s`. */
  ghost predicate LastTombstone(h: nat, st: seq<Flag>, s: nat, x: nat)
    requires |st| >= 1
  {
    exists t: nat :: t < s && At(h, t, |st|) == x && st[At(h, t, |st|)].Deleted? && NoTombstone(h, st, t + 1, s)
  }

  ghost predicate NoTombstone(h: nat, st: seq<Flag>, from: nat, to: nat)
    requires |st| >= 1
  {
    forall t: nat :: from <= t < to ==> !st[At(h, t, |st|)].Deleted?
  }

  /** A new key goes to the last tombstone that the probe meets or, if it meets none, to the
      bucket where it ends. */
  ghost predicate SlotRule(h: nat, st: seq<Flag>, s: nat, x: nat)
    requires |st| >= 1
  {
    ProbeEnds(h, st, s) && if NoTombstone(h, st, 0, s) then x == At(h, s, |st|) else LastTombstone(h, st, s, x)
  }

  ghost predicate SlotAt(h: nat, st: seq<Flag>, x: nat)
    requires |st| >= 1
  {
    exists s: nat :: SlotRule(h, st, s, x)
  }

  /** What `kh_put` does with a new key, below the load limit: it reuses the last tombstone before
      the first empty bucket and returns 2, or takes that empty bucket and returns 1. */
  ghost predicate PutRule(h: nat, st: seq<Flag>, x: nat, ret: int) {
    && |st| >= 1
    && exists s: nat ::
         && Buckets.Clear(h, st, s) && st[At(h, s, |st|)].Empty?
         && if NoTombstone(h, st, 0, s) then ret == 1 && x == At(h, s, |st|) else ret == 2 && LastTombstone(h, st, s, x)
  }

  /** The first empty bucket decides. */
  lemma PutRuleAt(h: nat, st: seq<Flag>, x: nat, ret: int, s: nat)
    requires PutRule(h, st, x, ret) && Buckets.Clear(h, st, s) && st[At(h, s, |st|)].Empty?
    ensures if NoTombstone(h, st, 0, s) then ret == 1 && x == At(h, s, |st|) else ret == 2 && LastTombstone(h, st, s, x)
  {
    var t: nat :|
      && Buckets.Clear(h, st, t) && st[At(h, t, |st|)].Empty?
      && if NoTombstone(h, st, 0, t) then ret == 1 && x == At(h, t, |st|) else ret == 2 && LastTombstone(h, st, t, x);
    assert s == t;
  }

  /** Where some bucket is empty the probe ends at one. */
  lemma EmptyEndsProbe(h: nat, st: seq<Flag>, x: nat, ret: int)
    requires IsPow2(|st|) && Empty in st && SlotAt(h, st, x)
    requires x < |st| && ret == if st[x].Empty? then 1 else 2
    ensures PutRule(h, st, x, ret)
  {
    var s: nat :| SlotRule(h, st, s, x);
    var e: nat :| e < |st| && st[e] == Empty;
    var t := StepOf(h, e, |st|);
    assert st[At(h, t, |st|)].Empty?;
    assert s <= t;
  }

  /** The bucket `kh_put` settles on. */
  lemma SlotFound<K, V>(hash: K -> u32, st: seq<Flag>, keys: seq<K>, vals: seq<V>, m: map<K, V>,
                        key: K, step: nat, site: nat, siteStep: nat, x: nat)
    requires |st| >= 1 && Paths(hash, st, keys) && Stores(LiveSet(st), keys, vals, m)
    requires Missed(hash(key), st, keys, key, step) && SiteOk(hash(key), st, step, site, siteStep)
    requires
      var i := At(hash(key), step, |st|);
      if step == 2 * |st| - 1 then
        x == if site == |st| then At(hash(key), 0, |st|) else site
      else
        && step < 2 * |st| - 1
        && (st[i].Empty? || (st[i].Live? && keys[i] == key))
        && x == if st[i].Empty? && site != |st| then site else i
    ensures x < |st|
    ensures key in m ==> st[x].Live? && keys[x] == key
    ensures key !in m && |LiveSet(st)| < |st| ==> !st[x].Live? && Reachable(hash(key), st, x)
    ensures key !in m && |LiveSet(st)| < |st| ==> SlotRule(hash(key), st, step, x)
    ensures key !in m && |LiveSet(st)| == |st| ==> st[x].Live? && keys[x] != key
  {
    var h := hash(key);
    var i := At(h, step, |st|);
    LiveWithinUsed(st);
    assert Buckets.Clear(h, st, step);
    if step == 2 * |st| - 1 || st[i].Empty? {
      Absent(hash, st, keys, vals, m, key, step);
      if site != |st| {
        OnPath(h, st, siteStep, step);
      } else if st[i].Empty? && step < 2 * |st| - 1 {
        OnPath(h, st, step, step);
      } else {
        forall j: nat | j < |st| ensures st[j].Live? {
          var t := StepOf(h, j, |st|);
          assert At(h, t, |st|) == j;
        }
      }
    } else {
      assert i in LiveSet(st);
    }
  }

  /** `krealloc`: a buffer of `n` elements that agrees with the old one as far as both go. */
  method Realloc<T(0)>(a: array<T>, n: nat) returns (b: array<T>)
    ensures fresh(b) && b.Length == n
    ensures forall i :: 0 <= i < n && i < a.Length ==> b[i] == a[i]
  {
    b := new T[n];
    forall i | 0 <= i < n && i < a.Length { b[i] := a[i]; }
  }

  /** The size that `kh_put` gets when it asks for another one: the same when less than half the
      buckets are live, else the double, which for 2^31 buckets comes out as 4. */
  function AskedSize(n: nat, size: nat): nat {
    if n > (if size >= 0x8000_0000 then 0 else 2 * size) then n
    else if n == 0 || n == MAX_BUCKETS then 4
    else 2 * n
  }

  /** Both resize requests of `kh_put` are accepted and leave room, until 2^31 buckets are in use. */
  lemma RoomAfterResize(n: nat, size: nat, r: nat)
    requires n == 0 || (IsPow2(n) && 4 <= n <= MAX_BUCKETS)
    requires size <= n
    requires
      if n > (if size >= 0x8000_0000 then 0 else 2 * size) then SizeFor(n - 1, r) else SizeFor(n + 1, r)
    ensures r == AskedSize(n, size)
    ensures size < Upper(r) < r || n == MAX_BUCKETS
  {
    if n == 0 {
    } else if n > (if size >= 0x8000_0000 then 0 else 2 * size) {
      SizeBelow(n, r);
      UpperBounds(n);
    } else {
      SizeAbove(n, r);
      UpperBounds(n);
      UpperBounds(2 * n);
    }
  }

  lemma Pow2Multiple(n: nat)
    requires IsPow2(n)
    ensures n < 16 || n % 16 == 0
  {
    var k: nat :| n == Pow2(k);
    if k >= 4 {
      Pow2Add(4, k - 4);
      assert Pow2(4) == 16;
      ModUnique(n, 16, Pow2(k - 4), 0);
    } else {
      Pow2Order(k, 4);
    }
  }
}
