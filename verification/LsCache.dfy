/** The cache of directory listings (ls.c): 32 slots written round robin, searched from the newest.
    A log of the calls made so far says what it has to remember. */
module LsCache {
  import opened Basics

  const LS_CACHE_SIZE := 32

  type Listing = seq<string>

  datatype LsCacheItem = LsCacheItem(itempath: Option<string>, fil: Listing, expiration: int, hits: nat) {
    predicate Live() {
      expiration != 0 && itempath.Some?
    }
  }

  /** A call, with the time it was made at. */
  datatype Call =
    | Add(path: string, files: Listing, expires: int)
    | Lookup(path: string, now: int)
    | Flush

  /** A listing remembered, with the number of listings added since. */
  datatype Memory = Memory(files: Listing, expires: int, age: nat)

  /** A listing just added. An expiration time of 0 marks an empty slot, so such a listing is lost. */
  function Fresh(files: Listing, expires: int): Option<Memory> {
    if expires == 0 then None else Some(Memory(files, expires, 0))
  }

  /** What one more call makes of what is remembered for a path. */
  function After(before: Option<Memory>, path: string, c: Call): (m: Option<Memory>)
    ensures (before.Some? ==> before.value.age < LS_CACHE_SIZE) && m.Some? ==> m.value.age < LS_CACHE_SIZE
  {
    match c
    case Flush => None
    case Lookup(p, now) => if p == path && before.Some? && now > before.value.expires then None else before
    case Add(p, files, expires) =>
      if files == [] then before
      else if p == path then Fresh(files, expires)
      else if before.Some? && before.value.age + 1 < LS_CACHE_SIZE then Some(before.value.(age := before.value.age + 1))
      else None
  }

  /** What the calls so far leave behind for one path: the listing last added for it, unless it was
      flushed, looked up too late, or 32 more listings have been added. No other path matters. */
  ghost function Remembered(log: seq<Call>, path: string): (m: Option<Memory>)
    ensures m.Some? ==> m.value.age < LS_CACHE_SIZE
  {
    if log == [] then None else After(Remembered(log[..|log| - 1], path), path, log[|log| - 1])
  }

  /** A call more. */
  lemma RememberedSnoc(log: seq<Call>, c: Call, path: string)
    ensures Remembered(log + [c], path) == After(Remembered(log, path), path, c)
  {
    assert (log + [c])[..|log|] == log;
  }

  /** The listings added by the calls. */
  function Additions(log: seq<Call>): nat {
    if log == [] then 0
    else Additions(log[..|log| - 1]) + (if log[|log| - 1].Add? && log[|log| - 1].files != [] then 1 else 0)
  }

  /** The call replaces or flushes the listing of the path, or finds it expired. */
  ghost predicate Disturbs(c: Call, path: string, expires: int) {
    match c
    case Flush => true
    case Lookup(p, now) => p == path && now > expires
    case Add(p, files, _) => p == path && files != []
  }

  ghost predicate Undisturbed(log: seq<Call>, path: string, expires: int) {
    forall i :: 0 <= i < |log| ==> !Disturbs(log[i], path, expires)
  }

  /** An undisturbed listing survives the next 31 additions, and no more. */
  lemma {:induction false} SurvivesThirtyOne(log: seq<Call>, path: string, files: Listing, expires: int, later: seq<Call>)
    requires files != [] && Undisturbed(later, path, expires)
    ensures Remembered(log + [Add(path, files, expires)] + later, path) ==
      if expires != 0 && Additions(later) < 32 then Some(Memory(files, expires, Additions(later))) else None
    decreases |later|
  {
    var added := log + [Add(path, files, expires)];
    if later == [] {
      RememberedSnoc(log, Add(path, files, expires), path);
      assert added + later == added;
    } else {
      var front, last := later[..|later| - 1], later[|later| - 1];
      assert !Disturbs(last, path, expires);
      SurvivesThirtyOne(log, path, files, expires, front);
      assert added + later == (added + front) + [last];
      RememberedSnoc(added + front, last, path);
    }
  }

  /** The call adds a listing for the path. */
  predicate Adds(c: Call, path: string) {
    c.Add? && c.path == path && c.files != []
  }

  /** What is forgotten stays so until it is added again. */
  lemma {:induction false} StaysForgotten(log: seq<Call>, path: string, later: seq<Call>)
    requires Remembered(log, path) == None && forall i :: 0 <= i < |later| ==> !Adds(later[i], path)
    ensures Remembered(log + later, path) == None
    decreases |later|
  {
    if later == [] {
      assert log + later == log;
    } else {
      var front, last := later[..|later| - 1], later[|later| - 1];
      StaysForgotten(log, path, front);
      assert log + later == (log + front) + [last];
      assert !Adds(last, path);
      RememberedSnoc(log + front, last, path);
    }
  }

  /** A flush forgets every listing, and so does a lookup past its expiration: each is missed, whatever the calls
      before, until it is added again. */
  lemma ForgottenUntilAdded(log: seq<Call>, path: string, now: int, later: seq<Call>)
    requires forall i :: 0 <= i < |later| ==> !Adds(later[i], path)
    ensures Remembered(log + [Flush] + later, path) == None
    ensures Remembered(log, path).Some? && now > Remembered(log, path).value.expires ==> Remembered(log + [Lookup(path, now)] + later, path) == None
  {
    RememberedSnoc(log, Flush, path);
    RememberedSnoc(log, Lookup(path, now), path);
    StaysForgotten(log + [Flush], path, later);
    if Remembered(log, path).Some? && now > Remembered(log, path).value.expires {
      StaysForgotten(log + [Lookup(path, now)], path, later);
    }
  }

  /** The slot written `age` additions ago. */
  function Slot(oldest: nat, age: nat): nat
    requires oldest < LS_CACHE_SIZE && age < LS_CACHE_SIZE
  {
    if age < oldest then oldest - 1 - age else oldest + LS_CACHE_SIZE - 1 - age
  }

  /** The age of the item in a slot. */
  function AgeOf(oldest: nat, slot: nat): (age: nat)
    requires oldest < LS_CACHE_SIZE && slot < LS_CACHE_SIZE
    ensures age < LS_CACHE_SIZE && Slot(oldest, age) == slot
  {
    Slot(oldest, slot)
  }

  /** A slot written `age` additions ago holds exactly what is remembered from then. */
  ghost predicate Faithful(log: seq<Call>, item: LsCacheItem, age: nat) {
    && (item.Live() ==> Remembered(log, item.itempath.value) == Some(Memory(item.fil, item.expiration, age)))
    && (forall path :: Remembered(log, path).Some? && Remembered(log, path).value.age == age ==>
          item.Live() && item.itempath == Some(path))
  }

  /** The same, as far as other paths are concerned; the slot does not hold `but`. */
  ghost predicate FaithfulBut(log: seq<Call>, item: LsCacheItem, age: nat, but: string) {
    && (item.Live() ==> item.itempath != Some(but) && Remembered(log, item.itempath.value) == Some(Memory(item.fil, item.expiration, age)))
    && (forall path :: path != but && Remembered(log, path).Some? && Remembered(log, path).value.age == age ==>
          item.Live() && item.itempath == Some(path))
  }

  /** The slot after the oldest. */
  function NextSlot(oldest: nat): nat {
    if oldest + 1 >= LS_CACHE_SIZE then 0 else oldest + 1
  }

  lemma NewestSlot(oldest: nat)
    requires oldest < LS_CACHE_SIZE
    ensures Slot(NextSlot(oldest), 0) == oldest
  {
  }

  lemma OlderSlot(oldest: nat, age: nat)
    requires oldest < LS_CACHE_SIZE && 0 < age < LS_CACHE_SIZE
    ensures Slot(NextSlot(oldest), age) == Slot(oldest, age - 1) != oldest
  {
  }

  lemma NewestFaithful(log: seq<Call>, c: Call)
    requires c.Add? && c.files != []
    ensures Faithful(log + [c], LsCacheItem(Some(c.path), c.files, c.expires, 0), 0)
  {
    forall path ensures Remembered(log + [c], path) == After(Remembered(log, path), path, c) {
      RememberedSnoc(log, c, path);
    }
  }

  lemma OlderFaithful(log: seq<Call>, c: Call, item: LsCacheItem, age: nat)
    requires c.Add? && c.files != [] && age + 1 < LS_CACHE_SIZE && FaithfulBut(log, item, age, c.path)
    ensures Faithful(log + [c], item, age + 1)
  {
    forall path ensures Remembered(log + [c], path) == After(Remembered(log, path), path, c) {
      RememberedSnoc(log, c, path);
    }
  }

  class Cache {
    const gLsCache: array<LsCacheItem>
    var gOldestLsCacheItem: nat
    ghost var log: seq<Call>

    ghost predicate Valid()
      reads this, gLsCache
    {
      && gLsCache.Length == LS_CACHE_SIZE && gOldestLsCacheItem < LS_CACHE_SIZE
      && forall age: nat :: age < LS_CACHE_SIZE ==> Faithful(log, gLsCache[Slot(gOldestLsCacheItem, age)], age)
    }

    /** InitLsCache */
    constructor ()
      ensures Valid() && log == [] && fresh(gLsCache)
    {
      gLsCache := new LsCacheItem[LS_CACHE_SIZE](i => LsCacheItem(None, [], 0, 0));
      gOldestLsCacheItem := 0;
      log := [];
    }

    method FlushLsCacheItem(i: nat)
      requires i < gLsCache.Length
      modifies gLsCache
      ensures gLsCache[i] == LsCacheItem(None, [], 0, old(gLsCache[i].hits))
      ensures forall j :: 0 <= j < gLsCache.Length && j != i ==> gLsCache[j] == old(gLsCache[j])
    {
      gLsCache[i] := LsCacheItem(None, [], 0, gLsCache[i].hits);
    }

    method FlushLsCache()
      requires Valid()
      modifies this`log, gLsCache
      ensures Valid() && log == old(log) + [Flush]
      ensures forall j :: 0 <= j < gLsCache.Length ==> !gLsCache[j].Live()
      ensures forall path :: Remembered(log, path) == None
    {
      var i := 0;
      while i < LS_CACHE_SIZE
        invariant 0 <= i <= LS_CACHE_SIZE
        invariant forall j :: 0 <= j < i ==> !gLsCache[j].Live()
        modifies gLsCache
      {
        if gLsCache[i].expiration != 0 {
          FlushLsCacheItem(i);
        }
        i := i + 1;
      }
      forall path ensures Remembered(log + [Flush], path) == None {
        RememberedSnoc(log, Flush, path);
      }
      log := log + [Flush];
    }

    /** The slot with a live listing for the path, or -1. A hit is what is remembered for the path and
        has not expired; a listing found expired is flushed. */
    method LsCacheLookup(itempath: string, now: int) returns (j: int)
      requires Valid()
      modifies this`log, gLsCache
      ensures Valid() && log == old(log) + [Lookup(itempath, now)]
      ensures -1 <= j < LS_CACHE_SIZE
      ensures var m := Remembered(old(log), itempath);
        && (j >= 0 <==> m.Some? && now <= m.value.expires)
        && (j >= 0 ==> gLsCache[j].Live() && gLsCache[j].itempath == Some(itempath))
        && (j >= 0 ==> gLsCache[j].fil == m.value.files && gLsCache[j].expiration == m.value.expires && j == Slot(gOldestLsCacheItem, m.value.age))
    {
      var i: nat := 0;
      j := gOldestLsCacheItem;
      ghost var m := Remembered(log, itempath);
      while i < LS_CACHE_SIZE
        invariant i <= LS_CACHE_SIZE
        invariant j == if i <= gOldestLsCacheItem then gOldestLsCacheItem - i else gOldestLsCacheItem + LS_CACHE_SIZE - i
        invariant m.Some? ==> m.value.age >= i
      {
        j := j - 1;
        if j < 0 {
          j := LS_CACHE_SIZE - 1;
        }
        assert j == Slot(gOldestLsCacheItem, i) && Faithful(log, gLsCache[j], i);
        if gLsCache[j].expiration != 0 && gLsCache[j].itempath != None {
          if itempath == gLsCache[j].itempath.value {
            if now > gLsCache[j].expiration {
              FlushExpired(j, i, itempath, now);
              return -1;
            }
            Note(itempath, now);
            Hit(j);
            return;
          }
        }
        i := i + 1;
      }
      Note(itempath, now);
      j := -1;
    }

    /** A lookup that changes no memory. */
    ghost method Note(itempath: string, now: int)
      requires Valid()
      requires var m := Remembered(log, itempath); m.Some? ==> now <= m.value.expires
      modifies this`log
      ensures Valid() && log == old(log) + [Lookup(itempath, now)]
    {
      var c := Lookup(itempath, now);
      forall path ensures Remembered(log + [c], path) == Remembered(log, path) {
        RememberedSnoc(log, c, path);
      }
      forall age: nat | age < LS_CACHE_SIZE ensures Faithful(log + [c], gLsCache[Slot(gOldestLsCacheItem, age)], age) {
        assert Faithful(log, gLsCache[Slot(gOldestLsCacheItem, age)], age);
      }
      log := log + [c];
    }

    method Hit(j: nat)
      requires Valid() && j < LS_CACHE_SIZE
      modifies gLsCache
      ensures Valid() && gLsCache[j] == old(gLsCache[j]).(hits := old(gLsCache[j].hits) + 1)
    {
      ghost var before := gLsCache[..];
      gLsCache[j] := gLsCache[j].(hits := gLsCache[j].hits + 1);
      forall age: nat | age < LS_CACHE_SIZE ensures Faithful(log, gLsCache[Slot(gOldestLsCacheItem, age)], age) {
        assert Faithful(log, before[Slot(gOldestLsCacheItem, age)], age);
      }
    }

    /** The listing for a path, found expired, goes. */
    method FlushExpired(j: nat, ghost age: nat, itempath: string, now: int)
      requires Valid() && age < LS_CACHE_SIZE && j == Slot(gOldestLsCacheItem, age)
      requires var m := Remembered(log, itempath); m.Some? && m.value.age == age && now > m.value.expires
      modifies this`log, gLsCache
      ensures Valid() && log == old(log) + [Lookup(itempath, now)]
    {
      ghost var c := Lookup(itempath, now);
      ghost var before := gLsCache[..];
      forall path ensures Remembered(log + [c], path) == if path == itempath then None else Remembered(log, path) {
        RememberedSnoc(log, c, path);
      }
      FlushLsCacheItem(j);
      assert Faithful(log, before[j], age);
      forall age': nat | age' < LS_CACHE_SIZE ensures Faithful(log + [c], gLsCache[Slot(gOldestLsCacheItem, age')], age') {
        assert Faithful(log, before[Slot(gOldestLsCacheItem, age')], age');
        assert age' != age ==> Slot(gOldestLsCacheItem, age') != j;
      }
      log := log + [c];
    }

    /** Writes the oldest slot, which becomes the newest; no other slot holds the path. */
    method StoreNewest(itempath: string, files: Listing, expires: int)
      requires gLsCache.Length == LS_CACHE_SIZE && gOldestLsCacheItem < LS_CACHE_SIZE
      requires files != []
      requires forall age: nat :: age < LS_CACHE_SIZE ==> FaithfulBut(log, gLsCache[Slot(gOldestLsCacheItem, age)], age, itempath)
      modifies this, gLsCache
      ensures Valid() && log == old(log) + [Add(itempath, files, expires)]
    {
      ghost var c := Add(itempath, files, expires);
      ghost var before, oldest := gLsCache[..], gOldestLsCacheItem;
      var j := gOldestLsCacheItem;
      gLsCache[j] := LsCacheItem(Some(itempath), files, expires, 0);
      gOldestLsCacheItem := gOldestLsCacheItem + 1;
      if gOldestLsCacheItem >= LS_CACHE_SIZE {
        gOldestLsCacheItem := 0;
      }
      NewestSlot(oldest);
      NewestFaithful(log, c);
      forall age: nat | 0 < age < LS_CACHE_SIZE ensures Faithful(log + [c], gLsCache[Slot(gOldestLsCacheItem, age)], age) {
        OlderSlot(oldest, age);
        assert FaithfulBut(log, before[Slot(oldest, age - 1)], age - 1, itempath);
        OlderFaithful(log, c, before[Slot(oldest, age - 1)], age - 1);
      }
      log := log + [c];
    }

    /** Stores a nonempty listing in the oldest slot; a fresh one for the same path is flushed first. */
    method LsCacheAdd(itempath: string, files: Listing, now: int, lifetime: int)
      requires Valid()
      modifies this, gLsCache
      ensures Valid()
      ensures log == old(log) + (if files == [] then [] else [Lookup(itempath, now), Add(itempath, files, now + lifetime)])
    {
      if files == [] {
        return;
      }
      RememberedSnoc(log, Lookup(itempath, now), itempath);
      var j := LsCacheLookup(itempath, now);
      ghost var before := gLsCache[..];
      ghost var m := Remembered(log, itempath);
      if j >= 0 {
        FlushLsCacheItem(j);
      }
      forall age: nat | age < LS_CACHE_SIZE ensures FaithfulBut(log, gLsCache[Slot(gOldestLsCacheItem, age)], age, itempath) {
        assert Faithful(log, before[Slot(gOldestLsCacheItem, age)], age);
        assert m.Some? && Slot(gOldestLsCacheItem, age) != j ==> age != m.value.age;
        assert m.Some? && Slot(gOldestLsCacheItem, age) == j ==> age == m.value.age;
      }
      StoreNewest(itempath, files, now + lifetime);
    }

    /** At most one live slot has a given path. */
    lemma OneSlotPerPath(i: nat, j: nat)
      requires Valid() && i < LS_CACHE_SIZE && j < LS_CACHE_SIZE
      requires gLsCache[i].Live() && gLsCache[j].Live() && gLsCache[i].itempath == gLsCache[j].itempath
      ensures i == j
    {
      var a, b := AgeOf(gOldestLsCacheItem, i), AgeOf(gOldestLsCacheItem, j);
      assert Faithful(log, gLsCache[i], a) && Faithful(log, gLsCache[j], b);
    }
  }

  // ---- short runs ----

  /** A listing added at the time `made` with a lifetime is found at `now` exactly until that has passed. */
  method AddAndLookup(path: string, files: Listing, made: int, lifetime: int, now: int) returns (found: Option<Listing>)
    requires files != [] && made + lifetime != 0
    ensures found == if now <= made + lifetime then Some(files) else None
  {
    var cache := new Cache();
    cache.LsCacheAdd(path, files, made, lifetime);
    RememberedSnoc([Lookup(path, made)], Add(path, files, made + lifetime), path);
    assert cache.log == [Lookup(path, made)] + [Add(path, files, made + lifetime)];
    var j := cache.LsCacheLookup(path, now);
    found := if j >= 0 then Some(cache.gLsCache[j].fil) else None;
  }

  /** And not at all once the cache is flushed. */
  method FlushAndLookup(path: string, files: Listing, made: int, lifetime: int, now: int) returns (j: int)
    ensures j == -1
  {
    var cache := new Cache();
    cache.LsCacheAdd(path, files, made, lifetime);
    cache.FlushLsCache();
    j := cache.LsCacheLookup(path, now);
  }
}
