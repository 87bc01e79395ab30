/** The response cache: a store with expiry, a secondary index from courses to keys, lazy eviction.
    Its behaviour over whole runs against a plain timestamped map. */
module ResponseCaching {
  import opened Wrappers

  datatype CacheEntry = CacheEntry(response: string, sources: seq<string>, timestamp: real, courseIds: seq<string>)

  type Store = map<string, (CacheEntry, real)>

  type Index = map<string, set<string>>

  datatype State = State(store: Store, index: Index)

  datatype Op = Get(key: string) | Set(key: string, entry: CacheEntry) | InvalidateCourse(course: string) | Flush

  /** An operation and the clock reading it happens at. */
  datatype Event = Event(at: real, op: Op)

  datatype Reply = Hit(entry: CacheEntry) | Miss | Stored | Removed(count: nat)

  // ---------------------------------------------------------------------
  // The operations on values
  // ---------------------------------------------------------------------

  function KeysOf(index: Index, course: string): set<string> {
    if course in index then index[course] else {}
  }

  /** File a key under each of its courses. */
  ghost function Filed(index: Index, courses: seq<string>, key: string): Index {
    map c | c in index.Keys + (set d | d in courses) ::
      KeysOf(index, c) + if c in courses then {key} else {}
  }

  /** Strike a key from the courses that are in the index. */
  ghost function Struck(index: Index, courses: seq<string>, key: string): Index {
    map c | c in index :: if c in courses then index[c] - {key} else index[c]
  }

  lemma {:induction false} FiledSpelled(index: Index, courses: seq<string>, key: string)
    ensures var filed := Filed(index, courses, key);
            && (forall c :: c in filed <==> c in index || c in courses)
            && forall c :: c in filed ==>
                 filed[c] == (if c in index then index[c] else {}) + (if c in courses then {key} else {})
  {
  }

  lemma {:induction false} FiledNone(index: Index, key: string)
    ensures Filed(index, [], key) == index
  {
    assert forall c :: c in index ==> KeysOf(index, c) + {} == index[c];
  }

  lemma {:induction false} FiledNext(index: Index, courses: seq<string>, c: string, key: string)
    ensures Filed(index, courses + [c], key)
            == Filed(index, courses, key)[c := KeysOf(Filed(index, courses, key), c) + {key}]
  {
    var a, b := Filed(index, courses + [c], key), Filed(index, courses, key);
    assert a.Keys == b.Keys + {c};
    forall d | d in a ensures a[d] == b[c := KeysOf(b, c) + {key}][d] {
      assert d in courses + [c] <==> d in courses || d == c;
    }
  }

  lemma {:induction false} StruckNext(index: Index, courses: seq<string>, c: string, key: string)
    ensures Struck(index, courses + [c], key)
            == if c in index then Struck(index, courses, key)[c := Struck(index, courses, key)[c] - {key}]
               else Struck(index, courses, key)
  {
    var a, b := Struck(index, courses + [c], key), Struck(index, courses, key);
    var r := if c in index then b[c := b[c] - {key}] else b;
    forall d | d in a ensures a[d] == r[d] {
      assert d in courses + [c] <==> d in courses || d == c;
    }
    assert a == r;
  }

  ghost function Apply(ttl: real, s: State, ev: Event): (State, Reply) {
    match ev.op
    case Get(key) =>
      if key !in s.store then (s, Miss)
      else if ev.at > s.store[key].1 then
        (State(s.store - {key}, Struck(s.index, s.store[key].0.courseIds, key)), Miss)
      else (s, Hit(s.store[key].0))
    case Set(key, entry) =>
      (State(s.store[key := (entry, ev.at + ttl)], Filed(s.index, entry.courseIds, key)), Stored)
    case InvalidateCourse(course) =>
      (State(s.store - KeysOf(s.index, course), s.index - {course}),
       Removed(|s.store.Keys * KeysOf(s.index, course)|))
    case Flush =>
      (State(map[], map[]), Removed(|s.store|))
  }

  lemma {:induction false} DropOne(store: Store, done: set<string>, key: string)
    requires key !in done
    ensures store - (done + {key}) == store - done - {key}
    ensures |store.Keys * (done + {key})| == |store.Keys * done| + (if key in store then 1 else 0)
    ensures key !in store ==> store - done - {key} == store - done
  {
    OneMoreKey(store.Keys, done, key);
  }

  lemma {:induction false} OneMoreKey(keys: set<string>, done: set<string>, key: string)
    requires key !in done
    ensures |keys * (done + {key})| == |keys * done| + (if key in keys then 1 else 0)
  {
    if key in keys {
      assert keys * (done + {key}) == keys * done + {key};
    } else {
      assert keys * (done + {key}) == keys * done;
    }
  }

  lemma {:induction false} DropCount(store: Store, keys: set<string>)
    ensures |store - keys| + |store.Keys * keys| == |store|
  {
    assert (store - keys).Keys == store.Keys - keys;
    assert store.Keys == (store.Keys - keys) + store.Keys * keys;
    assert |store.Keys| == |store| && |(store - keys).Keys| == |store - keys|;
  }

  // ---------------------------------------------------------------------
  // The class
  // ---------------------------------------------------------------------

  class ResponseCache {
    var store: Store
    var index: Index
    const ttl: real

    constructor (ttl: real)
      ensures this.ttl == ttl && Value() == State(map[], map[])
    {
      this.ttl := ttl;
      store := map[];
      index := map[];
    }

    ghost function Value(): State
      reads this
    {
      State(store, index)
    }

    /** Look an entry up; an expired one is evicted and missed. */
    method Get(key: string, now: real) returns (r: Option<CacheEntry>)
      modifies this
      ensures (Value(), if r.Some? then Hit(r.value) else Miss) == Apply(ttl, old(Value()), Event(now, Op.Get(key)))
      ensures r == (if key in old(store) && now <= old(store)[key].1 then Some(old(store)[key].0) else None)
      ensures key in old(store) && now > old(store)[key].1 ==>
                && store == old(store) - {key} && index.Keys == old(index).Keys
                && forall c, k | c in old(index) ::
                     k in index[c] <==> k in old(index)[c] && (k != key || c !in old(store)[key].0.courseIds)
      ensures !(key in old(store) && now > old(store)[key].1) ==> store == old(store) && index == old(index)
    {
      if key !in store {
        return None;
      }
      var (entry, expiresAt) := store[key];
      if now > expiresAt {
        Evict(key, entry);
        return None;
      }
      return Some(entry);
    }

    method Set(key: string, entry: CacheEntry, now: real)
      modifies this
      ensures Value() == Apply(ttl, old(Value()), Event(now, Op.Set(key, entry))).0
      ensures store == old(store)[key := (entry, now + ttl)]
      ensures forall c :: c in index <==> c in old(index) || c in entry.courseIds
      ensures forall c :: c in index ==>
                index[c] == (if c in old(index) then old(index)[c] else {}) + (if c in entry.courseIds then {key} else {})
    {
      hide Filed;
      store := store[key := (entry, now + ttl)];
      FiledNone(index, key);
      assert entry.courseIds[..0] == [];
      for i := 0 to |entry.courseIds|
        invariant store == old(store)[key := (entry, now + ttl)]
        invariant index == Filed(old(index), entry.courseIds[..i], key)
      {
        var cid := entry.courseIds[i];
        assert entry.courseIds[..i + 1] == entry.courseIds[..i] + [cid];
        FiledNext(old(index), entry.courseIds[..i], cid, key);
        if cid !in index {
          index := index[cid := {}];
        }
        index := index[cid := index[cid] + {key}];
      }
      assert entry.courseIds[..|entry.courseIds|] == entry.courseIds;
      FiledSpelled(old(index), entry.courseIds, key);
    }

    /** Drop all entries filed under a course; the result counts the entries that went. */
    method InvalidateCourse(course: string) returns (count: nat)
      modifies this
      ensures forall now :: (Value(), Removed(count)) == Apply(ttl, old(Value()), Event(now, Op.InvalidateCourse(course)))
      ensures index == old(index) - {course}
      ensures store == (if course in old(index) then old(store) - old(index)[course] else old(store))
      ensures |store| + count == |old(store)|
    {
      var keys := if course in index then index[course] else {};
      index := index - {course};
      DropCount(store, keys);
      count := RemoveAll(keys);
    }

    method RemoveAll(keys: set<string>) returns (count: nat)
      modifies this`store
      ensures store == old(store) - keys && count == |old(store).Keys * keys|
    {
      count := 0;
      var rest := keys;
      ghost var done: set<string> := {};
      while rest != {}
        invariant keys == done + rest && done !! rest
        invariant store == old(store) - done
        invariant count == |old(store).Keys * done|
        decreases rest
      {
        var key :| key in rest;
        DropOne(old(store), done, key);
        done := done + {key};
        rest := rest - {key};
        if key in store {
          store := store - {key};
          count := count + 1;
        }
      }
      assert done == keys;
    }

    method FlushAll() returns (count: nat)
      modifies this
      ensures forall now :: (Value(), Removed(count)) == Apply(ttl, old(Value()), Event(now, Op.Flush))
      ensures store == map[] && index == map[] && count == |old(store)|
    {
      count := |store|;
      store := map[];
      index := map[];
    }

    /** Remove an entry and clean the index up. */
    method Evict(key: string, entry: CacheEntry)
      requires key in store
      modifies this
      ensures store == old(store) - {key} && index == Struck(old(index), entry.courseIds, key)
      ensures index.Keys == old(index).Keys
      ensures forall c, k | c in old(index) :: k in index[c] <==> k in old(index)[c] && (k != key || c !in entry.courseIds)
    {
      store := store - {key};
      for i := 0 to |entry.courseIds|
        invariant store == old(store) - {key}
        invariant index == Struck(old(index), entry.courseIds[..i], key)
      {
        var cid := entry.courseIds[i];
        assert entry.courseIds[..i + 1] == entry.courseIds[..i] + [cid];
        StruckNext(old(index), entry.courseIds[..i], cid, key);
        if cid in index {
          index := index[cid := index[cid] - {key}];
        }
      }
      assert entry.courseIds[..|entry.courseIds|] == entry.courseIds;
    }
  }

  // ---------------------------------------------------------------------
  // Runs and the reference
  // ---------------------------------------------------------------------

  ghost function After(ttl: real, history: seq<Event>): State {
    if history == [] then State(map[], map[]) else
      Apply(ttl, After(ttl, history[..|history| - 1]), history[|history| - 1]).0
  }

  ghost predicate ClockNeverBack(history: seq<Event>) {
    forall i, j :: 0 <= i < j < |history| ==> history[i].at <= history[j].at
  }

  /** The event stops an entry of key k with the given courses from being served. */
  ghost predicate Ends(ev: Event, key: string, entry: CacheEntry) {
    match ev.op
    case Get(_) => false
    case Set(k, _) => k == key
    case InvalidateCourse(c) => c in entry.courseIds
    case Flush => true
  }

  /** The i-th event stored the entry, and nothing has ended it since. */
  ghost predicate SetAndNotEnded(history: seq<Event>, i: int, key: string, entry: CacheEntry) {
    && 0 <= i < |history| && history[i].op == Set(key, entry)
    && forall j :: i < j < |history| ==> !Ends(history[j], key, entry)
  }

  /** What a plain timestamped map would say: the last `set` of the key stored this entry at some t0 with
      t <= t0 + ttl, and no flush or invalidation of one of its courses came after. */
  ghost predicate Live(ttl: real, history: seq<Event>, key: string, entry: CacheEntry, t: real) {
    exists i :: SetAndNotEnded(history, i, key, entry) && t <= history[i].at + ttl
  }

  /** A stored entry is filed under all its courses. */
  ghost predicate Covered(s: State, k: string)
    requires k in s.store
  {
    forall c :: c in s.store[k].0.courseIds ==> k in KeysOf(s.index, c)
  }

  /** What is stored under a key is what the i-th event put there, unended. */
  ghost predicate StoredBy(ttl: real, history: seq<Event>, s: State, k: string, i: int) {
    k in s.store && SetAndNotEnded(history, i, k, s.store[k].0) && s.store[k].1 == history[i].at + ttl
  }

  /** Each stored entry comes from its key's last `set`, unended, and is filed under all its courses. */
  ghost predicate Sound(ttl: real, history: seq<Event>, s: State) {
    forall k :: k in s.store ==> Covered(s, k) && exists i :: StoredBy(ttl, history, s, k, i)
  }

  lemma {:induction false} NotEndedExtends(history: seq<Event>, ev: Event, i: int, key: string, entry: CacheEntry)
    ensures 0 <= i < |history| ==> (SetAndNotEnded(history + [ev], i, key, entry) <==>
              SetAndNotEnded(history, i, key, entry) && !Ends(ev, key, entry))
  {
    var h := history + [ev];
    if 0 <= i < |history| {
      assert forall j :: 0 <= j < |history| ==> h[j] == history[j];
      assert h[|history|] == ev;
    }
  }

  /** In every reachable state, overwrites with different courses included, each stored key is filed under
      all its entry's courses, and what is stored is live but for expiry. */
  lemma {:induction false} AlwaysSound(ttl: real, history: seq<Event>)
    ensures Sound(ttl, history, After(ttl, history))
  {
    if history != [] {
      var n := |history| - 1;
      AlwaysSound(ttl, history[..n]);
      assert history == history[..n] + [history[n]];
      SoundStep(ttl, history[..n], After(ttl, history[..n]), history[n]);
    }
  }

  lemma {:induction false} SoundStep(ttl: real, history: seq<Event>, s: State, ev: Event)
    requires Sound(ttl, history, s)
    ensures Sound(ttl, history + [ev], Apply(ttl, s, ev).0)
  {
    var s' := Apply(ttl, s, ev).0;
    var h := history + [ev];
    forall k | k in s'.store ensures Covered(s', k) && exists i :: StoredBy(ttl, h, s', k, i) {
      if ev.op.Set? && ev.op.key == k {
        assert StoredBy(ttl, h, s', k, |history|);
      } else {
        assert k in s.store && s.store[k] == s'.store[k] && Covered(s, k);
        var i :| StoredBy(ttl, history, s, k, i);
        OtherEventKeeps(ttl, history, s, ev, k, i);
      }
    }
  }

  /** An event that leaves a key in the store leaves it covered and ends nothing about it. */
  lemma {:induction false} OtherEventKeeps(ttl: real, history: seq<Event>, s: State, ev: Event, k: string, i: int)
    requires StoredBy(ttl, history, s, k, i) && Covered(s, k)
    requires k in Apply(ttl, s, ev).0.store && !(ev.op.Set? && ev.op.key == k)
    ensures Covered(Apply(ttl, s, ev).0, k) && StoredBy(ttl, history + [ev], Apply(ttl, s, ev).0, k, i)
  {
    var s', e := Apply(ttl, s, ev).0, s.store[k].0;
    forall c | c in e.courseIds ensures k in KeysOf(s'.index, c) {
      assert k in KeysOf(s.index, c);
    }
    NotEndedExtends(history, ev, i, k, e);
    assert (history + [ev])[i] == history[i];
  }

  /** Whatever the run, a hit is live: stale index entries can only cause misses. */
  lemma {:induction false} HitsAreLive(ttl: real, history: seq<Event>, key: string, now: real)
    ensures var r := Apply(ttl, After(ttl, history), Event(now, Get(key))).1;
            r.Hit? ==> Live(ttl, history, key, r.entry, now)
  {
    AlwaysSound(ttl, history);
    var s := After(ttl, history);
    if key in s.store && now <= s.store[key].1 {
      var i :| StoredBy(ttl, history, s, key, i);
    }
  }

  /** After an invalidation no lookup returns an entry that lists the course, until a later `set` of it. */
  lemma {:induction false} InvalidatedStaysOut(ttl: real, before: seq<Event>, at: real, course: string, later: seq<Event>,
                                               key: string, now: real)
    ensures var r := Apply(ttl, After(ttl, before + [Event(at, InvalidateCourse(course))] + later), Event(now, Get(key))).1;
            r.Hit? && course in r.entry.courseIds ==>
            exists j :: 0 <= j < |later| && later[j].op == Set(key, r.entry)
  {
    hide After, Filed, Struck;
    var h := before + [Event(at, InvalidateCourse(course))] + later;
    var r := Apply(ttl, After(ttl, h), Event(now, Get(key))).1;
    HitsAreLive(ttl, h, key, now);
    if r.Hit? && course in r.entry.courseIds {
      var i :| SetAndNotEnded(h, i, key, r.entry) && now <= h[i].at + ttl;
      assert h[|before|].op == InvalidateCourse(course);
      assert Ends(h[|before|], key, r.entry);
      assert later[i - |before| - 1] == h[i];
    }
  }

  // ---------------------------------------------------------------------
  // The converse
  // ---------------------------------------------------------------------

  /** A filed key was once stored with that course. */
  ghost predicate IndexHonest(history: seq<Event>, s: State) {
    forall c, k :: k in KeysOf(s.index, c) ==>
      exists i :: 0 <= i < |history| && history[i].op.Set? && history[i].op.key == k
                  && c in history[i].op.entry.courseIds
  }

  lemma {:induction false} IndexAlwaysHonest(ttl: real, history: seq<Event>)
    ensures IndexHonest(history, After(ttl, history))
  {
    if history != [] {
      var n := |history| - 1;
      var h, s, ev := history[..n], After(ttl, history[..n]), history[n];
      IndexAlwaysHonest(ttl, h);
      var s' := Apply(ttl, s, ev).0;
      forall c, k | k in KeysOf(s'.index, c)
        ensures exists i :: 0 <= i < |history| && history[i].op.Set? && history[i].op.key == k
                            && c in history[i].op.entry.courseIds
      {
        if k in KeysOf(s.index, c) {
          var i :| 0 <= i < |h| && h[i].op.Set? && h[i].op.key == k && c in h[i].op.entry.courseIds;
          assert history[i] == h[i];
        } else {
          assert ev.op.Set? && ev.op.key == k && c in ev.op.entry.courseIds;
        }
      }
    }
  }

  /** The j-th event invalidates a course under which the key is filed, although the entry stored there does not
      list it; and that entry is still fresh and unended. */
  ghost predicate LostAt(ttl: real, history: seq<Event>, j: int, key: string, entry: CacheEntry, now: real) {
    && 0 <= j < |history| && history[j].op.InvalidateCourse?
    && var s := After(ttl, history[..j]);
       && key in KeysOf(s.index, history[j].op.course) && history[j].op.course !in entry.courseIds
       && key in s.store && s.store[key].0 == entry && now <= s.store[key].1
       && forall l :: j < l < |history| ==> !Ends(history[l], key, entry)
  }

  /** Does every lookup answer as the timestamped map would? */
  ghost predicate LookupAgrees(ttl: real, history: seq<Event>, key: string, now: real) {
    forall e :: Apply(ttl, After(ttl, history), Event(now, Get(key))).1 == Hit(e) <==> Live(ttl, history, key, e, now)
  }

  lemma {:induction false} AfterNext(ttl: real, h: seq<Event>, ev: Event)
    ensures After(ttl, h + [ev]) == Apply(ttl, After(ttl, h), ev).0
    ensures (h + [ev])[..|h|] == h && (h + [ev])[|h|] == ev
  {
    assert (h + [ev])[..|h|] == h;
  }

  lemma {:induction false} LossLasts(ttl: real, h: seq<Event>, ev: Event, j: int, k: string, e: CacheEntry, now: real)
    ensures LostAt(ttl, h + [ev], j, k, e, now) && j < |h| ==> LostAt(ttl, h, j, k, e, now) && !Ends(ev, k, e)
    ensures LostAt(ttl, h, j, k, e, now) && !Ends(ev, k, e) ==> LostAt(ttl, h + [ev], j, k, e, now)
  {
    hide After, Ends;
    if 0 <= j < |h| {
      assert (h + [ev])[..j] == h[..j] && (h + [ev])[j] == h[j] && (h + [ev])[|h|] == ev;
      assert forall l :: 0 <= l < |h| ==> (h + [ev])[l] == h[l];
    }
  }

  /** A live entry is stored, or an invalidation of a course it does not list took it away. */
  lemma {:induction false} StoredOrLost(ttl: real, h: seq<Event>, i: int, k: string, e: CacheEntry, now: real)
    requires ClockNeverBack(h) && (h != [] ==> h[|h| - 1].at <= now)
    requires SetAndNotEnded(h, i, k, e) && now <= h[i].at + ttl
    ensures (k in After(ttl, h).store && After(ttl, h).store[k] == (e, h[i].at + ttl))
            || exists j :: LostAt(ttl, h, j, k, e, now)
    decreases |h|
  {
    hide After, Filed, Struck;
    var n := |h| - 1;
    var before, ev := h[..n], h[n];
    assert h == before + [ev];
    AfterNext(ttl, before, ev);
    if i < n {
      hide Apply, Ends;
      assert h[i] == before[i];
      NotEndedExtends(before, ev, i, k, e);
      if n > 0 { assert h[n - 1].at <= h[n].at && before[n - 1] == h[n - 1]; }
      StoredOrLost(ttl, before, i, k, e, now);
      if j :| LostAt(ttl, before, j, k, e, now) {
        LossLasts(ttl, before, ev, j, k, e, now);
      } else if ev.op.InvalidateCourse? && k in KeysOf(After(ttl, before).index, ev.op.course) {
        assert ev.op.course !in e.courseIds;
        assert LostAt(ttl, h, n, k, e, now);
      } else {
      }
    }
  }

  /** What was lost is live on the timestamped map and stays out of the store. */
  lemma {:induction false} LostIsLive(ttl: real, h: seq<Event>, j: int, k: string, e: CacheEntry, now: real)
    requires LostAt(ttl, h, j, k, e, now)
    ensures Live(ttl, h, k, e, now) && k !in After(ttl, h).store
    decreases |h|
  {
    hide After, Filed, Struck;
    var n := |h| - 1;
    var before, ev := h[..n], h[n];
    assert h == before + [ev];
    AfterNext(ttl, before, ev);
    var i: int;
    if j < n {
      hide LostAt;
      LossLasts(ttl, before, ev, j, k, e, now);
      LostIsLive(ttl, before, j, k, e, now);
      i :| SetAndNotEnded(before, i, k, e) && now <= before[i].at + ttl;
    } else {
      AlwaysSound(ttl, before);
      i :| StoredBy(ttl, before, After(ttl, before), k, i);
    }
    NotEndedExtends(before, ev, i, k, e);
    assert SetAndNotEnded(h, i, k, e) && h[i] == before[i];
  }

  /** Refinement over whole runs, exactly: with a clock that never goes back, a lookup answers as the timestamped
      map would iff the entry was not lost to an invalidation of a course it does not list. */
  lemma {:induction false} StaleIndexIff(ttl: real, history: seq<Event>, key: string, now: real)
    requires forall i, j :: 0 <= i < j < |history| ==> history[i].at <= history[j].at
    requires history != [] ==> history[|history| - 1].at <= now
    ensures LookupAgrees(ttl, history, key, now) <==> forall j, e :: !LostAt(ttl, history, j, key, e, now)
  {
    hide After, LostAt, Ends;
    HitsAreLive(ttl, history, key, now);
    forall j, e | LostAt(ttl, history, j, key, e, now) ensures !LookupAgrees(ttl, history, key, now) {
      LostIsLive(ttl, history, j, key, e, now);
    }
    if forall j, e :: !LostAt(ttl, history, j, key, e, now) {
      forall e | Live(ttl, history, key, e, now)
        ensures Apply(ttl, After(ttl, history), Event(now, Get(key))).1 == Hit(e)
      {
        var i: int :| SetAndNotEnded(history, i, key, e) && now <= history[i].at + ttl;
        StoredOrLost(ttl, history, i, key, e, now);
      }
    }
  }

  /** So with a clock that never goes back and keys that determine their courses, as `make_key` intends by
      hashing them into it, so that a stored key is filed only under courses its entry lists, a lookup returns exactly
      what the timestamped map holds. Lazy eviction and the index are invisible. */
  lemma {:induction false} LookupExact(ttl: real, history: seq<Event>, key: string, now: real, entry: CacheEntry)
    requires forall i, j :: 0 <= i < j < |history| ==> history[i].at <= history[j].at
    requires forall i, j, c | 0 <= i < |history| && 0 <= j < |history| && history[i].op.Set? && history[j].op.Set?
                              && history[i].op.key == history[j].op.key && c in history[i].op.entry.courseIds ::
               c in history[j].op.entry.courseIds
    requires history != [] ==> history[|history| - 1].at <= now
    ensures Apply(ttl, After(ttl, history), Event(now, Get(key))).1 == Hit(entry) <==> Live(ttl, history, key, entry, now)
  {
    hide After, Ends;
    forall j: nat, course | j <= |history| && key in After(ttl, history[..j]).store
                            && key in KeysOf(After(ttl, history[..j]).index, course)
      ensures course in After(ttl, history[..j]).store[key].0.courseIds
    {
      var h := history[..j];
      IndexAlwaysHonest(ttl, h);
      AlwaysSound(ttl, h);
      var a :| 0 <= a < |h| && h[a].op.Set? && h[a].op.key == key && course in h[a].op.entry.courseIds;
      var b :| StoredBy(ttl, h, After(ttl, h), key, b);
      assert history[a] == h[a] && history[b] == h[b];
    }
    StaleIndexIff(ttl, history, key, now);
  }

  /** Seen before it happens: the next invalidation of a course and lookup of a fresh key agree with the
      timestamped map exactly if the key is filed under that course for a reason. */
  lemma {:induction false} NextInvalidationIff(ttl: real, history: seq<Event>, key: string, course: string, now: real)
    requires var s := After(ttl, history); key in s.store && now <= s.store[key].1
    ensures var s, e := After(ttl, history), After(ttl, history).store[key].0;
            var gone := Event(now, InvalidateCourse(course));
            (Apply(ttl, Apply(ttl, s, gone).0, Event(now, Get(key))).1 == Hit(e)
             <==> Live(ttl, history + [gone], key, e, now))
            <==> (key in KeysOf(s.index, course) ==> course in e.courseIds)
  {
    hide Filed, Struck, After;
    var s := After(ttl, history);
    var e, gone := s.store[key].0, Event(now, InvalidateCourse(course));
    AlwaysSound(ttl, history);
    var i :| StoredBy(ttl, history, s, key, i);
    assert Covered(s, key);
    LiveUntilEnded(ttl, history, gone, key, e, i, now);
  }

  /** A live entry stays live through an event exactly if the event does not end it. */
  lemma {:induction false} LiveUntilEnded(ttl: real, history: seq<Event>, ev: Event, key: string, e: CacheEntry,
                                          i: int, now: real)
    requires SetAndNotEnded(history, i, key, e) && now <= history[i].at + ttl && !ev.op.Set?
    ensures Live(ttl, history + [ev], key, e, now) <==> !Ends(ev, key, e)
  {
    var h := history + [ev];
    assert h[i] == history[i] && h[|history|] == ev;
    NotEndedExtends(history, ev, i, key, e);
    forall j | SetAndNotEnded(h, j, key, e) ensures !Ends(ev, key, e) {
      NotEndedExtends(history, ev, j, key, e);
    }
  }

  /** A run that breaks the discipline and loses a live entry: the key is stored for course A, then for
      course B; invalidating A removes it although its entry no longer lists A. */
  lemma {:induction false} StaleIndexLosesEntry(ttl: real, first: CacheEntry, second: CacheEntry)
    requires ttl >= 0.0 && first.courseIds == ["A"] && second.courseIds == ["B"]
    ensures var h := [Event(0.0, Set("k", first)), Event(0.0, Set("k", second)), Event(0.0, InvalidateCourse("A"))];
            Apply(ttl, After(ttl, h), Event(0.0, Get("k"))).1 == Miss && Live(ttl, h, "k", second, 0.0)
  {
    hide Filed, After, Struck;
    var a, b, c := Event(0.0, Set("k", first)), Event(0.0, Set("k", second)), Event(0.0, InvalidateCourse("A"));
    var h := [a, b, c];
    assert h[..2] == [a, b] && [a, b][..1] == [a] && [a][..0] == [];
    Unfold(ttl, []);
    Unfold(ttl, [a]);
    Unfold(ttl, [a, b]);
    Unfold(ttl, h);
    FiledUnder(map[], first.courseIds, "k", "A");
    FiledUnder(After(ttl, [a]).index, second.courseIds, "k", "A");
    assert "k" in KeysOf(After(ttl, [a, b]).index, "A");
    assert SetAndNotEnded(h, 1, "k", second);
  }

  lemma {:induction false} Unfold(ttl: real, h: seq<Event>)
    ensures h == [] ==> After(ttl, h) == State(map[], map[])
    ensures h != [] ==> After(ttl, h) == Apply(ttl, After(ttl, h[..|h| - 1]), h[|h| - 1]).0
  {
  }

  lemma {:induction false} FiledUnder(index: Index, courses: seq<string>, key: string, c: string)
    ensures key in KeysOf(Filed(index, courses, key), c) <==> key in KeysOf(index, c) || c in courses
  {
  }
}
