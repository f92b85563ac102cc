/**
 * The cache's lock per key: a lock object lives in the map while somebody uses it, and its token is a
 * channel of capacity one.  Every method below is one critical section or one channel operation, so a
 * schedule of them is an interleaving of threads.
 */
module CacheLocks {
  type Key = string

  class KeyLock {
    var token: bool
    var users: nat

    constructor ()
      ensures token && users == 0
    {
      token, users := true, 0;
    }
  }

  /** Where a thread is with its lock. */
  datatype Place =
    | Away
    | Waiting(key: Key, lock: KeyLock)
    | Holding(key: Key, lock: KeyLock)
    | Leaving(key: Key, lock: KeyLock)

  datatype Thread = Thread(id: nat)

  predicate Uses(place: Place, lock: KeyLock) {
    place != Away && place.lock == lock
  }

  /** The threads that count as users of a lock. */
  ghost function Users(threads: map<Thread, Place>, lock: KeyLock): set<Thread> {
    set t | t in threads && Uses(threads[t], lock)
  }

  ghost function Holders(threads: map<Thread, Place>, lock: KeyLock): set<Thread> {
    set t | t in threads && threads[t].Holding? && threads[t].lock == lock
  }

  /** Moving one thread changes the users and holders of its locks by that thread, and of no other lock. */
  lemma Moved(threads: map<Thread, Place>, t: Thread, place: Place, lock: KeyLock)
    ensures var after := threads[t := place];
      && Users(after, lock) == (if Uses(place, lock) then Users(threads, lock) + {t} else Users(threads, lock) - {t})
      && Holders(after, lock) == (if place.Holding? && place.lock == lock then Holders(threads, lock) + {t} else Holders(threads, lock) - {t})
    ensures t in Users(threads, lock) <==> t in threads && Uses(threads[t], lock)
    ensures t in Holders(threads, lock) <==> t in threads && threads[t].Holding? && threads[t].lock == lock
  {
  }

  /** The users of a lock are counted, and its token is out exactly while one thread holds it. */
  ghost predicate Ok(threads: map<Thread, Place>, lock: KeyLock, token: bool, users: nat) {
    users == |Users(threads, lock)| && |Holders(threads, lock)| == if token then 0 else 1
  }

  /** What the move of one thread does to the counts of one lock. */
  lemma MovedOk(threads: map<Thread, Place>, t: Thread, place: Place, lock: KeyLock, token: bool, users: nat)
    requires Ok(threads, lock, token, users)
    ensures var used, uses := t in threads && Uses(threads[t], lock), Uses(place, lock);
      var held, holds := used && threads[t].Holding?, uses && place.Holding?;
      && (used ==> users > 0) && (held ==> !token)
      && (used == uses && held == holds ==> Ok(threads[t := place], lock, token, users))
      && (!used && uses && !holds ==> Ok(threads[t := place], lock, token, users + 1))
      && (used && !held && holds && token ==> Ok(threads[t := place], lock, false, users))
      && (held && uses && !holds ==> Ok(threads[t := place], lock, true, users))
      && (used && !held && !uses ==> Ok(threads[t := place], lock, token, users - 1))
  {
    Moved(threads, t, place, lock);
    if t in Users(threads, lock) {
      SubsetSize({t}, Users(threads, lock));
    }
    if t in Holders(threads, lock) {
      SubsetSize({t}, Holders(threads, lock));
    }
  }

  lemma UnusedOk(threads: map<Thread, Place>, lock: KeyLock)
    requires forall t :: t in threads ==> !Uses(threads[t], lock)
    ensures Ok(threads, lock, true, 0)
  {
    assert Users(threads, lock) == {} == Holders(threads, lock);
  }

  /** A lock with one user has no other. */
  lemma OneUser(threads: map<Thread, Place>, lock: KeyLock, t: Thread)
    requires t in threads && Uses(threads[t], lock) && exists token :: Ok(threads, lock, token, 1)
    ensures forall u :: u in threads && Uses(threads[u], lock) ==> u == t
  {
    forall u | u in threads && Uses(threads[u], lock)
      ensures u == t
    {
      if u != t {
        assert {t, u} <= Users(threads, lock);
        SubsetSize({t, u}, Users(threads, lock));
      }
    }
  }

  lemma OneHolder(threads: map<Thread, Place>, lock: KeyLock, t: Thread, u: Thread)
    requires t in threads && threads[t].Holding? && threads[t].lock == lock
    requires u in threads && threads[u].Holding? && threads[u].lock == lock
    requires exists token, users :: Ok(threads, lock, token, users)
    ensures t == u
  {
    if u != t {
      assert {t, u} <= Holders(threads, lock);
      SubsetSize({t, u}, Holders(threads, lock));
    }
  }

  lemma SubsetSize<T>(a: set<T>, b: set<T>)
    requires a <= b
    ensures |a| <= |b|
  {
    assert b == a + (b - a);
  }

  class LockTable {
    var locks: map<Key, KeyLock>

    /** All threads that have come so far, and where they are. */
    var threads: map<Thread, Place>

    /** The lock of every thread is the one the map has for its key. */
    ghost predicate Placed()
      reads this
    {
      forall t :: t in threads && threads[t] != Away ==>
        threads[t].key in locks && locks[threads[t].key] == threads[t].lock
    }

    /** Different keys have different locks. */
    ghost predicate Distinct()
      reads this
    {
      forall k, l :: k in locks && l in locks && locks[k] == locks[l] ==> k == l
    }

    ghost predicate LockOk(lock: KeyLock)
      reads this, lock
    {
      lock.users > 0 && Ok(threads, lock, lock.token, lock.users)
    }

    ghost predicate Valid()
      reads this, locks.Values
    {
      Placed() && Distinct() && forall k :: k in locks ==> LockOk(locks[k])
    }

    constructor ()
      ensures Valid() && locks == map[] && threads == map[]
    {
      locks, threads := map[], map[];
    }

    predicate IsAway(t: Thread)
      reads this
    {
      t !in threads || threads[t] == Away
    }

    /** A thread asks for a key: it finds or makes the lock and becomes a user of it. */
    method Enter(t: Thread, key: Key)
      requires Valid() && IsAway(t)
      modifies this, locks.Values
      ensures Valid() && fresh(locks.Values - old(locks.Values))
      ensures key in locks && threads == old(threads)[t := Waiting(key, locks[key])]
      ensures locks == old(locks)[key := locks[key]] && (key in old(locks) ==> locks == old(locks))
    {
      hide Ok;
      if key !in locks {
        var lock := new KeyLock();
        locks := locks[key := lock];
        UnusedOk(threads, lock);
      }
      var lock := locks[key];
      forall k | k in locks {
        MovedOk(threads, t, Waiting(key, lock), locks[k], locks[k].token, locks[k].users);
      }
      lock.users := lock.users + 1;
      threads := threads[t := Waiting(key, lock)];
    }

    /** A waiting thread takes the token. */
    method TakeToken(t: Thread)
      requires Valid() && t in threads && threads[t].Waiting? && threads[t].lock.token
      modifies this`threads, threads[t].lock
      ensures Valid() && locks == old(locks)
      ensures threads == old(threads)[t := Holding(old(threads)[t].key, old(threads)[t].lock)]
    {
      hide Ok;
      var place := threads[t];
      forall k | k in locks {
        MovedOk(threads, t, Holding(place.key, place.lock), locks[k], locks[k].token, locks[k].users);
      }
      place.lock.token := false;
      threads := threads[t := Holding(place.key, place.lock)];
    }

    /** A waiting thread is cancelled. */
    method Cancel(t: Thread)
      requires Valid() && t in threads && threads[t].Waiting?
      modifies this`threads
      ensures Valid() && locks == old(locks)
      ensures threads == old(threads)[t := Leaving(old(threads)[t].key, old(threads)[t].lock)]
    {
      hide Ok;
      var place := threads[t];
      forall k | k in locks {
        MovedOk(threads, t, Leaving(place.key, place.lock), locks[k], locks[k].token, locks[k].users);
      }
      threads := threads[t := Leaving(place.key, place.lock)];
    }

    /** The holder puts the token back. */
    method ReturnToken(t: Thread)
      requires Valid() && t in threads && threads[t].Holding?
      modifies this`threads, threads[t].lock
      ensures Valid() && locks == old(locks)
      ensures threads == old(threads)[t := Leaving(old(threads)[t].key, old(threads)[t].lock)]
    {
      hide Ok;
      var place := threads[t];
      forall k | k in locks {
        MovedOk(threads, t, Leaving(place.key, place.lock), locks[k], locks[k].token, locks[k].users);
      }
      place.lock.token := true;
      threads := threads[t := Leaving(place.key, place.lock)];
    }

    /** A thread gives up its reference; the last one takes the lock off the map, and no newer lock. */
    method Release(t: Thread)
      requires Valid() && t in threads && threads[t].Leaving?
      modifies this, threads[t].lock
      ensures Valid() && threads == old(threads)[t := Away]
      ensures old(threads)[t].key in old(locks) && old(locks)[old(threads)[t].key] == old(threads)[t].lock
      ensures locks.Values <= old(locks).Values
      ensures locks == if old(threads[t].lock.users) == 1 then old(locks) - {old(threads)[t].key} else old(locks)
    {
      hide Ok;
      var place := threads[t];
      forall k | k in locks {
        MovedOk(threads, t, Away, locks[k], locks[k].token, locks[k].users);
      }
      if place.lock.users == 1 {
        OneUser(threads, place.lock, t);
      }
      place.lock.users := place.lock.users - 1;
      threads := threads[t := Away];
      if place.lock.users == 0 {
        locks := locks - {place.key};
      }
    }
  }

  /** At most one thread holds a key. */
  lemma MutualExclusion(table: LockTable, t: Thread, u: Thread)
    requires table.Valid() && t in table.threads && u in table.threads
    requires table.threads[t].Holding? && table.threads[u].Holding? && table.threads[t].key == table.threads[u].key
    ensures t == u
  {
    hide Ok;
    assert table.LockOk(table.threads[t].lock);
    OneHolder(table.threads, table.threads[t].lock, t, u);
  }

  /** The map holds exactly the keys that somebody waits for, holds or leaves. */
  lemma MapHoldsUsedKeys(table: LockTable, key: Key)
    requires table.Valid()
    ensures key in table.locks <==> exists t :: t in table.threads && table.threads[t] != Away && table.threads[t].key == key
    ensures key in table.locks ==> table.locks[key].users > 0
  {
    if key in table.locks {
      var lock := table.locks[key];
      var users := Users(table.threads, lock);
      var t :| t in users;
      assert table.locks[table.threads[t].key] == lock;
    }
  }

  datatype Action = Ask(key: Key) | Take | GiveUp | Return | Leave

  predicate Enabled(table: LockTable, t: Thread, action: Action)
    reads table, if t in table.threads && table.threads[t].Waiting? then {table.threads[t].lock} else {}
  {
    match action
    case Ask(_) => table.IsAway(t)
    case Take => t in table.threads && table.threads[t].Waiting? && table.threads[t].lock.token
    case GiveUp => t in table.threads && table.threads[t].Waiting?
    case Return => t in table.threads && table.threads[t].Holding?
    case Leave => t in table.threads && table.threads[t].Leaving?
  }

  /** Every interleaving of acquirers and cancellations keeps the table in order. */
  method RunSchedule(schedule: seq<(Thread, Action)>) returns (table: LockTable)
    ensures fresh(table) && table.Valid()
    ensures forall t, u :: t in table.threads && u in table.threads && table.threads[t].Holding? && table.threads[u].Holding? ==>
      table.threads[t].key == table.threads[u].key ==> t == u
    ensures forall key :: key in table.locks <==>
      exists t :: t in table.threads && table.threads[t] != Away && table.threads[t].key == key
  {
    hide Ok;
    table := new LockTable();
    for i := 0 to |schedule|
      invariant table.Valid() && fresh(table) && fresh(table.locks.Values)
    {
      var (t, action) := schedule[i];
      assert t in table.threads && table.threads[t] != Away ==> table.threads[t].lock in table.locks.Values;
      if Enabled(table, t, action) {
        match action
        case Ask(key) => table.Enter(t, key);
        case Take => table.TakeToken(t);
        case GiveUp => table.Cancel(t);
        case Return => table.ReturnToken(t);
        case Leave => table.Release(t);
      }
    }
    forall t, u | t in table.threads && u in table.threads && table.threads[t].Holding? && table.threads[u].Holding?
      && table.threads[t].key == table.threads[u].key
      ensures t == u
    {
      MutualExclusion(table, t, u);
    }
    forall key {
      MapHoldsUsedKeys(table, key);
    }
  }
}
