/**
 * Query results kept by query key, dropped when their collection is written.
 * Whoever asks must not be able to tell that the cache is there.
 */
module ResultCaches {
  import opened Basics
  import opened Sorting

  /** A query's own key, distinct queries having distinct keys; what a collection holds; and what a query answers. */
  type Key(==, !new)
  type Data(==, !new)
  type Rows(==, !new)

  datatype Entry = Entry(collection: string, epoch: nat, rows: Rows)

  // -- the cache as a value ------------------------------------------------

  datatype Cache = Cache(entries: map<Key, Entry>, order: seq<Key>, capacity: nat)

  function NewCache(capacity: nat): Cache { Cache(map[], [], capacity) }

  /** The order lists every cached key once, and there is room for all of them. */
  ghost predicate Proper(c: Cache) {
    Enumerates(c.order, c.entries.Keys) && |c.entries| <= c.capacity
  }

  function Restrict(m: map<Key, Entry>, keys: seq<Key>): map<Key, Entry> {
    map k | k in m && k in keys :: m[k]
  }

  /** The newest `n`. */
  function Newest(order: seq<Key>, n: nat): seq<Key> {
    if |order| <= n then order else order[|order| - n..]
  }

  /** First in, first out. */
  function Trimmed(c: Cache): Cache {
    var order := Newest(c.order, c.capacity);
    Cache(Restrict(c.entries, order), order, c.capacity)
  }

  function Found(c: Cache, key: Key, epoch: nat): Option<Rows> {
    if c.capacity > 0 && key in c.entries && c.entries[key].epoch == epoch then Some(c.entries[key].rows) else None
  }

  /** A look-up drops an entry it finds stale. */
  function Probed(c: Cache, key: Key, epoch: nat): Cache {
    if c.capacity > 0 && key in c.entries && c.entries[key].epoch != epoch
    then c.(entries := c.entries - {key}, order := Filter((k: Key) => k != key, c.order))
    else c
  }

  function Inserted(c: Cache, key: Key, e: Entry): Cache {
    if c.capacity == 0 then c
    else if key in c.entries then c.(entries := c.entries[key := e])
    else Trimmed(c.(entries := c.entries[key := e], order := c.order + [key]))
  }

  function Elsewhere(m: map<Key, Entry>, collection: string): map<Key, Entry> {
    map k | k in m && m[k].collection != collection :: m[k]
  }

  function Invalidated(c: Cache, collection: string): Cache {
    var kept := Elsewhere(c.entries, collection);
    c.(entries := kept, order := Filter((k: Key) => k in kept, c.order))
  }

  function Resized(c: Cache, capacity: nat): Cache {
    Trimmed(c.(capacity := capacity))
  }

  // -- listing each key once -----------------------------------------------

  lemma {:induction false} EnumeratesCount<T(!new)>(q: seq<T>, s: set<T>)
    requires Enumerates(q, s)
    ensures |q| == |s|
  {
    if q == [] {
      assert s == {};
    } else {
      var n := |q| - 1;
      assert q[n] in s;
      forall x | x in s - {q[n]} ensures x in q[..n] {
        var i :| 0 <= i < |q| && q[i] == x;
        assert q[..n][i] == x;
      }
      EnumeratesCount(q[..n], s - {q[n]});
    }
  }

  lemma {:induction false} FilterEnumerates<T(!new)>(p: T -> bool, q: seq<T>, s: set<T>)
    requires Enumerates(q, s)
    ensures Enumerates(Filter(p, q), set x | x in s && p(x))
  {
    FilterMembers(p, q);
    FilterDistinct(p, q);
  }

  lemma {:induction false} FilterDistinct<T(!new)>(p: T -> bool, q: seq<T>)
    requires forall i, j :: 0 <= i < j < |q| ==> q[i] != q[j]
    ensures forall i, j :: 0 <= i < j < |Filter(p, q)| ==> Filter(p, q)[i] != Filter(p, q)[j]
  {
    if q != [] {
      var n := |q| - 1;
      FilterDistinct(p, q[..n]);
      FilterMembers(p, q[..n]);
      var kept := Filter(p, q[..n]);
      forall i | 0 <= i < |kept| ensures kept[i] != q[n] {
        assert kept[i] in q[..n];
        var j :| 0 <= j < n && q[..n][j] == kept[i];
      }
    }
  }

  lemma NewestEnumerates(order: seq<Key>, s: set<Key>, n: nat)
    requires Enumerates(order, s)
    ensures Enumerates(Newest(order, n), set k | k in s && k in Newest(order, n))
    ensures |Newest(order, n)| == if |order| <= n then |order| else n
  {
  }

  lemma TrimmedProper(c: Cache)
    requires Enumerates(c.order, c.entries.Keys)
    ensures Proper(Trimmed(c))
    ensures |c.entries| <= c.capacity ==> Trimmed(c) == c
  {
    NewestEnumerates(c.order, c.entries.Keys, c.capacity);
    var t := Trimmed(c);
    assert t.entries.Keys == set k | k in c.entries.Keys && k in t.order;
    EnumeratesCount(t.order, t.entries.Keys);
    EnumeratesCount(c.order, c.entries.Keys);
    if |c.entries| <= c.capacity {
      assert t.order == c.order;
      assert t.entries == c.entries;
    }
  }

  /** Every operation keeps each cached key listed once and the size within capacity. */
  lemma OperationsProper(c: Cache, key: Key, e: Entry, epoch: nat, collection: string, capacity: nat)
    requires Proper(c)
    ensures Proper(Probed(c, key, epoch)) && Proper(Inserted(c, key, e))
    ensures Proper(Invalidated(c, collection)) && Proper(Resized(c, capacity))
  {
    ProbedProper(c, key, epoch);
    InsertedProper(c, key, e);
    InvalidatedProper(c, collection);
    TrimmedProper(c.(capacity := capacity));
  }

  lemma SameSize(c: Cache)
    requires Enumerates(c.order, c.entries.Keys)
    ensures |c.order| == |c.entries|
  {
    EnumeratesCount(c.order, c.entries.Keys);
  }

  lemma ProbedProper(c: Cache, key: Key, epoch: nat)
    requires Proper(c)
    ensures Proper(Probed(c, key, epoch))
  {
    var p := (k: Key) => k != key;
    FilterEnumerates(p, c.order, c.entries.Keys);
    assert (set k | k in c.entries.Keys && p(k)) == (c.entries - {key}).Keys;
    SameSize(c);
    if Probed(c, key, epoch) != c {
      SameSize(Probed(c, key, epoch));
    }
  }

  lemma InsertedProper(c: Cache, key: Key, e: Entry)
    requires Proper(c)
    ensures Proper(Inserted(c, key, e))
  {
    if key in c.entries {
      assert c.entries[key := e].Keys == c.entries.Keys;
    } else {
      var wide := c.(entries := c.entries[key := e], order := c.order + [key]);
      assert wide.entries.Keys == c.entries.Keys + {key};
      TrimmedProper(wide);
    }
  }

  lemma InvalidatedProper(c: Cache, collection: string)
    requires Proper(c)
    ensures Proper(Invalidated(c, collection))
  {
    var kept := Elsewhere(c.entries, collection);
    var p := (k: Key) => k in kept;
    FilterEnumerates(p, c.order, c.entries.Keys);
    assert (set k | k in c.entries.Keys && p(k)) == kept.Keys;
    SameSize(c);
    SameSize(Invalidated(c, collection));
  }

  // -- a database with a cache ---------------------------------------------

  /** A query key stands for one query: the collection it reads, and what it makes of it. */
  datatype Meaning = Meaning(collection: Key -> string, answer: (Key, Option<Data>) -> Rows)

  datatype Event =
    | Ask(key: Key)
    | Write(collection: string, data: Data)
    | Torn(collection: string, data: Data)
    | SetCapacity(capacity: nat)

  datatype System =
    System(data: map<string, Data>, epochs: map<string, nat>, cache: Cache)

  // -- what each operation does --------------------------------------------

  /** A probe answers the rows filed under the key at just that epoch, and drops them if they are of another. */
  lemma ProbeDoes(c: Cache, key: Key, epoch: nat)
    requires Proper(c)
    ensures Found(c, key, epoch).Some? <==> key in c.entries && c.entries[key].epoch == epoch
    ensures Found(c, key, epoch).Some? ==> Found(c, key, epoch).value == c.entries[key].rows && Probed(c, key, epoch) == c
    ensures forall k :: Lookup(Probed(c, key, epoch).entries, k) ==
              (if k == key && Found(c, key, epoch).None? then None else Lookup(c.entries, k))
  {
    if c.capacity == 0 {
      assert |c.entries| == 0;
    }
  }

  /**
   * An insert files its rows, unless the cache has no room at all; when the key is new and the
   * cache full, the key filed first of those there goes, and no other.
   */
  lemma InsertDoes(c: Cache, key: Key, e: Entry)
    requires Proper(c)
    ensures var after := Inserted(c, key, e);
      if c.capacity == 0 then after == c
      else
        var full := key !in c.entries && |c.entries| == c.capacity;
        && (full ==> c.order != [])
        && after.order == (if key in c.entries then c.order else (if full then c.order[1..] else c.order) + [key])
        && (forall k :: Lookup(after.entries, k) ==
              (if k == key then Some(e) else if full && k == c.order[0] then None else Lookup(c.entries, k)))
  {
    SameSize(c);
    if c.capacity > 0 && key !in c.entries {
      NewKey(c, key, e);
      var grown := c.(entries := c.entries[key := e], order := c.order + [key]);
      if |c.entries| < c.capacity {
        TrimmedProper(grown) by { assert |grown.entries| <= grown.capacity; }
      } else {
        FullInsert(c, key, e, grown);
      }
    }
  }

  lemma FullInsert(c: Cache, key: Key, e: Entry, grown: Cache)
    requires Proper(c) && |c.order| == |c.entries| == c.capacity > 0 && key !in c.entries
    requires grown == c.(entries := c.entries[key := e], order := c.order + [key])
    ensures Trimmed(grown).order == c.order[1..] + [key]
    ensures forall k :: Lookup(Trimmed(grown).entries, k) ==
              (if k == key then Some(e) else if k == c.order[0] then None else Lookup(c.entries, k))
  {
    var kept := c.order[1..] + [key];
    assert Newest(grown.order, c.capacity) == kept;
    forall k ensures k in kept <==> k == key || (k in c.entries && k != c.order[0]) {
      assert kept[|kept| - 1] == key;
      if k in c.entries && k != c.order[0] {
        var i :| 0 <= i < |c.order| && c.order[i] == k;
        assert kept[i - 1] == k;
      }
      if k in kept && k != key {
        var i :| 0 <= i < |kept| && kept[i] == k;
        assert c.order[i + 1] == k && c.order[i + 1] in c.order;
      }
    }
  }

  /** Invalidation drops what was filed for one collection, and nothing else; so does resizing of all but the newest. */
  lemma InvalidateDoes(c: Cache, collection: string)
    requires Proper(c)
    ensures forall k :: Lookup(Invalidated(c, collection).entries, k) ==
              (if k in c.entries && c.entries[k].collection == collection then None else Lookup(c.entries, k))
  {
  }

  lemma ResizeDoes(c: Cache, capacity: nat)
    requires Proper(c)
    ensures var after, drop := Resized(c, capacity), if |c.order| <= capacity then 0 else |c.order| - capacity;
      && after.capacity == capacity && after.order == c.order[drop..]
      && (forall k :: Lookup(after.entries, k) == if k in c.order[drop..] then Lookup(c.entries, k) else None)
  {
  }

  function EpochOf(epochs: map<string, nat>, c: string): nat {
    if c in epochs then epochs[c] else 0
  }

  function Answer(m: Meaning, data: map<string, Data>, key: Key): Rows {
    m.answer(key, Lookup(data, m.collection(key)))
  }

  /** A query: probe, and on a miss compute and keep. */
  function Asked(m: Meaning, s: System, key: Key): (Rows, System) {
    var c := m.collection(key);
    var epoch := EpochOf(s.epochs, c);
    var probed := Probed(s.cache, key, epoch);
    match Found(s.cache, key, epoch)
    case Some(rows) => (rows, s.(cache := probed))
    case None =>
      var rows := Answer(m, s.data, key);
      (rows, s.(cache := Inserted(probed, key, Entry(c, epoch, rows))))
  }

  function Next(m: Meaning, s: System, e: Event): System {
    match e
    case Ask(key) => Asked(m, s, key).1
    case Write(c, data) =>
      System(s.data[c := data], s.epochs[c := EpochOf(s.epochs, c) + 1], Invalidated(s.cache, c))
    case Torn(c, data) => s.(data := s.data[c := data])
    case SetCapacity(n) => s.(cache := Resized(s.cache, n))
  }

  /**
   * A write moves its collection one epoch on and leaves nothing filed for it, and everything
   * filed for others; a torn one changes the rows and nothing else; asking leaves rows and epochs.
   */
  lemma StepDoes(m: Meaning, s: System, e: Event)
    requires Proper(s.cache)
    ensures var after := Next(m, s, e);
      match e
      case Write(c, data) =>
        && after.data == s.data[c := data]
        && EpochOf(after.epochs, c) == EpochOf(s.epochs, c) + 1
        && (forall other | other != c :: EpochOf(after.epochs, other) == EpochOf(s.epochs, other))
        && (forall k :: Lookup(after.cache.entries, k) ==
              (if k in s.cache.entries && s.cache.entries[k].collection == c then None else Lookup(s.cache.entries, k)))
      case Torn(c, data) => after == s.(data := s.data[c := data])
      case Ask(_) => after.data == s.data && after.epochs == s.epochs
      case SetCapacity(n) => after.data == s.data && after.epochs == s.epochs && after.cache.capacity == n
  {
    if e.Write? {
      InvalidateDoes(s.cache, e.collection);
    }
    hide Trimmed, Inserted, Probed, Found;
    if e.SetCapacity? {
      ResizeDoes(s.cache, e.capacity);
    }
  }

  /** A query is answered by what is filed at the collection's epoch, or else afresh, and is then filed if there is room at all. */
  lemma AskDoes(m: Meaning, s: System, key: Key)
    requires Proper(s.cache)
    ensures var (rows, after) := Asked(m, s, key);
      var epoch := EpochOf(s.epochs, m.collection(key));
      && rows == (if key in s.cache.entries && s.cache.entries[key].epoch == epoch then s.cache.entries[key].rows else Answer(m, s.data, key))
      && (s.cache.capacity > 0 ==>
           key in after.cache.entries && after.cache.entries[key].epoch == epoch && after.cache.entries[key].rows == rows)
  {
    var epoch := EpochOf(s.epochs, m.collection(key));
    ProbeDoes(s.cache, key, epoch);
    ProbedProper(s.cache, key, epoch);
    InsertDoes(Probed(s.cache, key, epoch), key, Entry(m.collection(key), epoch, Answer(m, s.data, key)));
    hide Found, Probed, Inserted, Proper, Answer;
  }

  /** The answers a run gives, with the cache. */
  function Answers(m: Meaning, s: System, es: seq<Event>): seq<Rows>
    decreases |es|
  {
    if es == [] then []
    else
      (if es[0].Ask? then [Asked(m, s, es[0].key).0] else []) + Answers(m, Next(m, s, es[0]), es[1..])
  }

  /** The answers of the same run without one. */
  function Uncached(m: Meaning, data: map<string, Data>, es: seq<Event>): seq<Rows>
    decreases |es|
  {
    if es == [] then []
    else
      match es[0]
      case Ask(key) => [Answer(m, data, key)] + Uncached(m, data, es[1..])
      case Write(c, d) => Uncached(m, data[c := d], es[1..])
      case Torn(c, d) => Uncached(m, data[c := d], es[1..])
      case SetCapacity(_) => Uncached(m, data, es[1..])
  }

  /** Every entry is filed under its own collection, at its epoch, and still the answer. */
  ghost predicate Current(m: Meaning, s: System) {
    && Proper(s.cache)
    && forall k | k in s.cache.entries ::
         s.cache.entries[k] == Entry(m.collection(k), EpochOf(s.epochs, m.collection(k)), Answer(m, s.data, k))
  }

  lemma NextCurrent(m: Meaning, s: System, e: Event)
    requires Current(m, s) && !e.Torn?
    ensures Current(m, Next(m, s, e))
  {
    match e
    case Ask(key) =>
      AskedCurrent(m, s, key);
    case Write(c, data) =>
      InvalidatedProper(s.cache, c);
    case SetCapacity(n) =>
      TrimmedProper(s.cache.(capacity := n));
  }

  lemma AskedCurrent(m: Meaning, s: System, key: Key)
    requires Current(m, s)
    ensures Current(m, Asked(m, s, key).1) && Asked(m, s, key).0 == Answer(m, s.data, key)
  {
    var c := m.collection(key);
    var epoch := EpochOf(s.epochs, c);
    var probed := Probed(s.cache, key, epoch);
    ProbedProper(s.cache, key, epoch);
    InsertedProper(probed, key, Entry(c, epoch, Answer(m, s.data, key)));
  }

  /**
   * The cache cannot be seen: any run of queries, writes and resizes gives the answers
   * it would give without one, so long as every write that lands is announced.
   */
  lemma {:induction false} Transparent(m: Meaning, s: System, es: seq<Event>)
    requires Current(m, s) && forall e | e in es :: !e.Torn?
    ensures Answers(m, s, es) == Uncached(m, s.data, es)
    decreases |es|
  {
    hide Current, Asked, Answer, Next;
    if es != [] {
      assert es[0] in es && forall e | e in es[1..] :: e in es;
      NextCurrent(m, s, es[0]);
      NextData(m, s, es[0]);
      if es[0].Ask? {
        AskedCurrent(m, s, es[0].key);
      }
      Transparent(m, Next(m, s, es[0]), es[1..]);
    }
  }

  lemma NextData(m: Meaning, s: System, e: Event)
    ensures Next(m, s, e).data == match e
      case Write(c, d) => s.data[c := d]
      case Torn(c, d) => s.data[c := d]
      case _ => s.data
  {
    hide Answer, Inserted, Probed, Found;
  }

  lemma EmptyIsCurrent(m: Meaning, data: map<string, Data>, capacity: nat)
    ensures Current(m, System(data, map[], NewCache(capacity)))
  {
  }

  // -- writes that are not announced ---------------------------------------

  function After(m: Meaning, s: System, es: seq<Event>): System
    decreases |es|
  {
    if es == [] then s else After(m, Next(m, s, es[0]), es[1..])
  }

  /** The key is cached in this state and after each event of the run. */
  predicate StaysCached(m: Meaning, s: System, es: seq<Event>, key: Key)
    decreases |es|
  {
    key in s.cache.entries && (es == [] || StaysCached(m, Next(m, s, es[0]), es[1..], key))
  }

  /** No write to the collection, announced or not, and no unannounced write at all. */
  predicate Quiet(es: seq<Event>, collection: string) {
    forall e | e in es :: !e.Torn? && (e.Write? ==> e.collection != collection)
  }

  /** Entries filed properly, whatever their rows; this key's rows as given, if it has any. */
  ghost predicate FiledWith(m: Meaning, s: System, key: Key, rows: Rows) {
    && Proper(s.cache)
    && (forall k | k in s.cache.entries ::
          s.cache.entries[k].collection == m.collection(k) && s.cache.entries[k].epoch == EpochOf(s.epochs, m.collection(k)))
    && (key in s.cache.entries ==> s.cache.entries[key].rows == rows)
  }

  /** Nothing enters a cache but the entry inserted. */
  lemma InsertedOnly(c: Cache, key: Key, e: Entry)
    ensures forall k | k in Inserted(c, key, e).entries ::
      if k == key then Inserted(c, key, e).entries[k] == e || (c.capacity == 0 && k in c.entries)
      else k in c.entries && Inserted(c, key, e).entries[k] == c.entries[k]
  {
    hide Newest;
  }

  /** A properly filed entry is found, and found as it is. */
  lemma FiledFound(m: Meaning, s: System, key: Key, rows: Rows, asked: Key)
    requires FiledWith(m, s, key, rows)
    ensures var epoch := EpochOf(s.epochs, m.collection(asked));
      && Probed(s.cache, asked, epoch) == s.cache
      && Found(s.cache, asked, epoch) == if asked in s.cache.entries then Some(s.cache.entries[asked].rows) else None
  {
    HeldWithin(s.cache);
    hide Proper;
  }

  /** A query of a properly filed cache is answered from it, or computed and kept. */
  lemma AskedIs(m: Meaning, s: System, key: Key, rows: Rows, asked: Key)
    requires FiledWith(m, s, key, rows)
    ensures var c := m.collection(asked);
      Asked(m, s, asked) ==
        if asked in s.cache.entries then (s.cache.entries[asked].rows, s)
        else
          var answer := Answer(m, s.data, asked);
          (answer, s.(cache := Inserted(s.cache, asked, Entry(c, EpochOf(s.epochs, c), answer))))
  {
    FiledFound(m, s, key, rows, asked);
    hide FiledWith, Answer, Inserted, Probed, Found;
  }

  lemma KeptFiled(m: Meaning, s: System, key: Key, rows: Rows, asked: Key)
    requires FiledWith(m, s, key, rows) && asked !in s.cache.entries
    requires asked == key ==> rows == Answer(m, s.data, key)
    ensures var c := m.collection(asked);
      FiledWith(m, s.(cache := Inserted(s.cache, asked, Entry(c, EpochOf(s.epochs, c), Answer(m, s.data, asked)))), key, rows)
  {
    var c := m.collection(asked);
    var e := Entry(c, EpochOf(s.epochs, c), Answer(m, s.data, asked));
    InsertedProper(s.cache, asked, e);
    InsertedOnly(s.cache, asked, e);
    hide Proper, Answer, Inserted;
  }

  lemma AskedFiled(m: Meaning, s: System, key: Key, rows: Rows, asked: Key)
    requires FiledWith(m, s, key, rows)
    requires key in s.cache.entries || rows == Answer(m, s.data, key)
    ensures FiledWith(m, Asked(m, s, asked).1, key, rows) && Asked(m, s, asked).1.data == s.data
    ensures Asked(m, s, key).0 == rows
  {
    AskedIs(m, s, key, rows, asked);
    AskedIs(m, s, key, rows, key);
    if asked !in s.cache.entries {
      KeptFiled(m, s, key, rows, asked);
    }
    hide Proper, Answer, Inserted, Asked;
  }

  lemma HeldWithin(c: Cache)
    requires Proper(c)
    ensures c.capacity == 0 ==> c.entries == map[]
  {
  }

  lemma NextFiled(m: Meaning, s: System, e: Event, key: Key, rows: Rows)
    requires FiledWith(m, s, key, rows) && Quiet([e], m.collection(key))
    requires key in s.cache.entries || rows == Answer(m, s.data, key)
    ensures FiledWith(m, Next(m, s, e), key, rows)
    ensures Answer(m, Next(m, s, e).data, key) == Answer(m, s.data, key)
  {
    assert e in [e];
    match e
    case Ask(asked) => AskedFiled(m, s, key, rows, asked);
    case Write(c, data) => InvalidatedProper(s.cache, c);
    case SetCapacity(n) => TrimmedProper(s.cache.(capacity := n));
  }

  /** Over a quiet run a key answers as it was cached while it stays so, and afresh from the first time it is not. */
  lemma {:induction false} QuietRun(m: Meaning, s: System, es: seq<Event>, key: Key, rows: Rows)
    requires FiledWith(m, s, key, rows) && Quiet(es, m.collection(key))
    requires key in s.cache.entries || rows == Answer(m, s.data, key)
    ensures Answer(m, After(m, s, es).data, key) == Answer(m, s.data, key)
    ensures Asked(m, After(m, s, es), key).0 == if StaysCached(m, s, es, key) then rows else Answer(m, s.data, key)
    decreases |es|
  {
    hide FiledWith, Answer, Asked;
    if es == [] {
      AskedFiled(m, s, key, rows, key);
    } else {
      var next := Next(m, s, es[0]);
      assert es[0] in es && forall e | e in es[1..] :: e in es;
      NextFiled(m, s, es[0], key, rows);
      if key in next.cache.entries {
        QuietRun(m, next, es[1..], key, rows);
        if key !in s.cache.entries {
          assert rows == Answer(m, s.data, key);
        }
      } else {
        Uncaches(m, next, key, rows);
        QuietRun(m, next, es[1..], key, Answer(m, next.data, key));
      }
    }
  }

  lemma Uncaches(m: Meaning, s: System, key: Key, rows: Rows)
    requires FiledWith(m, s, key, rows) && key !in s.cache.entries
    ensures FiledWith(m, s, key, Answer(m, s.data, key))
  {
  }

  /**
   * A batch that fails part-way lands rows without announcing them. From then on, while its
   * collection is written no more, a query of it is answered wrongly exactly when its entry
   * was there, has stayed ever since, and holds another answer than the rows now give.
   */
  lemma TornShows(m: Meaning, s: System, key: Key, data: Data, es: seq<Event>)
    requires Current(m, s) && Quiet(es, m.collection(key))
    ensures var torn := Next(m, s, Torn(m.collection(key), data));
      var end := After(m, torn, es);
      Asked(m, end, key).0 != Answer(m, end.data, key) <==>
        StaysCached(m, torn, es, key) && Answer(m, s.data, key) != Answer(m, torn.data, key)
  {
    var torn := Next(m, s, Torn(m.collection(key), data));
    var rows := if key in s.cache.entries then Answer(m, s.data, key) else Answer(m, torn.data, key);
    assert FiledWith(m, torn, key, rows);
    hide Answer, Asked, FiledWith;
    QuietRun(m, torn, es, key, rows);
    if StaysCached(m, torn, es, key) {
      assert key in torn.cache.entries;
    }
  }

  // -- the object ----------------------------------------------------------

  function Evicted(c: Cache): Cache
    requires c.order != []
  {
    c.(entries := c.entries - {c.order[0]}, order := c.order[1..])
  }

  lemma EvictionEnumerates(c: Cache)
    requires Enumerates(c.order, c.entries.Keys) && c.order != []
    ensures c.order[0] in c.entries && Enumerates(c.order[1..], (c.entries - {c.order[0]}).Keys)
  {
    assert c.order == [c.order[0]] + c.order[1..];
  }

  lemma NewestTail(order: seq<Key>, n: nat)
    requires |order| > n && forall i, j :: 0 <= i < j < |order| ==> order[i] != order[j]
    ensures Newest(order[1..], n) == Newest(order, n) && order[0] !in Newest(order, n)
  {
    assert Newest(order, n) == order[|order| - n..];
    assert order[1..][|order| - 1 - n..] == order[|order| - n..];
  }

  /** One eviction takes the state towards its trimmed form. */
  lemma EvictionTrims(c: Cache)
    requires Enumerates(c.order, c.entries.Keys) && |c.entries| > c.capacity
    ensures c.order != [] && c.order[0] in c.entries
    ensures Enumerates(c.order[1..], (c.entries - {c.order[0]}).Keys)
    ensures Trimmed(Evicted(c)) == Trimmed(c)
  {
    SameSize(c);
    EvictionEnumerates(c);
    NewestTail(c.order, c.capacity);
    RestrictWithout(c.entries, c.order[0], Newest(c.order, c.capacity));
    hide Newest, Enumerates, Restrict;
  }

  lemma RestrictWithout(m: map<Key, Entry>, k: Key, keys: seq<Key>)
    requires k !in keys
    ensures Restrict(m - {k}, keys) == Restrict(m, keys)
  {
  }

  lemma NewKey(c: Cache, key: Key, e: Entry)
    requires Proper(c)
    ensures key !in c.entries ==> Enumerates(c.order + [key], c.entries[key := e].Keys)
  {
    assert c.entries[key := e].Keys == c.entries.Keys + {key};
  }

  class ResultCache {
    var entries: map<Key, Entry>
    var order: seq<Key>
    var capacity: nat

    ghost function State(): Cache
      reads this
    {
      Cache(entries, order, capacity)
    }

    constructor (capacity: nat)
      ensures State() == NewCache(capacity)
    {
      this.capacity := capacity;
      entries, order := map[], [];
    }

    method EvictOne()
      requires order != []
      modifies this
      ensures State() == Evicted(old(State()))
    {
      var victim := order[0];
      order, entries := order[1..], entries - {victim};
    }

    /** Drop the oldest until the size is within capacity. */
    method EvictDown()
      requires Enumerates(order, entries.Keys)
      modifies this
      ensures State() == Trimmed(old(State()))
      ensures Proper(State())
    {
      hide Trimmed, Enumerates, Proper;
      while |entries| > capacity
        invariant Enumerates(order, entries.Keys) && capacity == old(capacity)
        invariant Trimmed(State()) == Trimmed(old(State()))
        decreases |entries|
      {
        EvictionTrims(State());
        EvictOne();
      }
      TrimmedProper(State());
    }

    method SetCapacity(n: nat)
      requires Proper(State())
      modifies this
      ensures State() == Resized(old(State()), n) && Proper(State())
    {
      capacity := n;
      EvictDown();
    }

    method Get(key: Key, epoch: nat) returns (r: Option<Rows>)
      requires Proper(State())
      modifies this
      ensures State() == Probed(old(State()), key, epoch) && r == Found(old(State()), key, epoch) && Proper(State())
    {
      ProbedProper(State(), key, epoch);
      if capacity == 0 || key !in entries {
        return None;
      }
      if entries[key].epoch == epoch {
        return Some(entries[key].rows);
      }
      entries := entries - {key};
      order := Filter((k: Key) => k != key, order);
      r := None;
    }

    method Insert(key: Key, e: Entry)
      requires Proper(State())
      modifies this
      ensures State() == Inserted(old(State()), key, e) && Proper(State())
    {
      InsertedProper(State(), key, e);
      NewKey(State(), key, e);
      hide Trimmed, Enumerates;
      if capacity == 0 {
        return;
      }
      var isNew := key !in entries;
      entries := entries[key := e];
      if isNew {
        order := order + [key];
        EvictDown();
      }
    }

    method InvalidateCollection(collection: string)
      requires Proper(State())
      modifies this
      ensures State() == Invalidated(old(State()), collection) && Proper(State())
    {
      InvalidatedProper(State(), collection);
      var kept := Elsewhere(entries, collection);
      entries := kept;
      order := Filter((k: Key) => k in kept, order);
    }
  }
}
