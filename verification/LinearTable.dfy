/** The open-addressing table as a value: one cell per bucket, probed linearly.
    A cell abstracts from the sentinel keys that mark a bucket empty or erased. */
module LinearTable {
  import opened Bits
  import opened Options

  datatype Cell<K, V> = Empty | Erased | Live(key: K, val: V)

  /** size counts live cells; used counts live and erased ones. */
  datatype Table<K, V> = Table(cells: seq<Cell<K, V>>, size: nat, used: nat)

  // ---------- thresholds ----------

  /** floor(count * 0.85f) and floor(count * 0.2f), clamped below count. Both products are exact:
      the single-precision factors are 14260634 / 2^24 and 13421773 / 2^26, and count is a power of two. */
  function ResizeCount(count: nat): nat {
    Clamp(count * 14260634 / 16777216, count)
  }

  function ShrinkCount(count: nat): nat {
    Clamp(count * 13421773 / 67108864, count)
  }

  function Clamp(scaled: nat, count: nat): nat {
    if count == 0 then 0 else if scaled < count then scaled else count - 1
  }

  // ---------- cyclic positions ----------

  function Home<K>(hash: K -> nat, key: K, n: nat): (i: nat)
    requires n > 0
    ensures i < n
  {
    hash(key) % n
  }

  /** How many probe steps lead from home to slot i. */
  function Dist(n: nat, home: nat, i: nat): (d: nat)
    requires home < n && i < n
    ensures d < n
  {
    if home <= i then i - home else i + n - home
  }

  /** The slot reached after d probe steps. */
  function Slot(n: nat, home: nat, d: nat): (i: nat)
    requires home < n && d < n
    ensures i < n && Dist(n, home, i) == d
  {
    if home + d < n then home + d else home + d - n
  }

  function Next(n: nat, i: nat): (j: nat)
    requires i < n
    ensures j < n
  {
    if i + 1 == n then 0 else i + 1
  }

  // ---------- probing ----------

  predicate IsLive<K, V>(c: Cell<K, V>) { c.Live? }

  predicate IsUsed<K, V>(c: Cell<K, V>) { !c.Empty? }

  /** A lookup stops at an empty cell or at the key; it walks past erased cells. */
  predicate GetStops<K(==), V>(c: Cell<K, V>, key: K) {
    c.Empty? || (c.Live? && c.key == key)
  }

  /** An insertion also stops at an erased cell. */
  predicate SetStops<K(==), V>(c: Cell<K, V>, key: K) {
    !c.Live? || c.key == key
  }

  /** The first slot at distance d or more from home where the given kind of probe stops;
      |cells| when there is none. */
  function Probe<K(==), V>(cells: seq<Cell<K, V>>, home: nat, key: K, setting: bool, d: nat): (i: nat)
    requires home < |cells| && d <= |cells|
    ensures i <= |cells|
    decreases |cells| - d
  {
    if d == |cells| then |cells|
    else
      var i := Slot(|cells|, home, d);
      if Stops(cells[i], key, setting) then i
      else Probe(cells, home, key, setting, d + 1)
  }

  predicate Stops<K(==), V>(c: Cell<K, V>, key: K, setting: bool) {
    if setting then SetStops(c, key) else GetStops(c, key)
  }

  /** The bucket of a key, or the bucket count when the key is not found. */
  function Get<K(==), V>(hash: K -> nat, cells: seq<Cell<K, V>>, key: K): nat {
    if cells == [] then 0
    else
      var i := Probe(cells, Home(hash, key, |cells|), key, false, 0);
      if i < |cells| && cells[i].Empty? then |cells| else i
  }

  /** The value that find(key) yields. */
  function Lookup<K(==), V>(hash: K -> nat, t: Table<K, V>, key: K): Option<V> {
    var i := Get(hash, t.cells, key);
    if i < |t.cells| && t.cells[i].Live? then Some(t.cells[i].val) else None
  }

  // ---------- updates ----------

  /** The bucket count that a new table is asked to start with. The request is cut to 32 bits and rounded
      as an int, so the result can be negative. */
  function FirstCount(request: nat): int {
    if request == 0 then 0 else NextPowTwo(request % UINT)
  }

  function Fresh<K, V>(n: nat): Table<K, V> {
    Table(seq(n, _ => Empty), 0, 0)
  }

  /** Where an insertion of key lands in a table that needs no rehash. */
  function SetSlot<K(==), V>(hash: K -> nat, t: Table<K, V>, key: K): nat {
    if t.cells == [] then 0 else Probe(t.cells, Home(hash, key, |t.cells|), key, true, 0)
  }

  /** Insertion into a table that needs no rehash. */
  function Place<K(==), V>(hash: K -> nat, t: Table<K, V>, key: K, val: V, displace: bool): Table<K, V> {
    var i := SetSlot(hash, t, key);
    if i >= |t.cells| then t
    else if t.cells[i].Live? then
      if displace then t.(cells := t.cells[i := Live(key, val)]) else t
    else
      Table(t.cells[i := Live(key, val)], t.size + 1, t.used + (if t.cells[i].Empty? then 1 else 0))
  }

  /** Reinsertion of the live cells, in bucket order, without displacing. */
  function Reinsert<K(==), V>(hash: K -> nat, from: seq<Cell<K, V>>, into: Table<K, V>): Table<K, V> {
    if from == [] then into
    else
      var t := Reinsert(hash, from[..|from| - 1], into);
      var c := from[|from| - 1];
      if c.Live? then Place(hash, t, c.key, c.val, false) else t
  }

  /** The table rebuilt with n buckets. */
  function Resize<K(==), V>(hash: K -> nat, t: Table<K, V>, n: nat): Table<K, V> {
    Reinsert(hash, t.cells, Fresh(n))
  }

  /** The table that an insertion works on: grown first when the used cells have reached the threshold. */
  function Grown<K(==), V>(hash: K -> nat, t: Table<K, V>): Table<K, V> {
    if t.used >= ResizeCount(|t.cells|) then
      Resize(hash, t, if t.cells == [] then 8 else 2 * |t.cells|)
    else t
  }

  function Set<K(==), V>(hash: K -> nat, t: Table<K, V>, key: K, val: V, displace: bool): Table<K, V> {
    Place(hash, Grown(hash, t), key, val, displace)
  }

  /** Erasing the cell in bucket i, without the shrinking that may follow. */
  function Unlink<K, V>(t: Table<K, V>, i: nat): Table<K, V>
    requires i < |t.cells| && t.size > 0
  {
    Table(t.cells[i := Erased], t.size - 1, t.used)
  }

  /** Erasing by bucket index; an index without a live cell is ignored. */
  function Delete<K(==), V>(hash: K -> nat, t: Table<K, V>, i: nat): Table<K, V> {
    if i >= |t.cells| || !t.cells[i].Live? || t.size == 0 then t
    else
      var u := Unlink(t, i);
      if u.size < ShrinkCount(|t.cells|) && |t.cells| > 8 then Resize(hash, u, |t.cells| / 2) else u
  }

  function Erase<K(==), V>(hash: K -> nat, t: Table<K, V>, key: K): Table<K, V> {
    Delete(hash, t, Get(hash, t.cells, key))
  }
}
