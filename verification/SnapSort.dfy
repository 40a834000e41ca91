/** The bottom-up merge sort of a snapshot: snap links are re-threaded in place, and an array of
    partial lists works like a binary counter. */
module SnapSort {
  import opened Bits
  import opened StableSort
  import opened SortLevels

  const LEVELS: nat := 65

  /** What follows position i of s: the next entry, or the end of the list. */
  ghost function After<V>(s: seq<Entry<V>>, i: int): Entry?<V> {
    if 0 <= i + 1 < |s| then s[i + 1] else null
  }

  /** The snap links from head thread exactly the entries of s, in order. */
  ghost predicate Threads<V>(head: Entry?<V>, s: seq<Entry<V>>)
    reads (set e | e in s)`snap
  {
    && head == (if s == [] then null else s[0])
    && forall i {:trigger s[i].snap} :: 0 <= i < |s| ==> s[i].snap == After(s, i)
  }

  ghost predicate Apart<T>(a: seq<T>, b: seq<T>) {
    forall x :: x in a ==> x !in b
  }

  lemma ThreadsTail<V>(head: Entry<V>, s: seq<Entry<V>>)
    requires Threads(head, s) && NoDup(s)
    ensures s != [] && s[0] == head && Threads(head.snap, s[1..]) && NoDup(s[1..]) && head !in s[1..]
  {
    assert s[0].snap == After(s, 0);
    forall i | 0 <= i < |s[1..]| ensures s[1..][i].snap == After(s[1..], i) {
      assert s[i + 1].snap == After(s, i + 1);
    }
  }

  // ---------- merging two lists ----------

  /** The list under construction: its links are set except the last one. */
  ghost predicate Linked<V>(head: Entry?<V>, tail: Entry?<V>, done: seq<Entry<V>>)
    reads done
  {
    && NoDup(done)
    && (done == [] ==> tail == null)
    && (done != [] ==> head == done[0] && tail == done[|done| - 1])
    && forall i {:trigger done[i].snap} :: 0 <= i < |done| - 1 ==> done[i].snap == After(done, i)
  }

  /** tail->snap = e, where the tail of an empty list is the head variable itself. */
  method Link<V>(head: Entry?<V>, tail: Entry?<V>, e: Entry?<V>, ghost done: seq<Entry<V>>) returns (h: Entry?<V>)
    requires Linked(head, tail, done)
    modifies (if tail == null then {} else {tail})`snap
    ensures done == [] ==> h == e
    ensures done != [] ==> h == head && tail.snap == e
    ensures forall i {:trigger done[i].snap} :: 0 <= i < |done| - 1 ==> done[i].snap == After(done, i)
  {
    h := head;
    if tail == null { h := e; } else { tail.snap := e; }
  }

  lemma LinkedSnoc<V>(head: Entry?<V>, e: Entry<V>, done: seq<Entry<V>>)
    requires NoDup(done) && e !in done
    requires done == [] ==> head == e
    requires done != [] ==> head == done[0] && done[|done| - 1].snap == e
    requires forall i {:trigger done[i].snap} :: 0 <= i < |done| - 1 ==> done[i].snap == After(done, i)
    ensures Linked(head, e, done + [e])
  {
    var s := done + [e];
    forall i | 0 <= i < |s| - 1 ensures s[i].snap == After(s, i) {
      assert i < |done| - 1 ==> s[i] == done[i] && After(s, i) == After(done, i);
    }
  }

  lemma LinkedRest<V>(head: Entry?<V>, done: seq<Entry<V>>, rest: seq<Entry<V>>)
    requires done != [] ==> head == done[0] && done[|done| - 1].snap == (if rest == [] then null else rest[0])
    requires done == [] ==> Threads(head, rest)
    requires forall i {:trigger done[i].snap} :: 0 <= i < |done| - 1 ==> done[i].snap == After(done, i)
    requires Threads(if rest == [] then null else rest[0], rest)
    ensures Threads(head, done + rest)
  {
    var s := done + rest;
    forall i | 0 <= i < |s| ensures s[i].snap == After(s, i) {
      if i < |done| - 1 {
        assert s[i] == done[i] && After(s, i) == After(done, i);
      } else if i >= |done| {
        assert s[i] == rest[i - |done|] && After(s, i) == After(rest, i - |done|);
      }
    }
  }

  /** Moves the first entry of a list to the tail of the list under construction. */
  method Take<V>(head: Entry?<V>, tail: Entry?<V>, e: Entry<V>, ghost done: seq<Entry<V>>, ghost from: seq<Entry<V>>)
    returns (h: Entry?<V>, next: Entry?<V>)
    requires Linked(head, tail, done) && Threads(e, from) && NoDup(from) && Apart(done, from)
    modifies (if tail == null then {} else {tail})`snap
    ensures from != [] && e == from[0]
    ensures Linked(h, e, done + [e])
    ensures Threads(next, from[1..]) && NoDup(from[1..]) && Apart(done + [e], from[1..])
  {
    assert tail != null ==> tail in done && tail !in from;
    h := Link(head, tail, e, done);
    LinkedSnoc(h, e, done);
    next := e.snap;
    ThreadsTail(e, from);
  }

  /** Ends the list under construction with what is left of one of the lists. */
  method Finish<V>(head: Entry?<V>, tail: Entry?<V>, e: Entry?<V>, ghost done: seq<Entry<V>>, ghost from: seq<Entry<V>>)
    returns (h: Entry?<V>)
    requires Linked(head, tail, done) && Threads(e, from) && Apart(done, from)
    modifies (if tail == null then {} else {tail})`snap
    ensures Threads(h, done + from)
  {
    assert tail != null ==> tail in done && tail !in from;
    h := Link(head, tail, e, done);
    LinkedRest(h, done, from);
  }

  /** The merge loop's state: done is linked up to tail, a and b thread what is left. */
  ghost predicate Merging<V>(head: Entry?<V>, tail: Entry?<V>, a: Entry?<V>, b: Entry?<V>,
                             done: seq<Entry<V>>, ra: seq<Entry<V>>, rb: seq<Entry<V>>)
    reads done, ra, rb
  {
    && NoDup(ra) && NoDup(rb) && Apart(ra, rb) && Apart(rb, ra) && Apart(done, ra) && Apart(done, rb)
    && Threads(a, ra) && Threads(b, rb)
    && Linked(head, tail, done)
  }

  method TakeA<V>(head: Entry?<V>, tail: Entry?<V>, a: Entry<V>, b: Entry?<V>,
                  ghost done: seq<Entry<V>>, ghost ra: seq<Entry<V>>, ghost rb: seq<Entry<V>>)
    returns (h: Entry?<V>, next: Entry?<V>)
    requires Merging(head, tail, a, b, done, ra, rb)
    modifies (if tail == null then {} else {tail})`snap
    ensures ra != [] && a == ra[0] && Merging(h, a, next, b, done + [a], ra[1..], rb)
  {
    assert tail != null ==> tail in done && tail !in rb;
    h, next := Take(head, tail, a, done, ra);
  }

  method TakeB<V>(head: Entry?<V>, tail: Entry?<V>, a: Entry?<V>, b: Entry<V>,
                  ghost done: seq<Entry<V>>, ghost ra: seq<Entry<V>>, ghost rb: seq<Entry<V>>)
    returns (h: Entry?<V>, next: Entry?<V>)
    requires Merging(head, tail, a, b, done, ra, rb)
    modifies (if tail == null then {} else {tail})`snap
    ensures rb != [] && b == rb[0] && Merging(h, b, a, next, done + [b], ra, rb[1..])
  {
    assert tail != null ==> tail in done && tail !in ra;
    h, next := Take(head, tail, b, done, rb);
  }

  /** What the merge loop keeps: the finished part followed by the merge of what is left is the goal. */
  ghost predicate MergeState<V>(head: Entry?<V>, tail: Entry?<V>, a: Entry?<V>, b: Entry?<V>, done: seq<Entry<V>>,
                                ra: seq<Entry<V>>, rb: seq<Entry<V>>, goal: seq<Entry<V>>, region: set<Entry<V>>)
    reads done, ra, rb
  {
    && Merging(head, tail, a, b, done, ra, rb)
    && done + Merge(ra, rb) == goal
    && (tail == null || tail in region)
    && (forall x :: x in ra ==> x in region) && (forall x :: x in rb ==> x in region)
  }

  /** One iteration of the merge: the smaller head, the one of a when equal, goes to the tail. */
  method MergeStep<V>(head: Entry?<V>, tail: Entry?<V>, a: Entry<V>, b: Entry<V>, ghost done: seq<Entry<V>>,
                      ghost ra: seq<Entry<V>>, ghost rb: seq<Entry<V>>,
                      ghost goal: seq<Entry<V>>, ghost region: set<Entry<V>>)
    returns (h: Entry?<V>, t: Entry<V>, a': Entry?<V>, b': Entry?<V>, ghost qa: seq<Entry<V>>, ghost qb: seq<Entry<V>>)
    requires MergeState(head, tail, a, b, done, ra, rb, goal, region)
    modifies (if tail == null then {} else {tail})`snap
    ensures MergeState(h, t, a', b', done + [t], qa, qb, goal, region)
    ensures |qa| + |qb| == |ra| + |rb| - 1 && |qa| <= |ra| && |qb| <= |rb|
  {
    MergeUnfold(done, ra, rb);
    a', b' := a, b;
    qa, qb := ra, rb;
    if Cmp(a.key, b.key) <= 0 {
      h, a' := TakeA(head, tail, a, b, done, ra, rb);
      t, qa := a, ra[1..];
    } else {
      h, b' := TakeB(head, tail, a, b, done, ra, rb);
      t, qb := b, rb[1..];
    }
  }

  method FinishMerge<V>(head: Entry?<V>, tail: Entry?<V>, a: Entry?<V>, b: Entry?<V>, ghost done: seq<Entry<V>>,
                        ghost ra: seq<Entry<V>>, ghost rb: seq<Entry<V>>,
                        ghost goal: seq<Entry<V>>, ghost region: set<Entry<V>>)
    returns (h: Entry?<V>)
    requires MergeState(head, tail, a, b, done, ra, rb, goal, region) && (a == null || b == null)
    modifies (if tail == null then {} else {tail})`snap
    ensures Threads(h, goal)
  {
    if a != null {
      h := Finish(head, tail, a, done, ra);
    } else {
      h := Finish(head, tail, b, done, rb);
    }
  }

  /** Relinks two sorted lists into their merge; of equal keys, those of a come first.
      comps counts the key comparisons. */
  method MergeLists<V>(a0: Entry?<V>, b0: Entry?<V>, ghost sa: seq<Entry<V>>, ghost sb: seq<Entry<V>>)
    returns (head: Entry?<V>, ghost comps: nat)
    requires Threads(a0, sa) && Threads(b0, sb)
    requires NoDup(sa) && NoDup(sb) && Apart(sa, sb)
    modifies (set e | e in sa + sb)`snap
    ensures Threads(head, Merge(sa, sb))
    ensures (if |sa| < |sb| then |sa| else |sb|) <= comps <= |sa| + |sb|
  {
    ghost var region := set e | e in sa + sb;
    ghost var goal := Merge(sa, sb);
    var a, b := a0, b0;
    ghost var ra, rb := sa, sb;
    ghost var done: seq<Entry<V>> := [];
    var tail: Entry?<V> := null;
    head, comps := null, 0;
    while a != null && b != null
      invariant MergeState(head, tail, a, b, done, ra, rb, goal, region)
      invariant comps == |sa| + |sb| - |ra| - |rb| && |ra| <= |sa| && |rb| <= |sb|
      decreases |ra| + |rb|
    {
      var t: Entry<V>;
      head, t, a, b, ra, rb := MergeStep(head, tail, a, b, done, ra, rb, goal, region);
      tail := t;
      done := done + [t];
      comps := comps + 1;
    }
    head := FinishMerge(head, tail, a, b, done, ra, rb, goal, region);
  }

  lemma MergeUnfold<V>(done: seq<Entry<V>>, a: seq<Entry<V>>, b: seq<Entry<V>>)
    requires a != [] && b != []
    ensures done + Merge(a, b) == (if Cmp(a[0].key, b[0].key) <= 0 then done + [a[0]] + Merge(a[1..], b)
                                   else done + [b[0]] + Merge(a, b[1..]))
  {
  }

  // ---------- the levels of the sort ----------

  ghost function Stored<V>(chunks: seq<seq<Entry<V>>>): (r: set<Entry<V>>)
    ensures forall l, x :: 0 <= l < |chunks| && x in Sort(chunks[l]) ==> x in r
  {
    set l, x | 0 <= l < |chunks| && x in Sort(chunks[l]) :: x
  }

  /** From level from on, part[l] threads the sorted chunk of level l; level gap is exempt. */
  ghost predicate Holds<V>(part: array<Entry?<V>>, chunks: seq<seq<Entry<V>>>, from: nat, gap: int)
    reads part, Stored(chunks)
  {
    && part.Length == |chunks|
    && forall l :: from <= l < |chunks| && l != gap ==> Threads(part[l], Sort(chunks[l]))
  }

  lemma SortApart<V>(a: seq<Entry<V>>, b: seq<Entry<V>>)
    requires Apart(a, b)
    ensures Apart(Sort(a), Sort(b)) && Apart(Sort(b), Sort(a))
  {
    forall x | x in Sort(a) ensures x !in Sort(b) {
      SortMember(a, x);
      SortMember(b, x);
    }
  }

  lemma LevelsApart<V>(chunks: seq<seq<Entry<V>>>, cc: seq<Entry<V>>, lev: nat)
    requires NoDup(Joined(chunks) + cc) && lev < |chunks|
    ensures NoDup(Sort(chunks[lev])) && NoDup(Sort(cc)) && Apart(Sort(chunks[lev]), Sort(cc))
    ensures forall l :: 0 <= l < |chunks| && l != lev ==>
              Apart(Sort(chunks[l]), Sort(chunks[lev])) && Apart(Sort(chunks[l]), Sort(cc))
  {
    NoDupSplit(Joined(chunks), cc);
    forall l | 0 <= l < |chunks| ensures NoDup(chunks[l]) && Apart(chunks[l], cc) {
      JoinedApart(chunks, l, l);
      JoinedLength(chunks, l);
    }
    SortNoDup(chunks[lev]);
    SortNoDup(cc);
    SortApart(chunks[lev], cc);
    forall l | 0 <= l < |chunks| && l != lev
      ensures Apart(Sort(chunks[l]), Sort(chunks[lev])) && Apart(Sort(chunks[l]), Sort(cc))
    {
      JoinedApart(chunks, l, lev);
      SortApart(chunks[l], chunks[lev]);
      SortApart(chunks[l], cc);
    }
  }

  /** Merges the list of one level with cur; the other levels keep their lists. */
  method MergeLevel<V>(part: array<Entry?<V>>, lev: nat, cur: Entry?<V>,
                       ghost chunks: seq<seq<Entry<V>>>, ghost cc: seq<Entry<V>>, ghost from: nat)
    returns (head: Entry?<V>, ghost comps: nat)
    requires Holds(part, chunks, from, -1) && from <= lev < part.Length
    requires Threads(cur, Sort(cc)) && NoDup(Joined(chunks) + cc)
    modifies (set x | x in Sort(chunks[lev]) + Sort(cc))`snap
    ensures Holds(part, chunks, from, lev)
    ensures Threads(head, Sort(chunks[lev] + cc))
    ensures comps <= |chunks[lev]| + |cc|
    ensures chunks[lev] != [] && cc != [] ==> comps > 0
  {
    LevelsApart(chunks, cc, lev);
    MergeSorts(chunks[lev], cc);
    SortLength(chunks[lev]);
    SortLength(cc);
    head, comps := MergeLists(part[lev], cur, Sort(chunks[lev]), Sort(cc));
    forall l | from <= l < |chunks| && l != lev ensures Threads(part[l], Sort(chunks[l])) {
      assert old(Threads(part[l], Sort(chunks[l])));
      assert Apart(Sort(chunks[l]), Sort(chunks[lev])) && Apart(Sort(chunks[l]), Sort(cc));
    }
  }

  /** The counter's state: the levels hold chunks, cur the entries being carried into level lev. */
  ghost predicate Carrying<V>(part: array<Entry?<V>>, lev: nat, cur: Entry?<V>,
                              chunks: seq<seq<Entry<V>>>, cc: seq<Entry<V>>, all: seq<Entry<V>>)
    reads part, Stored(chunks), Sort(cc)
  {
    && part.Length == LEVELS && lev < LEVELS
    && Holds(part, chunks, 0, -1) && Counter(chunks) && EmptyBelow(chunks, lev)
    && Threads(cur, Sort(cc)) && |cc| == Pow2(lev)
    && Joined(chunks) + cc == all
  }

  lemma Within<V>(chunks: seq<seq<Entry<V>>>, cc: seq<Entry<V>>, lev: nat)
    requires lev < |chunks|
    ensures forall x :: x in Sort(chunks[lev]) + Sort(cc) ==> x in Joined(chunks) + cc
  {
    JoinedLength(chunks, lev);
    forall x | x in Sort(chunks[lev]) + Sort(cc) ensures x in Joined(chunks) + cc {
      SortMember(chunks[lev], x);
      SortMember(cc, x);
    }
  }

  /** One carry of the counter, from level lev to the next. */
  method CarryLevel<V>(part: array<Entry?<V>>, lev: nat, cur: Entry?<V>,
                       ghost chunks: seq<seq<Entry<V>>>, ghost cc: seq<Entry<V>>, ghost all: seq<Entry<V>>)
    returns (head: Entry?<V>, ghost comps: nat)
    requires Carrying(part, lev, cur, chunks, cc, all) && part[lev] != null
    requires NoDup(all) && |all| <= SIZE_T
    modifies part, (set x | x in all)`snap
    ensures Carrying(part, lev + 1, head, chunks[lev := []], chunks[lev] + cc, all)
    ensures Paid(chunks) + lev * |cc| + comps <= Paid(chunks[lev := []]) + (lev + 1) * |chunks[lev] + cc|
    ensures Occupied(chunks) <= Occupied(chunks[lev := []]) + comps
  {
    assert Threads(part[lev], Sort(chunks[lev]));
    OccupiedReplace(chunks, lev, []);
    CarryStep(chunks, lev, cc);
    Within(chunks, cc, lev);
    head, comps := MergeLevel(part, lev, cur, chunks, cc, 0);
    part[lev] := null;
  }

  /** Carries a new entry up through the occupied levels, like adding one to a binary counter. */
  method Carry<V>(part: array<Entry?<V>>, e: Entry<V>, ghost before: seq<seq<Entry<V>>>)
    returns (lev: nat, cur: Entry?<V>, ghost chunks: seq<seq<Entry<V>>>, ghost cc: seq<Entry<V>>, ghost comps: nat)
    requires part.Length == LEVELS && Holds(part, before, 0, -1) && Counter(before)
    requires NoDup(Joined(before) + [e]) && |Joined(before)| < SIZE_T
    requires e.snap == null
    modifies part, (set x | x in Joined(before) + [e])`snap
    ensures Carrying(part, lev, cur, chunks, cc, Joined(before) + [e])
    ensures part[lev] == null
    ensures forall l :: lev <= l < LEVELS ==> chunks[l] == before[l]
    ensures Paid(before) + comps <= Paid(chunks) + lev * |cc|
    ensures Occupied(before) <= Occupied(chunks) + comps
  {
    ghost var all := Joined(before) + [e];
    lev, cur, comps := 0, e, 0;
    chunks, cc := before, [e];
    assert Sort([e]) == [e];
    while part[lev] != null
      invariant Carrying(part, lev, cur, chunks, cc, all)
      invariant forall l :: lev <= l < LEVELS ==> chunks[l] == before[l]
      invariant Paid(before) + comps <= Paid(chunks) + lev * |cc|
      invariant Occupied(before) <= Occupied(chunks) + comps
      decreases LEVELS - lev
    {
      ghost var more: nat;
      cur, more := CarryLevel(part, lev, cur, chunks, cc, all);
      comps := comps + more;
      chunks, cc := chunks[lev := []], chunks[lev] + cc;
      lev := lev + 1;
    }
  }

  /** Parks the carried list at its level. */
  method Park<V>(part: array<Entry?<V>>, lev: nat, cur: Entry?<V>,
                 ghost chunks: seq<seq<Entry<V>>>, ghost cc: seq<Entry<V>>, ghost all: seq<Entry<V>>)
    requires Carrying(part, lev, cur, chunks, cc, all) && part[lev] == null
    modifies part
    ensures Holds(part, chunks[lev := cc], 0, -1) && Counter(chunks[lev := cc])
    ensures Joined(chunks[lev := cc]) == all
    ensures Paid(chunks[lev := cc]) == Paid(chunks) + lev * |cc|
    ensures Pow2(lev) <= |all| && Occupied(chunks[lev := cc]) == Occupied(chunks) + 1
  {
    assert Threads(part[lev], Sort(chunks[lev]));
    OccupiedReplace(chunks, lev, cc);
    SortLength(chunks[lev]);
    ReplaceLowest(chunks, lev, cc);
    part[lev] := cur;
  }

  /** Merges the levels, the lowest first, into one list. */
  method Collect<V>(part: array<Entry?<V>>, maxLev: nat, ghost chunks: seq<seq<Entry<V>>>)
    returns (list: Entry?<V>, ghost comps: nat)
    requires part.Length == LEVELS && Holds(part, chunks, 0, -1) && NoDup(Joined(chunks))
    requires maxLev < LEVELS && forall l :: maxLev < l < LEVELS ==> chunks[l] == []
    modifies (set x | x in Joined(chunks))`snap
    ensures Threads(list, Sort(Joined(chunks)))
    ensures Paid(chunks) + comps <= (maxLev + 1) * |Joined(chunks)|
    ensures Occupied(chunks) <= comps + 1
  {
    ghost var all := Joined(chunks);
    ghost var left, low := chunks, [];
    list, comps := null, 0;
    for lev := 0 to maxLev + 1
      invariant Collecting(part, lev, list, left, low, all)
      invariant forall l :: lev <= l < LEVELS ==> left[l] == chunks[l]
      invariant Paid(chunks) + comps <= Paid(left) + lev * |low|
      invariant Occupied(chunks) <= Occupied(left) + comps + (if low == [] then 0 else 1)
    {
      ghost var more: nat;
      list, more := CollectLevel(part, lev, list, left, low, all);
      comps := comps + more;
      left, low := left[lev := []], left[lev] + low;
    }
    CollectDone(part, maxLev + 1, list, left, low, all);
  }

  lemma CollectDone<V>(part: array<Entry?<V>>, lev: nat, list: Entry?<V>,
                       left: seq<seq<Entry<V>>>, low: seq<Entry<V>>, all: seq<Entry<V>>)
    requires Collecting(part, lev, list, left, low, all)
    requires forall l :: lev <= l < LEVELS ==> left[l] == []
    ensures Threads(list, Sort(all)) && low == all && Paid(left) == 0 && Occupied(left) == 0
  {
    JoinedEmpty(left);
    assert [] + low == low;
  }

  /** The state of the final merging: list threads what the levels below lev held. */
  ghost predicate Collecting<V>(part: array<Entry?<V>>, lev: nat, list: Entry?<V>,
                                left: seq<seq<Entry<V>>>, low: seq<Entry<V>>, all: seq<Entry<V>>)
    reads part, Stored(left), Sort(low)
  {
    && part.Length == LEVELS && lev <= LEVELS
    && Holds(part, left, lev, -1) && EmptyBelow(left, lev)
    && Threads(list, Sort(low))
    && Joined(left) + low == all
  }

  method CollectLevel<V>(part: array<Entry?<V>>, lev: nat, cur: Entry?<V>,
                         ghost left: seq<seq<Entry<V>>>, ghost low: seq<Entry<V>>, ghost all: seq<Entry<V>>)
    returns (list: Entry?<V>, ghost comps: nat)
    requires lev < LEVELS && Collecting(part, lev, cur, left, low, all) && NoDup(all)
    modifies (set x | x in all)`snap
    ensures Collecting(part, lev + 1, list, left[lev := []], left[lev] + low, all)
    ensures Paid(left) + lev * |low| + comps <= Paid(left[lev := []]) + (lev + 1) * |left[lev] + low|
    ensures Occupied(left) + (if low == [] then 0 else 1)
         <= Occupied(left[lev := []]) + comps + (if left[lev] + low == [] then 0 else 1)
  {
    CollectStep(left, lev, low);
    OccupiedReplace(left, lev, []);
    assert Threads(part[lev], Sort(left[lev]));
    list, comps := cur, 0;
    if part[lev] != null {
      Within(left, low, lev);
      list, comps := MergeLevel(part, lev, cur, left, low, lev);
    } else {
      SortLength(left[lev]);
      assert left[lev] + low == low;
    }
  }

  /** The main loop's state: the entries of done are on the levels, list threads the rest. */
  ghost predicate Sorting<V>(part: array<Entry?<V>>, maxLev: nat, list: Entry?<V>, chunks: seq<seq<Entry<V>>>,
                             rest: seq<Entry<V>>, s: seq<Entry<V>>)
    reads part, Stored(chunks), rest
  {
    && part.Length == LEVELS && Holds(part, chunks, 0, -1) && Counter(chunks)
    && Joined(chunks) + rest == s
    && Threads(list, rest)
    && maxLev < LEVELS && (forall l :: maxLev < l < LEVELS ==> chunks[l] == [])
    && (if Joined(chunks) == [] then maxLev == 0 else Pow2(maxLev) <= |Joined(chunks)|)
  }

  /** One iteration: the next entry is cut off, carried up and parked. */
  method SortEntry<V>(part: array<Entry?<V>>, maxLev: nat, cur: Entry<V>, ghost chunks: seq<seq<Entry<V>>>,
                      ghost rest: seq<Entry<V>>, ghost s: seq<Entry<V>>)
    returns (list: Entry?<V>, maxLev': nat, ghost chunks': seq<seq<Entry<V>>>, ghost comps: nat)
    requires Sorting(part, maxLev, cur, chunks, rest, s) && NoDup(s) && |s| <= SIZE_T
    modifies part, (set x | x in s)`snap
    ensures rest != [] && Sorting(part, maxLev', list, chunks', rest[1..], s)
    ensures Paid(chunks) + comps <= Paid(chunks') && Occupied(chunks) + 1 <= Occupied(chunks') + comps
  {
    ghost var done := Joined(chunks);
    NoDupSplit(done, rest);
    ThreadsTail(cur, rest);
    assert s == (done + [cur]) + rest[1..];
    NoDupSplit(done + [cur], rest[1..]);
    list := cur.snap;
    CutOff(part, cur, chunks);
    maxLev', chunks', comps := CarryAndPark(part, maxLev, cur, chunks);
  }

  method CarryAndPark<V>(part: array<Entry?<V>>, maxLev: nat, cur: Entry<V>, ghost chunks: seq<seq<Entry<V>>>)
    returns (maxLev': nat, ghost chunks': seq<seq<Entry<V>>>, ghost comps: nat)
    requires part.Length == LEVELS && Holds(part, chunks, 0, -1) && Counter(chunks) && maxLev < LEVELS
    requires NoDup(Joined(chunks) + [cur]) && |Joined(chunks)| < SIZE_T && cur.snap == null
    requires forall l :: maxLev < l < LEVELS ==> chunks[l] == []
    requires Joined(chunks) == [] || Pow2(maxLev) <= |Joined(chunks)|
    requires Joined(chunks) == [] ==> maxLev == 0
    modifies part, (set x | x in Joined(chunks) + [cur])`snap
    ensures Holds(part, chunks', 0, -1) && Counter(chunks') && Joined(chunks') == Joined(chunks) + [cur]
    ensures maxLev' < LEVELS && forall l :: maxLev' < l < LEVELS ==> chunks'[l] == []
    ensures Pow2(maxLev') <= |Joined(chunks')|
    ensures Paid(chunks) + comps <= Paid(chunks') && Occupied(chunks) + 1 <= Occupied(chunks') + comps
  {
    var lev, head;
    ghost var cs, cc;
    lev, head, cs, cc, comps := Carry(part, cur, chunks);
    maxLev' := maxLev;
    if lev > maxLev' {
      maxLev' := lev;
    }
    Park(part, lev, head, cs, cc, Joined(chunks) + [cur]);
    chunks' := cs[lev := cc];
  }

  method CutOff<V>(part: array<Entry?<V>>, cur: Entry<V>, ghost chunks: seq<seq<Entry<V>>>)
    requires Holds(part, chunks, 0, -1) && cur !in Joined(chunks)
    modifies cur`snap
    ensures Holds(part, chunks, 0, -1) && cur.snap == null
  {
    forall l | 0 <= l < |chunks| ensures cur !in Sort(chunks[l]) {
      JoinedLength(chunks, l);
      SortMember(chunks[l], cur);
    }
    cur.snap := null;
  }

  /** The sort of a non-empty snapshot: the list comes back as the stable sort of what it was, after
      at most n * (floor(log2 n) + 1) comparisons of its n entries. */
  method SortSnap<V>(snap: Entry<V>, ghost s: seq<Entry<V>>) returns (list: Entry?<V>, ghost comps: nat)
    requires Threads(snap, s) && NoDup(s) && |s| <= SIZE_T
    modifies (set x | x in s)`snap
    ensures Threads(list, Sort(s))
    ensures |s| - 1 <= comps <= BitLen(|s|) * |s|
  {
    var part := new Entry?<V>[LEVELS](_ => null);
    ghost var chunks: seq<seq<Entry<V>>> := seq(LEVELS, _ => []);
    ghost var rest := s;
    SortingStarts(part, snap, chunks, s);
    var maxLev: nat := 0;
    list, comps := snap, 0;
    while list != null
      invariant Sorting(part, maxLev, list, chunks, rest, s)
      invariant comps <= Paid(chunks) && |s| <= Occupied(chunks) + comps + |rest|
      decreases |rest|
    {
      ghost var more: nat;
      list, maxLev, chunks, more := SortEntry(part, maxLev, list, chunks, rest, s);
      rest := rest[1..];
      comps := comps + more;
    }
    assert Joined(chunks) == s;
    ghost var more: nat;
    list, more := Collect(part, maxLev, chunks);
    comps := comps + more;
    LevelBound(maxLev, |s|);
    PayBound(comps, maxLev + 1, BitLen(|s|), |s|);
  }

  lemma SortingStarts<V>(part: array<Entry?<V>>, snap: Entry<V>, chunks: seq<seq<Entry<V>>>, s: seq<Entry<V>>)
    requires part.Length == LEVELS && forall l :: 0 <= l < LEVELS ==> part[l] == null
    requires |chunks| == LEVELS && forall l :: 0 <= l < LEVELS ==> chunks[l] == []
    requires Threads(snap, s)
    ensures Sorting(part, 0, snap, chunks, s, s) && Paid(chunks) == 0 && Occupied(chunks) == 0
  {
    JoinedEmpty(chunks);
    assert [] + s == s;
  }

  lemma LevelBound(lev: nat, n: nat)
    requires Pow2(lev) <= n
    ensures lev < BitLen(n)
  {
    BitLenBounds(n);
    if BitLen(n) <= lev { Pow2Mono(BitLen(n), lev); }
  }

  lemma PayBound(c: nat, a: nat, b: nat, n: nat)
    requires c <= a * n && a <= b
    ensures c <= b * n
  {
    assert (b - a) * n >= 0;
  }

  lemma LevelIsBit<V>(chunks: seq<seq<Entry<V>>>, l: nat, n: nat)
    requires Counter(chunks) && l < |chunks| && n == |Joined(chunks)|
    ensures chunks[l] != [] <==> Bit(n, l)
  {
    LevelsAreBits(chunks, l);
  }

  /** During the sort, part[l] is occupied exactly when bit l of the number of entries so far is set. */
  lemma PartIsCounter<V>(part: array<Entry?<V>>, maxLev: nat, list: Entry?<V>, chunks: seq<seq<Entry<V>>>,
                         rest: seq<Entry<V>>, s: seq<Entry<V>>, l: nat)
    requires Sorting(part, maxLev, list, chunks, rest, s) && l < LEVELS
    ensures part[l] != null <==> Bit(|s| - |rest|, l)
    ensures part[l] != null ==> |chunks[l]| == Pow2(l) && Threads(part[l], Sort(chunks[l]))
  {
    assert |Joined(chunks)| == |s| - |rest| by {
      assert |Joined(chunks) + rest| == |s|;
    }
    LevelIsBit(chunks, l, |s| - |rest|);
    SortLength(chunks[l]);
    assert Threads(part[l], Sort(chunks[l]));
    assert part[l] != null <==> chunks[l] != [];
  }
}
