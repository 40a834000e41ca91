/** The bookkeeping of the bottom-up sort, on values: which part of the input each level holds. */
module SortLevels {
  import opened Bits
  import opened StableSort

  /** The chunks of the input held by the levels: those at higher levels come earlier. */
  ghost function Joined<T>(chunks: seq<seq<T>>): seq<T> {
    if chunks == [] then [] else chunks[|chunks| - 1] + Joined(chunks[..|chunks| - 1])
  }

  /** Level l holds nothing or 2^l entries. */
  ghost predicate Counter<T>(chunks: seq<seq<T>>) {
    forall l :: 0 <= l < |chunks| ==> chunks[l] == [] || |chunks[l]| == Pow2(l)
  }

  /** Comparisons paid for so far: every entry at level l has taken part in l merges. */
  ghost function Paid<T>(chunks: seq<seq<T>>): nat {
    if chunks == [] then 0
    else Paid(chunks[..|chunks| - 1]) + (|chunks| - 1) * |chunks[|chunks| - 1]|
  }

  /** How many levels hold entries. */
  ghost function Occupied<T>(chunks: seq<seq<T>>): nat {
    if chunks == [] then 0
    else Occupied(chunks[..|chunks| - 1]) + (if chunks[|chunks| - 1] == [] then 0 else 1)
  }

  lemma {:induction false} OccupiedReplace<T>(chunks: seq<seq<T>>, lev: nat, c: seq<T>)
    requires lev < |chunks|
    ensures Occupied(chunks[lev := c]) + (if chunks[lev] == [] then 0 else 1)
         == Occupied(chunks) + (if c == [] then 0 else 1)
  {
    var n := |chunks| - 1;
    if lev < n {
      OccupiedReplace(chunks[..n], lev, c);
      assert chunks[lev := c][..n] == chunks[..n][lev := c];
    } else {
      assert chunks[lev := c][..n] == chunks[..n];
    }
  }

  ghost predicate EmptyBelow<T>(chunks: seq<seq<T>>, lev: nat) {
    forall l :: 0 <= l < lev && l < |chunks| ==> chunks[l] == []
  }

  lemma {:induction false} JoinedEmpty<T>(chunks: seq<seq<T>>)
    requires EmptyBelow(chunks, |chunks|)
    ensures Joined(chunks) == [] && Paid(chunks) == 0 && Occupied(chunks) == 0
  {
    if chunks != [] { JoinedEmpty(chunks[..|chunks| - 1]); }
  }

  /** Replacing the lowest occupied level, or one below all of them. */
  lemma {:induction false} ReplaceLowest<T>(chunks: seq<seq<T>>, lev: nat, c: seq<T>)
    requires lev < |chunks| && EmptyBelow(chunks, lev)
    ensures Joined(chunks) == Joined(chunks[lev := []]) + chunks[lev]
    ensures Joined(chunks[lev := c]) == Joined(chunks[lev := []]) + c
    ensures Paid(chunks) == Paid(chunks[lev := []]) + lev * |chunks[lev]|
    ensures Paid(chunks[lev := c]) == Paid(chunks[lev := []]) + lev * |c|
  {
    var n := |chunks| - 1;
    if lev == n {
      JoinedEmpty(chunks[..n]);
      assert chunks[lev := []][..n] == chunks[..n] == chunks[lev := c][..n];
    } else {
      ReplaceLowest(chunks[..n], lev, c);
      assert chunks[lev := []][..n] == chunks[..n][lev := []];
      assert chunks[lev := c][..n] == chunks[..n][lev := c];
    }
  }

  lemma {:induction false} JoinedLength<T>(chunks: seq<seq<T>>, l: nat)
    requires l < |chunks|
    ensures |chunks[l]| <= |Joined(chunks)|
    ensures forall x :: x in chunks[l] ==> x in Joined(chunks)
  {
    if l < |chunks| - 1 { JoinedLength(chunks[..|chunks| - 1], l); }
  }

  /** Different levels hold different entries. */
  lemma {:induction false} JoinedApart<T>(chunks: seq<seq<T>>, i: nat, j: nat)
    requires NoDup(Joined(chunks)) && i < |chunks| && j < |chunks|
    ensures NoDup(chunks[i])
    ensures i != j ==> forall x :: x in chunks[i] ==> x !in chunks[j]
  {
    var n := |chunks| - 1;
    var s, init := Joined(chunks), chunks[..n];
    var c := chunks[n];
    assert s[..|c|] == c && s[|c|..] == Joined(init);
    NoDupSplit(c, Joined(init));
    if i < n { JoinedLength(init, i); }
    if j < n { JoinedLength(init, j); }
    if i < n && j < n {
      JoinedApart(init, i, j);
    } else if i < n {
      JoinedApart(init, i, i);
    }
  }

  lemma NoDupSplit<T>(a: seq<T>, b: seq<T>)
    requires NoDup(a + b)
    ensures NoDup(a) && NoDup(b)
    ensures forall x :: x in a ==> x !in b
    ensures forall x :: x in b ==> x !in a
  {
    var s := a + b;
    forall i, j | 0 <= i < j < |a| ensures a[i] != a[j] { assert s[i] != s[j]; }
    forall i, j | 0 <= i < j < |b| ensures b[i] != b[j] { assert s[|a| + i] != s[|a| + j]; }
    forall i, j | 0 <= i < |a| && 0 <= j < |b| ensures a[i] != b[j] { assert s[i] != s[|a| + j]; }
  }

  lemma {:induction false} EmptyTop<T>(chunks: seq<seq<T>>, top: nat)
    requires top <= |chunks| && forall l :: top <= l < |chunks| ==> chunks[l] == []
    ensures Joined(chunks[..top]) == Joined(chunks) && Paid(chunks[..top]) == Paid(chunks)
  {
    if top < |chunks| {
      EmptyTop(chunks[..|chunks| - 1], top);
      assert chunks[..|chunks| - 1][..top] == chunks[..top];
    } else {
      assert chunks[..top] == chunks;
    }
  }

  /** One carry: level lev is emptied into cc, which doubles. The level stays within the 65 of the
      array as long as there are at most 2^64 entries, and the merge is paid for by the rise of cc. */
  lemma CarryStep<T>(chunks: seq<seq<T>>, lev: nat, cc: seq<T>)
    requires lev < |chunks| && Counter(chunks) && EmptyBelow(chunks, lev)
    requires |cc| == Pow2(lev) && chunks[lev] != [] && |Joined(chunks) + cc| <= SIZE_T
    ensures var next := chunks[lev := []]; Counter(next) && EmptyBelow(next, lev + 1)
    ensures Joined(chunks[lev := []]) + (chunks[lev] + cc) == Joined(chunks) + cc
    ensures |chunks[lev] + cc| == Pow2(lev + 1) && lev < 64
    ensures Paid(chunks) + lev * |cc| + |chunks[lev]| + |cc|
         == Paid(chunks[lev := []]) + (lev + 1) * |chunks[lev] + cc|
  {
    ReplaceLowest(chunks, lev, []);
    assert |chunks[lev]| == Pow2(lev);
    DoubledPay(lev, Pow2(lev));
    FitsLevels(lev, |chunks[lev] + cc|);
  }

  /** One step of the final merging: level lev is emptied into the list of the lower levels. */
  lemma CollectStep<T>(left: seq<seq<T>>, lev: nat, low: seq<T>)
    requires lev < |left| && EmptyBelow(left, lev)
    ensures EmptyBelow(left[lev := []], lev + 1)
    ensures Joined(left[lev := []]) + (left[lev] + low) == Joined(left) + low
    ensures Paid(left) + lev * |low| + |left[lev]| + |low| == Paid(left[lev := []]) + (lev + 1) * |left[lev] + low|
  {
    ReplaceLowest(left, lev, []);
    CollectPay(lev, |left[lev]|, |low|);
  }

  lemma CollectPay(lev: nat, c: nat, low: nat)
    ensures lev * c + lev * low + c + low == (lev + 1) * (c + low)
  {
  }

  lemma DoubledPay(lev: nat, w: nat)
    ensures lev * w + lev * w + w + w == (lev + 1) * (w + w)
  {
  }

  lemma FitsLevels(lev: nat, n: nat)
    requires n == Pow2(lev + 1) && n <= SIZE_T
    ensures lev < 64
  {
    Pow2Of64();
    if lev >= 64 { Pow2Mono(65, lev + 1); }
  }

  // ---------- the levels are the binary digits of the number of entries ----------

  lemma {:induction false} JoinedSmall<T>(chunks: seq<seq<T>>)
    requires Counter(chunks)
    ensures |Joined(chunks)| < Pow2(|chunks|)
  {
    if chunks != [] { JoinedSmall(chunks[..|chunks| - 1]); }
  }

  lemma {:induction false} BitOfSum(q: nat, r: nat, n: nat, i: nat)
    requires r < Pow2(n) && q <= 1
    ensures Bit(q * Pow2(n) + r, i) <==> (if i < n then Bit(r, i) else i == n && q == 1)
    decreases n
  {
    if n == 0 {
      if i > 0 { BitOfZero(i - 1); }
    } else {
      var x := q * Pow2(n) + r;
      assert x / 2 == q * Pow2(n - 1) + r / 2 && x % 2 == r % 2;
      if i > 0 { BitOfSum(q, r / 2, n - 1, i - 1); }
    }
  }

  /** Level l is occupied exactly when bit l of the number of entries is set. */
  lemma {:induction false} LevelsAreBits<T>(chunks: seq<seq<T>>, l: nat)
    requires Counter(chunks) && l < |chunks|
    ensures chunks[l] != [] <==> Bit(|Joined(chunks)|, l)
  {
    var n := |chunks| - 1;
    var init, c := chunks[..n], chunks[n];
    JoinedSmall(init);
    BitOfSum(if c == [] then 0 else 1, |Joined(init)|, n, l);
    if l < n { LevelsAreBits(init, l); }
  }
}
