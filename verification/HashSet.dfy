/** The linear-probed hash table of BRSet.c: tombstone-free deletion by re-inserting the rest of the cluster,
    a 2/3 load bound and growth through a table of primes.  The buckets are an array updated in place; the
    abstract value is the set of stored items, pairwise inequivalent under the caller's `eq`. */
module HashSet {
  import opened Prelude

  // ---------- table sizes ----------

  const TABLE_SIZES_LEN: nat := 51
  const LARGEST_SIZE: nat := 3914111041

  function TableSize(i: nat): nat
    requires i < TABLE_SIZES_LEN
  {
    match i
    case 0 => 1 case 1 => 3 case 2 => 7 case 3 => 13 case 4 => 23
    case 5 => 37 case 6 => 59 case 7 => 97 case 8 => 149 case 9 => 227
    case 10 => 347 case 11 => 523 case 12 => 787 case 13 => 1187 case 14 => 1783
    case 15 => 2677 case 16 => 4019 case 17 => 6037 case 18 => 9059 case 19 => 13591
    case 20 => 20389 case 21 => 30593 case 22 => 45887 case 23 => 68863 case 24 => 103307
    case 25 => 154981 case 26 => 232487 case 27 => 348739 case 28 => 523129 case 29 => 784697
    case 30 => 1177067 case 31 => 1765609 case 32 => 2648419 case 33 => 3972643 case 34 => 5958971
    case 35 => 8938469 case 36 => 13407707 case 37 => 20111563 case 38 => 30167359 case 39 => 45251077
    case 40 => 67876637 case 41 => 101814991 case 42 => 152722489 case 43 => 229083739 case 44 => 343625629
    case 45 => 515438447 case 46 => 773157683 case 47 => 1159736527 case 48 => 1739604799 case 49 => 2609407319
    case _ => 3914111041  }

  // BRSetAdd grows the table when the item count passes this bound.
  function LoadLimit(size: nat): nat { ((size + 2) / 3) * 2 }

  // The largest table would have to grow once more beyond this many items.
  const MAX_ITEMS: nat := LoadLimit(LARGEST_SIZE)

  ghost predicate IsTableSize(n: nat) {
    exists k :: IsSizeIndex(k, n)
  }

  predicate IsSizeIndex(k: int, n: nat) { 1 <= k < TABLE_SIZES_LEN && TableSize(k) == n }

  /** One growth step always makes room, and a table within its load bound keeps an empty bucket.  The last
      clause is where the "load factor below 2/3 at capacity" comment is off by one. */
  lemma TableSizeGrows(k: nat)
    requires 1 <= k && k + 1 < TABLE_SIZES_LEN
    ensures 3 <= TableSize(k) < TableSize(k + 1)
    ensures LoadLimit(TableSize(k)) < TableSize(k)
    ensures LoadLimit(TableSize(k)) + 1 <= LoadLimit(TableSize(k + 1)) < TableSize(k + 1)
    ensures if k == 21 then LoadLimit(TableSize(k + 1)) == TableSize(k) - 1
            else TableSize(k) <= LoadLimit(TableSize(k + 1))
  {
  }

  lemma {:induction false} TableSizeMonotone(i: nat, j: nat)
    requires i < j < TABLE_SIZES_LEN
    ensures TableSize(i) < TableSize(j)
    decreases j - i
  {
  }

  lemma TableSizeBounds(n: nat)
    requires IsTableSize(n)
    ensures 3 <= n <= LARGEST_SIZE
    ensures LoadLimit(n) < n
  {
  }

  lemma OddCapacity(i: nat, capacity: nat)
    requires i + 1 < TABLE_SIZES_LEN && capacity <= TableSize(i)
    requires i > 0 ==> TableSize(i - 1) < capacity
    ensures LoadLimit(TableSize(i + 1)) < capacity <==> capacity == 30593
  {
  }

  // The table size after the first one that reaches the capacity.
  lemma SizeFits(i: nat, capacity: nat)
    requires i + 1 < TABLE_SIZES_LEN && capacity <= TableSize(i) && forall j :: 0 <= j < i ==> TableSize(j) < capacity
    ensures capacity <= TableSize(TABLE_SIZES_LEN - 2)
    ensures IsTableSize(TableSize(i + 1)) && capacity < TableSize(i + 1)
    ensures LoadLimit(TableSize(i + 1)) < capacity <==> capacity == 30593
    ensures IsTableSize(capacity) ==> LoadLimit(capacity) + 1 <= LoadLimit(TableSize(i + 1))
  {
    if i > 0 { TableSizeGrows(i); }
    if i < TABLE_SIZES_LEN - 2 { TableSizeMonotone(i, TABLE_SIZES_LEN - 2); }
    TableSizeMonotone(i, i + 1);
    if IsTableSize(capacity) {
      var k :| IsSizeIndex(k, capacity);
      if i < k { TableSizeMonotone(i, k); }
      assert k == i;
    }
    OddCapacity(i, capacity);
    assert IsSizeIndex(i + 1, TableSize(i + 1));
  }

  lemma NotLargest(n: nat)
    requires IsTableSize(n) && n < LARGEST_SIZE
    ensures n <= TableSize(TABLE_SIZES_LEN - 2)
  {
  }

  // ---------- bucket sequences ----------

  type Buckets<T> = seq<Option<T>>

  // Number of probe steps from bucket a to bucket b in a table of n buckets.
  function Steps(a: int, b: int, n: int): int { if a <= b then b - a else b - a + n }

  ghost predicate EqLaws<T(!new)>(hash: T -> nat, eq: (T, T) -> bool) {
    && (forall x :: eq(x, x))
    && (forall x, y :: eq(x, y) ==> eq(y, x) && hash(x) == hash(y))
    && (forall x, y, z :: Linked(eq, x, y, z) ==> eq(x, z))
  }

  // Named so that transitivity is used only where a proof mentions the chain.
  ghost predicate Linked<T>(eq: (T, T) -> bool, x: T, y: T, z: T) { eq(x, y) && eq(y, z) }

  function Home<T>(b: Buckets<T>, hash: T -> nat, x: T): (h: nat)
    requires |b| > 0
    ensures h < |b|
  {
    hash(x) % |b|
  }

  // No empty bucket lies between h and p.
  ghost predicate PathFull<T>(b: Buckets<T>, h: nat, p: nat)
    requires h < |b| && p < |b|
  {
    forall s :: 0 <= s < |b| && Steps(h, s, |b|) < Steps(h, p, |b|) ==> b[s].Some?
  }

  ghost predicate Inequivalent<T>(b: Buckets<T>, eq: (T, T) -> bool) {
    forall p, q :: 0 <= p < |b| && 0 <= q < |b| && p != q && b[p].Some? && b[q].Some? ==> !eq(b[p].value, b[q].value)
  }

  // The representation invariant of open addressing.
  ghost predicate Probed<T>(b: Buckets<T>, hash: T -> nat, eq: (T, T) -> bool) {
    && |b| > 0
    && (forall p :: 0 <= p < |b| && b[p].Some? ==> PathFull(b, Home(b, hash, b[p].value), p))
    && Inequivalent(b, eq)
  }

  function Occupied<T>(b: Buckets<T>): set<int> { set p | 0 <= p < |b| && b[p].Some? }

  function Contents<T>(b: Buckets<T>): set<T> { set p | 0 <= p < |b| && b[p].Some? :: b[p].value }

  // Where the probe loop for x stops: the first bucket from x's home that is empty or holds an equivalent item.
  ghost predicate IsStop<T>(b: Buckets<T>, hash: T -> nat, eq: (T, T) -> bool, x: T, i: nat)
    requires |b| > 0
  {
    && i < |b|
    && (b[i].Some? ==> eq(b[i].value, x))
    && forall s :: 0 <= s < |b| && Steps(Home(b, hash, x), s, |b|) < Steps(Home(b, hash, x), i, |b|)
                   ==> b[s].Some? && !eq(b[s].value, x)
  }

  // c is b with x written where the probe for x stops; r is what the bucket held.
  ghost predicate WrittenAtStop<T>(b: Buckets<T>, c: Buckets<T>, hash: T -> nat, eq: (T, T) -> bool, x: T,
                                   r: Option<T>)
    requires |b| > 0
  {
    exists i: nat :: IsStop(b, hash, eq, x, i) && c == b[i := Some(x)] && r == b[i]
  }

  // r is the item of s equivalent to x, or None when there is none.
  ghost predicate IsMatch<T>(s: set<T>, eq: (T, T) -> bool, x: T, r: Option<T>) {
    match r
    case None => Drop(s, eq, x) == s
    case Some(t) => t in s && eq(t, x)
  }

  // The set after adding x, or replacing the item equivalent to it.
  function Put<T>(s: set<T>, eq: (T, T) -> bool, x: T): set<T> { Drop(s, eq, x) + {x} }

  // The set without the item equivalent to x.
  function Drop<T>(s: set<T>, eq: (T, T) -> bool, x: T): set<T> { set y | y in s && !eq(y, x) }

  lemma {:induction false} FullCount<T>(b: Buckets<T>)
    requires forall z :: 0 <= z < |b| ==> b[z].Some?
    ensures |Occupied(b)| == |b|
  {
    if b != [] {
      var m := |b| - 1;
      FullCount(b[..m]);
      assert Occupied(b) == Occupied(b[..m]) + {m};
    }
  }

  lemma EmptyBucketExists<T>(b: Buckets<T>)
    requires |Occupied(b)| < |b|
    ensures exists z :: 0 <= z < |b| && b[z].None?
  {
    if forall z :: 0 <= z < |b| ==> b[z].Some? { FullCount(b); }
  }

  /** In a probed table the probe for x finds the equivalent item whenever there is one. */
  lemma StopFinds<T(!new)>(b: Buckets<T>, hash: T -> nat, eq: (T, T) -> bool, x: T, i: nat)
    requires EqLaws(hash, eq) && Probed(b, hash, eq) && IsStop(b, hash, eq, x, i)
    ensures b[i].None? <==> forall y :: y in Contents(b) ==> !eq(y, x)
    ensures forall p :: 0 <= p < |b| && b[p].Some? && eq(b[p].value, x) ==> p == i
  {
    forall p | 0 <= p < |b| && b[p].Some? && eq(b[p].value, x)
      ensures p == i
    {
      assert PathFull(b, Home(b, hash, b[p].value), p);
      assert b[i].Some? ==> Linked(eq, b[p].value, x, b[i].value);
    }
  }

  // The probe stops at the item itself if that is stored, and at an empty bucket only if nothing represents it.
  lemma StoredAtStop<T(!new)>(b: Buckets<T>, hash: T -> nat, eq: (T, T) -> bool, x: T, i: nat)
    requires EqLaws(hash, eq) && Probed(b, hash, eq) && IsStop(b, hash, eq, x, i)
    ensures i < |b| && (Some(x) in b ==> b[i] == Some(x)) && (b[i].None? ==> !Represented(Contents(b), eq, x))
  {
    StopFinds(b, hash, eq, x, i);
  }

  // The probe for a stored item stops at its bucket; the item represents itself and nothing else is equivalent to it.
  lemma StopOfStored<T(!new)>(b: Buckets<T>, hash: T -> nat, eq: (T, T) -> bool, p: nat, i: nat)
    requires EqLaws(hash, eq) && Probed(b, hash, eq) && p < |b| && b[p].Some?
    ensures IsStop(b, hash, eq, b[p].value, i) ==> p == i
    ensures b[p].value in Contents(b) && Represented(Contents(b), eq, b[p].value)
    ensures Drop(Contents(b), eq, b[p].value) == Contents(b) - {b[p].value}
  {
    if IsStop(b, hash, eq, b[p].value, i) { StopFinds(b, hash, eq, b[p].value, i); }
  }

  lemma ContentsKept<T>(b: Buckets<T>, keep: set<T>, eq: (T, T) -> bool)
    requires forall p :: 0 <= p < |b| && b[p].Some? ==> Represented(keep, eq, b[p].value)
    ensures forall x :: x in Contents(b) ==> Represented(keep, eq, x)
  {
  }

  lemma MatchAtStop<T(!new)>(b: Buckets<T>, hash: T -> nat, eq: (T, T) -> bool, x: T, i: nat)
    requires EqLaws(hash, eq) && Probed(b, hash, eq) && IsStop(b, hash, eq, x, i)
    ensures IsMatch(Contents(b), eq, x, b[i])
  {
  }

  /** Writing x at the stop keeps the table probed and changes its contents by exactly Put. */
  lemma PutAtStop<T(!new)>(b: Buckets<T>, hash: T -> nat, eq: (T, T) -> bool, x: T, i: nat)
    requires EqLaws(hash, eq) && Probed(b, hash, eq) && IsStop(b, hash, eq, x, i)
    ensures Probed(b[i := Some(x)], hash, eq)
    ensures Contents(b[i := Some(x)]) == Put(Contents(b), eq, x)
  {
    StopFinds(b, hash, eq, x, i);
    var c := b[i := Some(x)];
    forall p | 0 <= p < |c| && c[p].Some?
      ensures PathFull(c, Home(c, hash, c[p].value), p)
    {
      if p != i { assert PathFull(b, Home(b, hash, b[p].value), p); }
    }
    forall y | y in Put(Contents(b), eq, x)
      ensures y in Contents(c)
    {
      if y == x { assert c[i].value == x; } else {
        var p :| 0 <= p < |b| && b[p].Some? && b[p].value == y;
        assert c[p].value == y;
      }
    }
    forall y | y in Contents(c)
      ensures y in Put(Contents(b), eq, x)
    {
      var p :| 0 <= p < |c| && c[p].Some? && c[p].value == y;
      if p != i { assert b[p].value == y; assert !eq(y, x); }
    }
  }

  lemma OccupiedAt<T>(b: Buckets<T>, i: nat, v: Option<T>)
    requires i < |b|
    ensures |Occupied(b[i := v])|
         == |Occupied(b)| + (if v.Some? then 1 else 0) - (if b[i].Some? then 1 else 0)
  {
    var c := b[i := v];
    assert Occupied(c) - {i} == Occupied(b) - {i};
    assert i in Occupied(c) <==> v.Some?;
    assert i in Occupied(b) <==> b[i].Some?;
    assert |Occupied(c)| == |Occupied(c) - {i}| + if v.Some? then 1 else 0;
    assert |Occupied(b)| == |Occupied(b) - {i}| + if b[i].Some? then 1 else 0;
  }

  lemma AddEffect<T(!new)>(b: Buckets<T>, hash: T -> nat, eq: (T, T) -> bool, x: T, i: nat)
    requires EqLaws(hash, eq) && |b| > 0 && IsStop(b, hash, eq, x, i)
    ensures var c := b[i := Some(x)];
      && WrittenAtStop(b, c, hash, eq, x, b[i])
      && |Occupied(c)| == |Occupied(b)| + (if b[i].None? then 1 else 0)
      && (Probed(b, hash, eq) ==> && Probed(c, hash, eq) && Contents(c) == Put(Contents(b), eq, x)
                                  && IsMatch(Contents(b), eq, x, b[i]))
  {
    OccupiedAt(b, i, Some(x));
    if Probed(b, hash, eq) {
      StopFinds(b, hash, eq, x, i);
      PutAtStop(b, hash, eq, x, i);
    }
  }

  // ---------- deletion ----------

  // The cluster that starts at bucket i0 ends at the empty bucket e.
  ghost predicate IsClusterEnd<T>(b: Buckets<T>, i0: nat, e: nat) {
    && i0 < |b| && e < |b| && b[e].None?
    && forall s :: 0 <= s < |b| && Steps(i0, s, |b|) < Steps(i0, e, |b|) ==> b[s].Some?
  }

  lemma {:induction false} ClusterEndExists<T>(b: Buckets<T>, i0: nat, k: nat) returns (e: nat)
    requires i0 < |b| && k < |b|
    requires forall s :: 0 <= s < |b| && Steps(i0, s, |b|) < k ==> b[s].Some?
    requires exists z :: 0 <= z < |b| && b[z].None?
    ensures IsClusterEnd(b, i0, e) && k <= Steps(i0, e, |b|)
    decreases |b| - k
  {
    var i := if i0 + k < |b| then i0 + k else i0 + k - |b|;
    if b[i].None? {
      e := i;
    } else {
      var z :| 0 <= z < |b| && b[z].None?;
      assert Steps(i0, z, |b|) > k;
      e := ClusterEndExists(b, i0, k + 1);
    }
  }

  /** The state of BRSetRemove's cleanup loop at bucket i: t is the table before the removal at i0, b the table
      now.  Buckets from i on are untouched; items already put back between i0 and i have a gap-free path; and
      nothing has moved from behind i0 to a bucket ahead of it. */
  ghost predicate Cleaning<T>(t: Buckets<T>, b: Buckets<T>, hash: T -> nat, eq: (T, T) -> bool, i0: nat, i: nat) {
    && |b| == |t| && i0 < |t| && i < |t|
    && (forall p :: 0 <= p < |b| && Steps(i0, p, |b|) >= Steps(i0, i, |b|) ==> b[p] == t[p])
    && (forall p :: 0 <= p < |b| && Steps(i0, p, |b|) < Steps(i0, i, |b|) && b[p].Some?
          ==> PathFull(b, Home(b, hash, b[p].value), p))
    && Inequivalent(b, eq)
    && (forall p :: 0 <= p < i0 && b[p].Some? ==> exists q :: 0 <= q < i0 && t[q] == b[p])
  }

  lemma CleaningStart<T(!new)>(t: Buckets<T>, hash: T -> nat, eq: (T, T) -> bool, i0: nat, i: nat, e: nat)
    requires EqLaws(hash, eq) && Probed(t, hash, eq) && i0 < |t| && t[i0].Some?
    requires IsClusterEnd(t, i0, e)
    requires |t| > 1 && i == if i0 + 1 == |t| then 0 else i0 + 1
    ensures Cleaning(t, t[i0 := None], hash, eq, i0, i)
    ensures Contents(t[i0 := None]) == Drop(Contents(t), eq, t[i0].value)
  {
    var b := t[i0 := None];
    forall y | y in Drop(Contents(t), eq, t[i0].value)
      ensures y in Contents(b)
    {
      var p :| 0 <= p < |t| && t[p].Some? && t[p].value == y;
      assert b[p].value == y;
    }
    forall y | y in Contents(b)
      ensures y in Drop(Contents(t), eq, t[i0].value)
    {
      var p :| 0 <= p < |b| && b[p].Some? && b[p].value == y;
      assert t[p].value == y;
    }
    forall p | 0 <= p < i0 && b[p].Some?
      ensures exists q :: 0 <= q < i0 && t[q] == b[p]
    {
      assert t[p] == b[p];
    }
  }

  lemma RemoveStart<T(!new)>(t: Buckets<T>, hash: T -> nat, eq: (T, T) -> bool, x: T, i0: nat) returns (e: nat)
    requires EqLaws(hash, eq) && Probed(t, hash, eq) && |t| > 1
    requires IsStop(t, hash, eq, x, i0) && t[i0].Some? && |Occupied(t)| < |t|
    ensures IsClusterEnd(t, i0, e) && 1 <= Steps(i0, e, |t|)
    ensures Cleaning(t, t[i0 := None], hash, eq, i0, Next(i0, |t|))
    ensures Contents(t[i0 := None]) == Drop(Contents(t), eq, x)
    ensures |Occupied(t[i0 := None])| == |Occupied(t)| - 1
  {
    EmptyBucketExists(t);
    e := ClusterEndExists(t, i0, 0);
    CleaningStart(t, hash, eq, i0, Next(i0, |t|), e);
    OccupiedAt(t, i0, None);
    forall y
      ensures eq(y, x) <==> eq(y, t[i0].value)
    {
      assert Linked(eq, y, x, t[i0].value) <==> eq(y, x) && eq(x, t[i0].value);
      assert Linked(eq, y, t[i0].value, x) <==> eq(y, t[i0].value) && eq(t[i0].value, x);
    }
  }

  /** The probe for the item at i stops no later than i, at a bucket the cleanup has already emptied. */
  lemma CleaningTarget<T(!new)>(t: Buckets<T>, b: Buckets<T>, hash: T -> nat, eq: (T, T) -> bool,
                          i0: nat, i: nat, e: nat, j: nat)
    requires EqLaws(hash, eq) && Probed(t, hash, eq) && IsClusterEnd(t, i0, e)
    requires Cleaning(t, b, hash, eq, i0, i) && 1 <= Steps(i0, i, |t|) < Steps(i0, e, |t|)
    requires b[i].Some? && IsStop(b[i := None], hash, eq, b[i].value, j)
    ensures b[i := None][j].None?
    ensures j == i || Steps(i0, j, |t|) < Steps(i0, i, |t|)
  {
  }

  /** One turn of the cleanup loop: the item at i is taken out and put where its probe stops, at j. */
  lemma CleaningStep<T(!new)>(t: Buckets<T>, b: Buckets<T>, hash: T -> nat, eq: (T, T) -> bool,
                        i0: nat, i: nat, e: nat, j: nat, i': nat)
    requires EqLaws(hash, eq) && Probed(t, hash, eq) && IsClusterEnd(t, i0, e)
    requires Cleaning(t, b, hash, eq, i0, i) && 1 <= Steps(i0, i, |t|) < Steps(i0, e, |t|)
    requires b[i].Some? && IsStop(b[i := None], hash, eq, b[i].value, j)
    requires i' == if i + 1 == |t| then 0 else i + 1
    ensures b[i := None][j].None?
    ensures Cleaning(t, b[i := None][j := b[i]], hash, eq, i0, i')
    ensures Contents(b[i := None][j := b[i]]) == Contents(b)
  {
    var n := |t|;
    var c := b[i := None][j := b[i]];
    CleaningTarget(t, b, hash, eq, i0, i, e, j);
    CleaningPaths(t, b, hash, eq, i0, i, e, j, i');
    CleaningBehind(t, b, hash, eq, i0, i, j);
    MovedContents(b, eq, i, j);
  }

  lemma CleaningBehind<T(!new)>(t: Buckets<T>, b: Buckets<T>, hash: T -> nat, eq: (T, T) -> bool,
                                i0: nat, i: nat, j: nat)
    requires Cleaning(t, b, hash, eq, i0, i) && i != i0 && b[i].Some? && j < |b|
    requires j == i || Steps(i0, j, |t|) < Steps(i0, i, |t|)
    ensures var c := b[i := None][j := b[i]];
            forall p :: 0 <= p < i0 && c[p].Some? ==> exists q :: 0 <= q < i0 && t[q] == c[p]
  {
    var c := b[i := None][j := b[i]];
    forall p | 0 <= p < i0 && c[p].Some?
      ensures exists q :: 0 <= q < i0 && t[q] == c[p]
    {
      if p != j {
        assert c[p] == b[p];
      } else {
        assert i < i0 && t[i] == c[p];
      }
    }
  }

  lemma CleaningPaths<T(!new)>(t: Buckets<T>, b: Buckets<T>, hash: T -> nat, eq: (T, T) -> bool,
                         i0: nat, i: nat, e: nat, j: nat, i': nat)
    requires Probed(t, hash, eq) && IsClusterEnd(t, i0, e)
    requires Cleaning(t, b, hash, eq, i0, i) && 1 <= Steps(i0, i, |t|) < Steps(i0, e, |t|)
    requires b[i].Some? && IsStop(b[i := None], hash, eq, b[i].value, j)
    requires j == i || Steps(i0, j, |t|) < Steps(i0, i, |t|)
    requires i' == if i + 1 == |t| then 0 else i + 1
    ensures var c := b[i := None][j := b[i]];
            forall p :: 0 <= p < |c| && Steps(i0, p, |c|) < Steps(i0, i', |c|) && c[p].Some?
                        ==> PathFull(c, Home(c, hash, c[p].value), p)
  {
    var c := b[i := None][j := b[i]];
    forall p | 0 <= p < |c| && Steps(i0, p, |c|) < Steps(i0, i', |c|) && c[p].Some?
      ensures PathFull(c, Home(c, hash, c[p].value), p)
    {
      if p != j {
        assert p != i && c[p] == b[p] && t[e] == b[e];
        PathAvoids(b, Home(b, hash, b[p].value), i0, i, e, p);
      }
    }
  }

  /** A gap-free path to a bucket between i0 and i does not run through i: it would meet the empty bucket e. */
  lemma PathAvoids<T>(b: Buckets<T>, h: nat, i0: nat, i: nat, e: nat, p: nat)
    requires h < |b| && i0 < |b| && i < |b| && e < |b| && p < |b|
    requires PathFull(b, h, p) && b[e].None?
    requires Steps(i0, p, |b|) < Steps(i0, i, |b|) < Steps(i0, e, |b|)
    ensures PathFull(b[i := None], h, p)
  {
  }

  lemma MovedContents<T>(b: Buckets<T>, eq: (T, T) -> bool, i: nat, j: nat)
    requires i < |b| && j < |b| && b[i].Some? && b[i := None][j].None?
    ensures Contents(b[i := None][j := b[i]]) == Contents(b)
    ensures Inequivalent(b, eq) ==> Inequivalent(b[i := None][j := b[i]], eq)
  {
    var c := b[i := None][j := b[i]];
    forall y | y in Contents(b)
      ensures y in Contents(c)
    {
      var p :| 0 <= p < |b| && b[p].Some? && b[p].value == y;
      assert c[if p == i then j else p].value == y;
    }
    forall y | y in Contents(c)
      ensures y in Contents(b)
    {
      var p :| 0 <= p < |c| && c[p].Some? && c[p].value == y;
      assert b[if p == j then i else p].value == y;
    }
  }

  /** When the cleanup loop meets the empty bucket that ended the cluster, no probe path has a gap left. */
  lemma CleaningEnd<T(!new)>(t: Buckets<T>, b: Buckets<T>, hash: T -> nat, eq: (T, T) -> bool, i0: nat, e: nat)
    requires Probed(t, hash, eq) && IsClusterEnd(t, i0, e)
    requires Cleaning(t, b, hash, eq, i0, e)
    ensures Probed(b, hash, eq)
    ensures forall p :: 0 <= p < i0 && b[p].Some? ==> exists q :: 0 <= q < i0 && t[q] == b[p]
  {
  }

  // The cleanup goes on until it meets the end of the cluster.
  lemma CleanedUntil<T(!new)>(t: Buckets<T>, b: Buckets<T>, hash: T -> nat, eq: (T, T) -> bool, i0: nat, i: nat, e: nat)
    requires IsClusterEnd(t, i0, e) && Cleaning(t, b, hash, eq, i0, i) && Steps(i0, i, |t|) <= Steps(i0, e, |t|)
    ensures |b| == |t| && i0 < |t| && e < |t| && i < |t| && (b[i].Some? <==> i != e)
    ensures i != e ==> Steps(i0, i, |t|) < Steps(i0, e, |t|)
  {
  }

  // The item in bucket p was probed past bucket i.
  ghost predicate Through<T>(b: Buckets<T>, hash: T -> nat, p: int, i: int) {
    && 0 <= p < |b| && 0 <= i < |b| && p != i && b[p].Some?
    && Steps(Home(b, hash, b[p].value), i, |b|) < Steps(Home(b, hash, b[p].value), p, |b|)
  }

  // The cleanup before bucket i: the emptied bucket is still empty and nothing has moved, since no item there was
  // probed past it, or it has been filled because one was.
  ghost predicate Hole<T>(t: Buckets<T>, b: Buckets<T>, hash: T -> nat, i0: nat, i: nat) {
    && i0 < |b| == |t|
    && (b[i0].None? ==> && b == t[i0 := None]
                        && forall p :: 1 <= Steps(i0, p, |t|) < Steps(i0, i, |t|) ==> !Through(t, hash, p, i0))
    && (b[i0].Some? ==> exists p :: Through(t, hash, p, i0))
  }

  lemma HoleStep<T(!new)>(t: Buckets<T>, b: Buckets<T>, hash: T -> nat, eq: (T, T) -> bool,
                          i0: nat, i: nat, e: nat, j: nat)
    requires EqLaws(hash, eq) && Probed(t, hash, eq) && IsClusterEnd(t, i0, e)
    requires Cleaning(t, b, hash, eq, i0, i) && 1 <= Steps(i0, i, |t|) < Steps(i0, e, |t|)
    requires b[i].Some? && IsStop(b[i := None], hash, eq, b[i].value, j) && b[i := None][j].None?
    requires Hole(t, b, hash, i0, i)
    ensures Hole(t, b[i := None][j := b[i]], hash, i0, Next(i, |t|))
  {
    if b[i0].None? {
      assert b[i] == t[i] && PathFull(t, Home(t, hash, t[i].value), i);
      if Through(t, hash, i, i0) {
        assert j == i0;
      } else {
        assert j == i;
        assert b[i := None][i := b[i]] == b;
      }
    }
  }

  /** The emptied bucket is filled again exactly if some item was probed past it; otherwise nothing moves. */
  lemma HoleEnd<T(!new)>(t: Buckets<T>, b: Buckets<T>, hash: T -> nat, eq: (T, T) -> bool, i0: nat, e: nat)
    requires Probed(t, hash, eq) && IsClusterEnd(t, i0, e) && Hole(t, b, hash, i0, e)
    ensures b[i0].Some? <==> exists p :: Through(t, hash, p, i0)
    ensures b[i0].None? ==> b == t[i0 := None]
  {
    if p :| Through(t, hash, p, i0) {
      assert PathFull(t, Home(t, hash, t[p].value), p) && t[e].None?;
      assert Steps(i0, p, |t|) < Steps(i0, e, |t|);
    }
  }

  // ---------- a set minus itself ----------

  /** For example, two items that share a home bucket: the second one is moved to where the scan has been. */
  lemma TwoInOneHome(b: Buckets<nat>)
    requires b == [None, Some(1), Some(4)]
    ensures Probed(b, x => x, (x, y) => x == y) && !AtHome(b, x => x)
  {
    assert Strays(b, x => x, 2);
  }

  predicate Strays<T>(b: Buckets<T>, hash: T -> nat, p: nat)
    requires p < |b|
  {
    p > 0 && b[p].Some? && Home(b, hash, b[p].value) != p
  }

  // Every item is in its home bucket, but for the one in bucket 0.
  predicate AtHome<T>(b: Buckets<T>, hash: T -> nat) { forall p :: 0 <= p < |b| ==> !Strays(b, hash, p) }

  // The first bucket that the item in bucket p was probed past, counted from bucket 0.
  function Passed<T>(b: Buckets<T>, hash: T -> nat, p: nat): nat
    requires p < |b| && b[p].Some?
  {
    if Home(b, hash, b[p].value) < p then Home(b, hash, b[p].value) else 0
  }

  // The scan over o has emptied the buckets before i, and no item has been probed past one of them; or some item
  // stays behind.
  ghost predicate Scanned<T>(o: Buckets<T>, b: Buckets<T>, hash: T -> nat, i: nat) {
    && |b| == |o| && i <= |o|
    && (|| ((exists q :: 0 <= q < i && b[q].Some?) && !AtHome(o, hash))
        || ((forall p :: 0 <= p < |o| ==> b[p] == if p < i then None else o[p])
            && forall p :: 0 <= p < |o| && Strays(o, hash, p) ==> i <= Passed(o, hash, p)))
  }

  lemma NothingScanned<T>(o: Buckets<T>, hash: T -> nat)
    ensures Scanned(o, o, hash, 0) && Contents(o[..0]) == {}
  {
  }

  // c is b after bucket i was removed.
  ghost predicate Removed<T>(b: Buckets<T>, c: Buckets<T>, hash: T -> nat, i: nat) {
    && i < |b| == |c|
    && (b[i].None? ==> c == b)
    && (b[i].Some? ==> && (c[i].Some? <==> exists p :: Through(b, hash, p, i))
                       && (c[i].None? ==> c == b[i := None]))
  }

  lemma ScannedStep<T(!new)>(o: Buckets<T>, b: Buckets<T>, c: Buckets<T>, hash: T -> nat, eq: (T, T) -> bool, i: nat)
    requires Probed(o, hash, eq) && i < |o| && Scanned(o, b, hash, i) && Removed(b, c, hash, i)
    ensures Scanned(o, c, hash, i + 1)
  {
    if c[i].Some? {
      if !exists q :: 0 <= q < i && b[q].Some? {
        var p :| Through(b, hash, p, i);
        assert Strays(o, hash, p);
      }
    } else if q :| 0 <= q < i && b[q].Some? {
      assert c[q].Some?;
    } else {
      forall p | 0 <= p < |o| && Strays(o, hash, p)
        ensures i + 1 <= Passed(o, hash, p)
      {
        if Passed(o, hash, p) == i {
          assert PathFull(o, Home(o, hash, o[p].value), p);
          assert Through(b, hash, p, i);
        }
      }
    }
  }

  lemma ScannedEnd<T>(o: Buckets<T>, b: Buckets<T>, hash: T -> nat)
    requires Scanned(o, b, hash, |o|)
    ensures Contents(b) == {} <==> AtHome(o, hash)
  {
    if q :| 0 <= q < |b| && b[q].Some? { assert b[q].value in Contents(b); }
  }

  lemma {:induction false} CountIsItems<T>(b: Buckets<T>, eq: (T, T) -> bool)
    requires Inequivalent(b, eq) && forall p :: 0 <= p < |b| && b[p].Some? ==> eq(b[p].value, b[p].value)
    ensures |Occupied(b)| == |Contents(b)|
  {
    if b != [] {
      var m := |b| - 1;
      CountIsItems(b[..m], eq);
      if b[m].None? {
        assert Occupied(b) == Occupied(b[..m]);
        ContentsSkip(b, m);
        assert b[..m + 1] == b;
      } else {
        assert Occupied(b) == Occupied(b[..m]) + {m};
        ContentsSnoc(b, m);
        assert b[..m + 1] == b && b[m].value !in Contents(b[..m]);
      }
    }
  }

  lemma ContentsSnoc<T>(b: Buckets<T>, m: nat)
    requires m < |b| && b[m].Some?
    ensures Contents(b[..m + 1]) == Contents(b[..m]) + {b[m].value}
  {
  }

  lemma ContentsSkip<T>(b: Buckets<T>, m: nat)
    requires m < |b| && b[m].None?
    ensures Contents(b[..m + 1]) == Contents(b[..m])
  {
  }

  lemma {:induction false} SubsetSize<T>(a: set<T>, b: set<T>)
    requires a <= b
    ensures |a| <= |b|
  {
    if a != {} {
      var x :| x in a;
      SubsetSize(a - {x}, b - {x});
    }
  }

  lemma OccupiedPrefix<T>(b: Buckets<T>, m: nat)
    requires m < |b|
    ensures |Occupied(b[..m + 1])| == |Occupied(b[..m])| + if b[m].Some? then 1 else 0
    ensures |Occupied(b[..m + 1])| <= |Occupied(b)|
  {
    assert Occupied(b[..m + 1]) == Occupied(b[..m]) + if b[m].Some? then {m} else {};
    SubsetSize(Occupied(b[..m + 1]), Occupied(b));
  }

  ghost predicate Unmatched<T>(u: set<T>, eq: (T, T) -> bool, x: T) { forall y :: y in u ==> !eq(x, y) }

  ghost predicate Represented<T>(s: set<T>, eq: (T, T) -> bool, x: T) { exists y :: y in s && eq(y, x) }

  // s with the items of u put in, each replacing its equivalent.
  ghost function PutAll<T>(s: set<T>, eq: (T, T) -> bool, u: set<T>): set<T> {
    (set x | x in s && Unmatched(u, eq, x)) + u
  }

  lemma NothingPut<T>(s: set<T>, eq: (T, T) -> bool, b: Buckets<T>)
    ensures PutAll(s, eq, Contents(b[..0])) == s
  {
    assert Contents(b[..0]) == {};
  }

  /** What one turn of BRSetUnion's loop over the buckets b does to the set s. */
  lemma PutAllStep<T>(s: set<T>, eq: (T, T) -> bool, b: Buckets<T>, m: nat)
    requires m < |b| && Inequivalent(b, eq)
    ensures PutAll(s, eq, Contents(b[..m + 1]))
         == if b[m].None? then PutAll(s, eq, Contents(b[..m]))
            else Put(PutAll(s, eq, Contents(b[..m])), eq, b[m].value)
    ensures |Occupied(b[..m + 1])| == |Occupied(b[..m])| + if b[m].Some? then 1 else 0
    ensures |Occupied(b[..m + 1])| <= |Occupied(b)|
  {
    OccupiedPrefix(b, m);
    if b[m].None? {
      ContentsSkip(b, m);
    } else {
      ContentsSnoc(b, m);
      forall y | y in Contents(b[..m])
        ensures !eq(y, b[m].value)
      {
        var p :| 0 <= p < m && b[..m][p].Some? && b[..m][p].value == y;
      }
    }
  }

  // ---------- the set ----------

  class BRSet<T(==,!new)> {
    const hash: T -> nat
    const eq: (T, T) -> bool
    var table: array<Option<T>>
    var itemCount: nat

    // Everything but the probe paths; it also holds in the middle of Remove's cleanup.
    ghost predicate Shape()
      reads this, table
    {
      && EqLaws(hash, eq)
      && IsTableSize(table.Length)
      && itemCount == |Occupied(table[..])| <= LoadLimit(table.Length)
    }

    ghost predicate Valid()
      reads this, table
    {
      Shape() && Probed(table[..], hash, eq)
    }

    ghost function Items(): set<T>
      reads this, table
    {
      Contents(table[..])
    }

    /** An empty set sized for `capacity` items.  It takes them without growing for every capacity but one. */
    constructor (hash: T -> nat, eq: (T, T) -> bool, capacity: nat)
      requires EqLaws(hash, eq)
      ensures this.hash == hash && this.eq == eq && fresh(table) && itemCount == 0 && Items() == {}
      ensures capacity > TableSize(TABLE_SIZES_LEN - 2) ==> table.Length == 0
      ensures capacity <= TableSize(TABLE_SIZES_LEN - 2) ==>
        && Valid() && capacity < table.Length
        && (LoadLimit(table.Length) < capacity <==> capacity == 30593)
        && (IsTableSize(capacity) ==> LoadLimit(capacity) + 1 <= LoadLimit(table.Length))
    {
      var i := 0;
      while i < TABLE_SIZES_LEN && TableSize(i) < capacity
        invariant 0 <= i <= TABLE_SIZES_LEN
        invariant forall j :: 0 <= j < i ==> TableSize(j) < capacity
      {
        i := i + 1;
      }
      var n := if i + 1 < TABLE_SIZES_LEN then TableSize(i + 1) else 0;
      if i + 1 < TABLE_SIZES_LEN { SizeFits(i, capacity); } else { assert TableSize(TABLE_SIZES_LEN - 2) < capacity; }
      this.hash, this.eq, this.itemCount := hash, eq, 0;
      this.table := new Option<T>[n](_ => None);
    }

    /** The probe loop shared by BRSetAdd, BRSetRemove and BRSetGet. */
    method Probe(item: T) returns (i: nat)
      requires Shape()
      ensures IsStop(table[..], hash, eq, item, i)
    {
      TableSizeBounds(table.Length);
      EmptyBucketExists(table[..]);
      ghost var z :| 0 <= z < table.Length && table[..][z].None?;
      ghost var h := Home(table[..], hash, item);
      i := hash(item) % table.Length;
      while table[i].Some? && table[i].value != item && !eq(table[i].value, item)
        invariant i < table.Length && Steps(h, i, table.Length) <= Steps(h, z, table.Length)
        invariant forall s :: 0 <= s < table.Length && Steps(h, s, table.Length) < Steps(h, i, table.Length)
                              ==> table[s].Some? && !eq(table[s].value, item)
        decreases Steps(h, z, table.Length) - Steps(h, i, table.Length)
      {
        i := Next(i, table.Length);
      }
    }

    /** Adds item, or replaces the equivalent stored item and returns it.  The second group of promises is what
        Remove's cleanup relies on: a table below its load bound is written at the probe's stop and not grown.  Adding
        a stored item again changes nothing. */
    method Add(item: T) returns (r: Option<T>)
      requires Shape() && (itemCount < MAX_ITEMS || Represented(Items(), eq, item))
      requires Valid() || itemCount < LoadLimit(table.Length)
      modifies this, table
      ensures table == old(table) || (fresh(table) && old(table.Length) < table.Length)
      ensures itemCount == old(itemCount) + if r.None? then 1 else 0
      ensures old(Valid()) ==> Valid() && Items() == Put(old(Items()), eq, item)
                               && IsMatch(old(Items()), eq, item, r)
      ensures old(itemCount < LoadLimit(table.Length)) ==>
        table == old(table) && Shape() && WrittenAtStop(old(table[..]), table[..], hash, eq, item, r)
      ensures old(Valid() && Some(item) in table[..]) ==> table == old(table) && table[..] == old(table[..])
      decreases LARGEST_SIZE - table.Length, 1
    {
      hide Probed, Contents, IsStop, WrittenAtStop, Occupied, Put, IsMatch, Represented;
      TableSizeBounds(table.Length);
      var size := table.Length;
      ghost var b := table[..];
      var i := Probe(item);
      r := table[i];
      if r.None? { itemCount := itemCount + 1; }
      table[i] := Some(item);
      assert table[..] == b[i := Some(item)];
      AddEffect(b, hash, eq, item, i);
      if old(Valid()) { StoredAtStop(b, hash, eq, item, i); }
      assert size == LARGEST_SIZE ==> LoadLimit(size) == MAX_ITEMS;
      if itemCount > ((size + 2) / 3) * 2 { Grow(size); }
    }

    /** Rebuilds the table one size up. */
    method Grow(capacity: nat)
      requires EqLaws(hash, eq) && IsTableSize(table.Length) && Probed(table[..], hash, eq)
      requires capacity == table.Length < LARGEST_SIZE
      requires itemCount == |Occupied(table[..])| == LoadLimit(table.Length) + 1
      modifies this
      ensures Valid() && fresh(table) && old(table.Length) < table.Length
      ensures Items() == old(Items()) && itemCount == old(itemCount)
      decreases LARGEST_SIZE - table.Length, 0
    {
      NotLargest(capacity);
      ghost var b := table[..];
      var newSet := new BRSet(hash, eq, capacity);
      TableSizeBounds(newSet.table.Length);
      newSet.Union(this);
      CountIsItems(b, eq);
      CountIsItems(newSet.table[..], eq);
      table := newSet.table;
      itemCount := newSet.itemCount;
    }

    /** Adds every item of other, replacing equivalents.  The other set may be this one. */
    method Union(other: BRSet<T>)
      requires Valid() && (other == this || other.table != table)
      requires Inequivalent(other.table[..], eq)
      requires other == this || itemCount + |Occupied(other.table[..])| <= MAX_ITEMS
      modifies this, table
      ensures Valid() && old(table.Length) <= table.Length && (table == old(table) || fresh(table))
      ensures Items() == PutAll(old(Items()), eq, old(other.Items()))
      decreases LARGEST_SIZE - table.Length, 3
    {
      hide Probed, EqLaws, Inequivalent, PutAll, Contents, Occupied, IsTableSize;
      ghost var o := other.table[..];
      ghost var items0 := Items();
      var i, size := 0, other.table.Length;
      NothingPut(items0, eq, o);
      assert o[..size] == o;
      while i < size
        invariant 0 <= i <= size && Valid()
        invariant table == old(table) || fresh(table)
        invariant other.table[..] == o && other.table == old(other.table) && (other == this || other.table != table)
        invariant old(table.Length) <= table.Length
        invariant other != this ==> itemCount <= old(itemCount) + |Occupied(o[..i])|
        invariant Items() == PutAll(items0, eq, Contents(o[..i]))
      {
        TableSizeBounds(table.Length);
        AddBucket(other.table[i], items0, o, i);
        i := i + 1;
      }
    }

    // One turn of the loop in Union: o is the other table, of which the first i buckets have been added to items0.
    method AddBucket(t: Option<T>, ghost items0: set<T>, ghost o: Buckets<T>, ghost i: nat)
      requires Valid() && Inequivalent(o, eq) && i < |o| && t == o[i]
      requires itemCount + |Occupied(o)| - |Occupied(o[..i])| <= MAX_ITEMS || table[..] == o
      requires Items() == PutAll(items0, eq, Contents(o[..i]))
      modifies this, table
      ensures Valid() && old(table.Length) <= table.Length && (table == old(table) || fresh(table))
      ensures itemCount <= old(itemCount) + |Occupied(o[..i + 1])| - |Occupied(o[..i])|
      ensures Items() == PutAll(items0, eq, Contents(o[..i + 1]))
      ensures old(table[..]) == o ==> table == old(table) && table[..] == o
      decreases LARGEST_SIZE - table.Length, 2
    {
      TableSizeBounds(table.Length);
      PutAllStep(items0, eq, o, i);
      assert t.Some? && table[..] == o ==> Some(t.value) in table[..] && t.value in Items();
      if t.Some? { var _ := Add(t.value); }
    }

    // One turn of the cleanup loop in Remove, which started from the buckets t0 by emptying i0.
    method Reinsert(i: nat, ghost t0: Buckets<T>, ghost i0: nat, ghost e: nat)
      requires Shape() && Probed(t0, hash, eq) && IsClusterEnd(t0, i0, e)
      requires Cleaning(t0, table[..], hash, eq, i0, i) && table[i].Some?
      requires 1 <= Steps(i0, i, table.Length) < Steps(i0, e, table.Length) && Hole(t0, table[..], hash, i0, i)
      modifies this, table
      ensures table == old(table) && Shape() && itemCount == old(itemCount)
      ensures Cleaning(t0, table[..], hash, eq, i0, Next(i, table.Length))
      ensures Hole(t0, table[..], hash, i0, Next(i, table.Length))
      ensures Contents(table[..]) == old(Contents(table[..]))
    {
      hide Hole, Through, Probed, Contents, PathFull, Inequivalent, EqLaws, Home;
      TableSizeBounds(table.Length);
      ghost var b := table[..];
      var t := table[i].value;
      OccupiedAt(b, i, None);
      itemCount := itemCount - 1;
      table[i] := None;
      assert table[..] == b[i := None];
      var r := Add(t);
      ghost var j: nat :| IsStop(b[i := None], hash, eq, t, j) && table[..] == b[i := None][j := Some(t)]
                          && r == b[i := None][j];
      CleaningStep(t0, b, hash, eq, i0, i, e, j, Next(i, table.Length));
      HoleStep(t0, b, hash, eq, i0, i, e, j);
    }

    /** Removes the item equivalent to item and re-inserts the rest of its cluster, which never grows the table.
        No item moves from behind the removed bucket to a bucket ahead of it.  The removed bucket is filled again
        exactly if some item was probed past it, and otherwise nothing moves. */
    method Remove(item: T) returns (r: Option<T>, ghost i0: nat)
      requires Valid()
      modifies this, table
      ensures Valid() && table == old(table)
      ensures IsStop(old(table[..]), hash, eq, item, i0) && r == old(table[..])[i0]
      ensures Items() == Drop(old(Items()), eq, item) && IsMatch(old(Items()), eq, item, r)
      ensures itemCount == old(itemCount) - if r.Some? then 1 else 0
      ensures forall p :: 0 <= p < i0 && table[p].Some? ==> exists q :: 0 <= q < i0 && old(table[..])[q] == table[p]
      ensures r.Some? ==> (table[i0].Some? <==> exists p :: Through(old(table[..]), hash, p, i0))
      ensures r.Some? && table[i0].None? ==> table[..] == old(table[..])[i0 := None]
    {
      TableSizeBounds(table.Length);
      ghost var t0 := table[..];
      var size := table.Length;
      var i := Probe(item);
      i0 := i;
      r := table[i];
      MatchAtStop(t0, hash, eq, item, i0);
      if r.Some? {
        ghost var e := RemoveStart(t0, hash, eq, item, i0);
        itemCount := itemCount - 1;
        table[i] := None;
        assert table[..] == t0[i0 := None];
        Cleanup(Next(i, size), t0, i0, e);
      }
    }

    // The cleanup loop of BRSetRemove, from the bucket after the emptied one.
    method Cleanup(first: nat, ghost t0: Buckets<T>, ghost i0: nat, ghost e: nat)
      requires Shape() && Probed(t0, hash, eq) && IsClusterEnd(t0, i0, e)
      requires 1 <= Steps(i0, e, |t0|) && first == Next(i0, |t0|)
      requires Cleaning(t0, table[..], hash, eq, i0, first) && Hole(t0, table[..], hash, i0, first)
      modifies this, table
      ensures Valid() && table == old(table) && itemCount == old(itemCount)
      ensures Items() == old(Items())
      ensures forall p :: 0 <= p < i0 && table[p].Some? ==> exists q :: 0 <= q < i0 && t0[q] == table[p]
      ensures table[i0].Some? <==> exists p :: Through(t0, hash, p, i0)
      ensures table[i0].None? ==> table[..] == t0[i0 := None]
    {
      hide Cleaning, IsClusterEnd, Hole, Through, Probed, Contents, Occupied, EqLaws, IsTableSize;
      var i, size := first, table.Length;
      CleanedUntil(t0, table[..], hash, eq, i0, i, e);
      while table[i].Some?
        invariant 0 <= i < size && table == old(table) && Shape() && itemCount == old(itemCount)
        invariant Cleaning(t0, table[..], hash, eq, i0, i) && Hole(t0, table[..], hash, i0, i)
        invariant 1 <= Steps(i0, i, size) <= Steps(i0, e, size) && (table[i].Some? <==> i != e)
        invariant Items() == old(Items())
        decreases Steps(i0, e, size) - Steps(i0, i, size)
      {
        Reinsert(i, t0, i0, e);
        i := Next(i, size);
        CleanedUntil(t0, table[..], hash, eq, i0, i, e);
      }
      CleaningEnd(t0, table[..], hash, eq, i0, e);
      HoleEnd(t0, table[..], hash, eq, i0, e);
    }

    /** Returns the stored item equivalent to the given one, if any. */
    method Get(item: T) returns (r: Option<T>)
      requires Valid()
      ensures IsMatch(Items(), eq, item, r)
    {
      var i := Probe(item);
      r := table[i];
      MatchAtStop(table[..], hash, eq, item, i);
    }

    method Contains(item: T) returns (found: bool)
      requires Valid()
      ensures found <==> Represented(Items(), eq, item)
    {
      var r := Get(item);
      found := r.Some?;
    }

    method Count() returns (n: nat)
      requires Valid()
      ensures n == |Items()|
    {
      CountIsItems(table[..], eq);
      n := itemCount;
    }

    method Clear()
      requires Valid()
      modifies this, table
      ensures Valid() && table == old(table) && Items() == {} && itemCount == 0
    {
      forall i | 0 <= i < table.Length { table[i] := None; }
      itemCount := 0;
      assert Occupied(table[..]) == {};
    }

    /** Whether any item of other is contained in this set. */
    method Intersects(other: BRSet<T>) returns (found: bool)
      requires Valid()
      ensures found <==> exists x :: x in other.Items() && Represented(Items(), eq, x)
    {
      var i, size := 0, other.table.Length;
      while i < size
        invariant 0 <= i <= size
        invariant forall p :: 0 <= p < i && other.table[p].Some?
                              ==> !Represented(Items(), eq, other.table[p].value)
      {
        var t := other.table[i];
        i := i + 1;
        if t.Some? {
          var c := Contains(t.value);
          if c {
            assert other.table[..][i - 1].value in other.Items();
            return true;
          }
        }
      }
      return false;
    }

    /** Removes the items that other contains an equivalent of.  A set minus itself is empty exactly if every item is in
        its home bucket, but for the one in bucket 0: the scan runs over the buckets that the removals rearrange. */
    method Minus(other: BRSet<T>)
      requires Valid() && (other == this || other.table != table)
      modifies this, table
      ensures Valid() && table == old(table)
      ensures other != this ==>
                forall x :: x in Items() <==> x in old(Items()) && Unmatched(other.Items(), eq, x)
      ensures other == this ==> (Items() == {} <==> old(AtHome(table[..], hash)))
    {
      hide Probed, EqLaws, IsStop, IsTableSize, Contents, Occupied, Scanned, Through, AtHome;
      var i, size := 0, other.table.Length;
      ghost var o := other.table[..];
      NothingScanned(o, hash);
      assert o[..size] == o;
      while i < size
        invariant 0 <= i <= size && Valid() && table == old(table) && other.table == old(other.table)
        invariant other == this ==> Scanned(o, table[..], hash, i)
        invariant other != this ==> other.table[..] == o
        invariant other != this ==>
                    forall x :: x in Items() <==> x in old(Items()) && Unmatched(Contents(o[..i]), eq, x)
      {
        var t := other.table[i];
        ghost var b := table[..];
        if t.Some? {
          var _, i0 := Remove(t.value);
          if other == this { StopOfStored(b, hash, eq, i, i0); }
        }
        if other == this {
          ScannedStep(o, b, table[..], hash, eq, i);
        } else if t.Some? {
          ContentsSnoc(o, i);
        } else {
          ContentsSkip(o, i);
        }
        i := i + 1;
      }
      if other == this { ScannedEnd(o, table[..], hash); }
    }

    /** Removes the items that other does not contain, in one scan over the buckets that does not step on after a
        removal: what Remove moves into the emptied bucket or beyond it is still visited. */
    method Intersect(other: BRSet<T>)
      requires Valid() && other.Valid() && (other == this || other.table != table)
      modifies this, table
      ensures Valid() && table == old(table)
      ensures forall x :: x in Items() <==> x in old(Items()) && Represented(other.Items(), other.eq, x)
    {
      hide Probed, EqLaws, Contents, IsStop, IsTableSize, Drop, Represented, Occupied;
      var i, size := 0, table.Length;
      ghost var keep := other.Items();
      while i < size
        invariant 0 <= i <= size && size == table.Length && Valid() && table == old(table)
        invariant other.Valid() && other.Items() == keep
        invariant forall p :: 0 <= p < i && table[p].Some?
                              ==> Represented(keep, other.eq, table[p].value)
        invariant Items() <= old(Items())
        invariant forall x :: x in old(Items()) && Represented(keep, other.eq, x) ==> x in Items()
        decreases itemCount + size - i
      {
        var t := table[i];
        var c := false;
        if t.Some? { StopOfStored(table[..], hash, eq, i, i); }
        if t.Some? { c := other.Contains(t.value); }
        if t.Some? && !c {
          ghost var b := table[..];
          var _, i0 := Remove(t.value);
          StopOfStored(b, hash, eq, i, i0);
        } else {
          i := i + 1;
        }
      }
      ContentsKept(table[..], keep, other.eq);
    }
  }

  function Next(i: nat, n: nat): (j: nat)
    requires i < n
    ensures j == if i + 1 == n then 0 else i + 1
  {
    (i + 1) % n
  }
}