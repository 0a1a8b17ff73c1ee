/**
 * The serialization engine: a registry of serializer components bucketed by
 * group, the two-level dispatch that selects the components for a value, the
 * left fold that combines their partial outputs, and the begin/end event
 * envelope around a whole-project serialization.
 */
module Serialization {
  import opened Common

  /** The plain, JSON-compatible data a serialization produces. */
  datatype Json =
    | JNull
    | JBool(b: bool)
    | JNumber(n: int)
    | JString(s: string)
    | JArray(items: seq<Json>)
    | JObject(fields: map<string, Json>)

  /** A partially or fully built output object. */
  type Obj = map<string, Json>

  /**
   * The source keys the registry by the group predicate function itself,
   * compared by identity; a group is named here by a key standing for that
   * function.
   */
  type GroupKey = int

  /** A serializer component: its identity, its group and its priority. */
  datatype Component = Component(id: int, group: GroupKey, priority: int)

  /**
   * What the components do, which the engine only calls: the meaning of each
   * group key as a predicate, each component's `supports` and each
   * component's `toObject`.
   */
  datatype Behaviour<!V> = Behaviour(
    groupSupports: (GroupKey, V) -> bool,
    supports: (Component, V) -> bool,
    toObject: (Component, V, Obj) -> Obj)

  // ---------------------------------------------------------------------
  // Ordering inside one bucket
  // ---------------------------------------------------------------------

  /** Non-increasing priority: the order the comparator `b.priority - a.priority` sorts into. */
  predicate SortedByPriority(s: seq<Component>) {
    forall i, j :: 0 <= i < j < |s| ==> s[i].priority >= s[j].priority
  }

  /** The components of `s` whose priority is `p`, in the order of `s`. */
  function WithPriority(s: seq<Component>, p: int): seq<Component> {
    if s == [] then []
    else WithPriority(s[..|s| - 1], p) + (if s[|s| - 1].priority == p then [s[|s| - 1]] else [])
  }

  /**
   * Places `c` just after the last element of `s` whose priority is at least
   * that of `c`: what a stable descending sort makes of a sorted bucket with
   * `c` pushed at its end.
   */
  function Insert(s: seq<Component>, c: Component): seq<Component> {
    if s == [] || s[|s| - 1].priority >= c.priority then s + [c]
    else Insert(s[..|s| - 1], c) + [s[|s| - 1]]
  }

  /** A stable sort by non-increasing priority (insertion sort). */
  function SortByPriority(s: seq<Component>): seq<Component> {
    if s == [] then [] else Insert(SortByPriority(s[..|s| - 1]), s[|s| - 1])
  }

  lemma {:induction false} WithPriorityAppend(s: seq<Component>, c: Component, p: int)
    ensures WithPriority(s + [c], p) == WithPriority(s, p) + (if c.priority == p then [c] else [])
  {
    assert (s + [c])[..|s|] == s;
  }

  lemma {:induction false} WithPriorityMember(s: seq<Component>, p: int, x: Component)
    requires x in WithPriority(s, p)
    ensures x in s && x.priority == p
  {
    if s != [] {
      var init := s[..|s| - 1];
      assert s == init + [s[|s| - 1]];
      if x in WithPriority(init, p) {
        WithPriorityMember(init, p, x);
      }
    }
  }

  lemma {:induction false} InsertMultiset(s: seq<Component>, c: Component)
    ensures multiset(Insert(s, c)) == multiset(s) + multiset{c}
  {
    if s == [] || s[|s| - 1].priority >= c.priority {
    } else {
      var init := s[..|s| - 1];
      assert s == init + [s[|s| - 1]];
      InsertMultiset(init, c);
    }
  }

  /** Inserting keeps a bucket sorted. */
  lemma {:induction false} InsertSorted(s: seq<Component>, c: Component)
    requires SortedByPriority(s)
    ensures SortedByPriority(Insert(s, c))
  {
    if s == [] || s[|s| - 1].priority >= c.priority {
      var r := s + [c];
      forall i, j | 0 <= i < j < |r| ensures r[i].priority >= r[j].priority {
        if j == |s| && i < |s| - 1 {
          assert s[i].priority >= s[|s| - 1].priority;
        }
      }
    } else {
      var init, last := s[..|s| - 1], s[|s| - 1];
      InsertSorted(init, c);
      InsertMultiset(init, c);
      var left := Insert(init, c);
      var r := left + [last];
      forall i | 0 <= i < |left| ensures left[i].priority >= last.priority {
        assert left[i] in multiset(left);
        if left[i] != c {
          assert left[i] in multiset(init);
          var k :| 0 <= k < |init| && init[k] == left[i];
          assert s[k] == init[k];
        }
      }
      forall i, j | 0 <= i < j < |r| ensures r[i].priority >= r[j].priority {
        if j < |left| {
          assert r[i] == left[i] && r[j] == left[j];
        }
      }
    }
  }

  /** Components of equal priority keep their order: `c` goes after those already there. */
  lemma {:induction false} InsertWithPriority(s: seq<Component>, c: Component, p: int)
    ensures WithPriority(Insert(s, c), p) == WithPriority(s, p) + (if c.priority == p then [c] else [])
  {
    if s == [] || s[|s| - 1].priority >= c.priority {
      WithPriorityAppend(s, c, p);
    } else {
      var init, last := s[..|s| - 1], s[|s| - 1];
      assert s == init + [last];
      InsertWithPriority(init, c, p);
      WithPriorityAppend(Insert(init, c), last, p);
      WithPriorityAppend(init, last, p);
    }
  }

  /** `Insert` into a sorted bucket is the result of moving `c` left past the strictly lower priorities. */
  lemma {:induction false} InsertAt(s: seq<Component>, c: Component, i: nat)
    requires i <= |s|
    requires forall k :: i <= k < |s| ==> s[k].priority < c.priority
    requires i == 0 || s[i - 1].priority >= c.priority
    ensures Insert(s, c) == s[..i] + [c] + s[i..]
    decreases |s| - i
  {
    if i == |s| {
      assert s[..i] == s && s[i..] == [];
    } else {
      var init, last := s[..|s| - 1], s[|s| - 1];
      assert last.priority < c.priority;
      InsertAt(init, c, i);
      assert init[..i] == s[..i];
      assert init[i..] + [last] == s[i..];
    }
  }

  /** The stable sort yields a sorted bucket. */
  lemma {:induction false} SortByPrioritySorted(s: seq<Component>)
    ensures SortedByPriority(SortByPriority(s))
  {
    if s != [] {
      SortByPrioritySorted(s[..|s| - 1]);
      InsertSorted(SortByPriority(s[..|s| - 1]), s[|s| - 1]);
    }
  }

  /** The stable sort is a permutation: no component is dropped or duplicated. */
  lemma {:induction false} SortByPriorityMultiset(s: seq<Component>)
    ensures multiset(SortByPriority(s)) == multiset(s)
  {
    if s != [] {
      var init := s[..|s| - 1];
      assert s == init + [s[|s| - 1]];
      SortByPriorityMultiset(init);
      InsertMultiset(SortByPriority(init), s[|s| - 1]);
    }
  }

  /** The sort is stable: components of equal priority stay in registration order. */
  lemma {:induction false} SortByPriorityStable(s: seq<Component>, p: int)
    ensures WithPriority(SortByPriority(s), p) == WithPriority(s, p)
  {
    if s != [] {
      var init, last := s[..|s| - 1], s[|s| - 1];
      assert s == init + [last];
      SortByPriorityStable(init, p);
      InsertWithPriority(SortByPriority(init), last, p);
      WithPriorityAppend(init, last, p);
    }
  }

  /** Sorting an already sorted bucket changes nothing. */
  lemma {:induction false} SortedIsFixpoint(s: seq<Component>)
    requires SortedByPriority(s)
    ensures SortByPriority(s) == s
  {
    if s != [] {
      var init, last := s[..|s| - 1], s[|s| - 1];
      assert SortedByPriority(init) by {
        forall i, j | 0 <= i < j < |init| ensures init[i].priority >= init[j].priority {
          assert init[i] == s[i] && init[j] == s[j];
        }
      }
      SortedIsFixpoint(init);
      if init != [] {
        assert init[|init| - 1] == s[|s| - 2];
      }
      assert s == init + [last];
    }
  }

  /** Pushing onto a sorted bucket and re-sorting it is `Insert`. */
  lemma PushThenSort(s: seq<Component>, c: Component)
    requires SortedByPriority(s)
    ensures SortByPriority(s + [c]) == Insert(s, c)
  {
    assert (s + [c])[..|s|] == s;
    SortedIsFixpoint(s);
  }

  lemma SortedInit(s: seq<Component>)
    requires SortedByPriority(s) && s != []
    ensures SortedByPriority(s[..|s| - 1])
  {
    var init := s[..|s| - 1];
    forall i, j | 0 <= i < j < |init| ensures init[i].priority >= init[j].priority {
      assert init[i] == s[i] && init[j] == s[j];
    }
  }

  /** The run of the last element's priority ends with that element. */
  lemma NonEmptyRun(s: seq<Component>)
    requires s != []
    ensures var run := WithPriority(s, s[|s| - 1].priority);
      run != [] && run[|run| - 1] == s[|s| - 1]
  {
    WithPriorityAppend(s[..|s| - 1], s[|s| - 1], s[|s| - 1].priority);
    assert s == s[..|s| - 1] + [s[|s| - 1]];
  }

  /** In a sorted sequence, every priority that occurs is at least the last one. */
  lemma RunBound(s: seq<Component>, p: int)
    requires SortedByPriority(s) && WithPriority(s, p) != []
    ensures s != [] && p >= s[|s| - 1].priority
  {
    var y := WithPriority(s, p)[0];
    WithPriorityMember(s, p, y);
    var k :| 0 <= k < |s| && s[k] == y;
    assert s[k].priority >= s[|s| - 1].priority;
  }

  lemma LastEqual(r1: seq<Component>, r2: seq<Component>)
    requires SortedByPriority(r1) && SortedByPriority(r2) && r1 != [] && r2 != []
    requires WithPriority(r1, r1[|r1| - 1].priority) == WithPriority(r2, r1[|r1| - 1].priority)
    requires WithPriority(r1, r2[|r2| - 1].priority) == WithPriority(r2, r2[|r2| - 1].priority)
    ensures r1[|r1| - 1] == r2[|r2| - 1]
  {
    var x1, x2 := r1[|r1| - 1], r2[|r2| - 1];
    NonEmptyRun(r1);
    NonEmptyRun(r2);
    RunBound(r2, x1.priority);
    RunBound(r1, x2.priority);
    assert x1.priority == x2.priority;
  }

  lemma InitRunsEqual(r1: seq<Component>, r2: seq<Component>, p: int)
    requires r1 != [] && r2 != [] && r1[|r1| - 1] == r2[|r2| - 1]
    requires WithPriority(r1, p) == WithPriority(r2, p)
    ensures WithPriority(r1[..|r1| - 1], p) == WithPriority(r2[..|r2| - 1], p)
  {
    var i1, x1 := r1[..|r1| - 1], r1[|r1| - 1];
    var i2, x2 := r2[..|r2| - 1], r2[|r2| - 1];
    var w1, w2 := WithPriority(i1, p), WithPriority(i2, p);
    if p == x1.priority {
      assert w1 + [x1] == w2 + [x2];
      assert w1 == (w1 + [x1])[..|w1|];
      assert w2 == (w2 + [x2])[..|w2|];
    } else {
      assert w1 + [] == w1 && w2 + [] == w2;
    }
  }

  /**
   * A sorted sequence is determined by its equal-priority runs: any stable
   * descending sort of the same input gives the same sequence.
   */
  lemma {:induction false} StableSortUnique(r1: seq<Component>, r2: seq<Component>)
    requires SortedByPriority(r1) && SortedByPriority(r2)
    requires forall p :: WithPriority(r1, p) == WithPriority(r2, p)
    ensures r1 == r2
  {
    if r1 != [] || r2 != [] {
      if r1 != [] {
        NonEmptyRun(r1);
        assert WithPriority(r2, r1[|r1| - 1].priority) != [];
      }
      if r2 != [] {
        NonEmptyRun(r2);
        assert WithPriority(r1, r2[|r2| - 1].priority) != [];
      }
      var i1, i2 := r1[..|r1| - 1], r2[..|r2| - 1];
      LastEqual(r1, r2);
      forall p ensures WithPriority(i1, p) == WithPriority(i2, p) {
        InitRunsEqual(r1, r2, p);
      }
      SortedInit(r1);
      SortedInit(r2);
      StableSortUnique(i1, i2);
      assert r1 == i1 + [r1[|r1| - 1]] && r2 == i2 + [r2[|r2| - 1]];
    }
  }

  /**
   * Whatever stable sort runs on a sorted bucket with `c` pushed at its end,
   * the bucket it leaves is `Insert(s, c)`.
   */
  lemma AnyStableSortIsInsert(s: seq<Component>, c: Component, r: seq<Component>)
    requires SortedByPriority(s)
    requires SortedByPriority(r)
    requires forall p :: WithPriority(r, p) == WithPriority(s + [c], p)
    ensures r == Insert(s, c)
  {
    InsertSorted(s, c);
    forall p ensures WithPriority(Insert(s, c), p) == WithPriority(r, p) {
      InsertWithPriority(s, c, p);
      WithPriorityAppend(s, c, p);
    }
    StableSortUnique(Insert(s, c), r);
  }

  lemma SwapStep(s: seq<Component>, c: Component, i: nat)
    requires 0 < i <= |s|
    ensures (s[..i] + [c] + s[i..])[i := s[i - 1]][i - 1 := c] == s[..i - 1] + [c] + s[i - 1..]
  {
    var a := (s[..i] + [c] + s[i..])[i := s[i - 1]][i - 1 := c];
    var b := s[..i - 1] + [c] + s[i - 1..];
    assert |a| == |b|;
    forall k | 0 <= k < |a| ensures a[k] == b[k] {
      if k < i - 1 {
      } else if k == i - 1 {
      } else if k == i {
      } else {
        assert a[k] == s[k - 1];
      }
    }
  }

  /**
   * `group.sort((a, b) => b.priority - a.priority)` on a bucket that was
   * sorted before its last element was pushed: the stable sort moves that
   * element left past every element of strictly lower priority.
   */
  method SortBucket(pushed: seq<Component>) returns (sorted: seq<Component>)
    requires pushed != [] && SortedByPriority(pushed[..|pushed| - 1])
    ensures sorted == SortByPriority(pushed)
    ensures sorted == Insert(pushed[..|pushed| - 1], pushed[|pushed| - 1])
  {
    var s, c := pushed[..|pushed| - 1], pushed[|pushed| - 1];
    sorted := pushed;
    var i := |s|;
    assert sorted == s[..i] + [c] + s[i..];
    while i > 0 && sorted[i - 1].priority < c.priority
      invariant 0 <= i <= |s|
      invariant sorted == s[..i] + [c] + s[i..]
      invariant forall k :: i <= k < |s| ==> s[k].priority < c.priority
    {
      assert sorted[i - 1] == s[i - 1];
      SwapStep(s, c, i);
      sorted := sorted[i := sorted[i - 1]][i - 1 := c];
      i := i - 1;
    }
    assert i > 0 ==> sorted[i - 1] == s[i - 1];
    InsertAt(s, c, i);
    assert pushed == s + [c];
    PushThenSort(s, c);
  }

  // ---------------------------------------------------------------------
  // Registration history: groups and buckets
  // ---------------------------------------------------------------------

  predicate Distinct(gs: seq<GroupKey>) {
    forall i, j :: 0 <= i < j < |gs| ==> gs[i] != gs[j]
  }

  /** The distinct groups of the registered components, in order of first registration. */
  function GroupOrder(rs: seq<Component>): seq<GroupKey> {
    if rs == [] then []
    else
      var gs := GroupOrder(rs[..|rs| - 1]);
      var g := rs[|rs| - 1].group;
      if g in gs then gs else gs + [g]
  }

  /** The registered components of group `g`, in registration order. */
  function InGroup(rs: seq<Component>, g: GroupKey): seq<Component> {
    if rs == [] then []
    else InGroup(rs[..|rs| - 1], g) + (if rs[|rs| - 1].group == g then [rs[|rs| - 1]] else [])
  }

  lemma {:induction false} GroupOrderDistinct(rs: seq<Component>)
    ensures Distinct(GroupOrder(rs))
  {
    if rs != [] {
      GroupOrderDistinct(rs[..|rs| - 1]);
    }
  }

  /** A group is listed exactly when some registered component belongs to it. */
  lemma {:induction false} GroupOrderMembership(rs: seq<Component>, g: GroupKey)
    ensures g in GroupOrder(rs) <==> exists k :: 0 <= k < |rs| && rs[k].group == g
  {
    if rs != [] {
      var init := rs[..|rs| - 1];
      GroupOrderMembership(init, g);
      if exists k :: 0 <= k < |rs| && rs[k].group == g {
        var k :| 0 <= k < |rs| && rs[k].group == g;
        if k < |init| {
          assert init[k] == rs[k];
        }
      }
      if exists k :: 0 <= k < |init| && init[k].group == g {
        var k :| 0 <= k < |init| && init[k].group == g;
        assert rs[k] == init[k];
      }
    }
  }

  /**
   * Groups are listed in order of first registration: any registration of a
   * later-listed group is preceded by one of each earlier-listed group.
   */
  lemma {:induction false} GroupOrderFollowsFirstRegistration(rs: seq<Component>, i: nat, j: nat, k: nat)
    requires i < j < |GroupOrder(rs)|
    requires k < |rs| && rs[k].group == GroupOrder(rs)[j]
    ensures exists k' :: 0 <= k' < k && rs[k'].group == GroupOrder(rs)[i]
  {
    var init, last := rs[..|rs| - 1], rs[|rs| - 1];
    var gs, gs' := GroupOrder(rs), GroupOrder(init);
    assert gs == gs' || gs == gs' + [last.group];
    if k < |init| {
      assert init[k] == rs[k];
      GroupOrderMembership(init, rs[k].group);
      GroupOrderDistinct(rs);
      assert rs[k].group in gs';
      GroupOrderFollowsFirstRegistration(init, i, j, k);
      var k' :| 0 <= k' < k && init[k'].group == gs'[i];
      assert rs[k'] == init[k'];
    } else {
      assert i < |gs'|;
      GroupOrderMembership(init, gs'[i]);
      var k' :| 0 <= k' < |init| && init[k'].group == gs'[i];
      assert rs[k'] == init[k'];
    }
  }

  lemma {:induction false} InGroupCount(rs: seq<Component>, g: GroupKey, c: Component)
    ensures multiset(InGroup(rs, g))[c] == if c.group == g then multiset(rs)[c] else 0
  {
    if rs != [] {
      var init := rs[..|rs| - 1];
      assert rs == init + [rs[|rs| - 1]];
      InGroupCount(init, g, c);
    }
  }

  /** A group with no registered component has an empty bucket. */
  lemma {:induction false} InGroupUnseen(rs: seq<Component>, g: GroupKey)
    requires g !in GroupOrder(rs)
    ensures InGroup(rs, g) == []
  {
    if rs != [] {
      InGroupUnseen(rs[..|rs| - 1], g);
    }
  }

  /** The group order and buckets that the registration history `rs` produces. */
  ghost predicate Registry(rs: seq<Component>, groups: seq<GroupKey>, buckets: map<GroupKey, seq<Component>>) {
    && groups == GroupOrder(rs)
    && (forall g :: g in buckets <==> g in groups)
    && (forall g | g in buckets :: buckets[g] == SortByPriority(InGroup(rs, g)))
  }

  /** A bucket after one more registration: the insertion into the bucket, or unchanged for another group. */
  lemma BucketAfterAdd(rs: seq<Component>, groups: seq<GroupKey>, buckets: map<GroupKey, seq<Component>>, c: Component, g: GroupKey)
    requires Registry(rs, groups, buckets)
    requires g == c.group || g in buckets
    ensures (if g == c.group then Insert(Bucket(buckets, g), c) else buckets[g]) == SortByPriority(InGroup(rs + [c], g))
  {
    var rs' := rs + [c];
    assert rs'[..|rs|] == rs;
    assert InGroup(rs', g) == InGroup(rs, g) + (if c.group == g then [c] else []);
    if g == c.group {
      if g !in buckets {
        InGroupUnseen(rs, g);
      }
      assert Bucket(buckets, g) == SortByPriority(InGroup(rs, g));
      assert (InGroup(rs, g) + [c])[..|InGroup(rs, g)|] == InGroup(rs, g);
    } else {
      assert InGroup(rs, g) + [] == InGroup(rs, g);
    }
  }

  /** One more registration: a new group is appended, and the component is inserted into its bucket. */
  lemma RegistryAfterAdd(rs: seq<Component>, groups: seq<GroupKey>, buckets: map<GroupKey, seq<Component>>, c: Component,
                         groups': seq<GroupKey>, buckets': map<GroupKey, seq<Component>>)
    requires Registry(rs, groups, buckets)
    requires groups' == if c.group in groups then groups else groups + [c.group]
    requires buckets' == buckets[c.group := Insert(Bucket(buckets, c.group), c)]
    ensures Registry(rs + [c], groups', buckets')
  {
    var rs' := rs + [c];
    var buckets' := buckets[c.group := Insert(Bucket(buckets, c.group), c)];
    assert rs'[..|rs|] == rs;
    forall g | g in buckets' ensures buckets'[g] == SortByPriority(InGroup(rs', g)) {
      BucketAfterAdd(rs, groups, buckets, c, g);
    }
  }

  lemma RegistryBucketSorted(rs: seq<Component>, groups: seq<GroupKey>, buckets: map<GroupKey, seq<Component>>, g: GroupKey)
    requires Registry(rs, groups, buckets)
    ensures SortedByPriority(Bucket(buckets, g))
  {
    if g in buckets {
      SortByPrioritySorted(InGroup(rs, g));
    }
  }

  /**
   * The body of `addSerializer` on the map itself: get or create the
   * group's bucket, push the component and sort the bucket.
   */
  method AddToBuckets(groups: seq<GroupKey>, buckets: map<GroupKey, seq<Component>>, c: Component)
    returns (groups': seq<GroupKey>, buckets': map<GroupKey, seq<Component>>)
    requires c.group in buckets <==> c.group in groups
    requires SortedByPriority(Bucket(buckets, c.group))
    ensures groups' == if c.group in groups then groups else groups + [c.group]
    ensures buckets' == buckets[c.group := Insert(Bucket(buckets, c.group), c)]
  {
    groups' := groups;
    var s: seq<Component>;
    if c.group in buckets {
      s := buckets[c.group];
    } else {
      // a new bucket, placed last in the map's key order
      s := [];
      groups' := groups' + [c.group];
    }
    assert (s + [c])[..|s|] == s;
    var bucket := SortBucket(s + [c]);
    buckets' := buckets[c.group := bucket];
  }

  // ---------------------------------------------------------------------
  // Dispatch
  // ---------------------------------------------------------------------

  function Bucket(buckets: map<GroupKey, seq<Component>>, g: GroupKey): seq<Component> {
    if g in buckets then buckets[g] else []
  }

  /** The components of `cs` whose `supports` accepts `v`, in the order of `cs`. */
  function Supported<V>(b: Behaviour<V>, cs: seq<Component>, v: V): seq<Component> {
    if cs == [] then []
    else Supported(b, cs[..|cs| - 1], v) + (if b.supports(cs[|cs| - 1], v) then [cs[|cs| - 1]] else [])
  }

  /** What `findSerializers` returns: group by group, the accepted bucket members. */
  function Routes<V>(b: Behaviour<V>, groups: seq<GroupKey>, buckets: map<GroupKey, seq<Component>>, v: V): seq<Component> {
    if groups == [] then []
    else
      var g := groups[|groups| - 1];
      Routes(b, groups[..|groups| - 1], buckets, v)
        + (if b.groupSupports(g, v) then Supported(b, Bucket(buckets, g), v) else [])
  }

  /** The components whose `supports` `findSerializers` asks, in the order it asks them. */
  function Queried<V>(b: Behaviour<V>, groups: seq<GroupKey>, buckets: map<GroupKey, seq<Component>>, v: V): seq<Component> {
    if groups == [] then []
    else
      var g := groups[|groups| - 1];
      Queried(b, groups[..|groups| - 1], buckets, v)
        + (if b.groupSupports(g, v) then Bucket(buckets, g) else [])
  }

  /** Both checks pass: the component applies to `v`. */
  predicate Applies<V>(b: Behaviour<V>, c: Component, v: V) {
    b.groupSupports(c.group, v) && b.supports(c, v)
  }

  /**
   * The loops of `findSerializers`: for each group in key order whose
   * predicate accepts `v`, the members of its bucket that accept `v`.
   */
  method Dispatch<V>(b: Behaviour<V>, groups: seq<GroupKey>, buckets: map<GroupKey, seq<Component>>, v: V)
    returns (routes: seq<Component>, ghost queried: seq<Component>)
    requires forall g | g in groups :: g in buckets
    ensures routes == Routes(b, groups, buckets, v)
    ensures queried == Queried(b, groups, buckets, v)
  {
    routes := [];
    queried := [];
    var i := 0;
    while i < |groups|
      invariant 0 <= i <= |groups|
      invariant routes == Routes(b, groups[..i], buckets, v)
      invariant queried == Queried(b, groups[..i], buckets, v)
    {
      var g := groups[i];
      assert groups[..i + 1][..i] == groups[..i];
      if b.groupSupports(g, v) {
        var selected, asked := SelectSupported(b, buckets[g], v);
        routes := routes + selected;
        queried := queried + asked;
      }
      i := i + 1;
    }
    assert groups[..i] == groups;
  }

  /** The inner loop of `findSerializers`: asks every component of a bucket, keeps those that accept. */
  method SelectSupported<V>(b: Behaviour<V>, components: seq<Component>, v: V)
    returns (selected: seq<Component>, ghost asked: seq<Component>)
    ensures selected == Supported(b, components, v)
    ensures asked == components
  {
    selected := [];
    asked := [];
    var j := 0;
    while j < |components|
      invariant 0 <= j <= |components|
      invariant selected == Supported(b, components[..j], v)
      invariant asked == components[..j]
    {
      assert components[..j + 1][..j] == components[..j];
      asked := asked + [components[j]];
      if b.supports(components[j], v) {
        selected := selected + [components[j]];
      }
      j := j + 1;
    }
    assert components[..j] == components;
  }

  /** The shape of the registry: distinct group keys, one bucket each, each bucket holding its own group's components. */
  ghost predicate WellFormed(groups: seq<GroupKey>, buckets: map<GroupKey, seq<Component>>) {
    && Distinct(groups)
    && (forall g :: g in buckets <==> g in groups)
    && (forall g, c | g in buckets && c in buckets[g] :: c.group == g)
  }

  lemma {:induction false} SupportedCount<V>(b: Behaviour<V>, cs: seq<Component>, v: V, c: Component)
    ensures multiset(Supported(b, cs, v))[c] == if b.supports(c, v) then multiset(cs)[c] else 0
  {
    if cs != [] {
      var init := cs[..|cs| - 1];
      assert cs == init + [cs[|cs| - 1]];
      SupportedCount(b, init, v, c);
    }
  }

  lemma {:induction false} SupportedSubsequence<V>(b: Behaviour<V>, cs: seq<Component>, v: V, x: Component)
    requires x in Supported(b, cs, v)
    ensures x in cs && b.supports(x, v)
  {
    SupportedCount(b, cs, v, x);
  }

  lemma {:induction false} SupportedSorted<V>(b: Behaviour<V>, cs: seq<Component>, v: V)
    requires SortedByPriority(cs)
    ensures SortedByPriority(Supported(b, cs, v))
  {
    if cs != [] {
      var init, last := cs[..|cs| - 1], cs[|cs| - 1];
      assert SortedByPriority(init) by {
        forall i, j | 0 <= i < j < |init| ensures init[i].priority >= init[j].priority {
          assert init[i] == cs[i] && init[j] == cs[j];
        }
      }
      SupportedSorted(b, init, v);
      var left := Supported(b, init, v);
      forall i | 0 <= i < |left| ensures left[i].priority >= last.priority {
        assert left[i] in left;
        SupportedSubsequence(b, init, v, left[i]);
        var k :| 0 <= k < |init| && init[k] == left[i];
        assert cs[k] == init[k];
      }
    }
  }

  /** What the last group contributes to the count of `c` among the selected components. */
  lemma LastGroupCount<V>(b: Behaviour<V>, bucket: seq<Component>, g: GroupKey, v: V, c: Component)
    requires forall x | x in bucket :: x.group == g
    ensures multiset(if b.groupSupports(g, v) then Supported(b, bucket, v) else [])[c]
         == if c.group == g && Applies(b, c, v) then multiset(bucket)[c] else 0
  {
    SupportedCount(b, bucket, v, c);
    if c.group != g {
      assert c !in bucket;
    }
  }

  /**
   * Exactly the components for which both the group predicate and `supports`
   * accept the value are returned, each as often as it sits in its bucket.
   */
  lemma {:induction false} RoutesCount<V>(b: Behaviour<V>, groups: seq<GroupKey>, buckets: map<GroupKey, seq<Component>>, v: V, c: Component)
    requires Distinct(groups)
    requires forall g, x | g in buckets && x in buckets[g] :: x.group == g
    ensures multiset(Routes(b, groups, buckets, v))[c]
         == if c.group in groups && Applies(b, c, v) then multiset(Bucket(buckets, c.group))[c] else 0
  {
    if groups != [] {
      var init, g := groups[..|groups| - 1], groups[|groups| - 1];
      var tail := if b.groupSupports(g, v) then Supported(b, Bucket(buckets, g), v) else [];
      DistinctInit(groups);
      RoutesCount(b, init, buckets, v, c);
      LastGroupCount(b, Bucket(buckets, g), g, v, c);
      assert multiset(Routes(b, groups, buckets, v)) == multiset(Routes(b, init, buckets, v)) + multiset(tail);
      assert groups == init + [g];
      assert c.group in groups <==> c.group in init || c.group == g;
    }
  }

  /** `supports` is only ever asked of components whose group predicate accepted the value. */
  lemma {:induction false} QueriedOnlyAcceptedGroups<V>(b: Behaviour<V>, groups: seq<GroupKey>, buckets: map<GroupKey, seq<Component>>, v: V, x: Component)
    requires forall g, y | g in buckets && y in buckets[g] :: y.group == g
    requires x in Queried(b, groups, buckets, v)
    ensures b.groupSupports(x.group, v) && x.group in groups
  {
    var init, g := groups[..|groups| - 1], groups[|groups| - 1];
    if x in Queried(b, init, buckets, v) {
      QueriedOnlyAcceptedGroups(b, init, buckets, v, x);
    } else {
      assert x in Bucket(buckets, g);
    }
  }

  /** The position of a group in the registry's group order. */
  function IndexOf(gs: seq<GroupKey>, g: GroupKey): (k: nat)
    requires g in gs
    ensures k < |gs| && gs[k] == g
    ensures forall j :: 0 <= j < k ==> gs[j] != g
  {
    if gs[0] == g then 0 else 1 + IndexOf(gs[1..], g)
  }

  lemma IndexOfPrefix(gs: seq<GroupKey>, n: nat, g: GroupKey)
    requires n <= |gs| && g in gs[..n]
    ensures IndexOf(gs[..n], g) == IndexOf(gs, g)
  {
    var k := IndexOf(gs[..n], g);
    var k' := IndexOf(gs, g);
    assert gs[..n][k] == gs[k];
    assert k' <= k;
    assert gs[..n][k'] == gs[k'];
  }

  lemma DistinctInit(gs: seq<GroupKey>)
    requires Distinct(gs) && gs != []
    ensures Distinct(gs[..|gs| - 1]) && gs[|gs| - 1] !in gs[..|gs| - 1]
  {
    var init := gs[..|gs| - 1];
    forall p, q | 0 <= p < q < |init| ensures init[p] != init[q] {
      assert init[p] == gs[p] && init[q] == gs[q];
    }
    forall p | 0 <= p < |init| ensures init[p] != gs[|gs| - 1] {
      assert init[p] == gs[p];
    }
  }

  /** A selected component belongs to a listed group whose predicate accepted the value. */
  lemma {:induction false} RoutesMember<V>(b: Behaviour<V>, groups: seq<GroupKey>, buckets: map<GroupKey, seq<Component>>, v: V, x: Component)
    requires forall g, y | g in buckets && y in buckets[g] :: y.group == g
    requires x in Routes(b, groups, buckets, v)
    ensures x.group in groups && Applies(b, x, v)
  {
    var init, g := groups[..|groups| - 1], groups[|groups| - 1];
    if x in Routes(b, init, buckets, v) {
      RoutesMember(b, init, buckets, v, x);
    } else {
      SupportedSubsequence(b, Bucket(buckets, g), v, x);
    }
  }

  /** A component selected from an earlier group comes before one selected from the last group. */
  lemma RoutesOrderedAcross<V>(b: Behaviour<V>, groups: seq<GroupKey>, buckets: map<GroupKey, seq<Component>>, v: V, x: Component, y: Component)
    requires Distinct(groups) && groups != []
    requires forall g, z | g in buckets && z in buckets[g] :: z.group == g
    requires x in Routes(b, groups[..|groups| - 1], buckets, v)
    requires y in Supported(b, Bucket(buckets, groups[|groups| - 1]), v)
    ensures x.group in groups && y.group in groups
    ensures IndexOf(groups, x.group) < IndexOf(groups, y.group)
  {
    var n := |groups| - 1;
    DistinctInit(groups);
    RoutesMember(b, groups[..n], buckets, v, x);
    IndexOfPrefix(groups, n, x.group);
    SupportedSubsequence(b, Bucket(buckets, groups[n]), v, y);
    assert y.group == groups[n];
    var k := IndexOf(groups, y.group);
    assert groups[k] == groups[n];
  }

  /** Two components selected from the same bucket keep the bucket's priority order. */
  lemma RoutesOrderedWithin<V>(b: Behaviour<V>, bucket: seq<Component>, v: V, g: GroupKey, p: nat, q: nat)
    requires forall z | z in bucket :: z.group == g
    requires SortedByPriority(bucket)
    requires p < q < |Supported(b, bucket, v)|
    ensures Supported(b, bucket, v)[p].group == g == Supported(b, bucket, v)[q].group
    ensures Supported(b, bucket, v)[p].priority >= Supported(b, bucket, v)[q].priority
  {
    var sel := Supported(b, bucket, v);
    SupportedSubsequence(b, bucket, v, sel[p]);
    SupportedSubsequence(b, bucket, v, sel[q]);
    SupportedSorted(b, bucket, v);
  }

  /**
   * The dispatch order: group by group in registry order, and inside one
   * group in non-increasing priority.
   */
  lemma {:induction false} RoutesOrdered<V>(b: Behaviour<V>, groups: seq<GroupKey>, buckets: map<GroupKey, seq<Component>>, v: V, i: nat, j: nat)
    requires Distinct(groups)
    requires forall g, y | g in buckets && y in buckets[g] :: y.group == g
    requires forall g | g in buckets :: SortedByPriority(buckets[g])
    requires i < j < |Routes(b, groups, buckets, v)|
    ensures var rs := Routes(b, groups, buckets, v);
      && rs[i].group in groups && rs[j].group in groups
      && IndexOf(groups, rs[i].group) <= IndexOf(groups, rs[j].group)
      && (rs[i].group == rs[j].group ==> rs[i].priority >= rs[j].priority)
  {
    var rs := Routes(b, groups, buckets, v);
    var n := |groups| - 1;
    var init, g := groups[..n], groups[n];
    var left := Routes(b, init, buckets, v);
    var right := if b.groupSupports(g, v) then Supported(b, Bucket(buckets, g), v) else [];
    assert rs == left + right;
    if j < |left| {
      assert rs[i] == left[i] && rs[j] == left[j];
      DistinctInit(groups);
      RoutesOrdered(b, init, buckets, v, i, j);
      IndexOfPrefix(groups, n, left[i].group);
      IndexOfPrefix(groups, n, left[j].group);
    } else if i < |left| {
      assert rs[i] == left[i] && rs[j] == right[j - |left|];
      assert right[j - |left|] in right;
      RoutesOrderedAcross(b, groups, buckets, v, left[i], right[j - |left|]);
    } else {
      assert rs[i] == right[i - |left|] && rs[j] == right[j - |left|];
      RoutesOrderedWithin(b, Bucket(buckets, g), v, g, i - |left|, j - |left|);
      assert right[i - |left|] in right;
      SupportedSubsequence(b, Bucket(buckets, g), v, right[i - |left|]);
    }
  }

  /** Filtering by `supports` and picking one priority run commute. */
  lemma {:induction false} SupportedWithPriority<V>(b: Behaviour<V>, cs: seq<Component>, v: V, p: int)
    ensures WithPriority(Supported(b, cs, v), p) == Supported(b, WithPriority(cs, p), v)
  {
    if cs != [] {
      var init, last := cs[..|cs| - 1], cs[|cs| - 1];
      SupportedWithPriority(b, init, v, p);
      WithPriorityConcat(Supported(b, init, v), if b.supports(last, v) then [last] else [], p);
      SupportedConcat(b, WithPriority(init, p), if last.priority == p then [last] else [], v);
    }
  }

  lemma {:induction false} WithPriorityConcat(xs: seq<Component>, ys: seq<Component>, p: int)
    ensures WithPriority(xs + ys, p) == WithPriority(xs, p) + WithPriority(ys, p)
  {
    if ys != [] {
      var init := ys[..|ys| - 1];
      assert xs + ys == (xs + init) + [ys[|ys| - 1]];
      WithPriorityConcat(xs, init, p);
    } else {
      assert xs + ys == xs;
    }
  }

  lemma {:induction false} SupportedConcat<V>(b: Behaviour<V>, xs: seq<Component>, ys: seq<Component>, v: V)
    ensures Supported(b, xs + ys, v) == Supported(b, xs, v) + Supported(b, ys, v)
  {
    if ys != [] {
      var init := ys[..|ys| - 1];
      assert xs + ys == (xs + init) + [ys[|ys| - 1]];
      SupportedConcat(b, xs, init, v);
    } else {
      assert xs + ys == xs;
    }
  }

  lemma {:induction false} InGroupConcat(xs: seq<Component>, ys: seq<Component>, g: GroupKey)
    ensures InGroup(xs + ys, g) == InGroup(xs, g) + InGroup(ys, g)
  {
    if ys != [] {
      var init := ys[..|ys| - 1];
      assert xs + ys == (xs + init) + [ys[|ys| - 1]];
      InGroupConcat(xs, init, g);
    } else {
      assert xs + ys == xs;
    }
  }

  /** Picking group `g` out of components that all belong to group `h`. */
  lemma {:induction false} InGroupOfOneGroup(cs: seq<Component>, g: GroupKey, h: GroupKey)
    requires forall x | x in cs :: x.group == h
    ensures InGroup(cs, g) == if g == h then cs else []
  {
    if cs != [] {
      var init := cs[..|cs| - 1];
      assert forall x | x in init :: x in cs;
      InGroupOfOneGroup(init, g, h);
      assert cs == init + [cs[|cs| - 1]];
    }
  }

  /**
   * The components of group `g` in the selection are that group's bucket,
   * filtered by `supports`, in bucket order: nothing is reordered inside a group.
   */
  lemma {:induction false} RoutesOfGroup<V>(b: Behaviour<V>, groups: seq<GroupKey>, buckets: map<GroupKey, seq<Component>>, v: V, g: GroupKey)
    requires Distinct(groups)
    requires forall h, y | h in buckets && y in buckets[h] :: y.group == h
    ensures InGroup(Routes(b, groups, buckets, v), g)
         == if g in groups && b.groupSupports(g, v) then Supported(b, Bucket(buckets, g), v) else []
  {
    if groups != [] {
      var init, h := groups[..|groups| - 1], groups[|groups| - 1];
      var left := Routes(b, init, buckets, v);
      var right := if b.groupSupports(h, v) then Supported(b, Bucket(buckets, h), v) else [];
      assert Routes(b, groups, buckets, v) == left + right;
      DistinctInit(groups);
      RoutesOfGroup(b, init, buckets, v, g);
      InGroupConcat(left, right, g);
      forall x | x in right ensures x.group == h {
        SupportedSubsequence(b, Bucket(buckets, h), v, x);
      }
      InGroupOfOneGroup(right, g, h);
      assert g in groups <==> g in init || g == h by {
        assert groups == init + [h];
      }
      if g == h {
        assert InGroup(left, g) == [];
      } else {
        assert InGroup(right, g) == [];
      }
    }
  }

  // ---------------------------------------------------------------------
  // The fold
  // ---------------------------------------------------------------------

  /** `reduce`: the result threaded through each component's `toObject`, from `acc`. */
  function Fold<V>(b: Behaviour<V>, cs: seq<Component>, v: V, acc: Obj): Obj {
    if cs == [] then acc else Fold(b, cs[1..], v, b.toObject(cs[0], v, acc))
  }

  /** Folding a concatenation folds the second part over the result of the first. */
  lemma {:induction false} FoldConcat<V>(b: Behaviour<V>, xs: seq<Component>, ys: seq<Component>, v: V, acc: Obj)
    ensures Fold(b, xs + ys, v, acc) == Fold(b, ys, v, Fold(b, xs, v, acc))
  {
    if xs == [] {
      assert xs + ys == ys;
    } else {
      assert (xs + ys)[0] == xs[0];
      assert (xs + ys)[1..] == xs[1..] + ys;
      FoldConcat(b, xs[1..], ys, v, b.toObject(xs[0], v, acc));
    }
  }

  /** The last component applied has the final word on the output. */
  lemma LastComponentWritesLast<V>(b: Behaviour<V>, cs: seq<Component>, c: Component, v: V, acc: Obj)
    ensures Fold(b, cs + [c], v, acc) == b.toObject(c, v, Fold(b, cs, v, acc))
  {
    FoldConcat(b, cs, [c], v, acc);
  }

  // ---------------------------------------------------------------------
  // Events
  // ---------------------------------------------------------------------

  const EVENT_BEGIN: string := "begin"
  const EVENT_END: string := "end"

  /** The caller-supplied part of an event. */
  datatype SerializeEventData = SerializeEventData(outputDirectory: Option<string>, outputFile: Option<string>)

  /** The optional begin and end data of `projectToObject`. */
  datatype EventData = EventData(begin: Option<SerializeEventData>, end: Option<SerializeEventData>)

  datatype SerializeEvent<V> = SerializeEvent(
    name: string,
    project: V,
    output: Obj,
    outputDirectory: Option<string>,
    outputFile: Option<string>)

  /** The components a `Serializer` registers at construction, in registration order. */
  datatype SerializerClass =
    | CommentTagSerializer | CommentSerializer
    | ContainerReflectionSerializer | DeclarationReflectionSerializer
    | ParameterReflectionSerializer | ProjectReflectionSerializer
    | SignatureReflectionSerializer | TypeParameterReflectionSerializer
    | SourceReferenceContainerSerializer
    | ArrayTypeSerializer | IntersectionTypeSerializer | IntrinsicTypeSerializer
    | ReferenceTypeSerializer | ReflectionTypeSerializer | StringLiteralTypeSerializer
    | TupleTypeSerializer | TypeOperatorTypeSerializer | TypeParameterTypeSerializer
    | UnionTypeSerializer | UnknownTypeSerializer
    | DecoratorContainerSerializer | ReflectionCategorySerializer | ReflectionGroupSerializer

  const SerializerComponents: seq<SerializerClass> := [
    CommentTagSerializer, CommentSerializer,
    ContainerReflectionSerializer, DeclarationReflectionSerializer,
    ParameterReflectionSerializer, ProjectReflectionSerializer,
    SignatureReflectionSerializer, TypeParameterReflectionSerializer,
    SourceReferenceContainerSerializer,
    ArrayTypeSerializer, IntersectionTypeSerializer, IntrinsicTypeSerializer,
    ReferenceTypeSerializer, ReflectionTypeSerializer, StringLiteralTypeSerializer,
    TupleTypeSerializer, TypeOperatorTypeSerializer, TypeParameterTypeSerializer,
    UnionTypeSerializer, UnknownTypeSerializer,
    DecoratorContainerSerializer, ReflectionCategorySerializer, ReflectionGroupSerializer
  ]

  /** The components `new C(owner)` makes of each class in `classes`, in order. */
  function Instances(instantiate: SerializerClass -> Component, classes: seq<SerializerClass>): seq<Component> {
    if classes == [] then [] else Instances(instantiate, classes[..|classes| - 1]) + [instantiate(classes[|classes| - 1])]
  }

  /** The registrations made from a list of classes: one component per class, in list order. */
  lemma {:induction false} InstancesPointwise(instantiate: SerializerClass -> Component, classes: seq<SerializerClass>)
    ensures |Instances(instantiate, classes)| == |classes|
    ensures forall i :: 0 <= i < |classes| ==> Instances(instantiate, classes)[i] == instantiate(classes[i])
  {
    if classes != [] {
      var init := classes[..|classes| - 1];
      InstancesPointwise(instantiate, init);
      forall i | 0 <= i < |init| ensures classes[i] == init[i] { }
    }
  }

  lemma InstancesSnoc(instantiate: SerializerClass -> Component, classes: seq<SerializerClass>, i: nat)
    requires i < |classes|
    ensures Instances(instantiate, classes[..i + 1]) == Instances(instantiate, classes[..i]) + [instantiate(classes[i])]
  {
    assert classes[..i + 1][..i] == classes[..i];
  }

  // ---------------------------------------------------------------------
  // The registry
  // ---------------------------------------------------------------------

  class Serializer<V> {
    /** The behaviour of every component this registry may hold. */
    const behaviour: Behaviour<V>
    /** The keys of the `serializers` map, in insertion order. */
    var groups: seq<GroupKey>
    /** The `serializers` map: one bucket per group. */
    var buckets: map<GroupKey, seq<Component>>
    /** Every component passed to `AddSerializer`, in order. */
    ghost var registered: seq<Component>

    ghost predicate Valid()
      reads this
    {
      Registry(registered, groups, buckets)
    }

    /** Registers the built-in components, as `addSerializers(this)` does. */
    constructor (behaviour: Behaviour<V>, instantiate: SerializerClass -> Component)
      ensures Valid()
      ensures this.behaviour == behaviour
      ensures registered == Instances(instantiate, SerializerComponents)
    {
      this.behaviour := behaviour;
      groups := [];
      buckets := map[];
      registered := [];
      new;
      AddSerializers(instantiate);
    }

    method AddSerializers(instantiate: SerializerClass -> Component)
      requires Valid()
      modifies this
      ensures Valid()
      ensures registered == old(registered) + Instances(instantiate, SerializerComponents)
    {
      AddEach(instantiate, SerializerComponents);
    }

    /** The loop of `addSerializers`: one registration per class, in order. */
    method AddEach(instantiate: SerializerClass -> Component, classes: seq<SerializerClass>)
      requires Valid()
      modifies this
      ensures Valid()
      ensures registered == old(registered) + Instances(instantiate, classes)
    {
      ghost var start := registered;
      for i := 0 to |classes|
        invariant Valid()
        invariant registered == start + Instances(instantiate, classes[..i])
      {
        ghost var done := Instances(instantiate, classes[..i]);
        var c := instantiate(classes[i]);
        AddSerializer(c);
        InstancesSnoc(instantiate, classes, i);
        assert registered == start + (done + [c]);
      }
      assert classes[..|classes|] == classes;
    }

    /**
     * Appends `c` to its group's bucket, creating the bucket if the group is
     * new, and re-sorts the bucket by non-increasing priority (stably).
     */
    method AddSerializer(c: Component)
      requires Valid()
      modifies this
      ensures Valid()
      ensures registered == old(registered) + [c]
      ensures groups == if c.group in old(groups) then old(groups) else old(groups) + [c.group]
      ensures buckets == old(buckets)[c.group := Insert(Bucket(old(buckets), c.group), c)]
    {
      RegistryBucketSorted(registered, groups, buckets, c.group);
      var groups', buckets' := AddToBuckets(groups, buckets, c);
      RegistryAfterAdd(registered, groups, buckets, c, groups', buckets');
      groups, buckets, registered := groups', buckets', registered + [c];
    }

    /** `findSerializers`: the components to apply to `value`, in application order. */
    method FindSerializers(value: V) returns (routes: seq<Component>, ghost queried: seq<Component>)
      requires Valid()
      ensures routes == Routes(behaviour, groups, buckets, value)
      ensures queried == Queried(behaviour, groups, buckets, value)
    {
      routes, queried := Dispatch(behaviour, groups, buckets, value);
    }

    /** `toObject`: the left fold of the selected components over `init`. */
    method ToObject(value: V, init: Obj) returns (r: Obj)
      requires Valid()
      ensures r == Fold(behaviour, Routes(behaviour, groups, buckets, value), value, init)
      ensures (forall c | c in registered :: !Applies(behaviour, c, value)) ==> r == init
    {
      var routes, _ := FindSerializers(value);
      r := Fold(behaviour, routes, value, init);
      if forall c | c in registered :: !Applies(behaviour, c, value) {
        if routes != [] {
          var c := routes[0];
          ValidWellFormed(this);
          RoutesCount(behaviour, groups, buckets, value, c);
          assert c in multiset(routes);
          InGroupCount(registered, c.group, c);
          SortByPriorityMultiset(InGroup(registered, c.group));
          assert false;
        }
      }
    }

    /**
     * `projectToObject`: raises the begin event, folds from the begin event's
     * output, then raises the end event carrying the result. `trigger` is the
     * effect of the listeners on an event. Returns the result, the two events
     * as the listeners received them, and the begin event as it stands at the
     * end, after the end data has been written onto it.
     */
    method ProjectToObject(value: V, eventData: EventData, trigger: SerializeEvent<V> -> SerializeEvent<V>)
      returns (project: Obj, beginSent: SerializeEvent<V>, endSent: SerializeEvent<V>, beginFinal: SerializeEvent<V>)
      requires Valid()
      ensures beginSent.name == EVENT_BEGIN && beginSent.project == value && beginSent.output == map[]
      ensures eventData.begin.Some? ==>
                beginSent.outputDirectory == eventData.begin.value.outputDirectory
                && beginSent.outputFile == eventData.begin.value.outputFile
      ensures eventData.begin.None? ==> beginSent.outputDirectory == None && beginSent.outputFile == None
      ensures endSent == SerializeEvent(EVENT_END, value,
                Fold(behaviour, Routes(behaviour, groups, buckets, value), value, trigger(beginSent).output), None, None)
      ensures project == trigger(endSent).output
      ensures beginFinal.output == trigger(beginSent).output
      ensures eventData.end.Some? ==>
                beginFinal.outputDirectory == eventData.end.value.outputDirectory
                && beginFinal.outputFile == eventData.end.value.outputFile
      ensures eventData.end.None? ==> beginFinal == trigger(beginSent)
    {
      var eventBegin := SerializeEvent(EVENT_BEGIN, value, map[], None, None);
      if eventData.begin.Some? {
        eventBegin := eventBegin.(outputDirectory := eventData.begin.value.outputDirectory,
                                  outputFile := eventData.begin.value.outputFile);
      }
      beginSent := eventBegin;
      eventBegin := trigger(eventBegin);

      var result := ToObject(value, eventBegin.output);

      var eventEnd := SerializeEvent(EVENT_END, value, result, None, None);
      if eventData.end.Some? {
        // the end data is written onto the begin event
        eventBegin := eventBegin.(outputDirectory := eventData.end.value.outputDirectory,
                                  outputFile := eventData.end.value.outputFile);
      }
      endSent := eventEnd;
      eventEnd := trigger(eventEnd);
      // the end event's output is the object returned, so what the end
      // listeners did to it is what the caller receives
      project := eventEnd.output;
      beginFinal := eventBegin;
    }
  }

  // ---------------------------------------------------------------------
  // Properties of a registry after any sequence of registrations
  // ---------------------------------------------------------------------

  lemma ValidWellFormed<V>(s: Serializer<V>)
    requires s.Valid()
    ensures WellFormed(s.groups, s.buckets)
  {
    GroupOrderDistinct(s.registered);
    forall g, c | g in s.buckets && c in s.buckets[g] ensures c.group == g {
      SortByPriorityMultiset(InGroup(s.registered, g));
      InGroupCount(s.registered, g, c);
    }
  }

  /** Every bucket is sorted by non-increasing priority. */
  lemma BucketsSorted<V>(s: Serializer<V>, g: GroupKey)
    requires s.Valid() && g in s.buckets
    ensures SortedByPriority(s.buckets[g])
  {
    SortByPrioritySorted(InGroup(s.registered, g));
  }

  /** Inside a bucket, components of equal priority are in registration order. */
  lemma BucketsStable<V>(s: Serializer<V>, g: GroupKey, p: int)
    requires s.Valid() && g in s.buckets
    ensures WithPriority(s.buckets[g], p) == WithPriority(InGroup(s.registered, g), p)
  {
    SortByPriorityStable(InGroup(s.registered, g), p);
  }

  /** No deduplication: a component sits in its bucket once per registration. */
  lemma BucketHoldsEveryRegistration<V>(s: Serializer<V>, c: Component)
    requires s.Valid()
    ensures multiset(Bucket(s.buckets, c.group))[c] == multiset(s.registered)[c]
  {
    InGroupCount(s.registered, c.group, c);
    if c.group in s.buckets {
      SortByPriorityMultiset(InGroup(s.registered, c.group));
    } else {
      GroupOrderMembership(s.registered, c.group);
      assert c !in s.registered;
    }
  }

  /**
   * Dispatch selects exactly the registered components that apply, each once
   * per registration: a component registered twice is applied twice.
   */
  lemma RoutesAreApplicableRegistrations<V>(s: Serializer<V>, v: V, c: Component)
    requires s.Valid()
    ensures multiset(Routes(s.behaviour, s.groups, s.buckets, v))[c]
         == if Applies(s.behaviour, c, v) then multiset(s.registered)[c] else 0
  {
    ValidWellFormed(s);
    RoutesCount(s.behaviour, s.groups, s.buckets, v, c);
    BucketHoldsEveryRegistration(s, c);
    if c.group !in s.groups {
      GroupOrderMembership(s.registered, c.group);
      assert c !in s.registered;
    }
  }

  /**
   * Dispatch order: components of an earlier-registered group come first;
   * inside one group, higher priority first.
   */
  lemma RoutesInRegistryOrder<V>(s: Serializer<V>, v: V, i: nat, j: nat)
    requires s.Valid()
    requires i < j < |Routes(s.behaviour, s.groups, s.buckets, v)|
    ensures var rs := Routes(s.behaviour, s.groups, s.buckets, v);
      && rs[i].group in s.groups && rs[j].group in s.groups
      && IndexOf(s.groups, rs[i].group) <= IndexOf(s.groups, rs[j].group)
      && (rs[i].group == rs[j].group ==> rs[i].priority >= rs[j].priority)
  {
    ValidWellFormed(s);
    forall g | g in s.buckets ensures SortedByPriority(s.buckets[g]) {
      BucketsSorted(s, g);
    }
    RoutesOrdered(s.behaviour, s.groups, s.buckets, v, i, j);
  }

  /**
   * Inside one group, the selection keeps the bucket's order; so components
   * of equal priority are applied in the order they were registered.
   */
  lemma RoutesKeepRegistrationOrder<V>(s: Serializer<V>, v: V, g: GroupKey, p: int)
    requires s.Valid()
    ensures InGroup(Routes(s.behaviour, s.groups, s.buckets, v), g)
         == if s.behaviour.groupSupports(g, v) then Supported(s.behaviour, Bucket(s.buckets, g), v) else []
    ensures s.behaviour.groupSupports(g, v) ==>
              (WithPriority(InGroup(Routes(s.behaviour, s.groups, s.buckets, v), g), p)
               == Supported(s.behaviour, WithPriority(InGroup(s.registered, g), p), v))
  {
    ValidWellFormed(s);
    RoutesOfGroup(s.behaviour, s.groups, s.buckets, v, g);
    if g in s.buckets {
      BucketsStable(s, g, p);
      SupportedWithPriority(s.behaviour, s.buckets[g], v, p);
    } else {
      InGroupUnseen(s.registered, g);
    }
  }

  /** A group's predicate rejecting the value means none of its components is asked `supports`. */
  lemma SupportsAskedOnlyInAcceptedGroups<V>(s: Serializer<V>, v: V, c: Component)
    requires s.Valid()
    requires c in Queried(s.behaviour, s.groups, s.buckets, v)
    ensures s.behaviour.groupSupports(c.group, v)
  {
    ValidWellFormed(s);
    QueriedOnlyAcceptedGroups(s.behaviour, s.groups, s.buckets, v, c);
  }
}
