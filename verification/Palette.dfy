/**
  Palette reduction for one colour channel: a greedy one-pass clustering of the values in
  use, which covers them with as few keys as any choice of values can, and the in-place
  recolouring of a pixel list with those keys.

  Python's insertion-ordered dictionaries are sequences of pairs with distinct keys here.
*/
module Palette {
  import opened Words

  /** A channel value and how often it occurs. */
  type Item = (int, nat)

  datatype Group = Group(key: int, members: seq<Item>)

  // ---------------------------------------------------------------- groups

  ghost predicate Ascending(items: seq<Item>) {
    forall i, j :: 0 <= i < j < |items| ==> items[i].0 < items[j].0
  }

  ghost predicate Has(items: seq<Item>, v: int) {
    exists j :: 0 <= j < |items| && items[j].0 == v
  }

  function First(g: Group): int { if g.members == [] then g.key else g.members[0].0 }

  /** The key is the largest member within `dist` of the first one, and every member is
      within `dist` of the key. */
  ghost predicate GroupOk(g: Group, dist: nat) {
    && g.members != []
    && Has(g.members, g.key)
    && g.key <= First(g) + dist
    && forall j :: 0 <= j < |g.members| ==>
         && First(g) <= g.members[j].0
         && g.key - dist <= g.members[j].0 <= g.key + dist
         && (g.members[j].0 <= First(g) + dist ==> g.members[j].0 <= g.key)
  }

  ghost predicate Separated(groups: seq<Group>, dist: nat) {
    forall i, j :: 0 <= i < j < |groups| ==> First(groups[j]) > groups[i].key + dist
  }

  function Flatten(groups: seq<Group>): seq<Item> {
    if groups == [] then [] else Flatten(groups[..|groups| - 1]) + groups[|groups| - 1].members
  }

  /** What the one-pass clustering of the ascending `items` must produce. */
  ghost predicate Greedy(items: seq<Item>, dist: nat, groups: seq<Group>) {
    && Ascending(items)
    && Flatten(groups) == items
    && (forall i :: 0 <= i < |groups| ==> GroupOk(groups[i], dist))
    && Separated(groups, dist)
  }

  lemma FlattenSnoc(groups: seq<Group>, g: Group)
    ensures Flatten(groups + [g]) == Flatten(groups) + g.members
  {
    assert (groups + [g])[..|groups|] == groups;
  }

  /** Every member of a group is an item, and every item is in some group. */
  lemma {:induction false} FlattenHas(groups: seq<Group>, v: int)
    ensures Has(Flatten(groups), v) <==> exists i :: 0 <= i < |groups| && Has(groups[i].members, v)
  {
    if groups != [] {
      var n := |groups| - 1;
      var init, last := Flatten(groups[..n]), groups[n].members;
      var all: seq<Item> := init + last;
      FlattenHas(groups[..n], v);
      if Has(all, v) {
        var j :| 0 <= j < |all| && all[j].0 == v;
        if j < |init| {
          assert init[j].0 == v;
          var i :| 0 <= i < n && Has(groups[..n][i].members, v);
          assert Has(groups[i].members, v);
        } else {
          assert last[j - |init|].0 == v;
          assert Has(groups[n].members, v);
        }
      }
      if i :| 0 <= i < |groups| && Has(groups[i].members, v) {
        if i < n {
          assert Has(groups[..n][i].members, v);
          var j :| 0 <= j < |init| && init[j].0 == v;
          assert all[j].0 == v;
        } else {
          var j :| 0 <= j < |last| && last[j].0 == v;
          assert all[|init| + j].0 == v;
        }
      }
    }
  }

  lemma SingletonOk(x: Item, dist: nat)
    ensures GroupOk(Group(x.0, [x]), dist) && First(Group(x.0, [x])) == x.0
  {
    assert Group(x.0, [x]).members[0].0 == x.0;
  }

  lemma SeparatedSnoc(groups: seq<Group>, g: Group, dist: nat)
    requires forall i :: 0 <= i < |groups| ==> First(g) > groups[i].key + dist
    requires Separated(groups, dist)
    ensures Separated(groups + [g], dist)
  {
  }

  /** The next item opens a group of its own when it is too far from the current key. */
  lemma OpensGroup(items: seq<Item>, dist: nat, groups: seq<Group>, x: Item)
    requires Greedy(items, dist, groups) && Ascending(items + [x])
    requires groups != [] ==> x.0 - groups[|groups| - 1].key > dist
    ensures Greedy(items + [x], dist, groups + [Group(x.0, [x])])
  {
    SingletonOk(x, dist);
    FlattenSnoc(groups, Group(x.0, [x]));
    forall i | 0 <= i < |groups| ensures x.0 > groups[i].key + dist {
      if i < |groups| - 1 {
        assert First(groups[|groups| - 1]) > groups[i].key + dist;
        assert GroupOk(groups[|groups| - 1], dist);
      }
    }
    SeparatedSnoc(groups, Group(x.0, [x]), dist);
  }

  lemma JoinedGroupOk(g: Group, dist: nat, x: Item)
    requires GroupOk(g, dist) && x.0 - g.key <= dist
    requires forall j :: 0 <= j < |g.members| ==> g.members[j].0 < x.0
    ensures GroupOk(Group(if x.0 - First(g) <= dist then x.0 else g.key, g.members + [x]), dist)
  {
    var h := Group(if x.0 - First(g) <= dist then x.0 else g.key, g.members + [x]);
    assert First(h) == First(g);
    assert h.members[|g.members|].0 == x.0;
    if h.key == g.key {
      var j :| 0 <= j < |g.members| && g.members[j].0 == g.key;
      assert h.members[j].0 == g.key;
    }
  }

  /** Otherwise it joins the current group, whose key moves to it while it can. */
  lemma JoinsGroup(items: seq<Item>, dist: nat, groups: seq<Group>, g: Group, x: Item)
    requires Greedy(items, dist, groups + [g]) && Ascending(items + [x])
    requires x.0 - g.key <= dist
    ensures var key := if x.0 - First(g) <= dist then x.0 else g.key;
            Greedy(items + [x], dist, groups + [Group(key, g.members + [x])])
  {
    var h := Group(if x.0 - First(g) <= dist then x.0 else g.key, g.members + [x]);
    assert (groups + [g])[|groups|] == g && GroupOk(g, dist);
    FlattenSnoc(groups, g);
    FlattenSnoc(groups, h);
    forall j | 0 <= j < |g.members| ensures g.members[j].0 < x.0 {
      assert (items + [x])[|Flatten(groups)| + j] == g.members[j] && (items + [x])[|items|] == x;
    }
    JoinedGroupOk(g, dist, x);
    assert First(h) == First(g);
    forall i | 0 <= i < |groups| ensures First(h) > groups[i].key + dist {
      assert First((groups + [g])[|groups|]) > (groups + [g])[i].key + dist;
    }
    forall i, j | 0 <= i < j < |groups| ensures First(groups[j]) > groups[i].key + dist {
      assert First((groups + [g])[j]) > (groups + [g])[i].key + dist;
    }
    SeparatedSnoc(groups, h, dist);
    forall i | 0 <= i < |groups + [h]| ensures GroupOk((groups + [h])[i], dist) {
      if i < |groups| { assert (groups + [g])[i] == groups[i]; }
    }
  }

  // ---------------------------------------------------------------- the clustering pass

  function Count(items: seq<Item>): nat {
    if items == [] then 0 else Count(items[..|items| - 1]) + items[|items| - 1].1
  }

  function Others(members: seq<Item>, key: int): seq<int> {
    if members == [] then []
    else
      var init := Others(members[..|members| - 1], key);
      var v := members[|members| - 1].0;
      if v != key then init + [v] else init
  }

  /** The closed groups and the open one, if any, are all the groups so far. */
  ghost predicate Open(all: seq<Group>, groups: seq<Group>, group: seq<Item>, key: Option<int>) {
    if group == [] then key.None? && all == groups == [] else key.Some? && all == groups + [Group(key.value, group)]
  }

  /** One turn of the pass: a new group when the item is too far from the current key. */
  method AddItem(groups0: seq<Group>, group0: seq<Item>, key0: Option<int>, x: Item, dist: nat,
                 ghost items: seq<Item>, ghost all0: seq<Group>)
    returns (groups: seq<Group>, group: seq<Item>, key: Option<int>, ghost all: seq<Group>)
    requires Greedy(items, dist, all0) && Ascending(items + [x]) && Open(all0, groups0, group0, key0)
    ensures Greedy(items + [x], dist, all) && Open(all, groups, group, key) && group != []
  {
    groups, group, key := groups0, group0, key0;
    if group != [] && x.0 - key.value > dist {
      groups := groups + [Group(key.value, group)];
      group, key := [], None;
    }
    if group == [] {
      OpensGroup(items, dist, all0, x);
      assert group + [x] == [x];
      all := groups + [Group(x.0, [x])];
    } else {
      JoinsGroup(items, dist, groups, Group(key.value, group), x);
      ghost var k := if x.0 - group[0].0 <= dist then x.0 else key.value;
      all := groups + [Group(k, group + [x])];
    }
    assert (group + [x])[0] == if group == [] then x else group[0];
    group := group + [x];
    if key.None? || x.0 - group[0].0 <= dist {
      key := Some(x.0);
    }
  }

  /** The one pass over the items in ascending order. */
  method GroupItems(items: seq<Item>, dist: nat) returns (groups: seq<Group>)
    requires Ascending(items)
    ensures Greedy(items, dist, groups)
  {
    var group: seq<Item>, key: Option<int> := [], None;
    groups := [];
    ghost var all: seq<Group> := [];
    for i := 0 to |items|
      invariant Greedy(items[..i], dist, all) && Open(all, groups, group, key)
    {
      assert items[..i + 1] == items[..i] + [items[i]];
      groups, group, key, all := AddItem(groups, group, key, items[i], dist, items[..i], all);
    }
    assert items[..|items|] == items;
    if group != [] {
      groups := groups + [Group(key.value, group)];
    }
  }

  ghost predicate DistinctKeys(counts: seq<Item>) {
    forall i, j :: 0 <= i < j < |counts| ==> counts[i].0 != counts[j].0
  }

  /** The pairs of a dictionary, in ascending order of their keys. */
  ghost predicate ItemsOf(items: seq<Item>, counts: seq<Item>) {
    && Ascending(items)
    && forall x :: x in items <==> x in counts
  }

  /** Puts a pair with a new key in its place. */
  method Insert(items: seq<Item>, x: Item) returns (more: seq<Item>)
    requires Ascending(items) && !Has(items, x.0)
    ensures Ascending(more) && forall y :: y in more <==> y in items || y == x
  {
    var k := 0;
    while k < |items| && items[k].0 < x.0
      invariant k <= |items|
      invariant forall j :: 0 <= j < k ==> items[j].0 < x.0
    {
      k := k + 1;
    }
    more := items[..k] + [x] + items[k..];
    assert forall y :: y in items <==> y in items[..k] || y in items[k..];
  }

  /** The pairs of a dictionary sorted by key. */
  method Sorted(counts: seq<Item>) returns (items: seq<Item>)
    requires DistinctKeys(counts)
    ensures ItemsOf(items, counts)
  {
    items := [];
    for i := 0 to |counts|
      invariant ItemsOf(items, counts[..i])
    {
      assert forall j :: 0 <= j < |items| ==> items[j] in counts[..i];
      items := Insert(items, counts[i]);
      assert counts[..i + 1] == counts[..i] + [counts[i]];
    }
    assert counts[..|counts|] == counts;
  }

  lemma {:induction false} CountFlatten(groups: seq<Group>, result: seq<Item>)
    requires |result| == |groups|
    requires forall i :: 0 <= i < |groups| ==> result[i].1 == Count(groups[i].members)
    ensures Count(result) == Count(Flatten(groups))
  {
    if groups != [] {
      var n := |groups| - 1;
      CountFlatten(groups[..n], result[..n]);
      CountAppend(Flatten(groups[..n]), groups[n].members);
    }
  }

  lemma {:induction false} CountAppend(a: seq<Item>, b: seq<Item>)
    ensures Count(a + b) == Count(a) + Count(b)
  {
    if b == [] {
      assert a + b == a;
    } else {
      assert (a + b)[..|a + b| - 1] == a + b[..|b| - 1];
      CountAppend(a, b[..|b| - 1]);
    }
  }

  /** `items` are the pairs of the dictionary in order and `groups` their clustering; `result`
      holds each key with the count of its group and `replacements` each key with the other
      values of its group. */
  ghost predicate ClusteredBy(items: seq<Item>, groups: seq<Group>, channels: seq<Item>, dist: nat,
                              result: seq<Item>, replacements: seq<(int, seq<int>)>) {
    && ItemsOf(items, channels) && Greedy(items, dist, groups)
    && Replaces(replacements, groups)
    && |result| == |groups|
    && (forall i :: 0 <= i < |groups| ==> result[i] == (groups[i].key, Count(groups[i].members)))
    && Count(result) == Count(items)
  }

  ghost predicate Clustered(channels: seq<Item>, dist: nat, result: seq<Item>, replacements: seq<(int, seq<int>)>) {
    exists items, groups :: ClusteredBy(items, groups, channels, dist, result, replacements)
  }

  /** Clusters a dictionary of counts. No count is lost. */
  method CombineChannelsCore(channels: seq<Item>, dist: nat)
    returns (result: seq<Item>, replacements: seq<(int, seq<int>)>)
    requires DistinctKeys(channels)
    ensures Clustered(channels, dist, result, replacements)
  {
    var items := Sorted(channels);
    var groups := GroupItems(items, dist);
    result, replacements := [], [];
    for i := 0 to |groups|
      invariant |result| == |replacements| == i
      invariant forall j :: 0 <= j < i ==> result[j] == (groups[j].key, Count(groups[j].members))
      invariant forall j :: 0 <= j < i ==> replacements[j] == (groups[j].key, Others(groups[j].members, groups[j].key))
    {
      result := result + [(groups[i].key, Count(groups[i].members))];
      replacements := replacements + [(groups[i].key, Others(groups[i].members, groups[i].key))];
    }
    CountFlatten(groups, result);
    assert ClusteredBy(items, groups, channels, dist, result, replacements);
  }

  // ---------------------------------------------------------------- optimality

  /** Values of different groups are ordered as their groups are. */
  lemma GroupsOrdered(items: seq<Item>, dist: nat, groups: seq<Group>, i: nat, j: nat, v: int, w: int)
    requires Greedy(items, dist, groups) && i < j < |groups|
    requires Has(groups[i].members, v) && Has(groups[j].members, w)
    ensures v <= groups[i].key + dist < First(groups[j]) <= w
  {
    var k :| 0 <= k < |groups[i].members| && groups[i].members[k].0 == v;
    var l :| 0 <= l < |groups[j].members| && groups[j].members[l].0 == w;
  }

  ghost predicate Near(v: int, c: int, dist: nat) { c - dist <= v <= c + dist }

  ghost predicate Covered(v: int, centres: set<int>, dist: nat) {
    exists c :: c in centres && Near(v, c, dist)
  }

  /** The centres are values in use, and every value in use is near one of them. */
  ghost predicate Covers(centres: set<int>, items: seq<Item>, dist: nat) {
    (forall c :: c in centres ==> Has(items, c)) && (forall v :: Has(items, v) ==> Covered(v, centres, dist))
  }

  /** No value covers the first members of two groups. */
  lemma CoversOneFirst(items: seq<Item>, dist: nat, groups: seq<Group>, i: nat, j: nat, c: int)
    requires Greedy(items, dist, groups) && i < j < |groups| && Has(items, c)
    requires Near(First(groups[i]), c, dist)
    ensures !Near(First(groups[j]), c, dist)
  {
    FlattenHas(groups, c);
    var k :| 0 <= k < |groups| && Has(groups[k].members, c);
    assert groups[i].members[0].0 == First(groups[i]) && Has(groups[i].members, First(groups[i]));
    if k < i {
      GroupsOrdered(items, dist, groups, k, i, c, First(groups[i]));
    } else if k == i {
      var l :| 0 <= l < |groups[i].members| && groups[i].members[l].0 == c;
    }
  }

  lemma FirstIsItem(items: seq<Item>, dist: nat, groups: seq<Group>, i: nat)
    requires Greedy(items, dist, groups) && i < |groups|
    ensures Has(items, First(groups[i]))
  {
    assert groups[i].members[0].0 == First(groups[i]);
    assert Has(groups[i].members, First(groups[i]));
    FlattenHas(groups, First(groups[i]));
  }

  ghost predicate CoversFirst(groups: seq<Group>, n: nat, c: int, dist: nat) {
    exists i :: 0 <= i < |groups| && i < n && Near(First(groups[i]), c, dist)
  }

  /** The first n groups need n different centres. */
  lemma {:induction false} DistinctCentres(items: seq<Item>, dist: nat, groups: seq<Group>, centres: set<int>, n: nat)
    returns (used: set<int>)
    requires Greedy(items, dist, groups) && n <= |groups| && Covers(centres, items, dist)
    ensures used <= centres && |used| == n
    ensures forall c :: c in used ==> CoversFirst(groups, n, c, dist)
  {
    if n == 0 {
      used := {};
    } else {
      var before := DistinctCentres(items, dist, groups, centres, n - 1);
      var c := FreshCentre(items, dist, groups, centres, n - 1, before);
      used := before + {c};
      forall d | d in used ensures CoversFirst(groups, n, d, dist) {
        if d in before {
          var i :| 0 <= i < |groups| && i < n - 1 && Near(First(groups[i]), d, dist);
        }
      }
    }
  }

  /** The next group needs a centre that none of the groups before it uses. */
  lemma FreshCentre(items: seq<Item>, dist: nat, groups: seq<Group>, centres: set<int>, n: nat, before: set<int>)
    returns (c: int)
    requires Greedy(items, dist, groups) && n < |groups| && Covers(centres, items, dist)
    requires forall d :: d in before ==> CoversFirst(groups, n, d, dist)
    ensures c in centres && c !in before && Near(First(groups[n]), c, dist)
  {
    var first := First(groups[n]);
    FirstIsItem(items, dist, groups, n);
    assert Covered(first, centres, dist);
    c :| c in centres && Near(first, c, dist);
    if c in before {
      var i :| 0 <= i < |groups| && i < n && Near(First(groups[i]), c, dist);
      CoversOneFirst(items, dist, groups, i, n, c);
    }
  }

  lemma {:induction false} SubsetSize(a: set<int>, b: set<int>)
    requires a <= b
    ensures |a| <= |b|
  {
    assert b == a + (b - a);
  }

  /** No choice of values in use that has every value within `dist` of a chosen one is
      smaller than the set of keys. */
  lemma GreedyIsOptimal(items: seq<Item>, dist: nat, groups: seq<Group>, centres: set<int>)
    requires Greedy(items, dist, groups)
    requires Covers(centres, items, dist)
    ensures |groups| <= |centres|
  {
    var used := DistinctCentres(items, dist, groups, centres, |groups|);
    SubsetSize(used, centres);
  }

  // ---------------------------------------------------------------- recolouring

  /** `w` is the key of the group of `v`. */
  ghost predicate Sends(groups: seq<Group>, v: int, w: int) {
    exists i :: 0 <= i < |groups| && Has(groups[i].members, v) && w == groups[i].key
  }

  ghost predicate RecolouredBy(items: seq<Item>, groups: seq<Group>, was: seq<int>, now: seq<int>, dist: nat) {
    && Greedy(items, dist, groups)
    && (forall v :: Has(items, v) <==> v in was)
    && |now| == |was|
    && forall p :: 0 <= p < |was| ==> Sends(groups, was[p], now[p])
  }

  function Colours(pixels: seq<int>): set<int> { set v | v in pixels }

  /** Every pixel takes the key of the group of its old value. */
  ghost predicate Recoloured(was: seq<int>, now: seq<int>, dist: nat) {
    exists items, groups :: RecolouredBy(items, groups, was, now, dist)
  }

  lemma OthersAre(members: seq<Item>, key: int, v: int)
    ensures v in Others(members, key) <==> v != key && Has(members, v)
  {
    if members != [] {
      var n := |members| - 1;
      OthersAre(members[..n], key, v);
      if Has(members, v) && members[n].0 != v {
        var j :| 0 <= j < |members| && members[j].0 == v;
        assert members[..n][j].0 == v;
      }
      if j :| 0 <= j < n && members[..n][j].0 == v {
        assert members[j].0 == v;
      }
    }
  }

  /** A dictionary with exactly the values of the list, each with its number of occurrences. */
  ghost predicate Counted(counts: seq<Item>, pixels: seq<int>) {
    && DistinctKeys(counts)
    && (forall v :: Has(counts, v) <==> v in pixels)
    && (forall j :: 0 <= j < |counts| ==> counts[j].1 == multiset(pixels)[counts[j].0])
  }

  ghost predicate Replaces(replacements: seq<(int, seq<int>)>, groups: seq<Group>) {
    && |replacements| == |groups|
    && forall k :: 0 <= k < |groups| ==> replacements[k] == (groups[k].key, Others(groups[k].members, groups[k].key))
  }

  /** `home` is the one group that has `v`. */
  ghost predicate HomeOf(groups: seq<Group>, home: nat, v: int) {
    home < |groups| && Has(groups[home].members, v)
    && forall k :: 0 <= k < |groups| && Has(groups[k].members, v) ==> k == home
  }

  lemma HasHome(items: seq<Item>, dist: nat, groups: seq<Group>, v: int) returns (home: nat)
    requires Greedy(items, dist, groups) && Has(items, v)
    ensures HomeOf(groups, home, v)
  {
    FlattenHas(groups, v);
    home :| 0 <= home < |groups| && Has(groups[home].members, v);
    forall k | 0 <= k < |groups| && Has(groups[k].members, v) ensures k == home {
      if k < home { GroupsOrdered(items, dist, groups, k, home, v, v); }
      if home < k { GroupsOrdered(items, dist, groups, home, k, v, v); }
    }
  }

  /** The clustering behind the replacements for a counted pixel list. */
  lemma ClustersOf(pixels: seq<int>, counts: seq<Item>, dist: nat, result: seq<Item>,
                   replacements: seq<(int, seq<int>)>)
    returns (items: seq<Item>, groups: seq<Group>)
    requires Counted(counts, pixels) && Clustered(counts, dist, result, replacements)
    ensures Greedy(items, dist, groups) && Replaces(replacements, groups)
    ensures forall v :: Has(items, v) <==> v in pixels
    ensures Count(result) == |pixels|
  {
    items, groups :| ClusteredBy(items, groups, counts, dist, result, replacements);
    ItemsArePixels(items, counts, pixels);
    CountsAddUp(pixels, counts, items, result);
  }

  /** The count of a pixel list, then its recolouring in place. */
  method CombineChannels(lst: array<int>, maxDist: nat)
    modifies lst
    ensures Recoloured(old(lst[..]), lst[..], maxDist)
  {
    ghost var was := lst[..];
    var counts := CountPixels(lst);
    var result, replacements := CombineChannelsCore(counts, maxDist);
    ghost var items, groups := ClustersOf(was, counts, maxDist, result, replacements);
    assert Count(result) == lst.Length;
    RecolourAll(lst, maxDist, replacements, items, groups);
    assert RecolouredBy(items, groups, was, lst[..], maxDist);
  }

  /** The loop over the pixels. */
  method RecolourAll(lst: array<int>, maxDist: nat, replacements: seq<(int, seq<int>)>, ghost items: seq<Item>,
                     ghost groups: seq<Group>)
    requires Greedy(items, maxDist, groups) && Replaces(replacements, groups)
    requires forall p :: 0 <= p < lst.Length ==> Has(items, lst[p])
    modifies lst
    ensures forall p :: 0 <= p < lst.Length ==> Sends(groups, old(lst[p]), lst[p])
  {
    for i := 0 to lst.Length
      invariant forall p :: 0 <= p < i ==> Sends(groups, old(lst[p]), lst[p])
      invariant forall p :: i <= p < lst.Length ==> lst[p] == old(lst[p])
    {
      ghost var home := HasHome(items, maxDist, groups, lst[i]);
      RecolourPixel(lst, i, replacements, groups, home);
    }
  }

  lemma ItemsArePixels(items: seq<Item>, counts: seq<Item>, pixels: seq<int>)
    requires ItemsOf(items, counts) && Counted(counts, pixels)
    ensures forall v :: Has(items, v) <==> v in pixels
  {
    forall v ensures Has(items, v) <==> Has(counts, v) {
      if Has(items, v) {
        var j :| 0 <= j < |items| && items[j].0 == v;
        assert items[j] in counts;
      }
      if Has(counts, v) {
        var j :| 0 <= j < |counts| && counts[j].0 == v;
        assert counts[j] in items;
      }
    }
  }

  method CountPixels(lst: array<int>) returns (counts: seq<Item>)
    ensures Counted(counts, lst[..])
  {
    counts := [];
    for i := 0 to lst.Length
      invariant Counted(counts, lst[..i])
    {
      assert lst[..i + 1] == lst[..i] + [lst[i]];
      counts := CountOne(counts, lst[i], lst[..i]);
    }
    assert lst[..lst.Length] == lst[..];
  }

  /** Adds one to the count of `el`, which starts at 0 when it is new. */
  method CountOne(counts: seq<Item>, el: int, ghost pixels: seq<int>) returns (more: seq<Item>)
    requires Counted(counts, pixels)
    ensures Counted(more, pixels + [el])
  {
    var k := 0;
    while k < |counts| && counts[k].0 != el
      invariant k <= |counts| && forall j :: 0 <= j < k ==> counts[j].0 != el
    {
      k := k + 1;
    }
    more := if k < |counts| then counts[k := (el, counts[k].1 + 1)] else counts + [(el, 1)];
    forall v ensures Has(more, v) <==> Has(counts, v) || v == el {
      if j :| 0 <= j < |counts| && counts[j].0 == v { assert more[j].0 == v; }
      if v == el { assert more[k].0 == v; }
    }
    if k == |counts| { assert !Has(counts, el); }
  }

  /** The scan of all replacements for one pixel. */
  method RecolourPixel(lst: array<int>, i: nat, replacements: seq<(int, seq<int>)>, ghost groups: seq<Group>,
                       ghost home: nat)
    requires i < lst.Length && Replaces(replacements, groups) && HomeOf(groups, home, lst[i])
    modifies lst
    ensures Sends(groups, old(lst[i]), lst[i])
    ensures forall p :: 0 <= p < lst.Length && p != i ==> lst[p] == old(lst[p])
  {
    var el := lst[i];
    for k := 0 to |replacements|
      invariant lst[i] == if home < k then groups[home].key else el
      invariant forall p :: 0 <= p < lst.Length && p != i ==> lst[p] == old(lst[p])
    {
      OthersAre(groups[k].members, groups[k].key, el);
      if el in replacements[k].1 {
        lst[i] := replacements[k].0;
      }
    }
  }

  // ---------------------------------------------------------------- laws of the recolouring

  lemma SendsFacts(items: seq<Item>, dist: nat, groups: seq<Group>, v: int, w: int)
    requires Greedy(items, dist, groups) && Sends(groups, v, w)
    ensures Near(v, w, dist) && Has(items, w)
  {
    var i :| 0 <= i < |groups| && Has(groups[i].members, v) && w == groups[i].key;
    var k :| 0 <= k < |groups[i].members| && groups[i].members[k].0 == v;
    assert GroupOk(groups[i], dist);
    FlattenHas(groups, w);
  }

  lemma SendsOrdered(items: seq<Item>, dist: nat, groups: seq<Group>, v: int, w: int, v': int, w': int)
    requires Greedy(items, dist, groups) && Sends(groups, v, w) && Sends(groups, v', w') && v <= v'
    ensures w == w' || w + dist < w'
  {
    var i :| 0 <= i < |groups| && Has(groups[i].members, v) && w == groups[i].key;
    var j :| 0 <= j < |groups| && Has(groups[j].members, v') && w' == groups[j].key;
    if i < j {
      assert Has(groups[j].members, w');
      GroupsOrdered(items, dist, groups, i, j, v, w');
    } else if j < i {
      GroupsOrdered(items, dist, groups, j, i, v', v);
    }
  }

  lemma PixelLaw(was: seq<int>, now: seq<int>, dist: nat, p: nat)
    requires Recoloured(was, now, dist) && p < |was|
    ensures |now| == |was| && Near(was[p], now[p], dist) && now[p] in was
  {
    var items, groups :| RecolouredBy(items, groups, was, now, dist);
    SendsFacts(items, dist, groups, was[p], now[p]);
  }

  lemma PairLaw(was: seq<int>, now: seq<int>, dist: nat, p: nat, q: nat)
    requires Recoloured(was, now, dist) && p < |was| == |now| && q < |was| && was[p] <= was[q]
    ensures now[p] == now[q] || now[p] + dist < now[q]
  {
    var items, groups :| RecolouredBy(items, groups, was, now, dist);
    SendsOrdered(items, dist, groups, was[p], now[p], was[q], now[q]);
  }

  /** Recolouring moves no pixel by more than the distance, keeps the order of the pixels, and
      leaves colours that are equal or further apart than the distance. */
  lemma RecolouringLaws(was: seq<int>, now: seq<int>, dist: nat)
    requires Recoloured(was, now, dist)
    ensures |now| == |was|
    ensures forall p :: 0 <= p < |was| ==> Near(was[p], now[p], dist) && now[p] in was
    ensures forall p, q :: 0 <= p < |was| && 0 <= q < |was| && was[p] <= was[q] ==>
            now[p] == now[q] || now[p] + dist < now[q]
  {
    forall p: nat | p < |was| ensures Near(was[p], now[p], dist) && now[p] in was {
      PixelLaw(was, now, dist, p);
    }
    forall p: nat, q: nat | p < |was| && q < |was| && was[p] <= was[q]
      ensures now[p] == now[q] || now[p] + dist < now[q]
    {
      PairLaw(was, now, dist, p, q);
    }
  }

  /** A second recolouring changes nothing. */
  lemma RecolouringIsIdempotent(was: seq<int>, now: seq<int>, again: seq<int>, dist: nat)
    requires Recoloured(was, now, dist) && Recoloured(now, again, dist)
    ensures again == now
  {
    assert |again| == |now| == |was|;
    forall p: nat | p < |now| ensures again[p] == now[p] {
      PixelLaw(now, again, dist, p);
      var q: nat :| q < |now| && now[q] == again[p];
      if was[p] <= was[q] {
        PairLaw(was, now, dist, p, q);
      } else {
        PairLaw(was, now, dist, q, p);
      }
    }
  }

  lemma KeysAreColours(groups: seq<Group>, was: seq<int>, now: seq<int>)
    requires |now| == |was| && forall p :: 0 <= p < |was| ==> Sends(groups, was[p], now[p])
    ensures |Colours(now)| <= |groups|
  {
    var keys, colours := Keys(groups), Colours(now);
    forall v | v in colours ensures v in keys {
      var p :| 0 <= p < |now| && now[p] == v;
      assert Sends(groups, was[p], now[p]);
    }
    SubsetSize(colours, keys);
  }

  /** No recolouring that moves pixels by at most the distance, to values in use, has fewer
      colours. */
  lemma RecolouringIsMinimal(was: seq<int>, now: seq<int>, other: seq<int>, dist: nat)
    requires Recoloured(was, now, dist)
    requires |other| == |was| && forall p :: 0 <= p < |was| ==> other[p] in was && Near(was[p], other[p], dist)
    ensures |Colours(now)| <= |Colours(other)|
  {
    var items, groups :| RecolouredBy(items, groups, was, now, dist);
    var centres := Colours(other);
    OtherCovers(items, was, other, dist);
    GreedyIsOptimal(items, dist, groups, centres);
    KeysAreColours(groups, was, now);
  }

  lemma OtherCovers(items: seq<Item>, was: seq<int>, other: seq<int>, dist: nat)
    requires forall v :: Has(items, v) <==> v in was
    requires |other| == |was| && forall p :: 0 <= p < |was| ==> other[p] in was && Near(was[p], other[p], dist)
    ensures Covers(Colours(other), items, dist)
  {
    forall v | Has(items, v) ensures Covered(v, Colours(other), dist) {
      ColourNear(was, other, dist, v);
    }
  }

  lemma ColourNear(was: seq<int>, other: seq<int>, dist: nat, v: int)
    requires |other| == |was| && forall p :: 0 <= p < |was| ==> Near(was[p], other[p], dist)
    requires v in was
    ensures Covered(v, Colours(other), dist)
  {
    var p :| 0 <= p < |was| && was[p] == v;
    assert other[p] in Colours(other);
  }

  ghost function Keys(groups: seq<Group>): (keys: set<int>)
    ensures |keys| <= |groups|
    ensures forall i :: 0 <= i < |groups| ==> groups[i].key in keys
  {
    if groups == [] then {} else Keys(groups[..|groups| - 1]) + {groups[|groups| - 1].key}
  }

  // ---------------------------------------------------------------- conservation of counts

  lemma {:induction false} CountIsSize(items: seq<Item>, bag: multiset<int>)
    requires Ascending(items)
    requires forall j :: 0 <= j < |items| ==> items[j].1 == bag[items[j].0]
    requires forall v :: v in bag ==> Has(items, v)
    ensures Count(items) == |bag|
  {
    if items == [] {
      assert forall v :: !Has(items, v);
      assert forall v :: v !in bag;
      assert bag == multiset{};
    } else {
      var n := |items| - 1;
      var x := items[n].0;
      var rest := bag[x := 0];
      forall v | v in rest ensures Has(items[..n], v) {
        var j :| 0 <= j < |items| && items[j].0 == v;
        assert items[..n][j].0 == v;
      }
      CountIsSize(items[..n], rest);
    }
  }

  /** The counts that the clustering reports for a pixel list add up to its length. */
  lemma CountsAddUp(pixels: seq<int>, counts: seq<Item>, items: seq<Item>, result: seq<Item>)
    requires Counted(counts, pixels) && ItemsOf(items, counts) && Count(result) == Count(items)
    ensures Count(result) == |pixels|
  {
    ItemsArePixels(items, counts, pixels);
    forall j | 0 <= j < |items| ensures items[j].1 == multiset(pixels)[items[j].0] {
      assert items[j] in counts;
    }
    CountIsSize(items, multiset(pixels));
  }
}
