/**
 * The state the colour assigner keeps while it walks the tuples, stated on
 * values, and how each step of the walk preserves it.
 *
 * Colour groups are numbered; `owner[i]` is the group of tuple `i`,
 * `members[g]` lists the tuples of group `g` in the order they joined it
 * (`ColorGroup.Group`), `groupOf` maps every colour key seen so far to a
 * group (`colorGroupMap`), and `groupColor[g]` is the colour of group `g`
 * (`ColorGroup.Color`).  `ks` holds the key sets of the tuples walked so far.
 */
module Grouping {
  import opened Linking

  /** No colour appears twice. */
  predicate NoDup(s: seq<string>)
  {
    forall i, j :: 0 <= i < j < |s| ==> s[i] != s[j]
  }

  /** Every tuple is listed in its own group, and only there. */
  ghost predicate Partitioned(n: nat, owner: seq<nat>, members: seq<seq<nat>>)
  {
    && |owner| == n
    && (forall i :: 0 <= i < n ==> owner[i] < |members| && i in members[owner[i]])
    && (forall g, t :: 0 <= g < |members| && 0 <= t < |members[g]| ==> members[g][t] < n && owner[members[g][t]] == g)
  }

  /** The map knows exactly the keys seen so far, each mapped to the group of every tuple that has it. */
  ghost predicate KeysMapped(ks: seq<set<string>>, owner: seq<nat>, groupOf: map<string, nat>)
    requires |owner| == |ks|
  {
    && groupOf.Keys == AllKeys(ks)
    && (forall i, key :: 0 <= i < |ks| && key in ks[i] ==> key in groupOf && groupOf[key] == owner[i])
  }

  /** Tuples of one group are connected. */
  ghost predicate GroupsConnected(ks: seq<set<string>>, owner: seq<nat>)
    requires |owner| == |ks|
  {
    forall i, j :: 0 <= i < |ks| && 0 <= j < |ks| && owner[i] == owner[j] ==> Connected(ks, i, j)
  }

  /** The grouping after the tuples whose key sets are `ks`. */
  ghost predicate Grouped(ks: seq<set<string>>, owner: seq<nat>, groupOf: map<string, nat>, members: seq<seq<nat>>)
  {
    && Partitioned(|ks|, owner, members)
    && KeysMapped(ks, owner, groupOf)
    && GroupsConnected(ks, owner)
  }

  /** Each tuple shows its group's colour. */
  ghost predicate Painted(owner: seq<nat>, groupColor: seq<string>, colors: seq<string>)
  {
    && |colors| == |owner|
    && forall i :: 0 <= i < |owner| ==> owner[i] < |groupColor| && colors[i] == groupColor[owner[i]]
  }

  /** The colours of the groups in use and the palette never share a colour, nor repeat one. */
  ghost predicate Distinct(owner: seq<nat>, groupColor: seq<string>, palette: seq<string>)
    requires forall g :: g in Owners(owner) ==> g < |groupColor|
  {
    && NoDup(palette)
    && (forall g :: g in Owners(owner) ==> groupColor[g] !in palette)
    && (forall g, h :: g in Owners(owner) && h in Owners(owner) && groupColor[g] == groupColor[h] ==> g == h)
  }

  /**
   * Every colour of the starting palette `p0` is either still in the
   * palette or held by one group in use.
   */
  ghost predicate Accounted(owner: seq<nat>, groupColor: seq<string>, palette: seq<string>, p0: seq<string>)
  {
    && (forall g :: g in Owners(owner) ==> g < |groupColor|)
    && |palette| + |Owners(owner)| == |p0|
    && (forall c :: c in palette ==> c in p0)
    && (forall g :: g in Owners(owner) ==> groupColor[g] in p0)
    && (NoDup(p0) ==> Distinct(owner, groupColor, palette))
  }

  /** Moves every tuple of group `from` to group `to`. */
  function Relabel(owner: seq<nat>, from: nat, to: nat): (r: seq<nat>)
    ensures |r| == |owner|
    ensures forall i :: 0 <= i < |owner| ==> r[i] == if owner[i] == from then to else owner[i]
  {
    seq(|owner|, i requires 0 <= i < |owner| => if owner[i] == from then to else owner[i])
  }

  /** The map with `keys` (added if missing) sent to group `g`. */
  function Retarget(m: map<string, nat>, keys: set<string>, g: nat): (r: map<string, nat>)
    ensures r.Keys == m.Keys + keys
    ensures forall key :: key in r ==> r[key] == if key in keys then g else m[key]
  {
    map key | key in m.Keys + keys :: if key in keys then g else m[key]
  }

  /** Sending one more key to `g` is retargeting one more key. */
  lemma RetargetAdd(m: map<string, nat>, keys: set<string>, g: nat, key: string)
    ensures Retarget(m, keys, g)[key := g] == Retarget(m, keys + {key}, g)
  {
  }

  /** The keys of the tuples listed in `xs`. */
  function MemberKeys(ks: seq<set<string>>, xs: seq<nat>): set<string>
    requires forall t :: 0 <= t < |xs| ==> xs[t] < |ks|
  {
    if xs == [] then {} else MemberKeys(ks, xs[..|xs| - 1]) + ks[xs[|xs| - 1]]
  }

  /** A key belongs to the listed tuples' keys exactly when one of them has it. */
  lemma {:induction false} MemberKeysMember(ks: seq<set<string>>, xs: seq<nat>, key: string)
    requires forall t :: 0 <= t < |xs| ==> xs[t] < |ks|
    ensures key in MemberKeys(ks, xs) <==> exists x :: x in xs && key in ks[x]
  {
    if xs != [] {
      var init := xs[..|xs| - 1];
      MemberKeysMember(ks, init, key);
      assert xs == init + [xs[|xs| - 1]];
    }
  }

  /** Only the key sets of the listed tuples matter. */
  lemma {:induction false} MemberKeysPrefix(ks: seq<set<string>>, n: nat, xs: seq<nat>)
    requires n <= |ks|
    requires forall t :: 0 <= t < |xs| ==> xs[t] < n
    ensures MemberKeys(ks, xs) == MemberKeys(ks[..n], xs)
  {
    if xs != [] {
      MemberKeysPrefix(ks, n, xs[..|xs| - 1]);
      assert ks[..n][xs[|xs| - 1]] == ks[xs[|xs| - 1]];
    }
  }

  /** One more listed tuple adds its keys. */
  lemma MemberKeysAppend(ks: seq<set<string>>, xs: seq<nat>, x: nat)
    requires forall t :: 0 <= t < |xs| ==> xs[t] < |ks|
    requires x < |ks|
    ensures MemberKeys(ks, xs + [x]) == MemberKeys(ks, xs) + ks[x]
  {
    assert (xs + [x])[..|xs|] == xs;
  }

  /** A listed member of group `g` is a walked tuple owned by `g`. */
  lemma MembersOwned(n: nat, owner: seq<nat>, members: seq<seq<nat>>, g: nat)
    requires Partitioned(n, owner, members)
    requires g < |members|
    ensures forall x :: x in members[g] ==> x < n && owner[x] == g
  {
    forall x | x in members[g]
      ensures x < n && owner[x] == g
    {
      var t :| 0 <= t < |members[g]| && members[g][t] == x;
    }
  }

  lemma OwnersAppend(owner: seq<nat>, g: nat)
    ensures Owners(owner + [g]) == Owners(owner) + {g}
  {
    var o2 := owner + [g];
    forall h | h in Owners(owner)
      ensures h in Owners(o2)
    {
      var i :| 0 <= i < |owner| && owner[i] == h;
      assert o2[i] == h;
    }
    assert o2[|owner|] == g;
  }

  /** Moving group `from` into group `to`, both in use, retires `from`. */
  lemma OwnersRelabel(owner: seq<nat>, from: nat, to: nat)
    requires from in Owners(owner) && to in Owners(owner) && from != to
    ensures Owners(Relabel(owner, from, to)) == Owners(owner) - {from}
  {
    var o2 := Relabel(owner, from, to);
    forall h | h in Owners(owner) - {from}
      ensures h in Owners(o2)
    {
      var i :| 0 <= i < |owner| && owner[i] == h;
      assert o2[i] == h;
    }
  }

  /** The group a known key maps to is in use. */
  lemma GroupOfInUse(ks: seq<set<string>>, owner: seq<nat>, groupOf: map<string, nat>, members: seq<seq<nat>>, key: string)
    requires Grouped(ks, owner, groupOf, members)
    requires key in groupOf
    ensures groupOf[key] in Owners(owner) && groupOf[key] < |members|
  {
    AllKeysMember(ks, key);
    var i :| 0 <= i < |ks| && key in ks[i];
    assert groupOf[key] == owner[i];
  }

  /** In a grouping, two tuples share a group exactly when they are connected. */
  lemma GroupedExact(ks: seq<set<string>>, owner: seq<nat>, groupOf: map<string, nat>, members: seq<seq<nat>>)
    requires Grouped(ks, owner, groupOf, members)
    ensures forall i, j :: 0 <= i < |ks| && 0 <= j < |ks| ==> (Connected(ks, i, j) <==> owner[i] == owner[j])
    ensures |Components(ks)| == |Owners(owner)|
  {
    forall i, j | 0 <= i < |ks| && 0 <= j < |ks| && Connected(ks, i, j)
      ensures owner[i] == owner[j]
    {
      ConnectedSameOwner(ks, i, j, owner, groupOf);
    }
    ComponentsCount(ks, owner);
  }

  /** The empty grouping before any tuple. */
  lemma GroupedEmpty()
    ensures Grouped([], [], map[], [])
  {
  }

  /** Tuple `n` joins group `g` at the end of its member list. */
  lemma JoinPartition(n: nat, owner: seq<nat>, members: seq<seq<nat>>, g: nat)
    requires Partitioned(n, owner, members)
    requires g < |members|
    ensures Partitioned(n + 1, owner + [g], members[g := members[g] + [n]])
  {
    var owner2 := owner + [g];
    var members2 := members[g := members[g] + [n]];
    forall h, t | 0 <= h < |members2| && 0 <= t < |members2[h]|
      ensures members2[h][t] < n + 1 && owner2[members2[h][t]] == h
    {
      if h == g {
        assert members2[h] == members[g] + [n];
        if t < |members[g]| {
          assert members2[h][t] == members[g][t];
        }
      } else {
        assert members2[h] == members[h];
      }
    }
  }

  /**
   * A tuple whose left key is known joins that key's group.  The result
   * groups the earlier tuples with only the new tuple's left key: its right
   * key is handled next.
   */
  lemma JoinGroup(ks: seq<set<string>>, left: string, owner: seq<nat>, groupOf: map<string, nat>, members: seq<seq<nat>>)
    requires Grouped(ks, owner, groupOf, members)
    requires left in groupOf
    ensures groupOf[left] in Owners(owner) && groupOf[left] < |members|
    ensures Grouped(ks + [{left}], owner + [groupOf[left]], groupOf,
                    members[groupOf[left] := members[groupOf[left]] + [|ks|]])
  {
    var k := |ks|;
    var g := groupOf[left];
    AllKeysMember(ks, left);
    var i0 :| 0 <= i0 < k && left in ks[i0];
    assert g == owner[i0];
    var ks2 := ks + [{left}];
    var owner2 := owner + [g];
    var members2 := members[g := members[g] + [k]];
    AllKeysAppend(ks, {left});
    JoinPartition(k, owner, members, g);
    assert Partitioned(|ks2|, owner2, members2);
    forall i, key | 0 <= i < |ks2| && key in ks2[i]
      ensures key in groupOf && groupOf[key] == owner2[i]
    {
      if i < k {
        assert ks2[i] == ks[i];
      }
    }
    assert KeysMapped(ks2, owner2, groupOf);
    assert forall t :: 0 <= t < |ks| ==> ks[t] <= ks2[t];
    assert ks2[k] * ks2[i0] != {} by {
      assert left in ks2[k] * ks2[i0];
    }
    ConnectedLink(ks2, k, i0);
    ConnectedLink(ks2, i0, k);
    forall i, j | 0 <= i < |ks2| && 0 <= j < |ks2| && owner2[i] == owner2[j]
      ensures Connected(ks2, i, j)
    {
      if i < k && j < k {
        ConnectedMono(ks, ks2, i, j);
      } else if i < k {
        ConnectedMono(ks, ks2, i, i0);
        ConnectedTrans(ks2, i, i0, k);
      } else if j < k {
        ConnectedMono(ks, ks2, i0, j);
        ConnectedTrans(ks2, k, i0, j);
      } else {
        ConnectedRefl(ks2, k);
      }
    }
  }

  /**
   * A tuple whose left key is new starts group number `|members|`, alone.
   * As in `JoinGroup`, its right key is handled next.
   */
  lemma NewGroup(ks: seq<set<string>>, left: string, owner: seq<nat>, groupOf: map<string, nat>, members: seq<seq<nat>>)
    requires Grouped(ks, owner, groupOf, members)
    requires left !in groupOf
    ensures |members| !in Owners(owner)
    ensures Grouped(ks + [{left}], owner + [|members|], groupOf[left := |members|], members + [[|ks|]])
  {
    var k := |ks|;
    var g := |members|;
    var ks2 := ks + [{left}];
    var owner2 := owner + [g];
    var groupOf2 := groupOf[left := g];
    var members2 := members + [[k]];
    AllKeysAppend(ks, {left});
    forall h, x | 0 <= h < |members2| && x in members2[h]
      ensures x < |ks2| && owner2[x] == h
    {
      if h < g {
        assert members2[h] == members[h];
        assert x in members[h];
      } else {
        assert members2[h] == [k];
      }
    }
    assert Partitioned(|ks2|, owner2, members2);
    forall i, key | 0 <= i < |ks2| && key in ks2[i]
      ensures key in groupOf2 && groupOf2[key] == owner2[i]
    {
      if i < k {
        assert ks2[i] == ks[i];
      }
    }
    assert KeysMapped(ks2, owner2, groupOf2);
    assert forall t :: 0 <= t < |ks| ==> ks[t] <= ks2[t];
    forall i, j | 0 <= i < |ks2| && 0 <= j < |ks2| && owner2[i] == owner2[j]
      ensures Connected(ks2, i, j)
    {
      if i < k && j < k {
        ConnectedMono(ks, ks2, i, j);
      } else {
        assert i == j;
        ConnectedRefl(ks2, i);
      }
    }
  }

  /** A right key not seen before is mapped to the new tuple's group. */
  lemma AddRight(ks: seq<set<string>>, left: string, right: string, owner: seq<nat>, groupOf: map<string, nat>, members: seq<seq<nat>>)
    requires Grouped(ks + [{left}], owner, groupOf, members)
    requires right !in groupOf
    ensures Grouped(ks + [{left, right}], owner, groupOf[right := owner[|ks|]], members)
  {
    var k := |ks|;
    var ksP := ks + [{left}];
    var ksF := ks + [{left, right}];
    var groupOf2 := groupOf[right := owner[k]];
    AllKeysAppend(ks, {left});
    AllKeysAppend(ks, {left, right});
    forall i, key | 0 <= i < |ksF| && key in ksF[i]
      ensures key in groupOf2 && groupOf2[key] == owner[i]
    {
      if i < k {
        assert ksF[i] == ksP[i];
      } else if key == left {
        assert key in ksP[i];
      }
    }
    assert KeysMapped(ksF, owner, groupOf2);
    assert forall t :: 0 <= t < |ksP| ==> ksP[t] <= ksF[t];
    forall i, j | 0 <= i < |ksF| && 0 <= j < |ksF| && owner[i] == owner[j]
      ensures Connected(ksF, i, j)
    {
      ConnectedMono(ksP, ksF, i, j);
    }
  }

  /** A right key already mapped to the new tuple's own group changes nothing. */
  lemma SameGroupRight(ks: seq<set<string>>, left: string, right: string, owner: seq<nat>, groupOf: map<string, nat>, members: seq<seq<nat>>)
    requires Grouped(ks + [{left}], owner, groupOf, members)
    requires right in groupOf && groupOf[right] == owner[|ks|]
    ensures Grouped(ks + [{left, right}], owner, groupOf, members)
  {
    var k := |ks|;
    var ksP := ks + [{left}];
    var ksF := ks + [{left, right}];
    AllKeysAppend(ks, {left});
    AllKeysAppend(ks, {left, right});
    forall i, key | 0 <= i < |ksF| && key in ksF[i]
      ensures key in groupOf && groupOf[key] == owner[i]
    {
      if i < k {
        assert ksF[i] == ksP[i];
      } else if key == left {
        assert key in ksP[i];
      }
    }
    assert KeysMapped(ksF, owner, groupOf);
    assert forall t :: 0 <= t < |ksP| ==> ksP[t] <= ksF[t];
    forall i, j | 0 <= i < |ksF| && 0 <= j < |ksF| && owner[i] == owner[j]
      ensures Connected(ksF, i, j)
    {
      ConnectedMono(ksP, ksF, i, j);
    }
  }

  /** Moving the tuples of group `g1` to the end of group `g2`, emptying `g1`, keeps the partition. */
  lemma MergePartition(n: nat, owner: seq<nat>, members: seq<seq<nat>>, g1: nat, g2: nat)
    requires Partitioned(n, owner, members)
    requires g1 < |members| && g2 < |members| && g1 != g2
    ensures Partitioned(n, Relabel(owner, g1, g2), members[g2 := members[g2] + members[g1]][g1 := []])
  {
    var owner2 := Relabel(owner, g1, g2);
    var joined := members[g2] + members[g1];
    var members2 := members[g2 := joined][g1 := []];
    MembersOwned(n, owner, members, g1);
    MembersOwned(n, owner, members, g2);
    forall i | 0 <= i < n
      ensures owner2[i] < |members2| && i in members2[owner2[i]]
    {
      if owner[i] == g1 {
        assert i in members[g1];
        assert members2[g2] == joined;
      } else if owner[i] == g2 {
        assert i in members[g2];
        assert members2[g2] == joined;
      } else {
        assert members2[owner[i]] == members[owner[i]];
      }
    }
    forall h, t | 0 <= h < |members2| && 0 <= t < |members2[h]|
      ensures members2[h][t] < n && owner2[members2[h][t]] == h
    {
      if h == g2 {
        assert members2[h] == joined;
        if t < |members[g2]| {
          assert joined[t] == members[g2][t];
        } else {
          assert joined[t] == members[g1][t - |members[g2]|];
        }
      } else {
        assert members2[h] == members[h];
      }
    }
  }

  /** A listed tuple's keys are among the listed tuples' keys. */
  lemma MemberKeysHas(ks: seq<set<string>>, xs: seq<nat>, x: nat)
    requires forall t :: 0 <= t < |xs| ==> xs[t] < |ks|
    requires x in xs
    ensures x < |ks| && ks[x] <= MemberKeys(ks, xs)
  {
    forall key | key in ks[x]
      ensures key in MemberKeys(ks, xs)
    {
      MemberKeysMember(ks, xs, key);
    }
  }

  /** The keys of the new tuple's group `g1` are known, and map to `g1` unless it is the right key. */
  lemma MovedKeys(ks: seq<set<string>>, left: string, right: string, owner: seq<nat>, groupOf: map<string, nat>, members: seq<seq<nat>>)
    requires Grouped(ks + [{left}], owner, groupOf, members)
    requires right in groupOf
    ensures forall t :: 0 <= t < |members[owner[|ks|]]| ==> members[owner[|ks|]][t] <= |ks|
    ensures forall key :: key in MemberKeys(ks + [{left, right}], members[owner[|ks|]]) ==>
              key in groupOf && (key == right || groupOf[key] == owner[|ks|])
  {
    var k := |ks|;
    var ksP := ks + [{left}];
    var ksF := ks + [{left, right}];
    var g1 := owner[k];
    MembersOwned(k + 1, owner, members, g1);
    forall key | key in MemberKeys(ksF, members[g1])
      ensures key in groupOf && (key == right || groupOf[key] == g1)
    {
      MemberKeysMember(ksF, members[g1], key);
      var x :| x in members[g1] && key in ksF[x];
      assert key in ksP[x] || key == right;
    }
  }

  /** After a merge, every key of the moved tuples is sent to `g2`, and the other keys stay. */
  lemma MergeKeys(ks: seq<set<string>>, left: string, right: string, owner: seq<nat>, groupOf: map<string, nat>, members: seq<seq<nat>>)
    requires Grouped(ks + [{left}], owner, groupOf, members)
    requires right in groupOf && groupOf[right] != owner[|ks|]
    ensures forall t :: 0 <= t < |members[owner[|ks|]]| ==> members[owner[|ks|]][t] <= |ks|
    ensures KeysMapped(ks + [{left, right}], Relabel(owner, owner[|ks|], groupOf[right]),
                       Retarget(groupOf, MemberKeys(ks + [{left, right}], members[owner[|ks|]]), groupOf[right]))
  {
    var k := |ks|;
    var ksP := ks + [{left}];
    var ksF := ks + [{left, right}];
    var g1 := owner[k];
    var g2 := groupOf[right];
    MovedKeys(ks, left, right, owner, groupOf, members);
    MembersOwned(k + 1, owner, members, g1);
    var S := MemberKeys(ksF, members[g1]);
    var owner2 := Relabel(owner, g1, g2);
    var groupOf2 := Retarget(groupOf, S, g2);
    AllKeysAppend(ks, {left});
    AllKeysAppend(ks, {left, right});
    assert groupOf2.Keys == AllKeys(ksF);
    forall i, key | 0 <= i < k + 1 && key in ksF[i]
      ensures key in groupOf2 && groupOf2[key] == owner2[i]
    {
      if owner[i] == g1 {
        MemberKeysHas(ksF, members[g1], i);
      } else {
        assert ksF[i] == ksP[i];
      }
    }
  }

  /**
   * Tuples `k` (of group `g1`) and `w` (of group `g2`) share a key in `ksF`:
   * once `g1` is moved into `g2`, the tuples of one group are connected.
   */
  lemma MergeConnected(ksP: seq<set<string>>, ksF: seq<set<string>>, owner: seq<nat>, k: nat, w: nat)
    requires |ksP| == |ksF| == |owner| && k < |ksP| && w < |ksP|
    requires forall t :: 0 <= t < |ksP| ==> ksP[t] <= ksF[t]
    requires GroupsConnected(ksP, owner)
    requires ksF[k] * ksF[w] != {}
    ensures GroupsConnected(ksF, Relabel(owner, owner[k], owner[w]))
  {
    var g1 := owner[k];
    var g2 := owner[w];
    var owner2 := Relabel(owner, g1, g2);
    ConnectedLink(ksF, k, w);
    ConnectedLink(ksF, w, k);
    forall i, j | 0 <= i < |ksF| && 0 <= j < |ksF| && owner2[i] == owner2[j]
      ensures Connected(ksF, i, j)
    {
      if owner[i] == owner[j] {
        ConnectedMono(ksP, ksF, i, j);
      } else if owner[i] == g1 {
        ConnectedMono(ksP, ksF, i, k);
        ConnectedMono(ksP, ksF, w, j);
        ConnectedTrans(ksF, i, k, w);
        ConnectedTrans(ksF, i, w, j);
      } else {
        ConnectedMono(ksP, ksF, i, w);
        ConnectedMono(ksP, ksF, k, j);
        ConnectedTrans(ksF, i, w, k);
        ConnectedTrans(ksF, i, k, j);
      }
    }
  }

  /**
   * A right key mapped to another group `g2` merges the new tuple's group
   * `g1` into `g2`: the tuples of `g1` move to `g2` and join the end of its
   * member list, and every key of theirs is sent to `g2`.
   */
  lemma MergeRight(ks: seq<set<string>>, left: string, right: string, owner: seq<nat>, groupOf: map<string, nat>, members: seq<seq<nat>>)
    requires Grouped(ks + [{left}], owner, groupOf, members)
    requires right in groupOf && groupOf[right] != owner[|ks|]
    ensures owner[|ks|] in Owners(owner) && groupOf[right] in Owners(owner) && groupOf[right] < |members|
    ensures forall t :: 0 <= t < |members[owner[|ks|]]| ==> members[owner[|ks|]][t] <= |ks|
    ensures Grouped(ks + [{left, right}], Relabel(owner, owner[|ks|], groupOf[right]),
                    Retarget(groupOf, MemberKeys(ks + [{left, right}], members[owner[|ks|]]), groupOf[right]),
                    members[groupOf[right] := members[groupOf[right]] + members[owner[|ks|]]][owner[|ks|] := []])
  {
    var k := |ks|;
    var ksP := ks + [{left}];
    var ksF := ks + [{left, right}];
    GroupOfInUse(ksP, owner, groupOf, members, right);
    assert owner[k] in Owners(owner);
    MergePartition(k + 1, owner, members, owner[k], groupOf[right]);
    MergeKeys(ks, left, right, owner, groupOf, members);
    AllKeysMember(ksP, right);
    var w :| 0 <= w < k + 1 && right in ksP[w];
    assert owner[w] == groupOf[right];
    assert forall t :: 0 <= t < |ksP| ==> ksP[t] <= ksF[t];
    assert right in ksF[k] * ksF[w];
    MergeConnected(ksP, ksF, owner, k, w);
  }

  /** The empty palette accounting before any tuple: nothing is in use. */
  lemma AccountedStart(palette: seq<string>)
    ensures Accounted([], [], palette, palette)
  {
    assert Owners([]) == {};
  }

  /** A tuple joining a group in use changes no colour. */
  lemma AccountJoin(owner: seq<nat>, groupColor: seq<string>, palette: seq<string>, p0: seq<string>, g: nat)
    requires Accounted(owner, groupColor, palette, p0)
    requires g in Owners(owner)
    ensures Accounted(owner + [g], groupColor, palette, p0)
  {
    OwnersAppend(owner, g);
    assert Owners(owner) + {g} == Owners(owner);
  }

  /** A new group takes the palette's last colour `c`. */
  lemma AccountNew(owner: seq<nat>, groupColor: seq<string>, palette: seq<string>, c: string, p0: seq<string>)
    requires Accounted(owner, groupColor, palette + [c], p0)
    ensures Accounted(owner + [|groupColor|], groupColor + [c], palette, p0)
  {
    var g := |groupColor|;
    var owner2 := owner + [g];
    var gc2 := groupColor + [c];
    OwnersAppend(owner, g);
    assert g !in Owners(owner);
    assert forall x :: x in palette ==> x in palette + [c];
    assert c in palette + [c];
    if NoDup(p0) {
      var old_ := palette + [c];
      assert forall i, j :: 0 <= i < j < |palette| ==> palette[i] == old_[i] && palette[j] == old_[j];
      assert c !in palette by {
        forall i | 0 <= i < |palette|
          ensures palette[i] != c
        {
          assert old_[i] == palette[i] && old_[|palette|] == c;
        }
      }
      assert Distinct(owner2, gc2, palette);
    }
  }

  /** A merge retires group `g1` and gives its colour back to the end of the palette. */
  lemma AccountMerge(owner: seq<nat>, groupColor: seq<string>, palette: seq<string>, p0: seq<string>, g1: nat, g2: nat)
    requires Accounted(owner, groupColor, palette, p0)
    requires g1 in Owners(owner) && g2 in Owners(owner) && g1 != g2
    ensures Accounted(Relabel(owner, g1, g2), groupColor[g1 := ""], palette + [groupColor[g1]], p0)
  {
    var owner2 := Relabel(owner, g1, g2);
    var gc2 := groupColor[g1 := ""];
    var palette2 := palette + [groupColor[g1]];
    OwnersRelabel(owner, g1, g2);
    assert Owners(owner) == Owners(owner2) + {g1};
    assert forall x :: x in palette2 ==> x in palette || x == groupColor[g1];
    if NoDup(p0) {
      forall i, j | 0 <= i < j < |palette2|
        ensures palette2[i] != palette2[j]
      {
        if j < |palette| {
          assert palette2[i] == palette[i] && palette2[j] == palette[j];
        } else {
          assert palette2[i] == palette[i];
        }
      }
      assert Distinct(owner2, gc2, palette2);
    }
  }

  /** A tuple joining group `g` shows `g`'s colour. */
  lemma PaintJoin(owner: seq<nat>, groupColor: seq<string>, colors: seq<string>, g: nat)
    requires Painted(owner, groupColor, colors)
    requires g < |groupColor|
    ensures Painted(owner + [g], groupColor, colors + [groupColor[g]])
  {
  }

  /** A new group with colour `c`, and its first tuple showing it. */
  lemma PaintNew(owner: seq<nat>, groupColor: seq<string>, colors: seq<string>, c: string)
    requires Painted(owner, groupColor, colors)
    ensures Painted(owner + [|groupColor|], groupColor + [c], colors + [c])
  {
  }

  /**
   * A merge of `g1` into `g2` repaints the tuples listed in `g1` with `g2`'s
   * colour and clears `g1`'s colour.
   */
  lemma PaintMerge(owner: seq<nat>, groupColor: seq<string>, colors: seq<string>, colors2: seq<string>, members: seq<seq<nat>>, g1: nat, g2: nat)
    requires Partitioned(|owner|, owner, members)
    requires Painted(owner, groupColor, colors)
    requires g1 < |members| && g1 < |groupColor| && g2 < |groupColor| && g1 != g2
    requires |colors2| == |colors|
    requires forall i :: 0 <= i < |colors| ==> colors2[i] == if i in members[g1] then groupColor[g2] else colors[i]
    ensures Painted(Relabel(owner, g1, g2), groupColor[g1 := ""], colors2)
  {
    MembersOwned(|owner|, owner, members, g1);
    forall i | 0 <= i < |owner| && owner[i] == g1
      ensures i in members[g1]
    {
    }
  }
}
