/**
 * The walk of `AssignColor` over the tuples, stated on values: the state
 * after each tuple, and how handling one tuple (its left key, then its
 * right key) moves from one state to the next.
 */
module Walk {
  import opened Tuples
  import opened Linking
  import opened Grouping

  /**
   * The walk runs out of colours at tuple `j`: its left key is new and the
   * tuples before it already form as many connected components as the
   * palette had colours.
   */
  ghost predicate PanicAt(rts: seq<RelationTuple>, j: nat, size: nat)
    requires j < |rts|
  {
    var before := KeySets(rts)[..j];
    LeftColorID(rts[j]) !in AllKeys(before) && |Components(before)| >= size
  }

  /** None of the first `k` tuples makes the walk panic. */
  ghost predicate NoPanicUpTo(rts: seq<RelationTuple>, k: nat, size: nat)
    requires k <= |rts|
  {
    k == 0 || (NoPanicUpTo(rts, k - 1, size) && !PanicAt(rts, k - 1, size))
  }

  /**
   * The state after the walk has handled the first `k` tuples, whose colours
   * so far are `cs`, starting from the palette `p0`.
   */
  ghost predicate Walked(rts: seq<RelationTuple>, k: nat, owner: seq<nat>, groupOf: map<string, nat>, groupColor: seq<string>,
                         members: seq<seq<nat>>, cs: seq<string>, palette: seq<string>, p0: seq<string>)
  {
    && k <= |rts|
    && Grouped(KeySets(rts)[..k], owner, groupOf, members)
    && |groupColor| == |members|
    && Painted(owner, groupColor, cs)
    && Accounted(owner, groupColor, palette, p0)
  }

  /** The state once tuple `k` has been put in a group by its left key, before its right key is seen. */
  ghost predicate HalfWalked(rts: seq<RelationTuple>, k: nat, owner: seq<nat>, groupOf: map<string, nat>, groupColor: seq<string>,
                             members: seq<seq<nat>>, cs: seq<string>, palette: seq<string>, p0: seq<string>)
  {
    && k < |rts|
    && Grouped(KeySets(rts)[..k] + [{LeftColorID(rts[k])}], owner, groupOf, members)
    && |groupColor| == |members|
    && Painted(owner, groupColor, cs)
    && Accounted(owner, groupColor, palette, p0)
  }

  /** Before the first tuple nothing is grouped and the palette is whole. */
  lemma WalkStart(rts: seq<RelationTuple>, k: nat, owner: seq<nat>, groupOf: map<string, nat>, groupColor: seq<string>,
                  members: seq<seq<nat>>, cs: seq<string>, palette: seq<string>, p0: seq<string>)
    requires k == 0 && owner == [] && groupOf == map[] && groupColor == [] && members == [] && cs == []
    requires palette == p0
    ensures Walked(rts, k, owner, groupOf, groupColor, members, cs, palette, p0)
  {
    assert KeySets(rts)[..0] == [];
    GroupedEmpty();
    AccountedStart(p0);
  }

  /** Tuple `k`'s left key is known: it joins that key's group and takes its colour. */
  lemma LeftKnown(rts: seq<RelationTuple>, k: nat, owner: seq<nat>, groupOf: map<string, nat>, groupColor: seq<string>,
                  members: seq<seq<nat>>, cs: seq<string>, palette: seq<string>, p0: seq<string>)
    requires Walked(rts, k, owner, groupOf, groupColor, members, cs, palette, p0) && k < |rts|
    requires LeftColorID(rts[k]) in groupOf
    ensures groupOf[LeftColorID(rts[k])] < |members|
    ensures var g := groupOf[LeftColorID(rts[k])];
            HalfWalked(rts, k, owner + [g], groupOf, groupColor, members[g := members[g] + [k]], cs + [groupColor[g]], palette, p0)
    ensures !PanicAt(rts, k, |p0|)
  {
    var ks := KeySets(rts)[..k];
    var g := groupOf[LeftColorID(rts[k])];
    JoinGroup(ks, LeftColorID(rts[k]), owner, groupOf, members);
    AccountJoin(owner, groupColor, palette, p0, g);
    PaintJoin(owner, groupColor, cs, g);
  }

  /**
   * Tuple `k`'s left key is new and the palette is not empty: a new group,
   * coloured with the palette's last colour, starts with tuple `k`.
   */
  lemma LeftNew(rts: seq<RelationTuple>, k: nat, owner: seq<nat>, groupOf: map<string, nat>, groupColor: seq<string>,
                members: seq<seq<nat>>, cs: seq<string>, palette: seq<string>, p0: seq<string>)
    requires Walked(rts, k, owner, groupOf, groupColor, members, cs, palette, p0) && k < |rts|
    requires LeftColorID(rts[k]) !in groupOf && palette != []
    ensures var c := palette[|palette| - 1];
            HalfWalked(rts, k, owner + [|members|], groupOf[LeftColorID(rts[k]) := |members|], groupColor + [c],
                       members + [[k]], cs + [c], palette[..|palette| - 1], p0)
    ensures !PanicAt(rts, k, |p0|)
  {
    var ks := KeySets(rts)[..k];
    var rest, c := palette[..|palette| - 1], palette[|palette| - 1];
    assert palette == rest + [c];
    NewGroup(ks, LeftColorID(rts[k]), owner, groupOf, members);
    AccountNew(owner, groupColor, rest, c, p0);
    PaintNew(owner, groupColor, cs, c);
    GroupedExact(ks, owner, groupOf, members);
  }

  /** Tuple `k`'s left key is new and the palette is empty: the walk runs out of colours. */
  lemma LeftPanic(rts: seq<RelationTuple>, k: nat, owner: seq<nat>, groupOf: map<string, nat>, groupColor: seq<string>,
                  members: seq<seq<nat>>, cs: seq<string>, palette: seq<string>, p0: seq<string>)
    requires Walked(rts, k, owner, groupOf, groupColor, members, cs, palette, p0) && k < |rts|
    requires LeftColorID(rts[k]) !in groupOf && palette == []
    ensures PanicAt(rts, k, |p0|)
  {
    GroupedExact(KeySets(rts)[..k], owner, groupOf, members);
  }

  /** The key sets of the first `k + 1` tuples. */
  lemma KeySetsNext(rts: seq<RelationTuple>, k: nat)
    requires k < |rts|
    ensures KeySets(rts)[..k + 1] == KeySets(rts)[..k] + [Keys(rts[k])]
  {
  }

  /** Tuple `k` has no right key: it is done. */
  lemma RightNone(rts: seq<RelationTuple>, k: nat, owner: seq<nat>, groupOf: map<string, nat>, groupColor: seq<string>,
                  members: seq<seq<nat>>, cs: seq<string>, palette: seq<string>, p0: seq<string>)
    requires HalfWalked(rts, k, owner, groupOf, groupColor, members, cs, palette, p0)
    requires RightColorID(rts[k]) == ""
    ensures Walked(rts, k + 1, owner, groupOf, groupColor, members, cs, palette, p0)
  {
    KeySetsNext(rts, k);
  }

  /** Tuple `k`'s right key is new: it is mapped to the tuple's group. */
  lemma RightNew(rts: seq<RelationTuple>, k: nat, owner: seq<nat>, groupOf: map<string, nat>, groupColor: seq<string>,
                 members: seq<seq<nat>>, cs: seq<string>, palette: seq<string>, p0: seq<string>)
    requires HalfWalked(rts, k, owner, groupOf, groupColor, members, cs, palette, p0)
    requires RightColorID(rts[k]) != "" && RightColorID(rts[k]) !in groupOf
    ensures Walked(rts, k + 1, owner, groupOf[RightColorID(rts[k]) := owner[k]], groupColor, members, cs, palette, p0)
  {
    KeySetsNext(rts, k);
    AddRight(KeySets(rts)[..k], LeftColorID(rts[k]), RightColorID(rts[k]), owner, groupOf, members);
  }

  /** Tuple `k`'s right key is already in the tuple's own group: nothing changes. */
  lemma RightSame(rts: seq<RelationTuple>, k: nat, owner: seq<nat>, groupOf: map<string, nat>, groupColor: seq<string>,
                  members: seq<seq<nat>>, cs: seq<string>, palette: seq<string>, p0: seq<string>)
    requires HalfWalked(rts, k, owner, groupOf, groupColor, members, cs, palette, p0)
    requires RightColorID(rts[k]) != "" && RightColorID(rts[k]) in groupOf && groupOf[RightColorID(rts[k])] == owner[k]
    ensures Walked(rts, k + 1, owner, groupOf, groupColor, members, cs, palette, p0)
  {
    KeySetsNext(rts, k);
    SameGroupRight(KeySets(rts)[..k], LeftColorID(rts[k]), RightColorID(rts[k]), owner, groupOf, members);
  }

  /** Tuple `k`'s right key belongs to another group: the tuple's group `g1` is merged into it. */
  lemma RightMergeReady(rts: seq<RelationTuple>, k: nat, owner: seq<nat>, groupOf: map<string, nat>, groupColor: seq<string>,
                        members: seq<seq<nat>>, cs: seq<string>, palette: seq<string>, p0: seq<string>)
    requires HalfWalked(rts, k, owner, groupOf, groupColor, members, cs, palette, p0)
    requires RightColorID(rts[k]) in groupOf
    ensures owner[k] < |members| && groupOf[RightColorID(rts[k])] < |members|
    ensures forall t :: 0 <= t < |members[owner[k]]| ==> members[owner[k]][t] < |rts|
  {
    var ksP := KeySets(rts)[..k] + [{LeftColorID(rts[k])}];
    GroupOfInUse(ksP, owner, groupOf, members, RightColorID(rts[k]));
    MembersOwned(k + 1, owner, members, owner[k]);
  }

  /** The state after merging the tuple's group `g1` into the right key's group `g2`. */
  lemma RightMerge(rts: seq<RelationTuple>, k: nat, owner: seq<nat>, groupOf: map<string, nat>, groupColor: seq<string>,
                   members: seq<seq<nat>>, cs: seq<string>, cs2: seq<string>, palette: seq<string>, p0: seq<string>)
    requires HalfWalked(rts, k, owner, groupOf, groupColor, members, cs, palette, p0)
    requires RightColorID(rts[k]) != "" && RightColorID(rts[k]) in groupOf
    requires groupOf[RightColorID(rts[k])] != owner[k]
    requires owner[k] < |members| && groupOf[RightColorID(rts[k])] < |members| == |groupColor|
    requires forall t :: 0 <= t < |members[owner[k]]| ==> members[owner[k]][t] < |rts|
    requires |cs2| == |cs|
    requires forall i :: 0 <= i < |cs| ==>
               cs2[i] == if i in members[owner[k]] then groupColor[groupOf[RightColorID(rts[k])]] else cs[i]
    ensures var g1 := owner[k];
            var g2 := groupOf[RightColorID(rts[k])];
            Walked(rts, k + 1, Relabel(owner, g1, g2), Retarget(groupOf, MemberKeys(KeySets(rts), members[g1]), g2),
                   groupColor[g1 := ""], members[g2 := members[g2] + members[g1]][g1 := []], cs2,
                   palette + [groupColor[g1]], p0)
  {
    var ks := KeySets(rts)[..k];
    var left := LeftColorID(rts[k]);
    var right := RightColorID(rts[k]);
    var g1 := owner[k];
    var g2 := groupOf[right];
    var owner2 := Relabel(owner, g1, g2);
    var members2 := members[g2 := members[g2] + members[g1]][g1 := []];
    var groupOf2 := Retarget(groupOf, MemberKeys(KeySets(rts), members[g1]), g2);
    assert Grouped(KeySets(rts)[..k + 1], owner2, groupOf2, members2) by {
      KeySetsNext(rts, k);
      MergeRight(ks, left, right, owner, groupOf, members);
      MemberKeysPrefix(KeySets(rts), k + 1, members[g1]);
    }
    assert Accounted(owner2, groupColor[g1 := ""], palette + [groupColor[g1]], p0) by {
      GroupOfInUse(ks + [{left}], owner, groupOf, members, right);
      assert g1 in Owners(owner);
      AccountMerge(owner, groupColor, palette, p0, g1, g2);
    }
    PaintMerge(owner, groupColor, cs, cs2, members, g1, g2);
  }

  /**
   * After the whole walk, tuples share a colour exactly when they are
   * connected (the "only when" needs a palette without repeats), every
   * colour comes from the palette, and the palette lost one colour per
   * connected component.
   */
  lemma WalkDone(rts: seq<RelationTuple>, k: nat, owner: seq<nat>, groupOf: map<string, nat>, groupColor: seq<string>,
                 members: seq<seq<nat>>, colors: array<string>, palette: seq<string>, p0: seq<string>)
    requires k == |rts| == colors.Length
    requires Walked(rts, k, owner, groupOf, groupColor, members, colors[..], palette, p0)
    ensures forall i, j :: 0 <= i < |rts| && 0 <= j < |rts| && Connected(KeySets(rts), i, j) ==> colors[i] == colors[j]
    ensures NoDup(p0) ==>
              forall i, j :: 0 <= i < |rts| && 0 <= j < |rts| && colors[i] == colors[j] ==> Connected(KeySets(rts), i, j)
    ensures forall i :: 0 <= i < |rts| ==> colors[i] in p0
    ensures |palette| + |Components(KeySets(rts))| == |p0|
    ensures forall c :: c in palette ==> c in p0
    ensures NoDup(p0) ==> NoDup(palette) && forall i :: 0 <= i < |rts| ==> colors[i] !in palette
    ensures groupOf.Keys == AllKeys(KeySets(rts))
  {
    var ks := KeySets(rts);
    var cs := colors[..];
    assert ks[..k] == ks;
    GroupedExact(ks, owner, groupOf, members);
    forall i | 0 <= i < |rts|
      ensures colors[i] in p0
    {
      assert cs[i] == colors[i];
      assert owner[i] in Owners(owner);
    }
    forall i, j | 0 <= i < |rts| && 0 <= j < |rts| && Connected(ks, i, j)
      ensures colors[i] == colors[j]
    {
      assert cs[i] == colors[i] && cs[j] == colors[j];
    }
    if NoDup(p0) {
      forall i, j | 0 <= i < |rts| && 0 <= j < |rts| && colors[i] == colors[j]
        ensures Connected(ks, i, j)
      {
        assert cs[i] == colors[i] && cs[j] == colors[j];
        assert owner[i] in Owners(owner) && owner[j] in Owners(owner);
      }
      forall i | 0 <= i < |rts|
        ensures colors[i] !in palette
      {
        assert cs[i] == colors[i];
        assert owner[i] in Owners(owner);
      }
    }
  }


  /** Two tuples that share a key form a single component. */
  lemma {:induction false} PairOneComponent(ks: seq<set<string>>)
    requires |ks| == 2 && ks[0] * ks[1] != {}
    ensures |Components(ks)| == 1
  {
    ConnectedLink(ks, 0, 1);
    assert ks[1] * ks[0] != {};
    ConnectedLink(ks, 1, 0);
    forall j: nat | j < |ks|
      ensures Connected(ks, 0, j) <==> Connected(ks, 1, j)
    {
      if Connected(ks, 0, j) {
        ConnectedTrans(ks, 1, 0, j);
      }
      if Connected(ks, 1, j) {
        ConnectedTrans(ks, 0, 1, j);
      }
    }
    assert ClassOf(ks, 0) == ClassOf(ks, 1);
    assert Components(ks) == {ClassOf(ks, 0)};
  }

  /**
   * The walk can run out of colours even when the tuples form no more
   * components than the palette has colours: with one colour, `a:o#r@x` and
   * `b:o#r@(a:o#r)` form a single component, yet the second tuple needs a
   * colour for its new left key before its right key joins it to the first.
   */
  lemma ExampleEarlyPanic()
    ensures var rts := [RelationTuple("a", "o", "r", Id("x")), RelationTuple("b", "o", "r", Set("a", "o", "r"))];
      && |Components(KeySets(rts))| == 1
      && NoPanicUpTo(rts, 1, 1) && PanicAt(rts, 1, 1)
  {
    var rts := [RelationTuple("a", "o", "r", Id("x")), RelationTuple("b", "o", "r", Set("a", "o", "r"))];
    var a, b := LeftColorID(rts[0]), LeftColorID(rts[1]);
    assert RightColorID(rts[1]) == a;
    assert a[0] == 'a' && b[0] == 'b';
    var ks := KeySets(rts);
    assert a in ks[0] * ks[1];
    PairOneComponent(ks);
    assert Components(ks[..0]) == {};
    var before := ks[..1];
    assert AllKeys(before) == AllKeys(before[..0]) + before[0];
    assert before[..0] == [];
    assert b !in AllKeys(before);
    assert ClassOf(before, 0) in Components(before);
  }
}
