/**
 * The colour assigner of `cmd/root.go`: the palette of free colours, the
 * colour groups, and the walk over the tuples that puts every tuple in a
 * group and gives it the group's colour.
 *
 * A `ColorGroup` object becomes a group number: `groupColor[g]` is its
 * `Color` and `members[g]` its `Group`, listed as positions in the tuple
 * list.  `colorGroupMap` becomes `groupOf`, and the palette, a package-level
 * variable, becomes a field.  A tuple's `Color` field lives in the array
 * `colors`, at the tuple's position.
 */
module Coloring {
  import opened Tuples
  import opened Linking
  import opened Grouping
  import opened Walk

  /** The colours `cleanup` puts in the palette; `PickColor` takes them from the end. */
  const InitialPalette: seq<string> := [
    "blue3", "aqua", "aquamarine4", "blueviolet", "chocolate4",
    "darkgoldenrod", "darkgreen", "darkorange", "deeppink", "green",
    "indigo", "midnightblue", "sienna4", "tomato1"
  ]

  /** Sending a tuple's keys to `g`, one by one as `MergeGroups` does, retargets its key set. */
  lemma RetargetTuple(m: map<string, nat>, keys: set<string>, g: nat, t: RelationTuple)
    ensures var m1 := Retarget(m, keys, g)[LeftColorID(t) := g];
            (if RightColorID(t) == "" then m1 else m1[RightColorID(t) := g]) == Retarget(m, keys + Keys(t), g)
  {
    var l := LeftColorID(t);
    var r := RightColorID(t);
    RetargetAdd(m, keys, g, l);
    if r != "" {
      RetargetAdd(m, keys + {l}, g, r);
      assert keys + {l} + {r} == keys + Keys(t);
    } else {
      assert keys + {l} == keys + Keys(t);
    }
  }

  /** The map after the loop of `MergeGroups` has sent the keys of tuple `t` to group `g`. */
  function SendKeys(m: map<string, nat>, t: RelationTuple, g: nat): map<string, nat>
  {
    var m1 := m[LeftColorID(t) := g];
    if RightColorID(t) == "" then m1 else m1[RightColorID(t) := g]
  }

  /** The map after the loop of `MergeGroups` has handled the first `j` tuples of `group`. */
  function SentUpTo(m0: map<string, nat>, rts: seq<RelationTuple>, group: seq<nat>, j: nat, g: nat): map<string, nat>
    requires j <= |group|
    requires forall t :: 0 <= t < |group| ==> group[t] < |rts|
  {
    if j == 0 then m0 else SendKeys(SentUpTo(m0, rts, group, j - 1, g), rts[group[j - 1]], g)
  }

  /** Sending the tuples' keys one tuple at a time retargets all their keys. */
  lemma {:induction false} SentUpToRetarget(m0: map<string, nat>, rts: seq<RelationTuple>, group: seq<nat>, j: nat, g: nat)
    requires j <= |group|
    requires forall t :: 0 <= t < |group| ==> group[t] < |rts|
    ensures SentUpTo(m0, rts, group, j, g) == Retarget(m0, MemberKeys(KeySets(rts), group[..j]), g)
  {
    if j == 0 {
      assert group[..j] == [];
      assert Retarget(m0, {}, g) == m0;
    } else {
      SentUpToRetarget(m0, rts, group, j - 1, g);
      RetargetTuple(m0, MemberKeys(KeySets(rts), group[..j - 1]), g, rts[group[j - 1]]);
      MemberKeysStep(rts, group, j);
    }
  }

  /** The keys of the first `j` tuples of `group` are those of the first `j - 1` and of the `j`-th. */
  lemma MemberKeysStep(rts: seq<RelationTuple>, group: seq<nat>, j: nat)
    requires 0 < j <= |group|
    requires forall t :: 0 <= t < |group| ==> group[t] < |rts|
    ensures MemberKeys(KeySets(rts), group[..j]) == MemberKeys(KeySets(rts), group[..j - 1]) + Keys(rts[group[j - 1]])
  {
    assert group[..j] == group[..j - 1] + [group[j - 1]];
    MemberKeysAppend(KeySets(rts), group[..j - 1], group[j - 1]);
  }

  class ColorAssigner {
    var palette: seq<string>
    var groupOf: map<string, nat>
    var groupColor: seq<string>
    var members: seq<seq<nat>>

    /** A fresh assigner: the palette starts empty, as the package variable does. */
    constructor()
      ensures palette == [] && groupOf == map[] && groupColor == [] && members == []
    {
      palette := [];
      groupOf := map[];
      groupColor := [];
      members := [];
    }

    /** Refills the palette; called before every run. */
    method Cleanup()
      modifies this`palette
      ensures palette == InitialPalette
      ensures |palette| == 14 && NoDup(palette)
    {
      palette := InitialPalette;
    }

    /**
     * Takes the last colour off the palette.  On an empty palette the
     * source panics; here `ok` is false and nothing changes.
     */
    method PickColor() returns (ok: bool, c: string)
      modifies this`palette
      ensures ok <==> old(palette) != []
      ensures ok ==> c == old(palette)[|old(palette)| - 1] && palette == old(palette)[..|old(palette)| - 1]
      ensures !ok ==> palette == old(palette)
    {
      var n := |palette|;
      if n == 0 {
        return false, "";
      }
      c := palette[n - 1];
      palette := palette[..n - 1];
      ok := true;
    }

    /** A new, empty group of colour `color`, numbered after the existing ones. */
    method NewColorGroup(color: string) returns (g: nat)
      modifies this`groupColor, this`members
      ensures g == |old(members)|
      ensures groupColor == old(groupColor) + [color]
      ensures members == old(members) + [[]]
    {
      g := |members|;
      groupColor := groupColor + [color];
      members := members + [[]];
    }

    /**
     * Merges group `from` into group `into`: every key of `from`'s tuples
     * is sent to `into`, the tuples join the end of `into`'s list and take
     * its colour, `from`'s colour goes back to the end of the palette and
     * `from` is left empty and colourless.  Merging a group into itself
     * does nothing.
     */
    method MergeGroups(rts: seq<RelationTuple>, colors: array<string>, into: nat, from: nat)
      requires colors.Length == |rts|
      requires into < |members| && from < |members| && |groupColor| == |members|
      requires forall t :: 0 <= t < |members[from]| ==> members[from][t] < |rts|
      modifies this`groupOf, this`members, this`groupColor, this`palette, colors
      ensures into == from ==>
        && groupOf == old(groupOf) && members == old(members)
        && groupColor == old(groupColor) && palette == old(palette)
        && colors[..] == old(colors[..])
      ensures into != from ==>
        && groupOf == Retarget(old(groupOf), MemberKeys(KeySets(rts), old(members[from])), into)
        && members == old(members)[into := old(members[into]) + old(members[from])][from := []]
        && groupColor == old(groupColor)[from := ""]
        && palette == old(palette) + [old(groupColor[from])]
        && colors[..] == Repaint(old(colors[..]), old(members[from]), old(groupColor[into]))
      ensures into != from ==> forall i :: 0 <= i < colors.Length ==>
        colors[i] == if i in old(members[from]) then old(groupColor[into]) else old(colors[i])
    {
      ghost var before := colors[..];
      if into == from {
        return;
      }
      SentAll(groupOf, rts, members[from], |members[from]|, into);
      var m, survivors := MoveTuples(rts, colors, members[from], into, groupColor[into], groupOf, members[into]);
      groupOf := m;
      members := members[into := survivors];
      palette := palette + [groupColor[from]];
      groupColor := groupColor[from := ""];
      members := members[from := []];
      RepaintAt(before, old(members[from]), old(groupColor[into]));
    }

    /**
     * Gives every tuple a colour: tuples linked by a shared key end in one
     * group and share its colour.  The map and the groups start empty; the
     * palette is what is left from earlier runs, unless refilled by
     * `Cleanup`.  `ok` is false when the source would panic for an empty
     * palette; the colours are then unspecified.
     */
    method AssignColor(rts: seq<RelationTuple>, colors: array<string>) returns (ok: bool)
      requires colors.Length == |rts|
      modifies this, colors
      ensures ok ==> NoPanicUpTo(rts, |rts|, |old(palette)|)
      ensures !ok ==> exists j :: 0 <= j < |rts| && NoPanicUpTo(rts, j, |old(palette)|) && PanicAt(rts, j, |old(palette)|)
      ensures ok ==> forall i, j :: 0 <= i < |rts| && 0 <= j < |rts| && Connected(KeySets(rts), i, j) ==> colors[i] == colors[j]
      ensures ok && NoDup(old(palette)) ==>
                forall i, j :: 0 <= i < |rts| && 0 <= j < |rts| && colors[i] == colors[j] ==> Connected(KeySets(rts), i, j)
      ensures ok ==> forall i :: 0 <= i < |rts| ==> colors[i] in old(palette)
      ensures ok ==> |palette| + |Components(KeySets(rts))| == |old(palette)|
      ensures ok ==> forall c :: c in palette ==> c in old(palette)
      ensures ok && NoDup(old(palette)) ==> NoDup(palette) && forall i :: 0 <= i < |rts| ==> colors[i] !in palette
      ensures ok ==> groupOf.Keys == AllKeys(KeySets(rts))
    {
      ghost var owner, stop;
      ok, owner, stop := WalkTuples(rts, colors);
      if ok {
        assert colors[..stop] == colors[..];
        WalkDone(rts, stop, owner, groupOf, groupColor, members, colors, palette, old(palette));
      } else {
        assert NoPanicUpTo(rts, stop, |old(palette)|) && PanicAt(rts, stop, |old(palette)|);
      }
    }

    /**
     * The loop of `AssignColor`, from empty groups.  It stops early, with
     * `ok` false, at the first tuple that needs a new group when the palette
     * is empty.
     */
    method WalkTuples(rts: seq<RelationTuple>, colors: array<string>) returns (ok: bool, ghost owner: seq<nat>, ghost stop: nat)
      requires colors.Length == |rts|
      modifies this`groupOf, this`groupColor, this`members, this`palette, colors
      ensures ok ==> stop == |rts|
      ensures !ok ==> stop < |rts| && PanicAt(rts, stop, |old(palette)|)
      ensures stop <= |rts| && NoPanicUpTo(rts, stop, |old(palette)|)
      ensures ok ==> Walked(rts, stop, owner, groupOf, groupColor, members, colors[..stop], palette, old(palette))
    {
      ghost var p0 := palette;
      groupOf := map[];
      groupColor := [];
      members := [];
      owner, stop := [], 0;
      var k := 0;
      WalkStart(rts, k, owner, groupOf, groupColor, members, colors[..k], palette, p0);
      while k < |rts|
        invariant 0 <= k <= |rts|
        invariant Walked(rts, k, owner, groupOf, groupColor, members, colors[..k], palette, p0)
        invariant NoPanicUpTo(rts, k, |p0|)
      {
        var picked, next;
        picked, next, owner := ColorTuple(rts, colors, k, owner, p0);
        if !picked {
          return false, owner, k;
        }
        k := next;
      }
      ok, stop := true, k;
    }

    /** One pass of the loop of `AssignColor`, on tuple `k`. */
    method ColorTuple(rts: seq<RelationTuple>, colors: array<string>, k: nat, ghost owner: seq<nat>, ghost p0: seq<string>)
      returns (ok: bool, next: nat, ghost owner2: seq<nat>)
      requires colors.Length == |rts| && k < |rts|
      requires Walked(rts, k, owner, groupOf, groupColor, members, colors[..k], palette, p0)
      requires NoPanicUpTo(rts, k, |p0|)
      modifies this`groupOf, this`groupColor, this`members, this`palette, colors
      ensures next == k + 1
      ensures !ok ==> PanicAt(rts, k, |p0|)
      ensures ok ==> NoPanicUpTo(rts, next, |p0|)
      ensures ok ==> Walked(rts, next, owner2, groupOf, groupColor, members, colors[..next], palette, p0)
    {
      var g;
      next := k + 1;
      ok, g, owner2 := ColorByLeft(rts, colors, k, owner, p0);
      if ok {
        owner2 := LinkRight(rts, colors, k, g, owner2, p0);
      }
    }

    /**
     * The first half of one pass of `AssignColor`: tuple `k` joins the group
     * of its left key, or a new group with a colour from the palette, and
     * takes the group's colour.  `ok` is false when the palette is empty.
     */
    method ColorByLeft(rts: seq<RelationTuple>, colors: array<string>, k: nat, ghost owner: seq<nat>, ghost p0: seq<string>)
      returns (ok: bool, g: nat, ghost owner2: seq<nat>)
      requires colors.Length == |rts| && k < |rts|
      requires Walked(rts, k, owner, groupOf, groupColor, members, colors[..k], palette, p0)
      modifies this`groupOf, this`groupColor, this`members, this`palette, colors
      ensures ok ==> !PanicAt(rts, k, |p0|)
      ensures !ok ==> PanicAt(rts, k, |p0|)
      ensures ok ==> |owner2| == k + 1 && g == owner2[k] && HalfWalked(rts, k, owner2, groupOf, groupColor, members, colors[..k + 1], palette, p0)
    {
      ghost var before := colors[..];
      ghost var cs := before[..k];
      if LeftColorID(rts[k]) in groupOf {
        g, owner2 := JoinLeft(rts, k, cs, owner, p0);
        ok := true;
      } else {
        ok, g, owner2 := OpenGroup(rts, k, cs, owner, p0);
        if !ok {
          return;
        }
      }
      colors[k] := groupColor[g];
      assert colors[..] == before[k := groupColor[g]];
      SetPrefix(before, k, groupColor[g]);
    }

    /** Tuple `k`'s left key is known: the tuple joins the end of that key's group. */
    method JoinLeft(rts: seq<RelationTuple>, k: nat, ghost cs: seq<string>, ghost owner: seq<nat>, ghost p0: seq<string>)
      returns (g: nat, ghost owner2: seq<nat>)
      requires k < |rts| && LeftColorID(rts[k]) in groupOf
      requires Walked(rts, k, owner, groupOf, groupColor, members, cs, palette, p0)
      modifies this`members
      ensures g == old(groupOf[LeftColorID(rts[k])]) && g < |old(members)| && g < |groupColor|
      ensures members == old(members)[g := old(members[g]) + [k]]
      ensures |owner2| == k + 1 && g == owner2[k]
      ensures HalfWalked(rts, k, owner2, groupOf, groupColor, members, cs + [groupColor[g]], palette, p0)
      ensures !PanicAt(rts, k, |p0|)
    {
      g := groupOf[LeftColorID(rts[k])];
      LeftKnown(rts, k, owner, groupOf, groupColor, members, cs, palette, p0);
      members := members[g := members[g] + [k]];
      owner2 := owner + [g];
    }

    /**
     * Tuple `k`'s left key is new: a new group takes the palette's last
     * colour, starts with the tuple, and the key is mapped to it.  `ok` is
     * false, and nothing changes, when the palette is empty.
     */
    method OpenGroup(rts: seq<RelationTuple>, k: nat, ghost cs: seq<string>, ghost owner: seq<nat>, ghost p0: seq<string>)
      returns (ok: bool, g: nat, ghost owner2: seq<nat>)
      requires k < |rts| && LeftColorID(rts[k]) !in groupOf
      requires Walked(rts, k, owner, groupOf, groupColor, members, cs, palette, p0)
      modifies this`groupOf, this`groupColor, this`members, this`palette
      ensures ok <==> old(palette) != []
      ensures ok ==> !PanicAt(rts, k, |p0|)
      ensures !ok ==> PanicAt(rts, k, |p0|)
      ensures ok ==> g == |old(members)| && g < |groupColor| && |owner2| == k + 1 && g == owner2[k]
      ensures ok ==> HalfWalked(rts, k, owner2, groupOf, groupColor, members, cs + [groupColor[g]], palette, p0)
      ensures ok ==>
        && groupColor == old(groupColor) + [old(palette)[|old(palette)| - 1]]
        && palette == old(palette)[..|old(palette)| - 1]
        && members == old(members) + [[k]]
        && groupOf == old(groupOf)[LeftColorID(rts[k]) := g]
      ensures !ok ==> groupOf == old(groupOf) && groupColor == old(groupColor) && members == old(members) && palette == old(palette)
    {
      ghost var pal := palette;
      if pal == [] {
        LeftPanic(rts, k, owner, groupOf, groupColor, members, cs, pal, p0);
      } else {
        LeftNew(rts, k, owner, groupOf, groupColor, members, cs, pal, p0);
      }
      var c;
      ok, c := PickColor();
      if !ok {
        g, owner2 := 0, owner;
        return;
      }
      g := AddGroup(LeftColorID(rts[k]), c, k);
      owner2 := owner + [g];
    }

    /** A new group `g` coloured `c` holds tuple `k` alone, and `key` maps to it. */
    method AddGroup(key: string, c: string, k: nat) returns (g: nat)
      modifies this`groupOf, this`groupColor, this`members
      ensures g == |old(members)|
      ensures groupColor == old(groupColor) + [c]
      ensures members == old(members) + [[k]]
      ensures groupOf == old(groupOf)[key := g]
    {
      ghost var members0 := members;
      g := NewColorGroup(c);
      groupOf := groupOf[key := g];
      members := members[g := members[g] + [k]];
      FillLast(members0, k);
    }

    /**
     * The second half of one pass of `AssignColor`: a right key of tuple
     * `k`, which sits in group `g`, is mapped to `g` when new, or has its
     * group absorb `g` when it belongs to another group.
     */
    method LinkRight(rts: seq<RelationTuple>, colors: array<string>, k: nat, g: nat, ghost owner: seq<nat>, ghost p0: seq<string>)
      returns (ghost owner2: seq<nat>)
      requires colors.Length == |rts| && k < |rts|
      requires HalfWalked(rts, k, owner, groupOf, groupColor, members, colors[..k + 1], palette, p0)
      requires g == owner[k]
      modifies this`groupOf, this`groupColor, this`members, this`palette, colors
      ensures Walked(rts, k + 1, owner2, groupOf, groupColor, members, colors[..k + 1], palette, p0)
      ensures RightColorID(rts[k]) != "" && RightColorID(rts[k]) in old(groupOf) ==> old(groupOf)[RightColorID(rts[k])] < |old(members)|
      ensures RightColorID(rts[k]) != "" && RightColorID(rts[k]) !in old(groupOf) ==>
        && groupOf == old(groupOf)[RightColorID(rts[k]) := g]
        && groupColor == old(groupColor) && members == old(members) && palette == old(palette)
      ensures RightColorID(rts[k]) == "" || (RightColorID(rts[k]) in old(groupOf) && old(groupOf)[RightColorID(rts[k])] == g) ==>
        && groupOf == old(groupOf) && groupColor == old(groupColor) && members == old(members) && palette == old(palette)
      ensures !(RightColorID(rts[k]) != "" && RightColorID(rts[k]) in old(groupOf) && old(groupOf)[RightColorID(rts[k])] != g) ==>
        owner2 == owner && colors[..] == old(colors[..])
      ensures RightColorID(rts[k]) != "" && RightColorID(rts[k]) in old(groupOf) && old(groupOf)[RightColorID(rts[k])] != g ==>
        var g2 := old(groupOf)[RightColorID(rts[k])];
        && owner2 == Relabel(owner, g, g2)
        && groupOf == Retarget(old(groupOf), MemberKeys(KeySets(rts), old(members)[g]), g2)
        && members == old(members)[g2 := old(members)[g2] + old(members)[g]][g := []]
        && groupColor == old(groupColor)[g := ""]
        && palette == old(palette) + [old(groupColor)[g]]
        && forall i :: 0 <= i < colors.Length ==> colors[i] == if i in old(members)[g] then old(groupColor)[g2] else old(colors[i])
    {
      ghost var cs := colors[..k + 1];
      owner2 := owner;
      var r := RightColorID(rts[k]);
      if r == "" {
        RightNone(rts, k, owner, groupOf, groupColor, members, cs, palette, p0);
      } else if r !in groupOf {
        RightNew(rts, k, owner, groupOf, groupColor, members, cs, palette, p0);
        groupOf := groupOf[r := g];
      } else if groupOf[r] == g {
        RightSame(rts, k, owner, groupOf, groupColor, members, cs, palette, p0);
        MergeGroups(rts, colors, g, g);
      } else {
        owner2 := AbsorbRight(rts, colors, k, g, owner, p0);
      }
    }

    /**
     * Tuple `k`'s right key belongs to another group `g2`: `g2` absorbs the
     * tuple's group `g`, whose colour goes back to the palette.
     */
    method AbsorbRight(rts: seq<RelationTuple>, colors: array<string>, k: nat, g: nat, ghost owner: seq<nat>, ghost p0: seq<string>)
      returns (ghost owner2: seq<nat>)
      requires colors.Length == |rts| && k < |rts|
      requires HalfWalked(rts, k, owner, groupOf, groupColor, members, colors[..k + 1], palette, p0)
      requires g == owner[k]
      requires RightColorID(rts[k]) != "" && RightColorID(rts[k]) in groupOf && groupOf[RightColorID(rts[k])] != g
      modifies this`groupOf, this`groupColor, this`members, this`palette, colors
      ensures Walked(rts, k + 1, owner2, groupOf, groupColor, members, colors[..k + 1], palette, p0)
      ensures old(groupOf)[RightColorID(rts[k])] < |old(members)|
      ensures var g2 := old(groupOf)[RightColorID(rts[k])];
        && owner2 == Relabel(owner, g, g2)
        && groupOf == Retarget(old(groupOf), MemberKeys(KeySets(rts), old(members)[g]), g2)
        && members == old(members)[g2 := old(members)[g2] + old(members)[g]][g := []]
        && groupColor == old(groupColor)[g := ""]
        && palette == old(palette) + [old(groupColor)[g]]
        && forall i :: 0 <= i < colors.Length ==> colors[i] == if i in old(members)[g] then old(groupColor)[g2] else old(colors[i])
    {
      ghost var before := colors[..];
      ghost var cs := before[..k + 1];
      var g2 := groupOf[RightColorID(rts[k])];
      RightMergeReady(rts, k, owner, groupOf, groupColor, members, cs, palette, p0);
      ghost var groupOf0, groupColor0, members0, palette0 := groupOf, groupColor, members, palette;
      MergeGroups(rts, colors, g2, g);
      RepaintPrefix(before, members0[owner[k]], groupColor0[groupOf0[RightColorID(rts[k])]], k + 1);
      RightMerge(rts, k, owner, groupOf0, groupColor0, members0, cs, colors[..k + 1], palette0, p0);
      owner2 := Relabel(owner, g, g2);
    }
  }

  /** The colours `cs` with the tuples `xs` painted `paint`, one after the other. */
  function Repaint(cs: seq<string>, xs: seq<nat>, paint: string): (r: seq<string>)
    requires forall t :: 0 <= t < |xs| ==> xs[t] < |cs|
    ensures |r| == |cs|
  {
    if xs == [] then cs else Repaint(cs, xs[..|xs| - 1], paint)[xs[|xs| - 1] := paint]
  }

  /** Painting one more tuple. */
  lemma RepaintNext(cs: seq<string>, xs: seq<nat>, j: nat, paint: string)
    requires j < |xs|
    requires forall t :: 0 <= t < |xs| ==> xs[t] < |cs|
    ensures Repaint(cs, xs[..j + 1], paint) == Repaint(cs, xs[..j], paint)[xs[j] := paint]
  {
    assert xs[..j + 1][..j] == xs[..j];
  }

  /** A tuple ends up painted exactly when it is among `xs`; the others keep their colour. */
  lemma {:induction false} RepaintAt(cs: seq<string>, xs: seq<nat>, paint: string)
    requires forall t :: 0 <= t < |xs| ==> xs[t] < |cs|
    ensures forall i :: 0 <= i < |cs| ==> Repaint(cs, xs, paint)[i] == if i in xs then paint else cs[i]
  {
    if xs != [] {
      var init := xs[..|xs| - 1];
      RepaintAt(cs, init, paint);
      assert xs == init + [xs[|xs| - 1]];
    }
  }

  /** Setting entry `k` extends the first `k` entries by the new value. */
  lemma SetPrefix(cs: seq<string>, k: nat, c: string)
    requires k < |cs|
    ensures cs[k := c][..k + 1] == cs[..k] + [c]
  {
  }

  /** Filling a new empty last group with one tuple. */
  lemma FillLast(ms: seq<seq<nat>>, x: nat)
    ensures (ms + [[]])[|ms| := (ms + [[]])[|ms|] + [x]] == ms + [[x]]
  {
    assert (ms + [[]])[|ms|] + [x] == [x];
  }

  /** A list extended by one more element of a prefix. */
  lemma AppendNext(a: seq<nat>, xs: seq<nat>, j: nat)
    requires j < |xs|
    ensures a + xs[..j + 1] == a + xs[..j] + [xs[j]]
  {
    assert xs[..j + 1] == xs[..j] + [xs[j]];
  }

  /** `RepaintAt` on the first `n` colours. */
  lemma RepaintPrefix(cs: seq<string>, xs: seq<nat>, paint: string, n: nat)
    requires n <= |cs|
    requires forall t :: 0 <= t < |xs| ==> xs[t] < |cs|
    ensures |Repaint(cs, xs, paint)[..n]| == |cs[..n]|
    ensures forall i :: 0 <= i < |cs[..n]| ==>
              Repaint(cs, xs, paint)[..n][i] == if i in xs then paint else cs[..n][i]
  {
    RepaintAt(cs, xs, paint);
  }

  /** One more tuple of the group sends that tuple's keys. */
  lemma SentNext(m0: map<string, nat>, rts: seq<RelationTuple>, group: seq<nat>, j: nat, g: nat)
    requires j < |group|
    requires forall t :: 0 <= t < |group| ==> group[t] < |rts|
    ensures SentUpTo(m0, rts, group, j + 1, g) == SendKeys(SentUpTo(m0, rts, group, j, g), rts[group[j]], g)
  {
  }

  /** Sending every tuple of a group retargets the group's keys. */
  lemma SentAll(m0: map<string, nat>, rts: seq<RelationTuple>, group: seq<nat>, j: nat, g: nat)
    requires j == |group|
    requires forall t :: 0 <= t < |group| ==> group[t] < |rts|
    ensures SentUpTo(m0, rts, group, j, g) == Retarget(m0, MemberKeys(KeySets(rts), group), g)
  {
    SentUpToRetarget(m0, rts, group, j, g);
    assert group[..j] == group;
  }

  /**
   * The loop of `MergeGroups`: each tuple of `group` has its keys sent to
   * group `into`, is appended to `into`'s list `survivors` and is painted
   * `paint`.
   */
  method MoveTuples(rts: seq<RelationTuple>, colors: array<string>, group: seq<nat>, into: nat, paint: string,
                    m0: map<string, nat>, survivors0: seq<nat>)
    returns (m: map<string, nat>, survivors: seq<nat>)
    requires colors.Length == |rts|
    requires forall t :: 0 <= t < |group| ==> group[t] < |rts|
    modifies colors
    ensures m == SentUpTo(m0, rts, group, |group|, into)
    ensures survivors == survivors0 + group
    ensures colors[..] == Repaint(old(colors[..]), group, paint)
  {
    m, survivors := m0, survivors0;
    var j := 0;
    assert survivors0 + group[..j] == survivors0;
    while j < |group|
      invariant 0 <= j <= |group|
      invariant m == SentUpTo(m0, rts, group, j, into)
      invariant survivors == survivors0 + group[..j]
      invariant colors[..] == Repaint(old(colors[..]), group[..j], paint)
    {
      var x := group[j];
      SentNext(m0, rts, group, j, into);
      var t := rts[x];
      m := m[LeftColorID(t) := into];
      var rID := RightColorID(t);
      if rID != "" {
        m := m[rID := into];
      }
      AppendNext(survivors0, group, j);
      survivors := survivors + [x];
      RepaintNext(old(colors[..]), group, j, paint);
      colors[x] := paint;
      j := j + 1;
    }
    assert j == |group| && group[..j] == group;
  }

}
