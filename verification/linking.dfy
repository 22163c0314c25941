/**
 * Which tuples the colour assigner puts in one group.  Two tuples are linked
 * when they share a colour key (`LeftColorID` or a non-empty
 * `RightColorID`); tuples are connected when a chain of links joins them.
 * The connected components of a list of tuples are the groups the colour
 * assigner is meant to find, and their number is the number of colours it
 * takes from the palette.
 *
 * Everything after `KeySets` is stated over the tuples' key sets `ks`, one
 * set per tuple, in list order: which tuples are linked depends on nothing
 * else.  A prefix `ks[..k]` describes the first `k` tuples.
 */
module Linking {
  import opened Tuples

  /** The colour keys of a tuple: its left key, and its right key when the subject is a set. */
  function Keys(t: RelationTuple): set<string>
  {
    if RightColorID(t) == "" then {LeftColorID(t)} else {LeftColorID(t), RightColorID(t)}
  }

  /** The key sets of a list of tuples, one per tuple. */
  function KeySets(ts: seq<RelationTuple>): (ks: seq<set<string>>)
    ensures |ks| == |ts|
    ensures forall i :: 0 <= i < |ts| ==> ks[i] == Keys(ts[i])
  {
    seq(|ts|, i requires 0 <= i < |ts| => Keys(ts[i]))
  }

  /** All keys of the tuples. */
  function AllKeys(ks: seq<set<string>>): set<string>
  {
    if ks == [] then {} else AllKeys(ks[..|ks| - 1]) + ks[|ks| - 1]
  }

  /** One more tuple adds its keys. */
  lemma AllKeysAppend(ks: seq<set<string>>, keys: set<string>)
    ensures AllKeys(ks + [keys]) == AllKeys(ks) + keys
  {
    assert (ks + [keys])[..|ks|] == ks;
  }

  /** A key is among the tuples' keys exactly when one of them has it. */
  lemma {:induction false} AllKeysMember(ks: seq<set<string>>, key: string)
    ensures key in AllKeys(ks) <==> exists i :: 0 <= i < |ks| && key in ks[i]
  {
    if ks != [] {
      var init := ks[..|ks| - 1];
      AllKeysMember(init, key);
      assert forall i :: 0 <= i < |init| ==> init[i] == ks[i];
    }
  }

  /** A chain of tuples in which each tuple shares a key with the next. */
  ghost predicate IsPath(ks: seq<set<string>>, p: seq<nat>)
  {
    && |p| > 0
    && (forall k :: 0 <= k < |p| ==> p[k] < |ks|)
    && (forall k :: 0 <= k < |p| - 1 ==> ks[p[k]] * ks[p[k + 1]] != {})
  }

  /** Tuples `i` and `j` are joined by a chain. */
  ghost predicate Connected(ks: seq<set<string>>, i: nat, j: nat)
  {
    exists p :: IsPath(ks, p) && p[0] == i && p[|p| - 1] == j
  }

  lemma ConnectedRefl(ks: seq<set<string>>, i: nat)
    requires i < |ks|
    ensures Connected(ks, i, i)
  {
    assert IsPath(ks, [i]);
  }

  lemma ConnectedLink(ks: seq<set<string>>, i: nat, j: nat)
    requires i < |ks| && j < |ks|
    requires ks[i] * ks[j] != {}
    ensures Connected(ks, i, j)
  {
    assert IsPath(ks, [i, j]);
  }

  lemma ConnectedTrans(ks: seq<set<string>>, i: nat, j: nat, l: nat)
    requires Connected(ks, i, j) && Connected(ks, j, l)
    ensures Connected(ks, i, l)
  {
    var p :| IsPath(ks, p) && p[0] == i && p[|p| - 1] == j;
    var q :| IsPath(ks, q) && q[0] == j && q[|q| - 1] == l;
    var r := p + q[1..];
    forall k | 0 <= k < |r| - 1
      ensures ks[r[k]] * ks[r[k + 1]] != {}
    {
      if k < |p| - 1 {
        assert r[k] == p[k] && r[k + 1] == p[k + 1];
      } else {
        assert r[k] == q[k - |p| + 1] && r[k + 1] == q[k - |p| + 2];
      }
    }
    assert IsPath(ks, r);
  }

  /**
   * A chain stays a chain when more tuples follow and when tuples gain
   * keys: `big` extends `ks` and each of its key sets contains the one in `ks`.
   */
  lemma ConnectedMono(ks: seq<set<string>>, big: seq<set<string>>, i: nat, j: nat)
    requires |ks| <= |big|
    requires forall t :: 0 <= t < |ks| ==> ks[t] <= big[t]
    requires Connected(ks, i, j)
    ensures Connected(big, i, j)
  {
    var p :| IsPath(ks, p) && p[0] == i && p[|p| - 1] == j;
    forall k | 0 <= k < |p| - 1
      ensures big[p[k]] * big[p[k + 1]] != {}
    {
      var key :| key in ks[p[k]] * ks[p[k + 1]];
      assert key in big[p[k]] * big[p[k + 1]];
    }
    assert IsPath(big, p);
  }

  /**
   * When every key of each tuple is mapped to that tuple's owner, a chain
   * never changes owner.
   */
  lemma {:induction false} PathKeepsOwner(ks: seq<set<string>>, p: seq<nat>, owner: seq<nat>, keyOwner: map<string, nat>)
    requires |ks| <= |owner|
    requires IsPath(ks, p)
    requires forall i, key :: 0 <= i < |ks| && key in ks[i] ==> key in keyOwner && keyOwner[key] == owner[i]
    ensures owner[p[0]] == owner[p[|p| - 1]]
  {
    if |p| > 1 {
      assert IsPath(ks, p[1..]);
      PathKeepsOwner(ks, p[1..], owner, keyOwner);
      var key :| key in ks[p[0]] * ks[p[1]];
      assert keyOwner[key] == owner[p[0]];
    }
  }

  /** Connected tuples share an owner, under the hypothesis of `PathKeepsOwner`. */
  lemma ConnectedSameOwner(ks: seq<set<string>>, i: nat, j: nat, owner: seq<nat>, keyOwner: map<string, nat>)
    requires |ks| <= |owner|
    requires Connected(ks, i, j)
    requires forall i, key :: 0 <= i < |ks| && key in ks[i] ==> key in keyOwner && keyOwner[key] == owner[i]
    ensures owner[i] == owner[j]
  {
    var p :| IsPath(ks, p) && p[0] == i && p[|p| - 1] == j;
    PathKeepsOwner(ks, p, owner, keyOwner);
  }

  /** The tuples connected to tuple `i`. */
  ghost function ClassOf(ks: seq<set<string>>, i: nat): set<nat>
  {
    set j: nat | j < |ks| && Connected(ks, i, j)
  }

  /** The connected components of the tuples. */
  ghost function Components(ks: seq<set<string>>): set<set<nat>>
  {
    set i: nat | i < |ks| :: ClassOf(ks, i)
  }

  /** The owners in use. */
  function Owners(owner: seq<nat>): set<nat>
  {
    set i | 0 <= i < |owner| :: owner[i]
  }

  /** The tuples carrying owner `g`. */
  function Carriers(owner: seq<nat>, g: nat): set<nat>
  {
    set j: nat | j < |owner| && owner[j] == g
  }

  /** When connection is equality of owners, a component is the set of a tuple's owner's carriers. */
  lemma ClassIsCarriers(ks: seq<set<string>>, owner: seq<nat>, i: nat)
    requires |owner| == |ks| && i < |ks|
    requires forall i, j :: 0 <= i < |ks| && 0 <= j < |ks| ==> (Connected(ks, i, j) <==> owner[i] == owner[j])
    ensures ClassOf(ks, i) == Carriers(owner, owner[i])
  {
  }

  /** When connection is equality of owners, the components are the owners' carrier sets. */
  lemma ComponentsAreCarriers(ks: seq<set<string>>, owner: seq<nat>)
    requires |owner| == |ks|
    requires forall i, j :: 0 <= i < |ks| && 0 <= j < |ks| ==> (Connected(ks, i, j) <==> owner[i] == owner[j])
    ensures Components(ks) == set g | g in Owners(owner) :: Carriers(owner, g)
  {
    forall c | c in Components(ks)
      ensures c in set g | g in Owners(owner) :: Carriers(owner, g)
    {
      var i: nat :| i < |ks| && c == ClassOf(ks, i);
      ClassIsCarriers(ks, owner, i);
    }
    forall c | c in (set g | g in Owners(owner) :: Carriers(owner, g))
      ensures c in Components(ks)
    {
      var g :| g in Owners(owner) && c == Carriers(owner, g);
      var i :| 0 <= i < |owner| && owner[i] == g;
      ClassIsCarriers(ks, owner, i);
    }
  }

  /** Distinct owners in use have distinct carrier sets. */
  lemma CarriersInjective(owner: seq<nat>, g: nat, h: nat)
    requires g in Owners(owner) && h in Owners(owner)
    requires Carriers(owner, g) == Carriers(owner, h)
    ensures g == h
  {
    var i :| 0 <= i < |owner| && owner[i] == g;
    assert i in Carriers(owner, g);
  }

  /** Owners in use have as many carrier sets as there are owners. */
  lemma {:induction false} CarrierSetsCount(owner: seq<nat>, s: set<nat>)
    requires s <= Owners(owner)
    ensures |(set g | g in s :: Carriers(owner, g))| == |s|
  {
    if s != {} {
      var g :| g in s;
      var rest := s - {g};
      CarrierSetsCount(owner, rest);
      assert (set h | h in s :: Carriers(owner, h)) == (set h | h in rest :: Carriers(owner, h)) + {Carriers(owner, g)};
      forall h | h in rest
        ensures Carriers(owner, h) != Carriers(owner, g)
      {
        if Carriers(owner, h) == Carriers(owner, g) {
          CarriersInjective(owner, g, h);
        }
      }
    }
  }

  /**
   * When connection is exactly equality of owners, there are as many
   * components as owners in use.
   */
  lemma ComponentsCount(ks: seq<set<string>>, owner: seq<nat>)
    requires |owner| == |ks|
    requires forall i, j :: 0 <= i < |ks| && 0 <= j < |ks| ==> (Connected(ks, i, j) <==> owner[i] == owner[j])
    ensures |Components(ks)| == |Owners(owner)|
  {
    ComponentsAreCarriers(ks, owner);
    CarrierSetsCount(owner, Owners(owner));
  }
}
