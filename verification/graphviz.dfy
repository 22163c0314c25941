/**
 * The Graphviz text the tool writes: a `digraph` with one edge per tuple,
 * from the tuple's `namespace:object` node to its subject's node, labelled
 * with the relation and drawn in the tuple's colour.
 */
module Graphviz {
  import opened Tuples
  import opened Text

  /** The edge of one tuple, without its line break. */
  function Edge(t: RelationTuple, color: string): string
  {
    "  \"" + t.namespace + ":" + t.obj + "\" -> \"" + SubjectString(t.subject)
      + "\" [ label=\"" + t.relation + "\", color=\"" + color + "\"];"
  }

  /** The edges of the tuples, one string per tuple. */
  function EdgeList(rts: seq<RelationTuple>, colors: seq<string>): (r: seq<string>)
    requires |colors| == |rts|
    ensures |r| == |rts|
    ensures forall i :: 0 <= i < |rts| ==> r[i] == Edge(rts[i], colors[i])
  {
    seq(|rts|, i requires 0 <= i < |rts| => Edge(rts[i], colors[i]))
  }

  /** The lines `ls`, each followed by a line break. */
  function Terminated(ls: seq<string>): string
  {
    if ls == [] then "" else Terminated(ls[..|ls| - 1]) + (ls[|ls| - 1] + "\n")
  }

  /** The whole graph: the header line, the edge lines and the closing brace. */
  function DotText(rts: seq<RelationTuple>, colors: seq<string>): string
    requires |colors| == |rts|
  {
    "digraph {" + "\n" + Terminated(EdgeList(rts, colors)) + ("}" + "\n")
  }

  /** One more line of `ls`, after any text `pre`, adds that line and a line break. */
  lemma TerminatedTake(pre: string, ls: seq<string>, i: nat)
    requires i < |ls|
    ensures pre + Terminated(ls[..i + 1]) == pre + Terminated(ls[..i]) + (ls[i] + "\n")
  {
    assert ls[..i + 1][..i] == ls[..i];
  }

  /**
   * Builds the graph text line by line; `colors[i]` is the colour the
   * assigner gave tuple `i`.
   */
  method Dot(rts: seq<RelationTuple>, colors: seq<string>) returns (s: string)
    requires |colors| == |rts|
    ensures s == DotText(rts, colors)
  {
    ghost var edges := EdgeList(rts, colors);
    ghost var header := "digraph {" + "\n";
    s := "digraph {" + "\n";
    var i := 0;
    while i < |rts|
      invariant 0 <= i <= |rts|
      invariant s == header + Terminated(edges[..i])
    {
      var line := Edge(rts[i], colors[i]) + "\n";
      TerminatedTake(header, edges, i);
      s := s + line;
      i := i + 1;
    }
    assert edges[..i] == edges;
    s := s + ("}" + "\n");
  }

  /**
   * A subject-set edge ends at the node where the edges of the tuples whose
   * left key is the set's key start: its target text is their `ns:obj`.
   */
  lemma EdgeTargetIsNode(t: RelationTuple, u: RelationTuple)
    requires WellFormed(t) && WellFormed(u)
    requires t.subject.Set? && RightColorID(t) == LeftColorID(u)
    ensures SubjectString(t.subject) == u.namespace + ":" + u.obj
  {
    SetKeyInjective(t.subject.namespace, t.subject.obj, t.subject.relation, u.namespace, u.obj, u.relation);
  }

  /** A tuple and its colour hold no line break. */
  predicate OneLine(t: RelationTuple, color: string)
  {
    && '\n' !in t.namespace && '\n' !in t.obj && '\n' !in t.relation
    && '\n' !in SubjectString(t.subject) && '\n' !in color
  }

  /** Putting a line in front of at least one line. */
  lemma JoinCons(line: string, lines: seq<string>)
    requires |lines| >= 1
    ensures Join([line] + lines, '\n') == line + "\n" + Join(lines, '\n')
  {
    assert ([line] + lines)[1..] == lines;
  }

  /** Terminated lines followed by more lines are the join of all of them. */
  lemma {:induction false} TerminatedJoin(ls: seq<string>, tail: seq<string>)
    requires |tail| >= 1
    ensures Terminated(ls) + Join(tail, '\n') == Join(ls + tail, '\n')
  {
    if ls != [] {
      var n := |ls| - 1;
      var init, last := ls[..n], ls[n];
      JoinCons(last, tail);
      TerminatedJoin(init, [last] + tail);
      assert init + ([last] + tail) == ls + tail;
    } else {
      assert ls + tail == tail;
    }
  }

  /** A tuple whose fields and colour hold no line break has a one-line edge. */
  lemma EdgeOneLine(t: RelationTuple, color: string)
    requires OneLine(t, color)
    ensures '\n' !in Edge(t, color)
  {
  }

  /** Between a first and a last line, line-free lines split back out. */
  lemma FramedLines(head: string, ls: seq<string>, foot: string)
    requires '\n' !in head && '\n' !in foot
    requires forall k :: 0 <= k < |ls| ==> '\n' !in ls[k]
    ensures Split(head + "\n" + Terminated(ls) + (foot + "\n"), '\n') == [head] + ls + [foot, ""]
  {
    var lines := [head] + ls + [foot, ""];
    var tail := [foot, ""];
    var body := ls + tail;
    assert Join(tail, '\n') == foot + "\n" by {
      assert tail[1..] == [""];
    }
    TerminatedJoin(ls, tail);
    JoinCons(head, body);
    assert [head] + body == lines;
    assert head + "\n" + Terminated(ls) + (foot + "\n") == head + "\n" + (Terminated(ls) + Join(tail, '\n'));
    forall k | 0 <= k < |lines|
      ensures '\n' !in lines[k]
    {
      if k == 0 {
        assert lines[k] == head;
      } else if k <= |ls| {
        assert lines[k] == ls[k - 1];
      } else {
        assert lines[k] == tail[k - 1 - |ls|];
      }
    }
    SplitJoin(lines, '\n');
  }

  /**
   * When no tuple or colour holds a line break, the text splits into the
   * header line, exactly one line per tuple with that tuple's edge, the
   * closing brace, and the empty piece after the final line break.
   */
  lemma DotLines(rts: seq<RelationTuple>, colors: seq<string>)
    requires |colors| == |rts|
    requires forall i :: 0 <= i < |rts| ==> OneLine(rts[i], colors[i])
    ensures Split(DotText(rts, colors), '\n') == ["digraph {"] + EdgeList(rts, colors) + ["}", ""]
    ensures |Split(DotText(rts, colors), '\n')| == |rts| + 3
  {
    var ls := EdgeList(rts, colors);
    forall k | 0 <= k < |ls|
      ensures '\n' !in ls[k]
    {
      EdgeOneLine(rts[k], colors[k]);
    }
    FramedLines("digraph {", ls, "}");
  }
}
