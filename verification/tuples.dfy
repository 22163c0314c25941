/**
 * Relation tuples in Ory Keto's text syntax, `namespace:object#relation@subject`,
 * where the subject is either an identifier or a subject set
 * `namespace:object#relation`, optionally wrapped in parentheses.
 */
module Tuples {
  import opened Wrappers
  import opened Text

  /** The two kinds of subject (`SubjectID` and `SubjectSet` in the Go code). */
  datatype Subject =
    | Id(id: string)
    | Set(namespace: string, obj: string, relation: string)

  /** A parsed tuple. Its `Color` field is kept apart, by index, by the colour assigner. */
  datatype RelationTuple = RelationTuple(namespace: string, obj: string, relation: string, subject: Subject)

  /** The parser's errors: a missing `:`, `#` or `@`, or a malformed subject set. */
  datatype ParseError = MissingSeparator(sep: char) | MalformedInput

  /** Characters stripped from both ends of the subject text. */
  const Parens: set<char> := {'(', ')'}

  /** The key text `ns:obj#rel` shared by tuples and subject sets. */
  function SetKey(ns: string, obj: string, rel: string): string
  {
    ns + ":" + obj + "#" + rel
  }

  /** Separator conditions under which `ns:obj#rel` splits back into its fields. */
  predicate SetFieldsSplit(ns: string, obj: string, rel: string)
  {
    ':' !in ns && '#' !in ns && ':' !in obj && '#' !in obj && '#' !in rel
  }

  /** A key whose namespace holds no `:` and whose object holds no `#` names its fields uniquely. */
  lemma SetKeyInjective(n1: string, o1: string, r1: string, n2: string, o2: string, r2: string)
    requires ':' !in n1 && '#' !in o1 && ':' !in n2 && '#' !in o2
    requires SetKey(n1, o1, r1) == SetKey(n2, o2, r2)
    ensures n1 == n2 && o1 == o2 && r1 == r2
  {
    assert SetKey(n1, o1, r1) == n1 + [':'] + (o1 + "#" + r1);
    assert SetKey(n2, o2, r2) == n2 + [':'] + (o2 + "#" + r2);
    SplitFirstOf(n1, ':', o1 + "#" + r1);
    SplitFirstOf(n2, ':', o2 + "#" + r2);
    assert o1 + "#" + r1 == o1 + ['#'] + r1;
    assert o2 + "#" + r2 == o2 + ['#'] + r2;
    SplitFirstOf(o1, '#', r1);
    SplitFirstOf(o2, '#', r2);
  }

  /** `Subject.String()`: an identifier shows its text, a set shows `ns:obj` without its relation. */
  function SubjectString(s: Subject): string
  {
    match s
    case Id(id) => id
    case Set(ns, obj, _) => ns + ":" + obj
  }

  /**
   * `String` shows a subject set as its right key without `#` and the
   * relation, and an identifier as its own text, which reads back as that
   * identifier when it holds no `#`.
   */
  lemma SubjectStringKey(t: RelationTuple)
    ensures t.subject.Set? ==> RightColorID(t) == SubjectString(t.subject) + "#" + t.subject.relation
    ensures t.subject.Id? && '#' !in t.subject.id ==> SubjectFromString(SubjectString(t.subject)) == Success(t.subject)
  {
  }

  /** `String` forgets a subject set's relation: unequal sets that differ only there show the same text. */
  lemma SubjectStringDropsRelation(ns: string, obj: string, r1: string, r2: string)
    ensures SubjectString(Set(ns, obj, r1)) == SubjectString(Set(ns, obj, r2))
    ensures r1 != r2 ==> !SubjectEquals(Set(ns, obj, r1), Set(ns, obj, r2))
  {
  }

  /** `Subject.Equals`: equal variants with equal fields; an identifier never equals a set. */
  function SubjectEquals(a: Subject, b: Subject): (r: bool)
    ensures r <==> a == b
  {
    match a
    case Id(x) => (match b case Id(y) => y == x case Set(_, _, _) => false)
    case Set(ns, obj, rel) =>
      (match b
       case Set(ns2, obj2, rel2) => rel2 == rel && obj2 == obj && ns2 == ns
       case Id(_) => false)
  }

  /** `LeftColorID`: the tuple's own node `ns:obj#rel`. */
  function LeftColorID(t: RelationTuple): (r: string)
    ensures ':' in r && r != ""
  {
    assert SetKey(t.namespace, t.obj, t.relation)[|t.namespace|] == ':';
    SetKey(t.namespace, t.obj, t.relation)
  }

  /** `RightColorID`: the node a subject set points at, empty for an identifier. */
  function RightColorID(t: RelationTuple): (r: string)
    ensures r == "" <==> t.subject.Id?
  {
    match t.subject
    case Id(_) => ""
    case Set(ns, obj, rel) =>
      assert SetKey(ns, obj, rel)[|ns|] == ':';
      SetKey(ns, obj, rel)
  }

  /** `SubjectID.FromString`: any text is an identifier, and it shows as that text. */
  function SubjectIdFromString(s: string): (r: Subject)
    ensures r.Id? && SubjectString(r) == s
  {
    Id(s)
  }

  /**
   * `SubjectSet.FromString`: exactly one `#`, and exactly one `:` before it;
   * a result always reads back as the input text.
   */
  function SubjectSetFromString(s: string): (r: Result<Subject, ParseError>)
    ensures r.Failure? ==> r.error == MalformedInput
    ensures r.Success? ==> r.value.Set?
    ensures r.Success? ==> SetFieldsSplit(r.value.namespace, r.value.obj, r.value.relation)
    ensures r.Success? ==> SetKey(r.value.namespace, r.value.obj, r.value.relation) == s
  {
    var parts := Split(s, '#');
    if |parts| != 2 then Failure(MalformedInput)
    else
      var inner := Split(parts[0], ':');
      if |inner| != 2 then Failure(MalformedInput)
      else
        assert Join(parts, '#') == parts[0] + ['#'] + parts[1];
        assert Join(inner, ':') == inner[0] + [':'] + inner[1];
        assert forall c :: c in inner[0] || c in inner[1] ==> c in parts[0];
        Success(Set(inner[0], inner[1], parts[1]))
  }

  /** The subject-set parser accepts exactly the texts `ns:obj#rel` with separator-free fields. */
  lemma SubjectSetFromStringIff(s: string, ns: string, obj: string, rel: string)
    ensures SubjectSetFromString(s) == Success(Set(ns, obj, rel))
      <==> s == SetKey(ns, obj, rel) && SetFieldsSplit(ns, obj, rel)
  {
    if s == SetKey(ns, obj, rel) && SetFieldsSplit(ns, obj, rel) {
      var left := ns + ":" + obj;
      assert left == ns + [':'] + obj;
      assert Join([left, rel], '#') == s;
      SplitJoin([left, rel], '#');
      assert Join([ns, obj], ':') == left;
      SplitJoin([ns, obj], ':');
    }
  }

  /** `SubjectFromString`: text with `#` is a subject set, any other text an identifier. */
  function SubjectFromString(s: string): (r: Result<Subject, ParseError>)
    ensures '#' !in s ==> r == Success(Id(s))
    ensures r.Success? ==> (r.value.Set? <==> '#' in s)
    ensures r.Failure? ==> r.error == MalformedInput
  {
    if '#' in s then SubjectSetFromString(s) else Success(SubjectIdFromString(s))
  }

  /**
   * `RelationTuple.FromString`: split on the first `:`, then the first `#`,
   * then the first `@`; strip every `(` and `)` from both ends of the rest
   * and parse it as the subject.
   */
  function RelationTupleFromString(s: string): (r: Result<RelationTuple, ParseError>)
    ensures r.Success? ==> ':' !in r.value.namespace && '#' !in r.value.obj && '@' !in r.value.relation
  {
    match SplitFirst(s, ':')
    case None => Failure(MissingSeparator(':'))
    case Some((ns, rest)) =>
      match SplitFirst(rest, '#')
      case None => Failure(MissingSeparator('#'))
      case Some((obj, rest2)) =>
        match SplitFirst(rest2, '@')
        case None => Failure(MissingSeparator('@'))
        case Some((rel, raw)) =>
          match SubjectFromRaw(raw)
          case Failure(e) => Failure(e)
          case Success(sub) => Success(RelationTuple(ns, obj, rel, sub))
  }

  /** The subject part of a line: strip every `(` and `)` from both ends, then parse. */
  function SubjectFromRaw(raw: string): (r: Result<Subject, ParseError>)
    ensures r.Failure? ==> r.error == MalformedInput
  {
    SubjectFromString(Trim(raw, Parens))
  }

  /** Reassembling the three first-separator splits gives back the line. */
  lemma LineShape(s: string, ns: string, rest: string, obj: string, rest2: string, rel: string, raw: string)
    requires s == ns + [':'] + rest && rest == obj + ['#'] + rest2 && rest2 == rel + ['@'] + raw
    ensures s == SetKey(ns, obj, rel) + "@" + raw
  {
  }

  /** The text after the first `c` in `s`. */
  function AfterFirst(s: string, c: char): string
    requires c in s
  {
    s[IndexOf(s, c) + 1..]
  }

  /**
   * The parser reports the first separator that is missing, in the order
   * `:`, then `#` after the first `:`, then `@` after that `#`.
   */
  lemma RelationTupleFromStringErrors(s: string)
    ensures RelationTupleFromString(s) == Failure(MissingSeparator(':')) <==> ':' !in s
    ensures RelationTupleFromString(s) == Failure(MissingSeparator('#'))
      <==> ':' in s && '#' !in AfterFirst(s, ':')
    ensures RelationTupleFromString(s) == Failure(MissingSeparator('@'))
      <==> ':' in s && '#' in AfterFirst(s, ':') && '@' !in AfterFirst(AfterFirst(s, ':'), '#')
  {
    if ':' in s {
      var Some((ns, rest)) := SplitFirst(s, ':');
      assert rest == AfterFirst(s, ':');
      if '#' in rest {
        var Some((obj, rest2)) := SplitFirst(rest, '#');
        assert rest2 == AfterFirst(rest, '#');
      }
    }
  }

  /**
   * On success the line is `LeftColorID + "@" + raw`, and the subject is the
   * parse of `raw` with its parentheses stripped: an identifier holds that
   * stripped text, and a subject set's RightColorID equals it.
   */
  lemma RelationTupleFromStringSplits(s: string)
    requires RelationTupleFromString(s).Success?
    ensures |LeftColorID(RelationTupleFromString(s).value)| < |s|
    ensures var t := RelationTupleFromString(s).value;
      var raw := s[|LeftColorID(t)| + 1..];
      && s == LeftColorID(t) + "@" + raw
      && SubjectFromRaw(raw) == Success(t.subject)
      && (t.subject.Id? ==> t.subject.id == Trim(raw, Parens))
      && (t.subject.Set? ==> RightColorID(t) == Trim(raw, Parens))
  {
    var t := RelationTupleFromString(s).value;
    var Some((ns, rest)) := SplitFirst(s, ':');
    var Some((obj, rest2)) := SplitFirst(rest, '#');
    var Some((rel, raw)) := SplitFirst(rest2, '@');
    assert SubjectFromRaw(raw) == Success(t.subject);
    assert t == RelationTuple(ns, obj, rel, t.subject);
    LineShape(s, ns, rest, obj, rest2, rel, raw);
    assert LeftColorID(t) == SetKey(ns, obj, rel);
    assert s[|LeftColorID(t)| + 1..] == raw;
  }

  /**
   * Any line built from a separator-free namespace, object and relation
   * splits back into them; only the subject text can still fail.
   */
  lemma RelationTupleFromStringOf(ns: string, obj: string, rel: string, raw: string)
    requires ':' !in ns && '#' !in obj && '@' !in rel
    ensures RelationTupleFromString(SetKey(ns, obj, rel) + "@" + raw)
      == match SubjectFromRaw(raw)
         case Success(sub) => Success(RelationTuple(ns, obj, rel, sub))
         case Failure(e) => Failure(e)
  {
    var s := SetKey(ns, obj, rel) + "@" + raw;
    var rest := obj + "#" + rel + "@" + raw;
    var rest2 := rel + "@" + raw;
    assert s == ns + [':'] + rest;
    assert rest == obj + ['#'] + rest2;
    assert rest2 == rel + ['@'] + raw;
    SplitFirstOf(ns, ':', rest);
    SplitFirstOf(obj, '#', rest2);
    SplitFirstOf(rel, '@', raw);
  }

  /** Keto text for a subject: an identifier as is, a subject set in parentheses. */
  function SubjectText(s: Subject): string
  {
    match s
    case Id(id) => id
    case Set(ns, obj, rel) => "(" + SetKey(ns, obj, rel) + ")"
  }

  /** Keto text for a tuple, `ns:obj#rel@subject`. */
  function TupleText(t: RelationTuple): string
  {
    LeftColorID(t) + "@" + SubjectText(t.subject)
  }

  /** Subjects that survive being written and read back. */
  predicate SubjectWellFormed(s: Subject)
  {
    match s
    case Id(id) => '#' !in id && (id != [] ==> id[0] !in Parens && id[|id| - 1] !in Parens)
    case Set(ns, obj, rel) =>
      SetFieldsSplit(ns, obj, rel)
      && (ns != [] ==> ns[0] !in Parens)
      && (rel != [] ==> rel[|rel| - 1] !in Parens)
  }

  /** Tuples that survive being written and read back. */
  predicate WellFormed(t: RelationTuple)
  {
    ':' !in t.namespace && '#' !in t.obj && '@' !in t.relation && SubjectWellFormed(t.subject)
  }

  /** An identifier's text, stripped of parentheses, parses back to it. */
  lemma IdTextParses(id: string)
    requires SubjectWellFormed(Id(id))
    ensures SubjectFromRaw(SubjectText(Id(id))) == Success(Id(id))
  {
    TrimAround([], id, [], Parens);
    assert [] + id + [] == id;
  }

  /** A subject set's text, stripped of its parentheses, parses back to it. */
  lemma SetTextParses(ns: string, obj: string, rel: string)
    requires SubjectWellFormed(Set(ns, obj, rel))
    ensures SubjectFromRaw(SubjectText(Set(ns, obj, rel))) == Success(Set(ns, obj, rel))
  {
    var key := SetKey(ns, obj, rel);
    assert key == ns + [':'] + obj + ['#'] + rel;
    assert key[|ns| + 1 + |obj|] == '#';
    assert key != [] && key[0] !in Parens by {
      if ns != [] { assert key[0] == ns[0]; } else { assert key[0] == ':'; }
    }
    assert key[|key| - 1] !in Parens by {
      if rel != [] { assert key[|key| - 1] == rel[|rel| - 1]; } else { assert key[|key| - 1] == '#'; }
    }
    assert SubjectText(Set(ns, obj, rel)) == "(" + key + ")";
    TrimAround("(", key, ")", Parens);
    SubjectSetFromStringIff(key, ns, obj, rel);
  }

  /** Reading back the text of a well-formed tuple gives the tuple. */
  lemma RelationTupleFromStringText(t: RelationTuple)
    requires WellFormed(t)
    ensures RelationTupleFromString(TupleText(t)) == Success(t)
  {
    RelationTupleFromStringOf(t.namespace, t.obj, t.relation, SubjectText(t.subject));
    match t.subject
    case Id(id) => IdTextParses(id);
    case Set(ns, obj, rel) => SetTextParses(ns, obj, rel);
  }

  /** A subject parsed from stripped text is well formed. */
  lemma SubjectFromRawWellFormed(raw: string)
    requires SubjectFromRaw(raw).Success?
    ensures SubjectWellFormed(SubjectFromRaw(raw).value)
  {
    var text := Trim(raw, Parens);
    TrimEnds(raw, Parens);
    match SubjectFromRaw(raw).value
    case Id(id) =>
    case Set(ns, obj, rel) =>
      var key := SetKey(ns, obj, rel);
      assert key == text;
      if ns != [] { assert key[0] == ns[0]; }
      if rel != [] { assert key[|key| - 1] == rel[|rel| - 1]; }
  }

  /** Everything the parser returns is well formed. */
  lemma RelationTupleFromStringWellFormed(s: string)
    requires RelationTupleFromString(s).Success?
    ensures WellFormed(RelationTupleFromString(s).value)
  {
    var t := RelationTupleFromString(s).value;
    RelationTupleFromStringSplits(s);
    SubjectFromRawWellFormed(s[|LeftColorID(t)| + 1..]);
  }

  /** Parsing is idempotent up to layout: a parsed tuple's own text parses to it. */
  lemma RelationTupleFromStringNormal(s: string)
    requires RelationTupleFromString(s).Success?
    ensures RelationTupleFromString(TupleText(RelationTupleFromString(s).value)) == RelationTupleFromString(s)
  {
    RelationTupleFromStringWellFormed(s);
    RelationTupleFromStringText(RelationTupleFromString(s).value);
  }

  /** Worked example: a line without any separator fails on the first one. */
  lemma ExampleNoSeparator()
    ensures RelationTupleFromString("noseparator") == Failure(MissingSeparator(':'))
  {
    var s := "noseparator";
    assert ':' !in s;
    assert SplitFirst(s, ':') == None;
  }
}
