# ketodot core, modelled in Dafny

ketodot reads Ory Keto relation tuples, one per line in the form
`namespace:object#relation@subject`, from one or more files. It colours them
so that tuples linked through shared nodes share a colour, and it writes
the result as a Graphviz `digraph`. This project models the core of
`cmd/root.go`:

- **the tuple parser** (`tuples.dfy`, on top of the string helpers in
  `text.dfy`):
  - `RelationTuple.FromString` splits on the first `:`, the first `#` and
    the first `@`. It then strips `(` and `)` from both ends of the subject
    text and parses that text as a subject.
  - A subject is a subject set when it contains `#`; otherwise it is an
    identifier.
  - The model also covers `String`, `Equals`, `LeftColorID` and
    `RightColorID`.
- **the row filter of `parseFile`** and the file loop of `parse`
  (`batch.dfy`). Each line is trimmed. Blank lines and `//` comments are
  skipped. The first line that fails to parse aborts the batch.
- **the colour assigner** (`coloring.dfy`, a class with the palette, the
  key-to-group map and the groups as fields). It is specified through three
  value-level modules:
  - `linking.dfy`: which tuples are connected through shared colour keys,
    and their connected components;
  - `grouping.dfy`: the invariant of the walk and the step lemmas that
    preserve it;
  - `walk.dfy`: the state after each tuple, and when the walk runs out of
    colours.
- **`Dot`** (`graphviz.dfy`): builds the graph text line by line.

The main results:

- `RelationTupleFromStringText`: parsing the written form of any
  well-formed tuple gives back the tuple.
- `RelationTupleFromStringWellFormed`: everything the parser returns is
  well formed.
- `AssignColor`, when it does not panic, satisfies all of these:
  - two tuples get the same colour if they are connected by a chain of
    shared keys;
  - when the palette has no repeated colour, the converse also holds;
  - every colour comes from the palette;
  - the palette loses exactly one colour per connected component.
- `AssignColor` panics exactly at the first tuple that opens a new group
  after the palette has run out.
  - This can happen even when the tuples form no more components than the
    palette has colours. A tuple takes a colour for its new left key before
    its right key is looked up, so a group that a later merge absorbs still
    needs a colour of its own (`ExampleEarlyPanic`).

## Model

| member | source | states |
|---|---|---|
| Text.SplitFirst | cmd/root.go:354-357 | `strings.SplitN(s, sep, 2)`: no result exactly when `sep` is absent; otherwise the text before the first `sep` (which holds no `sep`), `sep`, and the rest make up `s` |
| Text.SplitFirstOf | cmd/root.go:354-369 | splitting `a + [sep] + b`, where `a` holds no `sep`, gives back exactly `a` and `b` |
| Text.Split | cmd/root.go:416-424 | `strings.Split`: at least one piece, no piece holds the separator, and joining the pieces with it gives back `s` |
| Text.SplitJoin | cmd/root.go:416-424 | splitting a join of separator-free pieces gives back the pieces (the inverse of `Join`) |
| Text.SplitTwo | cmd/root.go:416-424 | `Split` returns exactly two pieces exactly when the separator occurs once |
| Text.SplitCount | cmd/root.go:416-424 | `Split` returns one piece more than there are separators |
| Text.CountAbsent | cmd/root.go:416-424 | a character occurs zero times exactly when it is absent |
| Text.IndexOf | cmd/root.go:354-369 | the index of the first occurrence of a character present in the text |
| Text.TrimEnds | cmd/root.go:373 | a trimmed text neither starts nor ends with a cut character |
| Text.TrimAround | cmd/root.go:373 | trimming cut characters from around a core that neither starts nor ends with one gives back exactly that core |
| Text.TrimLeftShape | cmd/root.go:373 | the left trim removes a prefix made only of cut characters, and what remains does not start with one |
| Text.TrimRightShape | cmd/root.go:373 | the right trim removes a suffix made only of cut characters, and what remains does not end with one |
| Tuples.SetKeyInjective | cmd/root.go:320-331 | a key `ns:obj#rel` whose namespace has no `:` and whose object has no `#` determines the three fields |
| Tuples.LeftColorID | cmd/root.go:320-322 | the tuple's node key: never empty, and it always holds a `:` |
| Tuples.RightColorID | cmd/root.go:325-331 | empty exactly when the subject is an identifier |
| Tuples.SubjectEquals | cmd/root.go:449-463 | true exactly when both subjects are of the same kind with equal fields |
| Tuples.SubjectIdFromString | cmd/root.go:410-413 | any text is accepted as an identifier, and `String` shows that text |
| Tuples.SubjectSetFromString | cmd/root.go:415-431 | a failure is always "malformed input"; a success is a subject set with separator-free fields whose key is the input |
| Tuples.SubjectSetFromStringIff | cmd/root.go:415-431 | accepts `s` as a given set exactly when `s` is that set's key and its fields hold no stray separators |
| Tuples.SubjectFromString | cmd/root.go:384-389 | text without `#` is an identifier holding that text; a parsed subject is a set exactly when the text has `#`; errors are "malformed input" |
| Tuples.SubjectStringKey | cmd/root.go:402-408 | a subject set is shown as `ns:obj`, its right key without `#` and the relation; an identifier is shown as its own text, which parses back to it when it holds no `#` |
| Tuples.SubjectStringDropsRelation | cmd/root.go:402-408 | subject sets that differ only in the relation are unequal but are shown as the same text |
| Tuples.SubjectFromRaw | cmd/root.go:373-379 | the subject after stripping parentheses; its only error is "malformed input" |
| Tuples.RelationTupleFromString | cmd/root.go:353-382 | on success, the namespace holds no `:`, the object no `#` and the relation no `@` |
| Tuples.RelationTupleFromStringErrors | cmd/root.go:353-369 | reports the missing `:` exactly when the line has none, then the missing `#` after the first `:`, then the missing `@` after that `#` |
| Tuples.RelationTupleFromStringSplits | cmd/root.go:353-382 | a parsed line is `LeftColorID + "@" + raw`; the subject is the parse of `raw` with its parentheses stripped (an identifier holds that text, and a set's `RightColorID` equals it) |
| Tuples.RelationTupleFromStringOf | cmd/root.go:353-382 | a line built from a separator-free namespace, object and relation parses into those fields; only the subject can still fail |
| Tuples.IdTextParses | cmd/root.go:373-389 | the written form of a well-formed identifier parses back to it |
| Tuples.SetTextParses | cmd/root.go:373-389 | the written form `(ns:obj#rel)` of a well-formed subject set parses back to it |
| Tuples.RelationTupleFromStringText | cmd/root.go:353-382 | round trip: parsing the written form of any well-formed tuple gives back that tuple |
| Tuples.SubjectFromRawWellFormed | cmd/root.go:373-389 | every subject the parser returns is well formed |
| Tuples.RelationTupleFromStringWellFormed | cmd/root.go:353-382 | every tuple the parser returns is well formed |
| Tuples.RelationTupleFromStringNormal | cmd/root.go:353-382 | parsing a parsed tuple's written form gives the same tuple (idempotence) |
| Tuples.ExampleNoSeparator | cmd/root.go:354-357 | a line without `:` fails on the missing `:` |
| Batch.KeptRowsSound | cmd/root.go:293-299 | `KeptRows` drops the lines `Skipped` rejects (empty after trimming, or starting with `//`, line 296); every kept row is the trimmed text of the line whose 1-based number it carries; that text is not skipped; the rows are in increasing line order |
| Batch.KeptRowsComplete | cmd/root.go:293-299 | every line whose trimmed text is not skipped is kept under its own number |
| Batch.Prepend | cmd/root.go:305 | appending a batch's tuples after earlier ones: succeeds exactly when the batch does, keeping both parts in order |
| Batch.ParseRowsSuccess | cmd/root.go:293-308 | a batch succeeds exactly when every kept line parses, and then yields their tuples, one per kept line, in order |
| Batch.ParseRowsFailure | cmd/root.go:300-304 | a failed batch names the first kept line that does not parse, with that line's error |
| Batch.ParseLinesFilterThenParse | cmd/root.go:291-308 | the row loop, read line by line, equals filtering first and then parsing the kept lines |
| Batch.ParseContent | cmd/root.go:291-308 | the row loop of `parseFile` returns exactly the line-by-line specification (lines numbered from 1) |
| Batch.ParseFiles | cmd/root.go:166-177 | `parse` concatenates the files' tuples in argument order; the first failing file's error ends the run |
| Batch.ParseFilesFailure | cmd/root.go:169-173 | once some prefix of the files fails, the whole run fails with that error |
| Batch.ParseFilesSuccess | cmd/root.go:166-177 | a run succeeds exactly when every file parses, and then yields the concatenation of the files' tuples in argument order |
| Batch.ParseFilesFirstError | cmd/root.go:169-173 | a failed run reports the error of the first file that fails, every earlier file having parsed |
| Batch.Parse | cmd/root.go:166-177 | the program's `parse`, with `RelationTuple.FromString` as the line parser |
| Linking.KeySets | cmd/root.go:221-233 | one key set per tuple: its left key, plus its right key when the subject is a set |
| Linking.AllKeysMember | cmd/root.go:218-240 | a key has been seen exactly when some tuple has it |
| Linking.ConnectedTrans | cmd/root.go:231-237 | connection through shared keys is transitive |
| Linking.ConnectedMono | cmd/root.go:219-242 | tuples stay connected when more tuples follow and when tuples gain keys |
| Linking.ConnectedSameOwner | cmd/root.go:219-242 | when every key maps to the group of each tuple holding it, connected tuples are in one group |
| Linking.ComponentsAreCarriers | cmd/root.go:193-196 | when connection is exactly equality of groups, the connected components are the groups' member sets |
| Linking.CarrierSetsCount | cmd/root.go:193-196 | distinct groups in use have distinct member sets, so there are as many sets as groups |
| Linking.ComponentsCount | cmd/root.go:219-242 | when connection is exactly equality of groups, there are as many components as groups in use |
| Grouping.Relabel | cmd/root.go:203-211 | the group of each tuple after a merge: `from`'s tuples move to `to`, all others stay |
| Grouping.Retarget | cmd/root.go:203-208 | the key map after a merge: the moved keys point to the target group, the other keys are unchanged, and no key is lost |
| Grouping.MemberKeysMember | cmd/root.go:203-208 | a key is among a group's keys exactly when one of its tuples holds it |
| Grouping.GroupedExact | cmd/root.go:219-242 | under the walk invariant, two tuples share a group exactly when they are connected, and there are as many groups in use as components |
| Grouping.JoinGroup | cmd/root.go:221-223 | a tuple whose left key is known joins that key's group, and the invariant is kept |
| Grouping.NewGroup | cmd/root.go:224-228 | a tuple whose left key is new opens a fresh group, and the invariant is kept |
| Grouping.AddRight | cmd/root.go:237-238 | mapping a new right key to the tuple's group keeps the invariant |
| Grouping.SameGroupRight | cmd/root.go:231-236 | a right key already in the tuple's own group changes nothing, and the invariant holds for the extended tuple |
| Grouping.MergePartition | cmd/root.go:203-214 | after a merge, every tuple is still listed exactly in its own group |
| Grouping.MergeKeys | cmd/root.go:203-208 | after a merge, every key seen so far maps to the group of each tuple holding it |
| Grouping.MergeConnected | cmd/root.go:234-235 | merging the groups of two tuples that share a key keeps each group connected |
| Grouping.MergeRight | cmd/root.go:231-236 | a right key in another group merges the tuple's group into it, and the invariant is kept |
| Grouping.AccountNew | cmd/root.go:224-228 | taking the palette's last colour for a new group keeps every starting colour accounted for, either free or held by one group |
| Grouping.AccountMerge | cmd/root.go:212-213 | a merge returns the absorbed group's colour to the palette and keeps every colour accounted for |
| Grouping.PaintMerge | cmd/root.go:210 | after a merge, every tuple still shows its group's colour |
| Walk.LeftKnown | cmd/root.go:221-223 | a known left key: the step keeps the walk state and cannot panic |
| Walk.LeftNew | cmd/root.go:224-229 | a new left key with colours left: the new group takes the palette's last colour, and the step does not panic |
| Walk.LeftPanic | cmd/root.go:224-225 | a new left key on an empty palette is the panic condition: the earlier tuples already form as many components as the palette had colours |
| Walk.RightNone | cmd/root.go:231-232 | a tuple with an identifier subject is done after its left key |
| Walk.RightNew | cmd/root.go:237-238 | a new right key maps to the tuple's group, and the walk state holds one tuple further |
| Walk.RightSame | cmd/root.go:233-236 | a right key already in the tuple's own group leaves a state that holds one tuple further |
| Walk.RightMergeReady | cmd/root.go:233-235 | both groups of a merge exist, and the absorbed group lists only walked tuples |
| Walk.RightMerge | cmd/root.go:233-235 | after the merge, the walk state holds one tuple further |
| Walk.ExampleEarlyPanic | cmd/root.go:224-235 | with a one-colour palette, `a:o#r@x` and `b:o#r@(a:o#r)` form a single component, yet the walk panics at the second tuple because it opens a group for its new left key before its right key is looked up |
| Walk.WalkDone | cmd/root.go:217-243 | after all tuples: equal colours for connected tuples (and only for them when the palette has no repeats), colours from the palette, one colour used per component, every key mapped |
| Coloring.ColorAssigner.constructor | cmd/root.go:37 | the palette starts empty, as the package variable does |
| Coloring.ColorAssigner.Cleanup | cmd/root.go:85-103 | the palette becomes the 14 listed colours, none repeated |
| Coloring.ColorAssigner.PickColor | cmd/root.go:249-257 | takes the last colour and shortens the palette by one; on an empty palette (the source's panic) reports failure and changes nothing |
| Coloring.ColorAssigner.NewColorGroup | cmd/root.go:245-247 | a new empty group with the given colour |
| Coloring.ColorAssigner.MergeGroups | cmd/root.go:198-215 | a group merged into itself changes nothing; otherwise the absorbed group's keys point to the survivor, its tuples follow the survivor's and take its colour, its colour returns to the palette's end, and it is left empty and colourless |
| Coloring.MoveTuples | cmd/root.go:203-211 | the loop of `MergeGroups`: each moved tuple has its keys sent to the survivor, is appended to it, and takes its colour; no other tuple's colour changes |
| Coloring.SentAll | cmd/root.go:203-208 | sending the keys one tuple at a time retargets all keys of the group |
| Coloring.RepaintAt | cmd/root.go:210 | after repainting, a tuple has the new colour exactly when it was moved, and otherwise keeps its colour |
| Coloring.ColorAssigner.AssignColor | cmd/root.go:217-243 | equal colours exactly for connected tuples (the converse needs a palette without repeats); colours from the palette; one colour used per component; panics exactly at the first new left key after the palette runs out |
| Coloring.ColorAssigner.WalkTuples | cmd/root.go:218-242 | the loop from an empty key map: either every tuple is walked without panic, or it stops at the first tuple that panics |
| Coloring.ColorAssigner.ColorTuple | cmd/root.go:219-241 | one pass of the loop extends the walk state by one tuple, or panics exactly where the panic condition holds |
| Coloring.ColorAssigner.ColorByLeft | cmd/root.go:221-229 | the tuple joins its left key's group or a new group, and takes that group's colour; fails exactly at the panic condition |
| Coloring.ColorAssigner.JoinLeft | cmd/root.go:221-223 | the tuple is appended to its left key's group |
| Coloring.ColorAssigner.OpenGroup | cmd/root.go:224-228 | fails exactly when the palette is empty, and then changes nothing; otherwise the palette's last colour is popped and becomes the colour of a new group whose only member is the tuple, and the tuple's left key maps to that group |
| Coloring.ColorAssigner.AddGroup | cmd/root.go:225-227 | a group is appended with the picked colour and the tuple as its only member, and the left key maps to it; the palette is untouched |
| Coloring.ColorAssigner.LinkRight | cmd/root.go:231-240 | an identifier subject or a right key already in the tuple's group changes nothing; a new right key maps to the tuple's group; a right key in another group absorbs the tuple's group into that one (keys retargeted, members appended, tuples repainted in the survivor's colour, the absorbed colour appended to the palette and cleared); in every case the walk state holds one tuple further |
| Coloring.ColorAssigner.AbsorbRight | cmd/root.go:233-235 | the merge branch of `LinkRight`: the tuple's group moves into the right key's group with the new state stated field by field, and the walk state holds one tuple further |
| Graphviz.EdgeList | cmd/root.go:262-264 | one edge per tuple, each in that tuple's colour |
| Graphviz.EdgeTargetIsNode | cmd/root.go:263 | the target of a subject-set edge is the node `ns:obj` from which the edges of the tuples with that left key start |
| Graphviz.Dot | cmd/root.go:259-267 | the text is the `digraph {` header line, one edge line per tuple in order, and the closing `}` line |
| Graphviz.TerminatedJoin | cmd/root.go:259-267 | lines each followed by a line break, then more lines, equal the join of all the lines |
| Graphviz.FramedLines | cmd/root.go:259-267 | a header, line-free lines and a footer, each followed by a line break, split back into those lines |
| Graphviz.DotLines | cmd/root.go:259-267 | when no field or colour holds a line break, the text splits into the header, exactly one line per tuple with its edge, the closing brace and a final empty piece |

## Left out

- The command line, the watch loop over `fsnotify` events, file and
  standard-input reading, the Graphviz rendering in `output` and the
  process exit through `log.Fatal` are not modelled.
  - `parseFile` is modelled from the point where the content has been
    read.
  - A run that fails ends with the `Failure` value instead of exiting.
- The diagnostic `parseFile` prints to standard error is not modelled as
  output. Its line number, trimmed row and cause are carried in
  `BatchError` instead. Wrapping with `errors.WithStack` and the error
  message texts are not modelled either; errors are the values
  `MissingSeparator(c)` and `MalformedInput`.
- `Text.TrimSpace` strips ASCII white space only (space, tab, line feed,
  vertical tab, form feed, carriage return). Go's `strings.TrimSpace` also
  strips Unicode white space.
- Object identity (the `*ColorGroup` and `*RelationTuple` references) is not modelled.
  - A `*ColorGroup` is a group number. `groupColor` and `members` hold its
    `Color` and `Group`.
  - A tuple's `Color` field is the entry of the `colors` array at the
    tuple's position. Tuples themselves are immutable values.
  - The absorbed group's emptied record stays in `members` and
    `groupColor` instead of becoming garbage.
- `Coloring.ColorAssigner.AssignColor`: the panic in `PickColor` becomes
  `ok == false`. The contract then says where the walk stopped and why, but
  not which colours the tuples before that point had.
- `Coloring.ColorAssigner.AssignColor`: the map `colorGroupMap`, local in
  the source, is the field `groupOf`. It is reset at the start of every
  call, as the local map would be.
- The package-level `palette` is a field of `ColorAssigner`. The runs of
  the watch loop share one assigner, so the palette carries over between
  runs as the package variable does.
- The body of the loop of `AssignColor` is split into the methods
  `ColorTuple`, `ColorByLeft`, `JoinLeft`, `OpenGroup` and `LinkRight`;
  the merge branch of `LinkRight` is the method `AbsorbRight`.
  The loop of `MergeGroups` is the method `MoveTuples`. The statements and
  their order are those of the source.
- `Graphviz.Dot` takes the colours as a sequence parallel to the tuples.
  Graphviz escaping of quotes in identifiers is not done by the source and
  not modelled. `DotLines` therefore assumes fields without line breaks.
- `Tuples.SubjectString`: `SubjectSet.String` shows `namespace:object`
  without the relation, exactly as the source does. The edge of a
  subject-set tuple therefore points at the set's object node.
- The accessors `SubjectID()` and `SubjectSet()` (lines 433-447) become
  the datatype discriminators `Id?` and `Set?`.
