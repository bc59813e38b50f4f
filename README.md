# emotion babel plugin: the rewrite core in Dafny

This project models the compile-time rewrites of the emotion babel plugin
(`src/babel.js`). It also proves what those rewrites do.

- **`attr()` expansion** (`findAndReplaceAttrs`). Every `attr(name [unit][, default])` in the
  cooked text of a template's segments is found with the plugin's regular expression. The text
  around each occurrence is kept as new template segments, and each occurrence becomes an
  interpolated accessor `function getName(props) { return … }`.
- **JSX `css` lowering** (the `JSXOpeningElement` visitor). The `css` attribute becomes a
  `css`-tagged template and moves into `className`.
- **Tagged shorthand normalisation** (the `TaggedTemplateExpression` visitor). ``emotion.h1`…` ``
  and ``emotion('h1')`…` `` become ``emotion('h1', css`…`)`` over the expanded template.
- **Call simplification** (the `CallExpression` visitor). A `css(...)` argument of an
  `emotion(...)` call becomes the array literal of its arguments.

Modules, one per file:

- `ast.dfy`, module `Ast`: the syntax-tree fragment, and the node builders
  `createCssTemplateExpression` and `createClassNameAttr`.
- `scanner.dfy`, module `AttrScanner`: the regular expression
  `/attr\(([\S]+)(?:\s*(em|…|%)?)(?:,\s*([\S^)]+))?\)/gm`.
  - It is written out as a backtracking search in the order a JavaScript engine tries the
    alternatives: each `+` and `*` from its longest run down, an optional group before its
    omission, and the unit alternatives left to right.
  - `regex.exec` is modelled as the leftmost match at or after `lastIndex`.
  - The `while` loop over `exec` is a method proved against that function.
- `accessor.dfy`, module `AccessorBuilder`: the accessor function built for one match.
- `splicer.dfy`, module `Splicer`: `findAndReplaceAttrs`.
  - It is a method for the `for` loop over one segment's matches, one for the reduce over the
    segments, and one for the `didFindAtLeastOneMatch` flag.
  - Each method is proved equal to a left-fold specification function.
  - The properties are proved as lemmas about those functions.
- `jsx.dfy`, module `CssProp`: the `JSXOpeningElement` visitor.
  - It is a class `OpeningElement` whose attribute list the method `LowerCssProp` rewrites in
    place.
  - The method is proved against the function `Lowered`.
- `shorthand.dfy`, module `Shorthand`: the `TaggedTemplateExpression` visitor. It returns the
  replacement node.
- `calls.dfy`, module `CallSimplify`: the `CallExpression` visitor. It returns the replacement
  node, and also gives the `emotion` call as it is once every argument has been visited.

Behaviours of the code worth knowing, kept as written:

- **The property name is greedy.** `[\S]+` does not stop at `,` or `)`. So `attr(a)attr(b)` is
  one match whose property name is `a)attr(b` (`GreedyName`, `ExampleMatches`). `[\S^)]` is `\S`, since `^` and `)` are not white
  space.
- **A unit outside the list does not match at all.** In `attr(a foo)`, the white space is not
  followed by a unit, `,` or `)`.
- **The default drops the unit.** When a default is given, the branch taken when the property is
  set is the bare `props.name`. Only the fallback `default + unit` has the unit.
- **A segment without a match pushes its interpolation twice** once the template is rebuilt. This
  happens because some other segment matched.
- **The segment count is not restored.** Empty pieces of text are dropped, so
  `segments == interpolations + 1` does not hold in general. The exact counts are proved instead.
- **Call simplification wraps; it does not splice.** The `css(...)` argument becomes one array
  literal, so the `emotion` call keeps its number of arguments.
- **Duplicate JSX attributes.** The last `css` and the last `className` attribute are the ones
  used. Earlier duplicates stay as they are.
- **A `className` with no value** (`<div className css="…" />`) counts as absent. The `css`
  attribute becomes a second `className` attribute.

## Model

| member | source | states |
|---|---|---|
| Ast.CssTagged | src/babel.js:11-13 | the node is a template tagged with the identifier `css`, holding the given template unchanged |
| Ast.ClassNameAttr | src/babel.js:4-9 | the attribute is named `className`, and its value is an expression container holding the given expression |
| AttrScanner.SpaceClass | src/babel.js:23 | `\s` holds the ASCII white space (space, tab, line feed, carriage return, vertical tab, form feed), and below U+00A0 nothing else: none of the other control characters (U+001C to U+001F included), and no visible ASCII character such as `(`, `)` or `,` |
| AttrScanner.SpaceRun | src/babel.js:23 | `\s*` takes the longest run of JavaScript white space: every character of the run is white space, and the next one is not |
| AttrScanner.WordRun | src/babel.js:23 | `[\S]+` takes the longest run of non-white-space characters: every character of the run is one, and the next one is white space |
| AttrScanner.DefaultValueAt | src/babel.js:23 | the default value found is non-empty, lies in the string, and is followed by `)` |
| AttrScanner.DefaultGapAt | src/babel.js:23 | a default part found after `,` ends after its start and inside the string |
| AttrScanner.TailAt | src/babel.js:23 | the optional default part and `)` end after their start and inside the string |
| AttrScanner.UnitAt | src/babel.js:23 | the optional unit and the tail end after their start and inside the string |
| AttrScanner.GapAt | src/babel.js:23 | the white space, unit and tail end after their start and inside the string |
| AttrScanner.RestAt | src/babel.js:23 | what follows a property name ends after it and inside the string |
| AttrScanner.NameAt | src/babel.js:23 | a match found for the opener at `p` starts at `p`, is not empty, and lies inside the string |
| AttrScanner.MatchAt | src/babel.js:23 | a match tried at `p` starts at `p`, is not empty, and lies inside the string |
| AttrScanner.DefaultGapAtSound | src/babel.js:23 | the default part found is the text `s[q..end]`: white space, a non-empty default without white space, and `)` |
| AttrScanner.TailAtSound | src/babel.js:23 | the tail found is the text of the string: `,`, white space, default and `)`, or `)` alone |
| AttrScanner.UnitAtSound | src/babel.js:23 | the unit found is one of the fourteen units, and unit plus tail are the text of the string |
| AttrScanner.GapAtSound | src/babel.js:23 | white space, unit and tail together are the text of the string, and they obey the regex's groups |
| AttrScanner.RestAtSound | src/babel.js:23 | what the regex matches after a property name is an instance of its grammar, at that place of the string |
| AttrScanner.RestsSound | src/babel.js:23 | every entry of the per-position table is sound for its position |
| AttrScanner.MatchFromParts | src/babel.js:23 | a match assembled from `attr(`, a non-white-space name and a sound rest is well formed and is the text it spans |
| AttrScanner.NameAtSound | src/babel.js:23 | every match found by trying property-name lengths is well formed and occurs in the string at its index |
| AttrScanner.MatchAtSound | src/babel.js:23 | whatever the regex matches at a position is `attr(`, a non-empty name without white space, white space, an optional listed unit, an optional `,` with white space and a non-empty default, and `)`, and is the string's text there |
| AttrScanner.FoundIsMatchAt | src/babel.js:23 | the per-position table holds, at each position, what the regex matches there |
| AttrScanner.FoundPlaced | src/babel.js:23 | every entry of that table starts at its own position, lies in the string, and is well formed |
| AttrScanner.Exec | src/babel.js:26 | `exec` from `lastIndex` returns the leftmost position at or after it where the regex matches; it returns null only if there is none |
| AttrScanner.ExecAll | src/babel.js:24-35 | the `while (regex.exec(str) !== null)` loop collects exactly the successive `exec` results, from `lastIndex` 0 |
| AttrScanner.ScanSegment | src/babel.js:22-35 | one segment's scan yields the regex's matches of its cooked text |
| AttrScanner.AllMatchesAfter | src/babel.js:26-35 | each reported match lies in the string at or after the starting `lastIndex`, and none is empty |
| AttrScanner.AllMatchesFound | src/babel.js:26-35 | each reported match is what the regex matches at the match's own index |
| AttrScanner.AllMatchesOrdered | src/babel.js:26-35 | reported matches never overlap, so their indices strictly ascend |
| AttrScanner.AllMatchesComplete | src/babel.js:26-35 | every position where the regex matches is covered by some reported match |
| AttrScanner.Matches | src/babel.js:22-35 | every match the scan of a segment collects is a well-formed instance of the regex's grammar and is the segment's text at its index |
| AttrScanner.MatchesSound | src/babel.js:23-35 | every match of a segment is well formed, is the segment's text at its index, and is what the regex finds there |
| AttrScanner.MatchesOrdered | src/babel.js:23-35 | the matches of a segment lie inside it, are non-empty, and come in ascending order without overlap |
| AttrScanner.MatchesComplete | src/babel.js:23-35 | no place where the regex matches is skipped |
| AttrScanner.SpaceRunLongest | src/babel.js:23 | no run of white space from a position is longer than the one `\s*` takes first |
| AttrScanner.WordRunLongest | src/babel.js:23 | no run of non-white-space from a position is longer than the one `[\S]+` takes first |
| AttrScanner.DefaultValueAtFinds | src/babel.js:23 | backtracking over default lengths finds a default whenever one of the tried lengths is followed by `)`, and the longest such |
| AttrScanner.DefaultGapAtFinds | src/babel.js:23 | backtracking over the white space before a default finds a default part whenever one exists after some gap within the run |
| AttrScanner.DefaultGapFound | src/babel.js:23 | white space, a non-white-space value and `)` are always found as a default part |
| AttrScanner.TailAtComplete | src/babel.js:23 | every instance of `(?:,\s*([\S^)]+))?\)` is matched by the tail search |
| AttrScanner.UnitAtFinds | src/babel.js:23 | trying the units left to right finds a match whenever the written unit, or its omission, is followed by a tail |
| AttrScanner.UnitAtComplete | src/babel.js:23 | every instance of the optional unit and the tail is matched |
| AttrScanner.GapAtFinds | src/babel.js:23 | backtracking over the white space before the unit finds a match whenever the unit and tail follow a gap within the run |
| AttrScanner.RestAtComplete | src/babel.js:23 | every instance of what follows a property name is matched |
| AttrScanner.NameAtFinds | src/babel.js:23 | backtracking over property-name lengths finds a match whose name is at least as long as any length after which the rest matches |
| AttrScanner.MatchAtFinds | src/babel.js:23 | after `attr(` and a word after which the rest matches, the regex matches with a property name at least that long |
| AttrScanner.MatchAtComplete | src/babel.js:23 | the regex is complete and greedy: wherever a well-formed instance of its grammar occurs, it matches at that index, with a property name at least as long as the instance's |
| AttrScanner.MatchesCoverInstances | src/babel.js:22-35 | every instance of the grammar in a segment overlaps one of the collected matches |
| AttrScanner.RestAtLast | src/babel.js:23 | at the last character, only a `)` is matched as the rest, with no unit, gap or default |
| AttrScanner.GreedyName | src/babel.js:23 | when all that follows `attr(` is non-white-space ending in `)`, the property name runs to just before that last `)`, over any `)` and `attr(` inside it |
| AttrScanner.ExampleMatchAt | src/babel.js:23 | in `attr(a)attr(b)` the regex matches the whole text at 0, with property name `a)attr(b` and no unit or default |
| AttrScanner.ExampleMatches | src/babel.js:22-35 | `attr(a)attr(b)` holds exactly one match, not two |
| AccessorBuilder.UpperFirst | src/babel.js:95 | `charAt(0).toUpperCase() + slice(1)` keeps the length and every character after the first; the first changes exactly when it is a lower-case ASCII letter, into its capital |
| AccessorBuilder.UpperFirstFacts | src/babel.js:95 | upper-casing leaves a string that does not start with a lower-case ASCII letter unchanged, and is idempotent |
| AccessorBuilder.AccessorName | src/babel.js:94-96 | the name is `get`, then the property name's first character upper-cased, then the rest of the property name unchanged |
| AccessorBuilder.ReturnValue | src/babel.js:64-89 | the returned value is a conditional exactly when a default was captured, a sum exactly when a unit was captured without a default, and otherwise the bare `props.name` |
| AccessorBuilder.AccessorShape | src/babel.js:64-99 | the accessor's body is `props.name`, `props.name + "unit"`, or `props.name ? props.name : ("default" + "unit")`, depending on which groups are present |
| AccessorBuilder.UnitsNonEmpty | src/babel.js:23 | no unit of a match is the empty string |
| AccessorBuilder.Accessor | src/babel.js:64-99 | the accessor is a function of the single parameter `props`, named `get` and the capitalised property name |
| AccessorBuilder.AccessorRoundTrip | src/babel.js:64-99 | the property name, unit and default can be read back from the accessor built for a match |
| AccessorBuilder.AccessorInjective | src/babel.js:64-99 | matches with different groups get different accessors |
| AccessorBuilder.DefaultDropsUnit | src/babel.js:77-88 | with a default, the branch taken when the property is set is the bare `props.name`; the unit goes only to the fallback |
| Splicer.Slice | src/babel.js:45 | `str.slice(a, b)` is the substring `s[a..b]` whenever `a <= b <= |s|` |
| Splicer.SliceFrom | src/babel.js:47 | `str.slice(a)` is the suffix from `a` whenever `a <= |s|` |
| Splicer.SpliceSegment | src/babel.js:36-112 | the `for` loop over a segment's matches, and the pushes of the segment's interpolation, build exactly the segment's fold step |
| Splicer.SpliceNext | src/babel.js:20-115 | one reduce step scans segment `i` and splices it. It reports a match exactly when segment `i` holds one, which is when the match count grows |
| Splicer.ReduceSegments | src/babel.js:18-117 | the reduce yields the fold over all segments, and `didFindAtLeastOneMatch` is set exactly when some segment has a match |
| Splicer.FindAndReplaceAttrs | src/babel.js:15-124 | the result is the rebuilt template when some segment matched, and the input template otherwise |
| Splicer.MatchesTiled | src/babel.js:23-35 | each match of a segment starts at or after the end of the previous one, and is the segment's text there |
| Splicer.WovenPrefix | src/babel.js:45-47 | the texts before the first `k` matches, each followed by its match, are the segment up to the cursor after match `k` |
| Splicer.CutsRoundTrip | src/babel.js:45-47 | the cut texts, interleaved with the matched texts, concatenate back to the whole segment |
| Splicer.SegmentRoundTrip | src/babel.js:45-47 | for the regex's own matches, no text of a segment is lost or duplicated by the cutting |
| Splicer.KeptOntoShape | src/babel.js:49-62 | the new segments keep what was pushed before. Each new one is non-empty with raw equal to cooked, and only the piece after the final match can be the tail, exactly when it is the last segment |
| Splicer.PiecesPrefix | src/babel.js:37-54 | before the final match, the segments pushed are the non-empty texts before the matches so far |
| Splicer.PiecesFinal | src/babel.js:49-62 | the final match adds the non-empty text before it and the non-empty text after it |
| Splicer.PiecesAreKept | src/babel.js:37-62 | the segments pushed for a segment's matches are exactly its non-empty cut texts, in order |
| Splicer.KeptOk | src/babel.js:45-62 | pieces pushed onto well-formed segments leave them well formed, with the tail allowed only on the final piece of the last segment |
| Splicer.SegmentQuasisOk | src/babel.js:45-108 | one segment's step keeps the new segments well formed: each is an input segment or a new non-empty text, and only the last can be the tail |
| Splicer.ReduceQuasis | src/babel.js:20-117 | after any number of segments, the new segments are input segments or new non-empty texts, and none is the tail before the final segment is handled |
| Splicer.SpliceQuasis | src/babel.js:15-124 | in the returned template, only the final segment can be the tail, and every segment is an input segment or a new non-empty text |
| Splicer.AccessorsOntoLength | src/babel.js:100 | one accessor is pushed per match |
| Splicer.AccessorsOntoIndex | src/babel.js:100 | the accessors are appended after the earlier interpolations, which are kept, one per match in match order |
| Splicer.SegmentExprCount | src/babel.js:100-111 | a segment adds one interpolation per match, then its own interpolation once if it matched and twice if not |
| Splicer.SegmentExprs | src/babel.js:100-111 | a segment keeps the earlier interpolations, then appends its accessors in match order, then copies of its own interpolation |
| Splicer.InterpolationCount | src/babel.js:20-117 | the new interpolations number the matches plus, per segment followed by one, one copy if it matched and two if not |
| Splicer.StubCountAtLeast | src/babel.js:103-111 | every interpolation that follows a handled segment is pushed at least once |
| Splicer.MatchCountZero | src/babel.js:26-27 | no match is counted exactly when no segment has one |
| Splicer.Splice | src/babel.js:15-124 | with no match anywhere, the input template is returned unchanged. With a match in a template with no more interpolations than segments, the result has more interpolations, so it differs |
| CssProp.LastNamed | src/babel.js:150-161 | the attribute found is the last one of that name; none is found exactly when no attribute has that name |
| CssProp.CssTemplate | src/babel.js:165-194 | the value, with one container unwrapped, is accepted exactly when it is a template or string literal; the result is then `css`-tagged, and any other value is the error carrying it |
| CssProp.CssTemplateKeepsText | src/babel.js:176-189 | a template literal is tagged as it is, with no `attr()` expansion. A string becomes the single non-tail segment, raw and cooked equal to the string, with no interpolation |
| CssProp.Merged | src/babel.js:204-231 | the merged class name is `(className + " ") + css…`, with the container's expression or the string literal as `className` |
| CssProp.Removed | src/babel.js:203 | removing the `css` attribute keeps every other attribute in order |
| CssProp.Lowered | src/babel.js:146-233 | the visitor fails only when there is a `css` attribute, and on success removes at most one attribute |
| CssProp.OpeningElement.LowerCssProp | src/babel.js:146-233 | the in-place rewrite of the attribute list is `Lowered` of the old list. On an invalid `css` value the error is raised and the attributes are unchanged |
| CssProp.LoweredUnchanged | src/babel.js:163 | the element is left unchanged exactly when it has no `css` attribute |
| CssProp.LoweredFails | src/babel.js:171-194 | the visitor fails exactly when the last `css` attribute, unwrapped, is neither a string nor a template literal |
| CssProp.LoweredInPlace | src/babel.js:196-201 | without a `className` value, the last `css` attribute is replaced in place by `className={css…}` and nothing else changes |
| CssProp.LoweredMerged | src/babel.js:203-232 | with a `className` value, the `css` attribute is removed and `className` is replaced by the merged name; all other attributes keep their order |
| Shorthand.Normalized | src/babel.js:234-262 | the node is the tagged template left as it is, or a call to `emotion` with two arguments, the second the `css`-tagged spliced template |
| Shorthand.NormalizeShorthand | src/babel.js:234-262 | the visitor returns the normalised node, the `attr()` expansion being done by `FindAndReplaceAttrs` |
| Shorthand.NormalizedShape | src/babel.js:235-262 | `emotion.P` and `emotion(a0, …)` tags become `emotion(<"P" or a0 verbatim>, css<spliced template>)`; exactly the other tags are left untouched |
| Shorthand.NormalizedWithoutAttr | src/babel.js:241-246 | a template without `attr()` goes to `css` unchanged |
| Shorthand.NormalizedSettles | src/babel.js:234-262 | the `css`-tagged template built is not rewritten again when the visitor meets it |
| Shorthand.NormalizedTails | src/babel.js:241-259 | in the template passed to `css`, only the final segment can be the tail |
| CallSimplify.SimplifyCall | src/babel.js:135-143 | the call is replaced exactly when it is a `css` call whose parent is an `emotion` call, and then by the array of its own arguments |
| CallSimplify.SimplifiedArguments | src/babel.js:135-143 | once its arguments are visited, the call keeps its callee and its number of arguments |
| CallSimplify.SimplifiedShape | src/babel.js:135-143 | the `emotion` call keeps its number of arguments: each `css(...)` argument becomes the array of its arguments in order, and the others are kept. A call to anything else is unchanged |
| CallSimplify.SimplifiedIdempotent | src/babel.js:135-143 | visiting the arguments again changes nothing |

## Left out

- **Babel traversal.** The `NodePath` mechanics (`replaceWith`, `remove`, `replaceWithMultiple`,
  `parentPath`) and the visitor dispatch order are not modelled.
  - The attribute list is a field the JSX method rewrites.
  - The other two visitors return the node that replaces their input.
  - Removing the `css` attribute shifts the `className` position; `Shifted` models this.
- **Error text.** The message and code frame of `buildCodeFrameError` are not modelled.
  - The failure is the error value `NotStringOrTemplate`, which carries the unwrapped value.
  - For `<div css />` the source fails while building that message, on `null.value`. The model
    gives the same error value there.
- **Foreign code.** The `babel-plugin-syntax-jsx` parser (`inherits`), the plugin's `name`, the
  bundler configuration, and runtime evaluation of the generated code are not modelled. Runtime
  evaluation covers JavaScript truthiness, string `+` and the `emotion`/`css` runtime. Output is
  syntax only.
- **Raw and cooked text.** Escapes are not interpreted: raw and cooked text are opaque strings,
  and a `null` cooked value is not modelled.
- **Characters.** Characters are Unicode scalar values, not UTF-16 code units, so a match index
  in text with astral characters differs from JavaScript's.
- AccessorBuilder.UpperFirst: `toUpperCase` is modelled for the ASCII letters only. Other
  characters are unchanged.
- **Input shapes the source does not handle by design.**
  - Spread attributes have no name; the model has named attributes only.
  - Computed member tags are not modelled; a member tag's property is a name.
  - A JSX attribute value other than a string or an expression container is not modelled.
  - The test `t.isTemplateLiteral(path.node.quasi)` always holds, because a tagged template's
    quasi is a `Template`.
- Shorthand.NormalizeShorthand: requires an `emotion(...)` tag to have an argument. The source
  reads `arguments[0]` of an empty argument list, which is not a designed case.
- Shorthand.Normalized: the same requirement as `NormalizeShorthand`.
- **`stubs[i]`.** The test `if (stubs[i])` is modelled as "there is an interpolation `i`",
  because syntax-tree nodes are always truthy.
- **Generic lemmas.** The lemmas on the folds are stated for any per-segment scan function.
  `Splice` and the methods instantiate it with the regex's `Matches`.
- **The accessor builder** is a parameter of `AccessorsOnto`, `SegmentStubs` and `ReducedExprs`.
  The model always gives them `Accessor`.
