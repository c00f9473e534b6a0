# Outline parser, modelled in Dafny

The outline parser reads a text outline such as

```
1. Scope
1.1. Load (10-20)
1.2. Margin (5)
```

It turns each line into a record `{id, name, characteristic, children}`. The id is the leading run of digits and dots. The name is the text after it, stripped. The characteristic is an optional trailing `(N)` or `(N-M)`. The records are then rebuilt into a forest by counting the dots in each id.

The model has four modules:

- `Text` (`text.dfy`) covers the character classes of the pattern (ASCII `\d`, `[\d\.]`, `\s`), greedy runs, `str.strip()` and `int()`.
- `LineParser` (`line_parser.dfy`) covers `parse_line`. The pattern `^([\d\.]+)\s*(.*?)\s*(?:\((\d+)(?:-(\d+))?\))?$` is written out by hand.
  - `Fits` says declaratively when a cut of a line matches the pattern.
  - `MatchLine` computes the cut that Python's backtracking engine picks.
  - `MatchIsPreferred` proves that this is the cut the engine prefers among all cuts that fit.
- `TreeBuilder` (`tree_builder.dfy`) covers `build_tree`, in place over an array of records whose `children` hold the positions of the child records.
  - `ParentOf` reads `parent_map`, modelled as `FrontierMap`.
  - `ParentOf` is proved equal to an independent description: the latest earlier record one level up.
  - `Roots`, `Attached` and `Placed` describe the output. `BuildTree` is proved against them.
- `Outline` (`outline.dfy`) covers the filter loop of `main` over an in-memory list of lines, followed by the call to `build_tree`.

The level of a record follows the code: the number of dots minus one. Ids written with a trailing dot (`1.`, `1.1.`) therefore get levels 0, 1, and so on. An id without any dot (`1`) gets level −1 and never appears in the tree. A dot-separated id without a trailing dot is one level shallower than its dot count suggests: `1.1` is a root. A reading of the outline format in which `"1"` is depth 0 and `"1.2"` is depth 1 disagrees with the code. The model follows the code, and `TreeBuilder.DotSeparatedIds` shows what the code does with such ids.

## Model

| member | source | states |
|---|---|---|
| Text.Run | parser/parser.py:10 | the greedy run of a character class is the longest prefix of that class: every character in it belongs to the class and the next one does not |
| Text.Strip | parser/parser.py:17 | `strip()` gives a slice of the input with no whitespace at either end, preceded by exactly the leading whitespace run and followed only by whitespace |
| Text.StripFrame | parser/parser.py:17 | stripping a core that has no whitespace at its ends, framed by whitespace on both sides, gives back exactly that core |
| Text.StripTrimmed | parser/parser.py:17 | `strip()` leaves a string with no whitespace at its ends unchanged |
| Text.DecimalValue | parser/parser.py:23-25 | the definition of `int()` on a string of decimal digits; `Text.DecimalRoundTrip` and `Text.LeadingZero` characterise it |
| Text.DecimalRoundTrip | parser/parser.py:23-25 | `int()` reads back every natural number written in decimal, with no limit on the number of digits |
| Text.LeadingZero | parser/parser.py:23-25 | `int()` ignores a leading zero, so `(007)` and `(7)` give the same bound |
| LineParser.ParseAnnotation | parser/parser.py:10 | when the annotation group matches a whole string, its digit groups are well formed and print back to that string |
| LineParser.AnnotationRoundTrip | parser/parser.py:10 | parsing the text of any well-formed annotation gives back its groups |
| LineParser.AnnotationSuffixUnique | parser/parser.py:10 | at most one suffix of a string is an annotation, because only its first character can be `(` |
| LineParser.LazyEnd | parser/parser.py:10 | the lazy `.*?` stops at the first position where the rest of the line matches `\s*(annotation)?$`, and at no earlier one |
| LineParser.TailFits | parser/parser.py:10 | the definition of the texts that `\s*(annotation)?$` matches: whitespace followed by an annotation or by nothing; `LineParser.MatchTail` and `LineParser.MatchTailUnique` characterise it |
| LineParser.MatchTail | parser/parser.py:10 | a tail that matches `\s*(annotation)?$` splits into whitespace followed by an annotation's text |
| LineParser.MatchTailUnique | parser/parser.py:10 | whitespace followed by an annotation matches `\s*(annotation)?$`, and the split of it is exactly that whitespace and that annotation |
| LineParser.MatchBody | parser/parser.py:10 | what follows the leading whitespace splits into the shortest name, whitespace and an annotation, and no shorter name leaves a tail that matches |
| LineParser.Fits | parser/parser.py:10 | the definition of the cuts of a line that the whole pattern accepts: id, whitespace, name, and a tail that `TailFits`; `LineParser.MatchLine` and `LineParser.MatchIsPreferred` characterise it |
| LineParser.MatchLine | parser/parser.py:10-12 | the pattern fails exactly on the empty line and on lines not starting with a digit or `.`; otherwise the cut fits the pattern and its id is the longest leading run of digits and dots |
| LineParser.MatchIsPreferred | parser/parser.py:10 | every other cut that fits has a shorter or equal id; with the same id, shorter or equal leading whitespace; with both the same, a longer or equal name; with all three the same, it is the match |
| LineParser.MatchedBounds | parser/parser.py:10-19 | whichever suffix of the line is an annotation, its groups are the ones the match reports |
| LineParser.MatchedNameTrimmed | parser/parser.py:10-17 | the lazily matched name already has no whitespace at its ends |
| LineParser.MatchedName | parser/parser.py:17 | the name is everything between the id and the annotation, stripped, and stripping it again changes nothing |
| LineParser.ParseLine | parser/parser.py:5-35 | `None` exactly for the empty line and lines not starting with a digit or `.`; otherwise the id is the longest leading run of digits and dots, children are empty and the name has no whitespace at its ends |
| LineParser.CharacteristicOf | parser/parser.py:21-28 | a characteristic is present exactly when the annotation is, and `(N)` gives `min == max`; both bounds are read with `int()` |
| LineParser.AnnotatedLine | parser/parser.py:10-28 | any suffix of the line that is an annotation decides the characteristic |
| LineParser.SingleValueLine | parser/parser.py:22-28 | a line ending in `(N)` has `{min: N, max: N}`, with leading zeros and `(0)` accepted |
| LineParser.RangeLine | parser/parser.py:22-28 | a line ending in `(N-M)` has `{min: N, max: M}`, with no check or reordering when M < N |
| LineParser.CharacteristicHasAnnotation | parser/parser.py:21-28 | a characteristic is only present when some suffix of the line is an annotation |
| LineParser.UnannotatedLine | parser/parser.py:10-21 | the characteristic is `None` exactly when no suffix of the line is `(digits)` or `(digits-digits)`, as with `(x)`, `(3-)` or `(3)` followed by spaces |
| LineParser.UnannotatedName | parser/parser.py:10-21 | without an annotation the name is all the text after the id, stripped, parentheses included |
| TreeBuilder.CountChar | parser/parser.py:48 | the definition of `count('.')`; `TreeBuilder.CountCharBounds` characterises it |
| TreeBuilder.CountCharBounds | parser/parser.py:48 | a character's count is at most the length, and is zero exactly when the character is absent |
| TreeBuilder.Level | parser/parser.py:48 | the definition of a record's level, its dot count minus one; `TreeBuilder.LevelRange` and `TreeBuilder.LevelExamples` characterise it |
| TreeBuilder.LevelRange | parser/parser.py:48 | a level is at least −1 and below the id's length, and it is −1 exactly when the id has no dot |
| TreeBuilder.Levels | parser/parser.py:46-48 | the level of each record is its dot count minus one |
| TreeBuilder.LevelExamples | parser/parser.py:48 | the levels of the ids in the examples: `1.`, `2.`, `1.1` and `1.2` are level 0, `1.1.` and `1.1.1` level 1, `2.1.1.` and `1.1.1.` level 2, and `1` level −1 |
| TreeBuilder.FrontierMap | parser/parser.py:43-58 | the definition of `parent_map` once the first records are reached: each record stored under its level, later ones overwriting earlier ones; `TreeBuilder.FrontierLatest` characterises it |
| TreeBuilder.FrontierLatest | parser/parser.py:43-58 | `parent_map[k]` is the latest record reached so far at level k, and there is no entry for a level not yet seen |
| TreeBuilder.ParentOf | parser/parser.py:50-56 | a record has a parent exactly when its level is not 0 and an earlier record is one level up; the parent is the latest such record |
| TreeBuilder.Roots | parser/parser.py:41-51 | every entry of `tree` is a level-0 record reached so far |
| TreeBuilder.Attached | parser/parser.py:54-56 | every child a record gains is a record reached so far whose parent it is |
| TreeBuilder.Placed | parser/parser.py:45-58 | placing records keeps their number and their ids |
| TreeBuilder.PlacedAt | parser/parser.py:45-58 | once records are placed, each one keeps its fields and its original children, followed by exactly the records placed under it |
| TreeBuilder.PlacedFromFresh | parser/parser.py:45-58 | records that start with no children end with exactly the records placed under them as children |
| TreeBuilder.BuildTree | parser/parser.py:37-60 | the result lists the level-0 records; each record's children grow exactly as the placement prescribes |
| TreeBuilder.AppendChild | parser/parser.py:56 | appends one position to one record's children and changes nothing else |
| TreeBuilder.RootsOrdered | parser/parser.py:50-51 | roots keep input order |
| TreeBuilder.RootsComplete | parser/parser.py:50-51 | a record is a root exactly when its level is 0 |
| TreeBuilder.RootIffOneDot | parser/parser.py:48-51 | a record is a root exactly when its id holds exactly one dot |
| TreeBuilder.AttachedOrdered | parser/parser.py:45-56 | siblings keep input order, so no record is a child twice |
| TreeBuilder.AttachedComplete | parser/parser.py:54-56 | a record gains as a child exactly the records whose parent it is |
| TreeBuilder.PlacedOnce | parser/parser.py:50-56 | a root is nobody's child, and a child has a single parent |
| TreeBuilder.DotlessDropped | parser/parser.py:48-56 | an id without a dot is level −1 and appears neither among the roots nor among anyone's children |
| TreeBuilder.StaleParent | parser/parser.py:52-58 | on levels 0, 1, 0, 2, which `TreeBuilder.LevelExamples` gives to `1.`, `1.1.`, `2.`, `2.1.1.`, the last record goes under the stale second one, `1.1.` |
| TreeBuilder.LevelGapDropped | parser/parser.py:55 | on levels 0, 2, which `TreeBuilder.LevelExamples` gives to `1.`, `1.1.1.`, the second record has no parent |
| TreeBuilder.DotSeparatedIds | parser/parser.py:48-58 | on levels −1, 0, 0, 1, which `TreeBuilder.LevelExamples` gives to `1`, `1.1`, `1.2`, `1.1.1`, the record `1` is dropped, `1.1` and `1.2` are the roots, and `1.1.1` goes under `1.2` |
| Outline.StrippedHasNoNewline | parser/parser.py:67-71 | a line as `readlines()` gives it has no line feed left once stripped |
| Outline.Keep | parser/parser.py:71-77 | a line contributes a record exactly when, stripped, it starts with a digit or `.`; the record has no children and its id is a prefix of the stripped line |
| Outline.CommentCheckRedundant | parser/parser.py:72-75 | skipping `#` lines never changes which records are kept, because `#` cannot start an id |
| Outline.Kept | parser/parser.py:69-77 | at most one record per line, each without children |
| Outline.KeptCount | parser/parser.py:70-77 | one more line adds exactly one record when it strips to something starting with a digit or `.`, and none otherwise |
| Outline.CollectRecords | parser/parser.py:69-77 | the loop collects exactly the records of the lines that are kept, in order |
| Outline.ParseOutline | parser/parser.py:69-79 | the collected records, each with exactly the records placed under it as children, and the level-0 records as the tree |

## Left out

- Reading `source.txt` and writing `output.json` with `json.dump` (parser/parser.py:66-67, 81-82) are file I/O and a library serialiser. `Outline` starts from the list of lines and ends with the records and the roots.
- The tree holds positions in the record array instead of references to shared dictionaries. Nested output through shared references is not modelled beyond that.
- `BuildTree` works on its own array. The mutation of the caller's dictionaries, which the caller may also hold elsewhere, is not modelled.
- `\d`, `\s` and `strip()` are modelled on ASCII only. Non-ASCII digits and whitespace are not modelled.
- Python's `re` engine in general is not modelled: only this one pattern's meaning is.
- Text.DecimalValue: Python's `int()` raises `ValueError` on a decimal string longer than the interpreter's digit limit (`sys.get_int_max_str_digits()`, 4300 by default since CPython 3.11 and the 3.7-3.10 security releases). Neither `parse_line` nor `main` catches it, so `main` stops before building the tree. The model reads digit strings of any length.
- Text.DecimalRoundTrip: holds in the model for numbers of any length; under the digit limit above, Python reads back only numbers of at most 4300 digits.
- LineParser.CharacteristicOf: an annotation with more digits than the limit gives a characteristic in the model, where Python raises `ValueError` and `main` writes nothing.
- LineParser.SingleValueLine: the same digit limit applies; the model gives `{min: N, max: N}` for every length of N.
- LineParser.RangeLine: the same digit limit applies to both bounds.
- LineParser.ParseLine: requires a line with no line feed, so the behaviour of `$` and `.` around a line feed is not modelled. `main` only ever passes stripped lines from `readlines()`, which have none; `Outline.StrippedHasNoNewline` proves this.
- Text.Strip: strips ASCII whitespace only, as noted above.
- Text.Run: the `\d` and `\s` classes are ASCII only, as noted above.
