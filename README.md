# Negatives generator: a Dafny model of the list builders

`negatives_generator.py` turns a list the user types into two comma-joined
prompts:

- a "good" version, which repeats the items;
- a "bad" version, which holds every item negated ("not x", "no x",
  "un- x") followed by as many "<descriptor> <item>" terms as fit within
  1000 characters.

This project models the logic of one round:

- `parse_input`, which turns the raw text into items;
- the four list builders;
- `build_versions`, which composes them.

The modules follow the program's structure:

- `strings.dfy` (module `Strings`) holds the Python string operations the
  program relies on: `str.strip()`, `str.split(",")` and `", ".join(...)`.
  Whitespace is the ASCII set space, tab, line feed, carriage return,
  vertical tab and form feed.
- `parse_input.dfy` (module `InputParsing`) models `parse_input`.
  - The two regular-expression substitutions are written as left-to-right
    rewrites (`CollapseSemicolons`, `TightenCommas`).
  - The central theorem is that normalising and then splitting at commas
    gives exactly what splitting the raw text at every comma and semicolon
    gives (`InputParsing.ParseInput`).
  - Every item is therefore non-empty, stripped and free of both
    separators, and items keep their input order.
- `generators.dfy` (module `Generators`) models the rest.
  - The list builders, which append inside `for` loops, are methods with
    loop invariants.
  - Each method is proved equal to a functional specification, and the
    properties are proved about those specifications.
  - The random choices are parameters:
    - `choices` gives the modifier index that `random.choice` picked for each item;
    - `draws` gives the positions that `random.shuffle` drew, one per
      position `i` and at most `i`, as in CPython's Fisher–Yates loop.
  - The shuffle model produces exactly the permutations:
    - every outcome is a permutation (`Shuffled`);
    - every permutation is an outcome (`ShuffledReachesEveryPermutation`).

Python lists are modelled as Dafny sequences, which are values. This is
exact here because the source copies a list before it changes it (lines 69
and 103). As a result, the caller's descriptor list and negated list are
never changed, and no contract needs to say so.

## Model

| member | source | states |
|---|---|---|
| Strings.Trim | negatives_generator.py:20 | `str.strip()` never lengthens the text, and its result is empty or begins and ends with a character that is not whitespace |
| Strings.TrimLeftSpec | negatives_generator.py:20 | `TrimLeft`, the left half of `strip()`, removes an all-whitespace prefix and stops at a non-whitespace character |
| Strings.TrimRightSpec | negatives_generator.py:20 | `TrimRight`, the right half of `strip()`, removes an all-whitespace suffix and stops at a non-whitespace character |
| Strings.TrimSpec | negatives_generator.py:20 | `strip()` is empty exactly when the text is all whitespace; otherwise the result starts and ends with a non-whitespace character and holds only characters of the input |
| Strings.TrimLeftUnique | negatives_generator.py:20 | cutting an all-whitespace prefix that leaves an empty string or a non-whitespace first character is the left strip |
| Strings.TrimRightUnique | negatives_generator.py:20 | the mirror image for the right strip |
| Strings.TrimOfTrimLeft | negatives_generator.py:17-20 | stripping after removing leading whitespace gives the same item |
| Strings.Split | negatives_generator.py:20 | `str.split` yields at least one piece, and no piece holds a separator |
| Strings.SplitWhole | negatives_generator.py:20 | text without a separator splits into one piece, itself |
| Strings.SplitConcat | negatives_generator.py:20 | splitting at a separator splits the list of pieces there, so n separators give n + 1 pieces, empty ones included |
| Strings.SplitTrimLeft | negatives_generator.py:17-20 | removing leading whitespace changes only the first piece |
| Strings.Join | negatives_generator.py:109 | `", ".join` of no strings is empty; otherwise the joined text begins with the first string and ends with the last |
| Strings.JoinLength | negatives_generator.py:109 | a joined non-empty list is as long as its parts plus one separator between each two neighbours |
| Strings.JoinAppend | negatives_generator.py:108-111 | appending a term to a non-empty list adds the separator and the term to the joined length |
| InputParsing.DropSemicolons | negatives_generator.py:16 | the run of semicolons matched by `[;]+` is consumed whole: the removed prefix is all semicolons, and what is left is a suffix of the text that does not begin with a semicolon |
| InputParsing.CollapseSemicolons | negatives_generator.py:16 | after the first substitution no semicolon is left |
| InputParsing.CleanSplitCollapse | negatives_generator.py:16-20 | turning runs of semicolons into commas and then splitting at commas, stripping and dropping blanks gives the items of splitting at both separators |
| InputParsing.TightenCommas | negatives_generator.py:17 | the rewrite never lengthens the text; what it does at each comma is stated by the next two rows |
| InputParsing.TightenAtComma | negatives_generator.py:17 | the second substitution removes the whitespace just before and just after a comma and rewrites the rest of the text the same way |
| InputParsing.TightenCommasTight | negatives_generator.py:17 | after the second substitution no whitespace stands on either side of any comma |
| InputParsing.CleanSplitTighten | negatives_generator.py:17-20 | removing whitespace around commas does not change the stripped, non-blank pieces |
| InputParsing.Clean | negatives_generator.py:20 | the comprehension keeps at most one item per piece, and each item is non-empty and stripped |
| InputParsing.CleanKeepsNoDelimiter | negatives_generator.py:20 | the list comprehension keeps only non-empty, stripped pieces without a separator |
| InputParsing.SplitAndTrim | negatives_generator.py:20 | line 20 yields at most one item per piece, each non-empty, stripped and comma-free |
| InputParsing.ParseInput | negatives_generator.py:4-21 | `parse_input(raw)` equals splitting `raw` at every comma and semicolon, stripping, and dropping blanks; every item is non-empty, stripped and free of both separators |
| InputParsing.ParseInputConcat | negatives_generator.py:16-20 | text on either side of a separator parses separately and the two lists are concatenated in order |
| InputParsing.ParseInputSingle | negatives_generator.py:16-20 | text without a separator gives its stripped self, or nothing when it is blank |
| InputParsing.ParseInputBlank | negatives_generator.py:16-20 | empty or whitespace-only input gives `[]` |
| InputParsing.ParseInputPadded | negatives_generator.py:16-20 | whitespace around a lone item is dropped |
| InputParsing.ParseInputItem | negatives_generator.py:16-20 | a lone stripped item parses to itself |
| InputParsing.ParseInputEmptyPiece | negatives_generator.py:16-20 | an empty piece between two commas gives no item |
| InputParsing.ParseInputExample | negatives_generator.py:16-20 | `x; y ,, z` parses to `[x, y, z]` for any items, the shape of `parse_input("a; b ,, c") == ["a", "b", "c"]` |
| Generators.NegatedTerm | negatives_generator.py:52 | a negated term is the chosen modifier, one space, then the item, and nothing else |
| Generators.GenerateNegatedList | negatives_generator.py:37-54 | one term per item, in order: term i is modifier `choices[i]`, a space, and item i |
| Generators.SplitNegatedTermInverse | negatives_generator.py:47-52 | a negated term can be read back into its modifier and its item |
| Generators.SplitNegatedTermSound | negatives_generator.py:47-52 | whatever the reader accepts is a negated term |
| Generators.NegatedTermInjective | negatives_generator.py:47-52 | different modifiers or different items give different negated terms |
| Generators.NegatedListDecodes | negatives_generator.py:50-54 | every term of a negated list decodes to its own modifier and item |
| Generators.Swap | negatives_generator.py:70 | one swap of the shuffle keeps the length and the multiset of elements |
| Generators.ShuffleSteps | negatives_generator.py:70 | the swaps for positions below `n` keep the length and leave every position from `n` on untouched, as CPython's loop fixes positions from the end |
| Generators.ShuffleStepsPermutes | negatives_generator.py:70 | each run of shuffle steps is a permutation |
| Generators.Shuffled | negatives_generator.py:69-70 | `random.shuffle` on a copy: the result has the descriptors' length and is a permutation of them |
| Generators.ShuffledReachesEveryPermutation | negatives_generator.py:69-70 | every permutation of the descriptors is the outcome of some draws |
| Generators.ShuffleStepsReadsPrefix | negatives_generator.py:70 | the shuffle steps below position n read only the draws below n |
| Generators.DescriptorTerm | negatives_generator.py:80 | a bad term is the descriptor, one space, then the item, and nothing else |
| Generators.PairWithItems | negatives_generator.py:77-81 | term i pairs descriptor i with item `i mod |items|`, with one term per descriptor |
| Generators.GenerateBadDescriptorList | negatives_generator.py:57-86 | exactly `|descriptors|` terms, whatever the item count; term i is shuffled descriptor i, a space, and item `i mod |items|` |
| Generators.BadListUsesEveryDescriptor | negatives_generator.py:69-81 | every descriptor of the catalogue appears in a term |
| Generators.PermutationKeepsDistinct | negatives_generator.py:69-70 | a shuffle of a list without repeats has no repeats |
| Generators.DescriptorTermCancel | negatives_generator.py:80 | terms for the same item differ when their descriptors differ |
| Generators.SingleItemTermsDistinct | negatives_generator.py:77-84 | with a single item, every term pairs it with a different descriptor |
| Generators.CombineLists | negatives_generator.py:102-120 | the result is the whole negated list followed by the first k bad terms in order; if k > 0 the joined result fits the limit; if a bad term was left out, taking it too would exceed the limit |
| Generators.JoinPrefixMonotone | negatives_generator.py:106-111 | taking more bad terms never shortens the joined list |
| Generators.BudgetedMergeIsLongest | negatives_generator.py:106-112 | no longer run of bad terms fits the limit than the one taken |
| Generators.BudgetedMergeUnique | negatives_generator.py:103-114 | the budget promise determines the merged list uniquely |
| Generators.BudgetedMergeKeepsNegated | negatives_generator.py:103-112 | when not even the first bad term fits, the result is exactly the negated list, which is never cut |
| Generators.RepeatIndex | negatives_generator.py:137-138 | element i of the items written out n times is item `i mod |items|` |
| Generators.CycleIndex | negatives_generator.py:134-138 | element i of the cyclic list is item `i mod |items|`, and the list has the requested length |
| Generators.GeneratePositiveList | negatives_generator.py:123-140 | as many terms as the combined list; term i is item `i mod |items|`; the list is the items repeated whole as often as they fit, followed by a prefix of them |
| Generators.PositiveListExample | negatives_generator.py:134-140 | `["a", "b"]` with five target terms gives `["a", "b", "a", "b", "a"]` |
| Generators.BuildVersions | negatives_generator.py:143-163 | the combined list is the budgeted merge at limit 1000 of the negated terms and the shuffled bad terms: every negated term first, then the longest run of bad terms in shuffled order whose join fits, stopping at the first that would not fit; it has between `|items|` and `|items| + |descriptors|` terms; once a bad term is taken the bad version is at most 1000 characters; the positive list cycles the items to the same length; the two versions are the joins of the two lists |

## Left out

- `get_multiline_input` (negatives_generator.py:23-35) reads lines from the terminal until `END`. It is terminal I/O and is not modelled.
- The `main` loop (negatives_generator.py:173-213) is not modelled: it holds the prompts, `exit`, the `random` reorder of the items and the empty-input message. The reorder is one more `random.shuffle`, the operation `Generators.Shuffled` models.
- The printing in `build_versions` (negatives_generator.py:165-170) is left out. `Generators.BuildVersions` returns the two lists and the two strings that would be printed.
- The random number generator is not modelled. `random.choice` and `random.shuffle` become the parameters `choices` and `draws`.
- The descriptor catalogue (negatives_generator.py:175-180) is not modelled; the descriptors are a parameter. Line 180 has the same shape as line 20, which `InputParsing.SplitAndTrim` models.
- The `combination_type` parameter of `combine_lists` is dropped and only "negated_first" is modelled. Any other value leaves `combined_terms` unbound, and line 120 raises an error; the other modes exist only as comments (lines 116-118).
- Generators.GenerateBadDescriptorList: requires non-empty items when there are descriptors. The source raises `ZeroDivisionError` at line 79 in that case. No caller reaches it, because `main` rejects an empty list at lines 196-198.
- Generators.GeneratePositiveList: requires non-empty items when the target list is non-empty. The source raises `ZeroDivisionError` at line 138 in that case, which the same check in `main` prevents.
- `\s` and `str.strip()` also treat Unicode whitespace and the ASCII separators `\x1c`-`\x1f` as whitespace. The model uses the six ASCII whitespace characters only.
- InputParsing.TightenCommas: models the regular expression `\s*,\s*` as a left-to-right rewrite. Its own contract states only that the text does not grow; what it does is stated by `InputParsing.TightenAtComma`, `InputParsing.TightenCommasTight` and `InputParsing.CleanSplitTighten`.
