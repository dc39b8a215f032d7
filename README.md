# Anagram finder: a verified model of the pipeline

`anagram.py` reads one or more word lists and gives every word a
*signature*: the word without separators, with accented letters folded to
their base letter, lower-cased, and with its characters sorted. Two words
are anagrams exactly when their signatures are equal. The program merges
the lists into one sorted list without duplicates and groups the words by
signature. It then prints every group that passes the user's filters: an
optional target word, at least `-m` and at most `-M` words, an exact
signature length `-l`, required characters `-I` and forbidden characters
`-x`.

This project models that pipeline in Dafny and proves what it computes:

- `Signature`: `normalize`, the separator class and the seven fold tables,
  all exactly as written. A reference definition (`Canon`) says which
  character of a signature each kept character of the word contributes.
- `Ordering`: the order Python's `sorted` puts strings in, and strictly
  ascending sequences.
- `CharFilter`: `incl` and `excl` as predicates, and their loops as methods
  proved against them.
- `Corpus`: the cleanup of German list lines (comment lines dropped, the
  `/` annotation cut off), and the merged word list of line 203.
- `Grouping`: the loop that builds the signature map, proved to produce
  "the group of signature s" for every s. Also the partition facts.
- `Selection`: the criteria, including the lowering of the minimum when word
  arguments are given, the emit condition, the emit loop, and the whole run.
- `Scenarios`: the worked example "pot", "pots", "spot", "stop", "tops".

The fold tables in the source are not the idealised ones. `Å` is missing
from the `a` table and `Ø` from the `o` table, while their lower-case
forms are present. Because folding runs before lower-casing, `Å` becomes
`å` in a signature, and a second normalisation turns that `å` into `a`.
The model keeps the tables exactly as the code has them and proves the
consequences:

- `Signature.KeyChar` and `Signature.NormalizeChars`: the only table
  letters a signature can hold are `å` and `ø`.
- `Signature.NormalizeIdempotentIff`: normalising twice changes a signature
  exactly when it holds `å` or `ø`.
- `Signature.CapitalAringNotFolded`: the concrete example.

The program's design folds `î` and `û` too, but the code's `i` and `u`
tables do not hold them. The model follows the code: both letters pass
through the tables unchanged.

## Model

| member | source | states |
|---|---|---|
| Signature.DeleteMembers | anagram.py:136 | removing the separator class keeps exactly the characters outside the class |
| Signature.InsertChar | anagram.py:75 | inserting a character into a sorted string keeps it sorted and adds exactly that character |
| Signature.Sort | anagram.py:75 | `sorted` yields an ascending string with the same characters, counted with multiplicity |
| Signature.SortedUnique | anagram.py:75 | two sorted strings with the same characters are equal, so the sorted result is unique |
| Signature.SortSorted | anagram.py:75 | sorting an already sorted string changes nothing |
| Signature.FoldAt | anagram.py:67-73 | the seven substitutions keep the length and replace each character by its table's base letter, leaving other characters alone |
| Signature.ChainIsCanon | anagram.py:67-75 | the substitution chain followed by lower-casing equals the reference definition, character by character |
| Signature.CanonLength | anagram.py:74 | the reference signature is as long as the word minus its separator characters |
| Signature.NormalizeSpec | anagram.py:63-76 | the signature is sorted, is a permutation of the kept, folded, lower-cased characters, and its length is the word's length minus the separators removed |
| Signature.AnagramIff | anagram.py:63-76 | two words have equal signatures if and only if their keyed characters agree as multisets |
| Signature.CanonAppend | anagram.py:67-74 | the reference signature of a concatenation is the concatenation of the reference signatures |
| Signature.CanonPermutation | anagram.py:67-74 | words with the same characters have the same keyed characters, as multisets |
| Signature.NormalizePermutation | anagram.py:63-76 | reordering a word's characters never changes its signature |
| Signature.FoldCharBase | anagram.py:137-143 | a table character folds to an ASCII base letter; any other character is kept |
| Signature.LowerCharClean | anagram.py:75 | lower-casing never produces a separator and is idempotent |
| Signature.LowerCharInto | anagram.py:137-143 | lower-casing lands in a fold table only from that same table, or from `Å` or `Ø` |
| Signature.LowerCharTable | anagram.py:137-143 | a character outside the tables lower-cases into a table only as `Å` to `å` and `Ø` to `ø` |
| Signature.KeyChar | anagram.py:136-143 | a kept character's signature letter is no separator, is already lower case, and is a table letter only as `å` (from `Å` alone) or `ø` (from `Ø` alone) |
| Signature.CanonChars | anagram.py:67-75 | every reference-signature character is the key of a kept character of the word |
| Signature.SignatureChar | anagram.py:63-76 | every signature character is the key of a kept character of the word |
| Signature.NormalizeChars | anagram.py:136-143 | no signature contains a separator or an upper-case letter, and the only table letters it can contain are `å` and `ø` |
| Signature.CanonOfClean | anagram.py:67-75 | the reference signature leaves a string of lower-case, non-table, non-separator characters unchanged |
| Signature.NormalizeEmpty | anagram.py:63-76 | the empty word has the empty signature |
| Signature.NormalizePlain | anagram.py:63-76 | a word of lower-case ASCII letters normalises to the sorted arrangement of its letters |
| Signature.NormalizeIdempotentIff | anagram.py:63-76 | normalising a signature again leaves it unchanged if and only if it contains neither `å` nor `ø` |
| Signature.SecondPassFolds | anagram.py:137-143 | a lower-case string keeps no `å` and no `ø` through normalisation |
| Signature.CapitalAringNotFolded | anagram.py:137 | `Å` normalises to `å`, `å` to `a`, so normalisation is not idempotent on `Å` |
| Signature.NormalizeOneChar | anagram.py:63-76 | a one-character word that is not a separator has that character's key as its signature |
| Ordering.BelowIrreflexive | anagram.py:203 | no string sorts before itself |
| Ordering.BelowTransitive | anagram.py:203 | the string order is transitive |
| Ordering.BelowTotal | anagram.py:203 | any two different strings are ordered one way or the other |
| Ordering.BelowAsymmetric | anagram.py:203 | two strings never sort before each other |
| Ordering.AscendingUnique | anagram.py:203 | a strictly ascending sequence is determined by its set of elements |
| CharFilter.InclScan | anagram.py:79-83 | `incl` returns true if and only if every character asked for occurs in the string |
| CharFilter.ExclScan | anagram.py:85-89 | `excl` returns true if and only if no character asked for occurs in the string |
| CharFilter.CharSetOnly | anagram.py:79-89 | neither test depends on the order or repetition of the characters asked for |
| CharFilter.CharFilterEdges | anagram.py:79-89 | requiring nothing always passes; one forbidden or required character is tested by membership |
| Corpus.NonSlashRun | anagram.py:144 | `[^/]*` matches the longest slash-free prefix: the next character, if any, is `/` |
| Corpus.SlashTagSubFromSlash | anagram.py:144 | substituting the annotation pattern in a string that starts with `/` leaves nothing |
| Corpus.SlashTagSubPrefix | anagram.py:144 | the cleaned line is the part before the first `/`, holds no `/`, and is the whole line when it has no `/` |
| Corpus.GermanLinesSpec | anagram.py:57 | the kept lines hold no `/` and are exactly the slash-free prefixes of the lines not starting with `#` |
| Corpus.FlattenMembers | anagram.py:203 | a word is in the flattened lists if and only if it is in one of the lists |
| Corpus.InsertWord | anagram.py:203 | inserting into a strictly ascending sequence keeps it strictly ascending and adds exactly the word |
| Corpus.SortedSet | anagram.py:203 | `sorted(set(words))` is strictly ascending and holds exactly the given words |
| Corpus.PrepareCorpusSpec | anagram.py:203 | the merged list is strictly ascending, holds no newline, and holds exactly the newline-stripped words of the chosen lists |
| Corpus.PrepareCorpusUnique | anagram.py:203 | any strictly ascending sequence of exactly those words is the merged list |
| Grouping.GroupOfSnoc | anagram.py:208-211 | one more word extends exactly its own signature's group, at the end |
| Grouping.Group | anagram.py:205-211 | the loop's map has a key for exactly the signatures of the list's words, each holding that signature's group |
| Grouping.GroupMembers | anagram.py:205-211 | a word is in the group of a signature if and only if it is in the list and has that signature |
| Grouping.GroupNonEmpty | anagram.py:205-211 | a signature's group is non-empty if and only if some word of the list has that signature |
| Grouping.WordInOneGroup | anagram.py:205-211 | every word is in its own signature's group and in no other |
| Grouping.GroupAscending | anagram.py:205-211 | the groups of a strictly ascending list are strictly ascending |
| Grouping.PartitionSizes | anagram.py:205-211 | the sizes of all groups add up to the length of the word list |
| Selection.ConcatEmpty | anagram.py:190-191 | the joined word arguments are empty if and only if every argument is |
| Selection.AdjustedMin | anagram.py:193-194 | the minimum becomes 1 if and only if it was 1, or it was 2 and the raw joined arguments are non-empty; otherwise it is unchanged |
| Selection.BuildCriteria | anagram.py:190-201 | the reassignments yield the joined arguments' signature as target and the adjusted minimum |
| Selection.DefaultMinimum | anagram.py:193-194 | with the default minimum a group needs two words without word arguments and one with them |
| Selection.ExplicitTwoLowered | anagram.py:193-194 | an explicit minimum of 2 is lowered to 1 as well when word arguments are given |
| Selection.PunctuationTarget | anagram.py:190-201 | an argument made only of separators lowers the minimum but gives the empty target |
| Selection.SelectGroups | anagram.py:213-217 | the loop selects exactly the groups that satisfy the emit condition, each in full |
| Selection.TargetSelectsOne | anagram.py:214 | with a non-empty target only the group under the target signature can pass |
| Selection.CountBounds | anagram.py:215 | when the other tests pass, a group passes if and only if its size is within both inclusive bounds |
| Selection.Run | anagram.py:190-217 | the printed groups are exactly the merged list's groups that satisfy the emit condition; each is strictly ascending and holds only listed words with that signature; a non-empty target admits only its own signature |
| Scenarios.PotSignature | anagram.py:63-76 | "pot" has signature "opt" |
| Scenarios.StopSignature | anagram.py:63-76 | "pots", "spot", "stop" and "tops" all have signature "opst" |
| Scenarios.ScenarioNoTarget | anagram.py:213-217 | with default settings and no word argument, a four-word group passes and a one-word group does not |
| Scenarios.ScenarioTargetPot | anagram.py:190-217 | with the argument "pot" the target is "opt", the minimum is 1, the one-word group under "opt" passes and the group under "opst" does not |
| Scenarios.ScenarioLength | anagram.py:216 | with `-m 1 -l 3` only the three-letter signature passes |
| Scenarios.ScenarioChars | anagram.py:217 | a required character that the signature lacks excludes the group |

## Left out

- Opening and reading the word lists, the ISO-8859-1 decoding and `readlines` (anagram.py:52-61) are I/O. The model starts from the lists of lines. `concatenate`'s `"g"` branch is modelled only as the line cleanup in `Corpus.GermanLines`.
- Corpus.GermanLines requires every line to be non-empty. `line[0]` fails on an empty string, and `readlines` never yields one.
- The default list used when no list was chosen (anagram.py:198-199) is left out as I/O. As written, line 199 calls `concatenate` with one argument where two are required, so that path raises a `TypeError` before any list is read.
- `os.system('clear')` (anagram.py:92) is a shell side effect.
- Option parsing with `getopt`, the usage text and the `int(arg)` conversions (anagram.py:147-188) are left out. The model takes the settings as an already parsed `Options` record.
- Printing, including the 20- and 40-column layout chosen by signature length 18 (anagram.py:218-223), is left out. The model returns the printed groups as a map.
- The order in which groups are visited and printed (anagram.py:213) depends on dictionary iteration order. `Selection.SelectGroups` and `Selection.Run` state which groups are printed, not in what order.
- `str.lower()` is modelled only on ASCII `A`-`Z` and Latin-1 `À`-`Þ` except `×`. Every other character is kept as it is. Full Unicode case mapping is library behaviour outside the model.
- String and character order is Dafny's `char` order, which agrees with Python's code-point order for the characters a `char` holds.
- Signature.NormalizeChars is weaker than "a signature holds no fold-table letter". That claim is false for the code as written: `Å` and `Ø` are missing from the tables, so `å` and `ø` can appear in a signature. The lemma proves that these two are the only exceptions.
- Signature.NormalizeIdempotentIff is weaker than "normalisation is idempotent". Idempotence fails on signatures holding `å` or `ø`, as `Signature.CapitalAringNotFolded` shows. The lemma proves it holds exactly on all other signatures.
- Scenarios.ScenarioNoTarget, Scenarios.ScenarioTargetPot, Scenarios.ScenarioLength and Scenarios.ScenarioChars take groups of the example's sizes (four words and one word) rather than building the groups from the five example words. Grouping the literal words was too costly for the verifier. `Grouping.Group`, `Scenarios.PotSignature` and `Scenarios.StopSignature` together give those group sizes.
