# Restriction-site library and DNA validation

This project is a Dafny model of the logic behind the restriction-site finder in `main.py`. The program is a small desktop tool. The user types a DNA sequence and picks restriction enzymes from an editable table. The tool then searches the sequence, and its complement, for each enzyme's recognition site.

The model covers:

- **DNA validation** (`Dna.CheckDna`). Every character must be one of `G`, `C`, `T`, `A`, and the length must be a multiple of three. The characters are checked first, so a string that is wrong in both ways gets the bad-character message.
- **The restriction library** (`Restrictions`). This is a Python dictionary from recognition sequence to enzyme name, and Python dictionaries keep insertion order. The model is an immutable sequence of `Entry` values with unique patterns (the `Library` subset type). It includes the seven built-in entries, plus the dictionary operations the program uses: lookup, assignment and `del`.
- **`update_rest`** (`Restrictions.UpdateRest`). This is the edit behind the "Add restriction" button. The pattern's alphabet is checked first, then its length (4 to 8). An empty name deletes the pattern; deleting a pattern that is absent fails. Any other name inserts the pattern or renames it. Each pop-up becomes a `Message` value. The function returns an `Update` holding both the verdict and the library afterwards.
- **`get_nth_key`** (`Restrictions.GetNthKey`). Indexed access in insertion order, where a negative index counts from the end.
- **The "Run" handler up to the search** (`Motifs`). It builds the motif list that is searched: the selected entries, followed by one `(complement(pattern), "compl_" + name)` entry per selected entry. The base-wise complement is defined in `sequence_algorithms`, which is not part of this model, so it is passed in as a function parameter.

## Model

| member | source | states |
|---|---|---|
| `Dna.CheckDna` | main.py:30-41 | Accepts exactly the strings made of G, C, T, A whose length is a multiple of 3, so the empty string is accepted. Reports a bad character whenever one is present, even if the length is also wrong. Reports the length only for strings whose characters are all bases. |
| `Restrictions.SeedIsValid` | main.py:10-18 | The built-in library has seven entries, in source order, with unique patterns. Every pattern is a 4–8 base ACGT string and every name is non-empty. |
| `Restrictions.Lookup` | main.py:168 | `restrictions[p]` is defined exactly when `p` is a key, and then it is the name stored with that key. |
| `Restrictions.Put` | main.py:62 | Assigning to an existing key keeps the length and replaces only that entry, in its place. Assigning to a new key appends it last and leaves everything before it unchanged. |
| `Restrictions.Remove` | main.py:60 | `del` of a key at position k gives the library with entry k cut out, and all other entries keep their order. For an absent key the model returns the library unchanged, where Python would raise (see below). |
| `Restrictions.UpdateRest` | main.py:43-63 | Any failure leaves the library unchanged. A non-ACGT pattern fails with bad_base, taking precedence over length. A length outside 4..8 fails with bad_base_length. Deleting an absent pattern fails with base_not_found. The call succeeds exactly in the remaining cases. A delete removes exactly `base`. An insert maps `base` to `name` and leaves every other entry's value and position alone. The key count grows by one exactly when `base` was new, and the new entry goes last. Well-formed libraries stay well formed. |
| `Restrictions.GetNthKey` | main.py:20-28 | For 0 ≤ n < size, returns the n-th key. For −size ≤ n < 0, returns key n + size. Any other n gives IndexError. |
| `Restrictions.LookupAtIndex` | main.py:166-168 | The key at position k is held at that position only, and looking it up yields the name at position k. |
| `Restrictions.LookupAfterPut` | main.py:62 | Seen as a dictionary, an assignment changes the value of `p` only. |
| `Restrictions.LookupAfterRemove` | main.py:60 | Seen as a dictionary, `del` makes `p` absent and changes no other key. |
| `Restrictions.InsertThenDelete` | main.py:56-62 | Inserting a valid, absent pattern with a non-empty name succeeds. Deleting it again then succeeds and restores the original library exactly. |
| `Restrictions.DeleteThenReinsert` | main.py:56-62 | Deleting a valid entry and re-adding it under the same name moves that entry to the end of the insertion order and leaves the rest as it was. |
| `Restrictions.PutIdempotent` | main.py:62 | Assigning the same name twice gives the same library as assigning it once. |
| `Motifs.SelectEntry` | main.py:164-168 | Clicking table row `select` yields the library entry at that (wrapped) position, with its own name. An out-of-range row gives IndexError. |
| `Motifs.ComplementedIsNewMotif` | main.py:134-135 | A derived motif is never the entry it came from, because its name is six characters longer. Removing the six-character `compl_` prefix gives back the original name. So two selected entries yield the same derived motif only if they have the same name and their patterns have the same complement. |
| `Motifs.CombineMotifs` | main.py:132-136 | The searched list is twice as long as the selection. Its first half is the selection unchanged. Entry \|sel\|+k is the complemented form of selection entry k. |
| `Motifs.Run` | main.py:130-137 | A motif list is produced exactly when the DNA passes validation, and it is then the combined list. Otherwise the result is the validation message. |

## Left out

- The PySimpleGUI windows (`main_window`, `result_window`) and the pop-ups. Each pop-up is modelled as a `Message` value instead.
- The pandas table built from the library (main.py:94-98). It only presents the library.
- The report text (main.py:139-162). It is presentation, and as written it is not valid Python (the bare `if` at line 144 and `if pos53` at line 151).
- The row-selection toggle and the `user_click` flag (main.py:169-179). This is user-interface event state. Only the lookup of the clicked row's entry (`Motifs.SelectEntry`) is modelled.
- The window restart after a successful edit (main.py:185-186). This is user-interface control flow.
- `complement`, `find_instances` and `find_positions` from `sequence_algorithms`. That module is not part of this model. `complement` is a function parameter, and the motif search itself is not modelled.
- `Restrictions.Remove`: returns the library unchanged where Python's `del restrictions[p]` would raise `KeyError` on an absent key. Its only caller first checks that the key is present (main.py:57-59), so that case never arises there.
- `Restrictions.Lookup`: returns `None` where Python's `restrictions[p]` would raise `KeyError`. The program only indexes keys it has just obtained from the library, so that case never arises there.
