# shtrih core in Dafny

A model of the pure logic inside the `shtrih` scripts. The program describes
itself as importing codes from `SHTRIH.DBF(7)` into `SHTRIH.DBF(8)`; below,
"the 7 database" and "the 8 database" name those two sides, and `RN7`/`RN`
are record numbers on each side. The scripts mostly move data between DBF
files, pandas frames and an Oracle database. Three pieces of them are computation rather than I/O, and
those three are modelled here:

- **`convert7`** (`arb_shtrih.py`). Each character of a record number of the 7 database
  (`RN7`) becomes the decimal code point, left-padded with zeros to three
  digits, and the pieces are concatenated. Module `Decimal` models Python's
  `str` on naturals and `str.zfill`. Module `Rn7Digits` models `convert7` and
  a decoder for it. The encoding is a bijection onto its image when every
  code point is below 1000. For wider code points (Cyrillic is 0x0400–0x04FF)
  distinct strings can collide, and a concrete Cyrillic collision is proved.
- **`read_params`** (`arb_shtrih.py`, duplicated verbatim in `invs_test.py`).
  This is the line parser for `pars.txt`. An `ORACLE_CONNECTION` line takes
  the next five lines as `cli`, `host`, `service`, `authid` and `password`. A
  `DDBF_files` line takes the next two lines as `dbf7` and `dbf8`. Each value
  is the text before the first `-`, stripped of whitespace. The loop stops
  when the line read at the top of an iteration is empty. A value read past
  end of file gives "" without stopping it.
  - Module `TextLines` models `in` on strings, `split('-')[0]`, `strip()` and
    the sequence of `readline` results.
  - Module `Params` models the loop as a recursive function over a cursor.
  - Module `ParamsLoop` models it as an imperative `while True` loop, proved
    equal to the functional one.
- **The INSOST pairing in `oracle_insert`** (`invs_test.py`). For every
  distinct `PRN` of the 8 database's substitution rows (ascending, as
  `np.unique` returns them), and every distinct `NOMEN` under it, the `RN7`
  values of the `INSOST` rows in that group are zipped with the `RN` values
  of the substitution rows in that group. Each resulting pair is one `(' INSOST ', rn7, rn8)` row
  of `UDO_T_IMPORT7`.
  - Module `NpUnique` models `np.unique` on integers.
  - Module `InsostPairing` models the groups, the selections, `zip`, and the
    rows inserted, in the order they are inserted.

The step that would match records of the two sides, `process` in
`arb_shtrih.py`, reads `udo_import7.csv` without using it, then loops over
`db8.IRN` and `pass`es; its earlier body is commented out
(arb_shtrih.py:247-267). There is no matching logic in the code to model.

## Model

| member | source | states |
|---|---|---|
| Decimal.Str | arb_shtrih.py:68 | `str(n)` is a non-empty digit string of some length `k` with `n < 10^k`; when `k > 1` it has no leading zero and `10^(k-1) <= n` (for `n = 0` it is the single digit "0") |
| Decimal.ZFill | arb_shtrih.py:68 | `zfill(width)` keeps the number a digit string stands for: the result is again all digits and parses to the same value; it has `max(width, len)` characters, with a leading `+`/`-` kept in front of the padding |
| Decimal.ParseStr | arb_shtrih.py:68 | reading the digits of `str(n)` back gives `n` |
| Rn7Digits.EncodeChar | arb_shtrih.py:68 | one character becomes digits only, `max(3, len(str(ord(c))))` of them, that read back as its code point (for every code point, including four- and more-digit ones); a code point below 1000 gives exactly three digits |
| Rn7Digits.Convert7 | arb_shtrih.py:62-68 | the empty string gives ""; the result is all digits and at least three per character; exactly three per character when every code point is below 1000 |
| Rn7Digits.Convert7Append | arb_shtrih.py:68 | the encoding of a concatenation is the concatenation of the encodings (the join is character by character) |
| Rn7Digits.Decode7 | arb_shtrih.py:68 | the inverse, read in 3-digit blocks; a success yields only code points below 1000, one per three digits |
| Rn7Digits.Convert7RoundTrip | arb_shtrih.py:68 | decoding `convert7(s)` gives back `s` when every code point of `s` is below 1000 |
| Rn7Digits.Decode7Sound | arb_shtrih.py:68 | whatever the decoder accepts re-encodes to the very input |
| Rn7Digits.Decode7Iff | arb_shtrih.py:68 | `Decode7(d) == Some(s)` holds exactly when every code point of `s` is below 1000 and `convert7(s) == d` |
| Rn7Digits.Convert7Injective | arb_shtrih.py:68 | two strings whose code points are all below 1000 have the same encoding only if they are equal |
| Rn7Digits.Convert7CollidesAbove999 | arb_shtrih.py:68 | with four-digit code points the encoding is not injective, already on Cyrillic: the distinct strings "gи" (103, 1080) and "ЇP" (1031, 80) both give `"1031080"` |
| TextLines.Contains | arb_shtrih.py:45 | `pat in text` holds exactly when `pat` occurs at some index of `text` |
| TextLines.BeforeFirst | arb_shtrih.py:46 | `split('-')[0]` is the longest prefix without `-`: it contains no `-`, and when shorter than the line the next character is `-` |
| TextLines.StripSpec | arb_shtrih.py:46 | `strip()` removes exactly the leading and trailing whitespace run: the result is a middle slice, and what is cut off on each side is whitespace; the result neither starts nor ends with whitespace |
| TextLines.Readline | arb_shtrih.py:44 | the cursor view of `readline`: on the lines of a real file it returns "" exactly when the file is exhausted, never before |
| TextLines.SplitLines | arb_shtrih.py:44 | the successive `readline` results join back to the file, none is empty, a `\n` only ends a line, and every line but the last ends with `\n` |
| Params.ValueSpec | arb_shtrih.py:46-54 | the value `split('-')[0].strip()` of a line is its text before the first `-` with exactly the surrounding whitespace removed, and it never holds a `-` |
| Params.ConnectionBlock | arb_shtrih.py:46-50 | the five connection keys get the five given values; every other key keeps its value |
| Params.FilesBlock | arb_shtrih.py:53-54 | `dbf7` and `dbf8` get the two given values; every other key keeps its value |
| Params.Step | arb_shtrih.py:44-54 | one iteration adds exactly the keys its scanned line's markers name; keys it does not assign are unchanged |
| Params.StepValues | arb_shtrih.py:45-54 | after `ORACLE_CONNECTION` the connection keys hold the values of the next five lines; after `DDBF_files` the file keys hold the values of the next two lines, or of the sixth and seventh when the same line carries both markers |
| Params.Run | arb_shtrih.py:43-57 | the loop stops only when the line read at the top of an iteration is empty, at or after its start; on a real file it reads past the last line; it only ever creates the seven parameter keys |
| Params.ReadParams | arb_shtrih.py:34-59 | every key of the result is one of `cli`, `host`, `service`, `authid`, `password`, `dbf7`, `dbf8` |
| Params.RunKeys | arb_shtrih.py:43-57 | a key is in the result exactly when it was there already or a later scanned line assigns it; a key nothing assigns keeps its value |
| Params.RunOverwrites | arb_shtrih.py:43-57 | once a later block assigns a key, its earlier value has no effect on the result |
| Params.LastAssignmentWins | arb_shtrih.py:43-57 | if the last block to assign a key is the one at `i`, the result holds the value that block assigned |
| Params.ReadParamsKeys | arb_shtrih.py:34-59 | the keys of `read_params` are exactly those some scanned line of the file assigns |
| Params.RunThrough | arb_shtrih.py:43-57 | a scan that reaches the line at `j` gets there on a non-empty read and continues from `j` with the dictionary it has built so far |
| Params.ReadParamsValue | arb_shtrih.py:34-59 | the value of a key in `read_params` is the one assigned by the last line of the scan from the top of the file that assigns it |
| Params.ReadParamsConnection | arb_shtrih.py:45-50 | after the last `ORACLE_CONNECTION` line the scan reaches, `read_params` maps `cli`, `host`, `service`, `authid`, `password` to the values of the five following lines |
| Params.ReadParamsFiles | arb_shtrih.py:52-54 | after the last `DDBF_files` line the scan reaches, `read_params` maps `dbf7`, `dbf8` to the values of the two following lines, or of the sixth and seventh when that line also carries `ORACLE_CONNECTION` |
| Params.NoMarkersNoParams | arb_shtrih.py:43-57 | a file without either marker gives an empty dictionary |
| Params.BlankLineContinues | arb_shtrih.py:56-57 | a blank line `\n` does not stop the scan; only end of file does |
| Params.FileScanReachesEnd | arb_shtrih.py:43-57 | on the lines of any text, the scan stops only after the last line |
| ParamsLoop.ReadParams | invs_test.py:22-47 | the imperative `while True` loop returns the same dictionary as `Params.ReadParams`, and only parameter keys |
| NpUnique.Unique | invs_test.py:127-128 | `np.unique` returns a strictly increasing sequence with exactly the input's values |
| NpUnique.IncreasingDetermined | invs_test.py:127-128 | two strictly increasing sequences with the same members are equal, so the result of `np.unique` is determined by the input's set of values |
| NpUnique.UniqueIsSortedDistinct | invs_test.py:127-128 | any strictly increasing sequence holding exactly the input's values is what `np.unique` returns |
| InsostPairing.NomensOf | invs_test.py:128 | the `NOMEN` values selected under one `PRN` are exactly those of the rows with that `PRN` |
| InsostPairing.Groups | invs_test.py:127-130 | the nested loops visit each `(PRN, NOMEN)` pair of the substitution rows exactly once, in lexicographic ascending order, and no other pair |
| InsostPairing.Rn7s | invs_test.py:131 | every selected `RN7` comes from an `INSOST` row of the group, and every such row's `RN7` is selected |
| InsostPairing.Rn8s | invs_test.py:132 | every selected `RN` comes from a substitution row of the group, and every such row's `RN` is selected |
| InsostPairing.Rn7sAppend | invs_test.py:131 | the selection keeps table order: it distributes over concatenation of the table |
| InsostPairing.Rn8sAppend | invs_test.py:132 | the selection keeps table order: it distributes over concatenation of the table |
| InsostPairing.Zip | invs_test.py:136-142 | `zip` stops at the shorter list, and its i-th row pairs the i-th `RN7` with the i-th `RN` under table name `' INSOST '` |
| InsostPairing.GroupPairsInOrder | invs_test.py:131-136 | within a group, the i-th inserted row pairs the i-th matching `INSOST` row with the i-th matching substitution row, for as many rows as the shorter side has |
| InsostPairing.Plan | invs_test.py:127-142 | the rows `oracle_insert` inserts, group by group in the order of `Groups`, each group as in `GroupPairsInOrder`; every inserted row pairs an `RN7` and an `RN` taken from rows with the same `PRN` and `NOMEN` |
| InsostPairing.PlanIgnoresOrphan | invs_test.py:127-136 | an `INSOST` row whose `(PRN, NOMEN)` pair has no substitution row has no effect on what is inserted |
| InsostPairing.ZipRows | invs_test.py:136-142 | the inner loop emits exactly the zipped rows |
| InsostPairing.PrnRows | invs_test.py:128-142 | the loop over the `NOMEN` values of one `PRN` emits the rows of those groups, in order |
| InsostPairing.OracleInsertRows | invs_test.py:127-143 | the three nested loops insert exactly the rows of the pairing plan, in that order |

## Left out

- Oracle access (`oracle_conn`, `oracle_imp`, `oracle123`, and the connection, `drop`/`create table`, `commit` and `close` calls of `oracle_insert`) is I/O. The model records the values of each inserted row instead of executing SQL.
- The SQL text of each insert is built by string concatenation, with `rn7` spliced between quotes and no escaping. The model keeps the three column values and does not model the statement text.
- The SQL twin of `convert7` (`LPAD(ASCII(...), 3, '0')` in `oracle_conn`) runs inside the database; the Python slice `rn_shtrih[1:]` that `oracle_conn` then applies to its result feeds a CSV export. Both belong to the Oracle export path and are not part of this model.
- `read_dbf`, `dataframe_from_csv`, `log`, `log_proc`, `dir_path`, `main`, argument parsing and `tqdm` progress bars are I/O or presentation.
- `process` reads `udo_import7.csv` without using it, then loops over `db8.IRN` and `pass`es; its earlier body is commented out (arb_shtrih.py:247-267). There is nothing to model there.
- Opening `pars.txt` with UTF-8 decoding and universal-newline translation is I/O. `TextLines.SplitLines` takes the decoded, translated text, so `\r\n` has already become `\n`.
- Python strings may hold lone surrogate code points, which Dafny's `char` excludes. `Rn7Digits.Convert7` is not modelled on them.
- pandas/NumPy details of the pairing are left out: NaN keys, dtype conversions, and `np.unique`'s `axis=0` on a one-dimensional column (which is the plain sorted distinct values). `PRN` and `NOMEN` are modelled as integers, `RN7` as a string and `RN` as an integer.
