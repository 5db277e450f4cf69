# FormaDevs group formation — a Dafny model

FormaDevs is a small classroom tool. A teacher pastes a list of students (one
"Matrícula, Nome" or "Matrícula Nome" line per student) or imports a table. The
tool validates the lines and reports errors and repeated ids. It then forms
groups of a chosen size by one of three orders:

- "Aleatório": shuffled;
- "Sequencial": the input order;
- "Balanceado": sorted by id, then the two halves interleaved.

Students who would be left alone can be folded into other groups. The tool
computes statistics and exports the groups as columns, a text report or a
plain list.

This project models that core in Dafny:

- `records.dfy` (`Records`): the student record and the flattening of a group
  list.
- `text.dfy` (`Text`): the Python string operations the core relies on:
  - `str.strip`, `str.split`, `"\n".join`, `str.find` and `str.rfind`;
  - decimal rendering of integers;
  - slicing with a negative bound.
- `grouping.dfy` (`GroupFormation`): `logic/group_formation.py`, covering
  ordering, chunking, redistribution of one-student groups, the live-draw
  layout and the statistics.
- `validation.dfy` (`Validation`): `logic/validation.py`, covering line
  parsing, duplicate detection, whole-text processing and the preview.
- `data_processing.dfy` (`DataProcessing`): `logic/data_processing.py`,
  covering table rows to students, export rows and lookup of a group by
  number.
- `helpers.dfy` (`Helpers`): `utils/helpers.py`, covering the display key,
  file-name sanitising, truncation, group labels and counting distinct
  students in the history.
- `exporters.dfy` (`Exporters`): `utils/exporters.py`, covering the export
  columns, the text report and the plain list.

Loops in the source are methods with loop invariants. Each method is proved
equal to a specification function, and the lemmas state what that function
promises. Python built-ins (sorting, `min(key=len)`, `strip`, `split`, `join`,
`zfill`, the regular expression) are modelled as pure functions.

Two facts about the code are worth stating:

- "Balanceado" pairs position `k` with position `k + n // 2`, since the code
  takes `meio = len // 2` (`logic/group_formation.py:44`). For an odd count
  the last student is appended at the end, and every student still appears
  exactly once (`GroupFormation.InterleavedPermutation`).
- During redistribution, a student joins the smallest group when larger
  groups are allowed or that group has fewer than `tamanho_grupo` members
  before the student is added (`logic/group_formation.py:100`). So with
  larger groups disallowed a group can reach exactly `tamanho_grupo`, but
  never more (`GroupFormation.RedistributedCapacity`).

## Model

| member | source | states |
|---|---|---|
| Records.FlattenAppend | logic/group_formation.py:61-66 | the students of two group lists placed one after the other are the students of the first, then those of the second |
| Records.FlattenSplit | logic/data_processing.py:90-91 | a group list's students are those of the groups before group i, then group i, then those after it |
| Records.FlattenRemove | logic/group_formation.py:94-95 | popping group i removes exactly that group's students from the multiset of all students |
| Records.FlattenUpdate | logic/group_formation.py:101 | replacing one group changes the multiset of all students by exactly the old and new contents of that group |
| Text.Strip | logic/validation.py:19 | `str.strip`: the result is no longer than the input, has no whitespace at either end, and is empty exactly when the input is all whitespace |
| Text.StripShape | logic/validation.py:19 | the stripped text is the contiguous slice that starts after the leading whitespace, and everything after it is whitespace |
| Text.StripMembers | logic/validation.py:27-28 | stripping keeps every non-space character and introduces none |
| Text.StripKeepsFirst | logic/validation.py:19 | a text with no leading whitespace keeps its first character and is only cut at its end |
| Text.StripIdempotent | logic/validation.py:19-28 | stripping twice is stripping once |
| Text.StripLeadingBlank | logic/validation.py:19 | a leading blank does not change the stripped text |
| Text.StripFront | logic/validation.py:19 | any whitespace in front does not change the stripped text |
| Text.StripBack | logic/validation.py:19 | any whitespace behind does not change the stripped text |
| Text.IndexOf | logic/validation.py:26 | the first comma: no comma before it, and it is the length exactly when there is none |
| Text.IndexOfAfter | logic/validation.py:26 | `split(',', 1)` cuts at the first comma of `a + "," + b` when `a` has none |
| Text.LastIndexOf | utils/helpers.py:59 | `rsplit('.', 1)` cuts at a dot with no dot after it |
| Text.LastIndexOfBefore | utils/helpers.py:59 | the last dot of `a + "." + b` is the one after `a` when `b` has no dot |
| Text.Split | logic/validation.py:148 | `str.split('\n')` yields at least one part and no part holds the separator |
| Text.JoinSplit | utils/exporters.py:113 | joining the split parts of a text gives the text back |
| Text.SplitJoin | utils/exporters.py:113 | splitting the join of separator-free parts gives the parts back |
| Text.NatToString | utils/helpers.py:98 | `str(n)` for n >= 0 is a non-empty digit string with no leading zero |
| Text.NatToStringValue | utils/helpers.py:98-99 | the decimal rendering of n reads back as n |
| Text.LeadingZerosValue | utils/helpers.py:99 | zeros put in front of a digit string do not change its value |
| Text.Repeat | utils/exporters.py:101 | `c * n` has length n and every character c |
| Text.PyPrefix | utils/helpers.py:152 | `s[:k]`: length min(k, len) for k >= 0 and max(0, len + k) for negative k; always a prefix of s |
| GroupFormation.KeyLeTotal | logic/group_formation.py:40 | the string order the sort uses is total |
| GroupFormation.KeyLeTrans | logic/group_formation.py:40 | the string order the sort uses is transitive |
| GroupFormation.InsertPermutation | logic/group_formation.py:40 | placing one student into a sorted list adds exactly that student |
| GroupFormation.SortByKey | logic/group_formation.py:40 | `list.sort` by id returns a permutation of its input |
| GroupFormation.SortByKeySorted | logic/group_formation.py:40 | the sorted list is ordered by id |
| GroupFormation.SortByKeyStable | logic/group_formation.py:40 | the sort is stable: students sharing an id keep their relative order |
| GroupFormation.SortedPairs | logic/group_formation.py:40 | in the sorted list every earlier id is at most every later id |
| GroupFormation.ZipPermutation | logic/group_formation.py:45-48 | alternating two equal-length lists keeps exactly their students |
| GroupFormation.InterleavedAt | logic/group_formation.py:43-52 | position 2k holds sorted[k], position 2k+1 holds sorted[k + n//2], and an odd last student comes last |
| GroupFormation.InterleavedPermutation | logic/group_formation.py:43-54 | the balanced interleaving is a permutation of the sorted list |
| GroupFormation.Balance | logic/group_formation.py:43-54 | the interleaving loop computes the interleaving that InterleavedAt describes |
| GroupFormation.OrderedPermutation | logic/group_formation.py:29-55 | every ordering method only reorders the students |
| GroupFormation.CeilDivBounds | logic/group_formation.py:58 | `ceil(n/t)` groups of t cover n students, and one group fewer does not |
| GroupFormation.ChunkingProperties | logic/group_formation.py:58-66 | chunking gives ceil(n/t) non-empty groups; all but the last hold t students and the last holds the rest; read in order they give back the ordered list |
| GroupFormation.Chunk | logic/group_formation.py:58-66 | the chunking loop puts positions [i*t, min(i*t+t, n)) into group i |
| GroupFormation.FirstMinIndex | logic/group_formation.py:99 | `min(grupos, key=len)` picks a group of smallest size, the first one among equals |
| GroupFormation.Step | logic/group_formation.py:93-107 | one step of the backward scan removes at most one group and adds none |
| GroupFormation.RedistribuirSolitarios | logic/group_formation.py:75-110 | the scan loop, which pops and appends while the index falls, computes `Redistributed` |
| GroupFormation.StepConserves | logic/group_formation.py:93-107 | one step keeps every student exactly once |
| GroupFormation.StepNoEmpty | logic/group_formation.py:93-107 | one step creates no empty group |
| GroupFormation.StepPlacement | logic/group_formation.py:97-104 | the popped student joins the first smallest remaining group when larger groups are allowed or some group is below the target size; only when neither holds is a new one-student group appended |
| GroupFormation.StepLastGroup | logic/group_formation.py:105-107 | a lone one-student group with no other group is re-created unchanged |
| GroupFormation.RedistributedConserves | logic/group_formation.py:75-110 | redistribution keeps the multiset of students, leaves no group empty, and never adds groups |
| GroupFormation.RedistributedNoSingleton | logic/group_formation.py:97-101 | with larger groups allowed and at least two students, no group of size 1 remains |
| GroupFormation.RedistributedCapacity | logic/group_formation.py:100-104 | with larger groups disallowed, no group grows beyond the target size |
| GroupFormation.FormarGrupos | logic/group_formation.py:10-72 | the groups are a partition of the students with no empty group; without redistribution they are the chunking of the chosen order (in input order for "Sequencial"); with it they are the redistribution of that chunking; with larger groups allowed no student is alone once there are two |
| GroupFormation.FormedGroups | logic/group_formation.py:58-72 | whether or not the redistribution runs, the groups cut from the chosen order hold every student exactly once with no empty group; with larger groups allowed no student is alone once there are two; "Sequencial" without redistribution keeps the input order |
| GroupFormation.SortearGrupoAoVivo | logic/group_formation.py:146-179 | the shuffled list is cut into chunks numbered from 1, all unrevealed, holding every student exactly once |
| GroupFormation.MinOf | logic/group_formation.py:139 | `min(tamanhos)` is one of the sizes and at most every size |
| GroupFormation.MaxOf | logic/group_formation.py:140 | `max(tamanhos)` is one of the sizes and at least every size |
| GroupFormation.SumSizes | logic/group_formation.py:133-134 | the sum of the group sizes is the number of students |
| GroupFormation.Mean | logic/group_formation.py:141 | the mean times the number of groups is the number of students |
| GroupFormation.CalcularEstatisticas | logic/group_formation.py:113-143 | all zeros for no groups; otherwise the group count, the per-group sizes, the student total, a smallest and a largest size that bound every group, and their mean |
| Validation.MatchDigitsName | logic/validation.py:40-43 | on a stripped line, `^(\d+)\s*(.*?)$` fails exactly when the line does not start with a digit or a newline follows the digit run and the whitespace run after it; on a match the first group is the maximal digit run, then a maximal whitespace run, and the second group is the newline-free rest, starting with no blank |
| Validation.ValidarFormatoEntrada | logic/validation.py:9-54 | blank exactly for all-whitespace lines; an accepted record is well formed, with stripped id and name and no comma in the id, and the id is all digits for a comma-free line; every rejection carries one of the three messages, the empty-field one exactly when the line has a comma |
| Validation.ParseCompleto | logic/validation.py:33-37 | the "completo" label of an accepted record parses back to that record |
| Validation.ParseCommaLine | logic/validation.py:19-37 | any line `m,n` with no comma in `m` is rejected for an empty field when `m` or `n` strips to nothing, and otherwise accepted as the record of the stripped `m` and the stripped `n` |
| Validation.ParseDigitsLine | logic/validation.py:19-52 | a digit run, non-empty whitespace and a stripped comma- and newline-free name parse as the record of that id and name; with no name the line is rejected for the missing name |
| Validation.MatchDigitsBlank | logic/validation.py:40-43 | the pattern splits a digit run, whitespace and a non-empty name into the id and the name |
| Validation.RejectsEmptyId | logic/validation.py:25-31 | a line starting with a comma is rejected for an empty field |
| Validation.RejectsEmptyName | logic/validation.py:25-31 | a line ending in its only comma is rejected for an empty field |
| Validation.RejectsMissingName | logic/validation.py:45-46 | a bare digit run is rejected for a missing name |
| Validation.RejectsUnknown | logic/validation.py:54 | a comma-free line not starting with a digit is rejected as unrecognised |
| Validation.Keys | logic/validation.py:70 | the stripped id of every student, in order |
| Validation.InfoPositions | logic/validation.py:69-80 | the entry for an id counts, in ascending order, exactly the positions holding it, and lists the names at those positions |
| Validation.DuplicatasIff | logic/validation.py:57-89 | an id is reported exactly when it is non-empty and held by two different students; its entry is the full record of its occurrences |
| Validation.CountedStep | logic/validation.py:71-80 | one loop iteration keeps the dictionary equal to the counts of the positions seen so far |
| Validation.CountedFilter | logic/validation.py:83-87 | filtering the full counts by `count > 1` yields the duplicates |
| Validation.ValidarDuplicatas | logic/validation.py:57-89 | the counting loop and filter return exactly the duplicates map |
| Validation.NonBlankCount | logic/validation.py:186-187 | the number of non-blank lines is at most the number of lines |
| Validation.LinesPartition | logic/validation.py:148-161 | every non-blank line yields exactly one record or one error |
| Validation.LineError | logic/validation.py:156-161 | a line yields one error entry exactly when the parser rejects it |
| Validation.AcceptedWellFormed | logic/validation.py:154-155 | every accepted record is well formed |
| Validation.ErrorsLocated | logic/validation.py:148-161 | each error names a 1-based line that was rejected with that message, and holds the stripped line; errors appear in line order |
| Validation.ErrorsComplete | logic/validation.py:156-161 | every rejected line is reported |
| Validation.ProcessarEntradaComValidacao | logic/validation.py:135-172 | the records and errors are those of the lines, the total is the record count, the result is valid exactly when there are no errors, and the duplicates are those of the records |
| Validation.NonBlankLines | logic/validation.py:186 | the stripped non-blank lines: one per non-blank line, none empty or padded |
| Validation.CountValid | logic/validation.py:200 | the valid count is at most the item count; it equals the item count exactly when all items are valid, and is 0 exactly when none is |
| Validation.ExtrairPreviewDados | logic/validation.py:175-208 | the total non-blank count; the items are those of `linhas[:limite]`, a negative limit counting from the end, and as many are shown; the valid count is that of the items, and valid plus invalid equals shown |
| Validation.PreviewLines | logic/validation.py:186-199 | item i of the preview is numbered i + 1 and holds the i-th stripped non-blank line; it carries a record exactly when it is marked valid |
| DataProcessing.Kept | logic/data_processing.py:21-36 | at most one student per row, each well formed |
| DataProcessing.KeptOne | logic/data_processing.py:24-34 | a row is kept exactly when both stripped cells are non-empty |
| DataProcessing.KeptAppend | logic/data_processing.py:23 | rows are processed independently and in order |
| DataProcessing.KeptCells | logic/data_processing.py:24-27 | kept cells come back stripped, and a table whose id cells are all missing yields no student |
| DataProcessing.ProcessarCsvParaEstudantes | logic/data_processing.py:9-36 | the row loop returns exactly `Kept` |
| DataProcessing.GroupRows | logic/data_processing.py:52-60 | one export row per student of the group, carrying the group's number |
| DataProcessing.RowsOfShape | logic/data_processing.py:49-62 | one export row per student in flattened order, with that student's fields (missing as "") and a 1-based group number that never decreases |
| DataProcessing.RowsOfPrefix | logic/data_processing.py:51 | the rows of the first groups are a prefix of the rows |
| DataProcessing.RowsOfGroup | logic/data_processing.py:51-60 | group i's rows form one block, right after the rows of the groups before it |
| DataProcessing.RowsNumbered | logic/data_processing.py:51-55 | the row at any position lies inside the block of the group its number names |
| DataProcessing.PrepararDadosExportacao | logic/data_processing.py:39-62 | the nested loops return exactly `RowsOf` |
| DataProcessing.FiltrarEstudantesPorGrupo | logic/data_processing.py:79-92 | the result is one of the groups or empty, all its students are in the group list, and it is empty for a number outside 1..len(grupos) |
| DataProcessing.FiltrarMatchesRows | logic/data_processing.py:90-91 | for 1 <= k <= len(grupos) the result is the block of export rows numbered k, in order, and an export row carries number k exactly when it lies in that block |
| Helpers.FormatoDisplay | utils/helpers.py:9-24 | "Matrícula e Nome" maps to "completo", "Apenas Nome" to "nome", and anything else to "matricula" |
| Helpers.RemoveForbidden | utils/helpers.py:56 | the substitution leaves none of `<>:"/\|?*`, keeps every other character in order, and changes a clean name not at all |
| Helpers.RemoveForbiddenOne | utils/helpers.py:56 | one character is dropped exactly when it is forbidden, and kept otherwise |
| Helpers.RemoveForbiddenAppend | utils/helpers.py:56 | the substitution works character by character: cleaning a concatenation is concatenating the cleaned parts |
| Helpers.SanitizeFilename | utils/helpers.py:46-63 | the result has no forbidden character; it is the cleaned name when that has at most 200 characters, and its first 200 characters when longer with no dot |
| Helpers.SanitizeLongWithDot | utils/helpers.py:58-60 | a long name with a dot keeps at most 195 characters before its last dot, then the dot and the whole extension; it fits 200 characters only when the extension has at most 4 |
| Helpers.SanitizeIdempotent | utils/helpers.py:46-63 | sanitising twice is sanitising once |
| Helpers.TruncarTexto | utils/helpers.py:138-152 | a text within the bound is unchanged; otherwise, with room for the suffix, the result has exactly the bound's length: a prefix of the text and then the suffix |
| Helpers.TruncarIdempotent | utils/helpers.py:150-152 | with room for the suffix, the result fits the bound and truncating again changes nothing |
| Helpers.TruncarShortBound | utils/helpers.py:150-152 | for any text longer than a bound that is shorter than the suffix, the slice bound is negative: the result is the text without its last `len(sufixo) - max_len` characters (or empty), then the suffix, and it exceeds the bound |
| Helpers.ZFill | utils/helpers.py:99 | `zfill(w)` has length max(len, w) and leaves a long enough string unchanged |
| Helpers.ZFillDigits | utils/helpers.py:99 | padding a digit string keeps it a digit string of the same value ending in the original digits |
| Helpers.FormatarNumeroGrupo | utils/helpers.py:87-99 | the label starts with "Grupo " and is as long as the wider of the number and the total, so labels of one list have one width |
| Helpers.FormatarNumeroGrupoValue | utils/helpers.py:98-99 | the label's digits read back as the group number, which is never truncated |
| Helpers.IdsIn | utils/helpers.py:79-82 | only non-empty ids are collected, at most one per student |
| Helpers.IdsInMember | utils/helpers.py:79-82 | an id is collected from a list exactly when it is non-empty and some student has it |
| Helpers.HistoryIdsMember | utils/helpers.py:78-82 | an id is collected from the history exactly when it is non-empty and some student of some entry has it |
| Helpers.UniqueBounded | utils/helpers.py:66-84 | the distinct count never exceeds the number of students listed in the history |
| Helpers.ContarEstudantesUnicos | utils/helpers.py:66-84 | the nested loops return the number of distinct non-empty ids in the history |
| Exporters.DisplayValue | utils/exporters.py:104-109 | a text export shows the name, the id or the label of the student |
| Exporters.DisplayValueByKey | utils/exporters.py:104-109 | key "nome" shows the name, "matricula" the id, and any other key the full label |
| Exporters.DisplayFollowsChoice | utils/helpers.py:19-24 | the key `formato_display` derives from a choice makes the exports show the field that choice names |
| Exporters.ColunasGrupos | utils/exporters.py:22-63 | three parallel columns, one entry per student in flattened order: the 1-based, non-decreasing group number, the id and the name; the CSV and the spreadsheet exports build them with the same loop |
| Exporters.Separator | utils/exporters.py:101 | the separator is forty '=' characters |
| Exporters.TxtBlock | utils/exporters.py:99-111 | a group's block is its header, the separator, one numbered line per student, and a blank line |
| Exporters.TxtLineCount | utils/exporters.py:97-111 | the report has one line per student plus three per group |
| Exporters.TxtLinesPrefix | utils/exporters.py:99 | the lines of the first groups are a prefix of the report's lines |
| Exporters.TxtBlockAt | utils/exporters.py:99-111 | group i's block sits right after the blocks of the groups before it |
| Exporters.GerarTxtGrupos | utils/exporters.py:86-116 | the report is the newline join of the blocks, and empty for no groups |
| Exporters.TxtBlockNoNewline | utils/exporters.py:100-109 | a block's lines hold no newline when the shown fields hold none |
| Exporters.TxtLinesNoNewline | utils/exporters.py:97-111 | no line of the report holds a newline when no shown field does |
| Exporters.TxtSplitsBack | utils/exporters.py:113 | splitting the report at newlines gives back its lines |
| Exporters.ListLines | utils/exporters.py:132-138 | one line per student, the chosen field of that student |
| Exporters.GerarListaSimples | utils/exporters.py:119-140 | the list is the newline join of the chosen fields |
| Exporters.ListSplitsBack | utils/exporters.py:140 | splitting the list at newlines gives back one line per student, and no students give the empty text |

## Left out

- Shuffling: `random.shuffle` and its seed are not modelled. The shuffled order is a parameter (`embaralhado`) that must be a permutation of the students.
- `tamanho_grupo` below 1: `GroupFormation.FormarGrupos` and `GroupFormation.SortearGrupoAoVivo` require a group size of at least 1. For 0 the source divides by zero; for a negative size `ceil(n / t)` is at most 0, so it returns no groups and silently drops every student. Its interface only offers sizes from 2.
- `sortear_grupo_ao_vivo`'s `callback` argument is never used by the source, so it is not modelled.
- In-place mutation: `redistribuir_solitarios_func` mutates the caller's list (pop, append to an inner list). The model returns the new list as a value, so aliasing between the caller's groups and the result is not captured.
- Unicode: `str.strip` and `\s` are modelled on the six characters of `string.whitespace`, and `\d` on the ASCII digits. Python also treats `\x1c`-`\x1f`, the other Unicode spaces and every Unicode decimal digit as such.
- String sorting: ids are compared by code point, as Python does, with no locale collation.
- Statistics: the mean is an exact rational (`real`), not a binary floating-point number.
- Dictionaries: a missing key reads as "" (an `Option` field), and dictionary insertion order is not modelled (the duplicates map is a Dafny `map`).
- `validar_csv` (logic/validation.py:92-132) and `criar_dataframe_grupos` are left out. They inspect and build pandas data frames, which the model does not have. The row logic of `processar_csv_para_estudantes` is modelled on a sequence of rows with `None` for a missing cell.
- Serialisation: the CSV encoding, the spreadsheet writing and the spreadsheet column widths are pandas/xlsxwriter calls and are left out. The columns they receive are modelled (`Exporters.ColunasGrupos`).
- Exporters' suggested file names hold the current time and are left out; only the file contents are modelled.
- `formatar_data` and `calcular_duracao_formatada` (utils/helpers.py:27-43, 102-135) are left out, because they parse and format wall-clock dates.
- The user interface, persistence and QR-code modules are not part of this model.
- Helpers.FormatarNumeroGrupo: the digits are proved to read back only for a group number of zero or more; a negative number keeps its sign through `zfill` but has no lemma.
- Helpers.SanitizeFilename: no upper bound on the length is stated, because the source gives none when the extension is longer than 4 characters (`Helpers.SanitizeLongWithDot` states exactly how long the result is).
