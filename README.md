# fm.c core, modelled and verified in Dafny

fm is a single-file ncurses file manager. This project models the parts of
`fm.c` that are plain sequential state manipulation and proves what they
promise:

- **Mark set** (`marks.dfy`, module `MarkSet`): `struct marks` as a class with a
  growable `array<Option<string>>` of slots, the directory the marks belong to
  and the two counters `bulk` and `nentries`; `init_marks`, `mark_none`,
  `add_mark` and `del_mark` as methods. The class invariant is the one
  `mark_none` relies on: `nentries` is the number of non-null slots.
- **Prompt line editor** (`line_edit.dfy`, module `LineEdit`): `struct edit` as a
  gap buffer of `BUFLEN + 1` characters with `left` and `right`, the `EDIT_*`
  macros as methods, `start_line_edit` and `get_line_edit`. Every buffer
  operation is proved against a plain-text reference (`Line`: a text and a
  cursor), and properties of editing (undo, typing) are proved on that
  reference.
- **Selection and scrolling** (`navigation.dfy`, module `Navigation`): the
  `ESEL`/`SCROLL` fields of `struct tab` as a class, the clamp in
  `update_view`, `cmd_down`, `cmd_up`, `cmd_scroll_down`, `cmd_scroll_up`
  and `try_to_sel`.
- **Listing** (`listing.dfy`, module `Listing`): the per-entry rule of `ls`,
  its counting and filling loops over an abstract directory, `rowcmp`, the
  order a `qsort` by `rowcmp` leaves, and the re-marking loop of `cd`.
- **Batch bookkeeping** (`batch.dfy`, module `Batch`): the destination-path
  substitution of the copy and move operations and the loop of
  `process_marked`, with the per-entry file operations as parameters.

`strcoll` is a parameter `coll: (string, string) -> int`; `iswprint` is a
parameter `printable`; the terminal's erase and kill characters are
parameters; `mbstowcs`/`wcstombs` are the identity on characters; `BUFLEN` is
`PATH_MAX` on Linux, 4096. A directory is given to `ls` as the sequence of
entries `readdir` returns, each with what `stat` and `lstat` report.

## Model

| member | source | states |
|---|---|---|
| MarkSet.ClearedBulk | fm.c:219-224 | the capacity after a clear is never above BULK_THRESH, is either kept or back to BULK_INIT, and never grows |
| MarkSet.CountBound | fm.c:244 | there are never more marks than slots, so a set that is not full has a null slot |
| MarkSet.CountZero | fm.c:213-218 | no mark is counted exactly when every slot is null, which is why mark_none may stop once nentries is 0 |
| MarkSet.CountUpdate | fm.c:255-257 | storing or freeing one slot changes the count by exactly that slot |
| MarkSet.CountAppend | fm.c:238-241 | the count of two slot ranges side by side is the sum of their counts |
| MarkSet.CountPadded | fm.c:240-241 | the zeroed slots added by the growth step add no mark |
| MarkSet.FirstFree | fm.c:244-247 | when fewer names are marked than there are slots, a null slot exists and the search finds the first one: every slot before it is taken |
| MarkSet.IndexOf | fm.c:266-269 | the search of del_mark finds the first slot holding the name; no earlier slot holds it |
| MarkSet.Marks.constructor | fm.c:197-204 | init_marks: no directory, BULK_INIT null slots, no marks |
| MarkSet.Marks.MarkNone | fm.c:206-225 | the directory is forgotten, every slot is null, nentries is 0, the array is replaced by BULK_INIT slots exactly when bulk exceeded BULK_THRESH, and the count invariant holds |
| MarkSet.Marks.ClearSlots | fm.c:212-218 | the freeing loop of mark_none nulls every slot although it stops as soon as nentries reaches 0 |
| MarkSet.Marks.Expand | fm.c:234-242 | a full array grows by bulk/2 slots: the old slots are kept in place, the new ones are null, the count is unchanged |
| MarkSet.Marks.AddMark | fm.c:227-258 | a different directory discards all marks and stores the entry in slot 0 with nentries 1; in the same directory a full array grows and the entry takes slot old nentries, otherwise it takes the first null slot and no other slot changes; nentries grows by one and stays the count |
| MarkSet.Marks.DelMark | fm.c:260-275 | with more than one mark, exactly the first slot holding the name is nulled and nothing else changes; with one mark or none the set is cleared as by mark_none |
| LineEdit.LineLeft | fm.c:136-138 | the cursor moves one left when a character precedes it; the text is unchanged |
| LineEdit.LineRight | fm.c:137-139 | the cursor moves one right when a character follows it; the text is unchanged |
| LineEdit.LineInsert | fm.c:1114-1116 | a character is inserted at the cursor only while the text is shorter than the buffer's capacity |
| LineEdit.LineBackspace | fm.c:1094-1096 | the character before the cursor is removed when there is one |
| LineEdit.LineDelete | fm.c:1097-1099 | the character after the cursor is removed when there is one |
| LineEdit.Step | fm.c:1078-1118 | one key: only KEY_ENTER, CR and LF confirm and only Tab cancels, both leaving the line as it was; the cursor keys never change the text; no key grows the text by more than one character; the line stays within the buffer |
| LineEdit.Run | fm.c:1068-1125 | keys fed one get_line_edit call at a time until one ends the edit; the line stays within the buffer |
| LineEdit.InsertThenBackspace | fm.c:140-141 | backspace undoes an insertion |
| LineEdit.InsertThenDelete | fm.c:138-142 | stepping left over an inserted character and deleting it undoes the insertion |
| LineEdit.InsertSplit | fm.c:140 | an insertion puts the character right before the cursor and leaves the text after the cursor in place |
| LineEdit.PlainStep | fm.c:1101-1116 | a printable character other than CR, LF, Tab, erase and kill is inserted and the edit continues |
| LineEdit.TypingInserts | fm.c:1114-1116 | typing a string of such characters that fits inserts it, in order, at the cursor, and never ends the edit |
| LineEdit.Editor.Text | fm.c:1120-1123 | the text the buffer holds is buffer[0, left) followed by buffer(right, BUFLEN-1], of length left + BUFLEN-1-right |
| LineEdit.Editor.constructor | fm.c:82-85 | the zero-initialised static state keeps the gap invariant but is full (left == right == 0): its text is BUFLEN-1 NUL characters, and it becomes usable only through start_line_edit |
| LineEdit.Editor.MoveLeft | fm.c:138 | EDIT_LEFT keeps the gap invariant and acts on the text as LineLeft |
| LineEdit.Editor.MoveRight | fm.c:139 | EDIT_RIGHT keeps the gap invariant and acts on the text as LineRight |
| LineEdit.Editor.Insert | fm.c:140 | EDIT_INSERT on a buffer that is not full acts as LineInsert |
| LineEdit.Editor.Backspace | fm.c:141 | EDIT_BACKSPACE after a character acts as LineBackspace |
| LineEdit.Editor.Delete | fm.c:142 | EDIT_DELETE before a character acts as LineDelete |
| LineEdit.Editor.Clear | fm.c:143 | EDIT_CLEAR leaves an empty text |
| LineEdit.Editor.Start | fm.c:1057-1066 | INPUT and the text before the cursor become the initial string, with the cursor at its end |
| LineEdit.Editor.MoveHome | fm.c:1088-1090 | KEY_UP ends with the cursor at 0 and the text unchanged |
| LineEdit.Editor.MoveEnd | fm.c:1091-1093 | KEY_DOWN ends with right at BUFLEN-1, the cursor at the end and the text unchanged |
| LineEdit.Editor.GetLineEdit | fm.c:1076-1124 | after the key is read, the buffer changes exactly as Step says for the key; on CONTINUE, INPUT is the text before the cursor followed by the text after it; on CONFIRM and CANCEL the buffer and INPUT are left as they were |
| LineEdit.Editor.Encode | fm.c:1119-1123 | terminating the text before the gap keeps the text, and INPUT becomes the text |
| Listing.IsDirName | fm.c:130 | ISDIR: a name denotes a directory exactly when some character of it is a slash |
| Listing.IsHidden | fm.c:697 | a hidden name is one that starts with a dot |
| Listing.Listed | fm.c:694-717 | an entry is kept exactly when it is not "." or "..", is not a dot-name unless SHOW_HIDDEN is set, and is a directory with SHOW_DIRS or a non-directory with SHOW_FILES; the row's name is the entry's name, with "/" appended exactly for a directory that is not a symbolic link, so for a name without a slash ISDIR of the row holds exactly for such a directory; the row copies the entry's kind and is unmarked |
| Listing.Admitted | fm.c:693-719 | the rows ls fills in are at most as many as the entries |
| Listing.AdmittedSound | fm.c:693-719 | every row comes from an entry the rule keeps |
| Listing.AdmittedComplete | fm.c:693-719 | every entry the rule keeps has its row |
| Listing.AdmittedSkipsOne | fm.c:695-698 | an entry the rule skips leaves the listing shorter than the entries |
| Listing.AdmittedSkipsTwo | fm.c:695-698 | two entries the rule skips leave the listing at least two shorter than the entries |
| Listing.AdmittedFits | fm.c:684-692 | the kept rows fit into the n = entries - 2 rows ls allocates, because "." and ".." are never kept |
| Listing.DotsOnly | fm.c:684-690 | a directory holding only "." and ".." lists nothing, which ls's early return relies on |
| Listing.Ls | fm.c:672-719 | -1 for a directory that cannot be opened; otherwise the count and the rows of the kept entries in readdir order, no more than the entries other than "." and ".." for which the rows are allocated |
| Listing.RowCmp | fm.c:659-670 | every directory sorts before every non-directory; two rows of the same kind compare as their names |
| Listing.RowCmpAntisymmetric | fm.c:661-670 | rowcmp is antisymmetric in sign whenever the name order is |
| Listing.DirsFirst | fm.c:720 | a listing sorted by rowcmp holds its directories first: a row is a directory exactly when it comes before the number of directories |
| Listing.ApplyMarks | fm.c:756-766 | a row is marked exactly when the listed directory is the mark set's directory and the row's name is in one of its slots; nothing else about the rows changes |
| Navigation.SkipDirs | fm.c:777-779 | the directory-skipping loop stops at the first non-directory, or at the last row |
| Navigation.SkipBefore | fm.c:780-781 | the name loop stops at the first name that does not collate before the target, or at the last row |
| Navigation.SkipBeforeStopsAt | fm.c:780-781 | the name loop stops at any row preceded only by names that collate before the target and whose own name does not |
| Navigation.StrCmp | fm.c:780 | strcoll in the C locale: two names compare equal exactly when they are the same |
| Navigation.Reselects | fm.c:772-782 | in a sorted listing of distinct names, skipping directories only for a non-directory and then the names before the target stops exactly at the target |
| Navigation.Tab.Clamp | fm.c:539-550 | ESEL is within [0, max(nfiles-1, 0)]; with more rows than HEIGHT the window lies inside the listing and shows ESEL, otherwise SCROLL is 0; a state that already satisfies this is left alone |
| Navigation.Tab.CmdDown | fm.c:1157-1162 | nothing happens with nfiles == 0; otherwise ESEL moves down by one but not past the last row, and stays in range |
| Navigation.Tab.CmdUp | fm.c:1164-1169 | nothing happens without rows; otherwise ESEL moves up by one but not past 0, and stays in range |
| Navigation.Tab.CmdScrollDown | fm.c:1171-1179 | nothing happens with nfiles == 0; otherwise ESEL and SCROLL move a page down, and the selection and window invariants are kept |
| Navigation.Tab.CmdScrollUp | fm.c:1181-1188 | nothing happens without rows; otherwise ESEL and SCROLL move a page up, and the selection and window invariants are kept |
| Navigation.Tab.TrySel | fm.c:772-782 | ESEL stays within [0, max(nfiles-1, 0)]; every row it passed is a skipped directory or collates before the target, and unless it is the last row, the row it stops at does not |
| Navigation.Tab.TrySelEntry | fm.c:772-782 | re-selection deciding the skip by the entry's kind lands on the target in every sorted listing of distinct names |
| Navigation.SymlinkedDirLosesSelection | fm.c:776-779 | re-selecting a symbolic link to a directory moves the cursor to the next row |
| Navigation.SymlinkedDirKeepsSelection | fm.c:776-779 | the corrected re-selection keeps the cursor on the symbolic link |
| Batch.DestPath | fm.c:991-992 | the destination of a source path starts with CWD and replaces the marks' directory by it |
| Batch.DestPathOfMark | fm.c:918-919 | a marked entry lands under CWD with its own name |
| Batch.DestPathExtend | fm.c:874-875 | descending into a subdirectory of a marked directory descends into the same subdirectory of the destination |
| Batch.DestPathBack | fm.c:1040-1041 | substituting back from CWD to the marks' directory gives the source path |
| Batch.EntryResult | fm.c:916-926 | a marked directory whose path is a prefix of CWD is refused with -1, another directory is walked, anything else is processed as a file |
| Batch.Outcome | fm.c:914-931 | a mark is cleared exactly when its operation returned 0 and every other slot is kept |
| Batch.AncestorKeepsMark | fm.c:920-922 | a marked directory that contains CWD keeps its mark |
| Batch.ProcessSlot | fm.c:915-931 | one iteration: a marked entry gets its result and a result of 0 removes its mark with del_mark |
| Batch.Sweep | fm.c:914-932 | the loop keeps the slots processed so far equal to their outcome unless the set was emptied |
| Batch.ProcessMarked | fm.c:902-940 | afterwards the number of marks is the number of slots whose operation did not return 0; unless the set was emptied the slots are exactly the outcome; success means no mark is left; the directory is forgotten exactly when no mark is left |

## Left out

- Terminal drawing, messages, `update_input`, `edit_scroll` and the size formatting of `update_view`: display only.
- Signals, `fm_getch`/`fm_get_wch` (an ERR from it is not modelled: a key is always given), `spawn`, `open_with_env`, option parsing and persistence: asynchronous delivery, processes and file I/O.
- The system calls of `ls`, `cd`, `process_dir`, `cpyfile`, `movfile`, `delfile`, `adddir`, `addfile`, `count_dir`, `count_marked`: the directory is a sequence of entries, and a batch operation's per-entry result is a parameter.
- `process_dir`'s recursion: its result is the parameter `walk`; only the destination-path rule of its pre-step is modelled (DestPathExtend).
- `update_progress` and the `reload` calls of `process_marked`: the model holds the listing, the selection and cwd fixed through the loop. In the source, `reload` re-lists the directory through `cd`, and when `chdir` fails `cd` rewrites CWD from `getcwd` (fm.c:745-748, 790), which changes the prefix guard and the destination root of the later iterations; the marks themselves are not touched by it.
- `qsort` itself: SortedBy states the order it leaves, and DirsFirst and Reselects assume it.
- The `size` and `mode` fields of a row other than the directory bit.
- `shell_escaped_cat`: only compiled with RV_SHELL and its result is not well defined.
- `strcoll`, `iswprint` and locale handling: parameters; `mbstowcs`/`wcstombs` are the identity, so a conversion failure is not modelled.
- Truncation of paths at PATH_MAX by `snprintf` and `strcpy`/`strcat` overflow: paths are unbounded strings.
- free_marks and the other tab-switching and command functions of fm.c are not part of this model.
- LineEdit.Editor.GetLineEdit: models get_line_edit from the point the key has been read. While fm_get_wch waits it runs sync_signals on every ERR (fm.c:374-375), and after a SIGUSR1 that calls reload (fm.c:334), which with rows present overwrites INPUT with the selected entry's name (fm.c:789) and re-lists the directory, moving ESEL and SCROLL. INPUT after CONFIRM or CANCEL is therefore the edited text only if no SIGUSR1 arrives while the prompt waits for a key; this interaction is not modelled.
- Allocation failure and integer width: xmalloc, xcalloc and xrealloc end the program through quit on failure (fm.c:155-195), while the model's allocations always succeed; bulk, nentries, nfiles, ESEL and SCROLL are C ints, while the model's integers are unbounded, so overflow is not modelled.
- Navigation.Tab.CmdDown: the range guarantee holds only for nfiles >= 0; after a failed ls (nfiles == -1) cmd_down sets ESEL to -2, which the clamp in update_view repairs.
- Navigation.Tab.CmdScrollDown: likewise the invariants are kept only for nfiles >= 0; with nfiles == -1 cmd_scroll_down sets ESEL to -2 (fm.c:1174-1176), again repaired by the clamp.
- LineEdit.Editor.Encode: INPUT becomes the whole text, while wcstombs stops at the first L'\0'. The two differ only on a text holding a NUL: the zero-initialised state before start_line_edit, since an initial C string holds none and iswprint(L'\0') is false, so no key inserts one.
- LineEdit.Editor.Start: requires the initial string to be shorter than BUFLEN; a longer one would leave left beyond right, and no caller passes one.
- Batch.ProcessMarked: the operations are deterministic functions of the path (a second slot with the same name gets the same result), and the file system is not changed between slots as far as the results are concerned.
- Listing.Ls: does not perform the closing `qsort` by rowcmp (fm.c:720), so its rows are in readdir order; SortedBy states the order qsort leaves, and DirsFirst and Reselects assume it. It requires the directory to report "." and "..", as readdir does; entries changing between the two readdir passes and broken symbolic links are not modelled.
- MarkSet.Marks.DelMark: requires the name to be marked when more than one mark exists; otherwise the source reads past the array.

## Findings

| source | as written | input that shows it | evidently intended | confidence | as-written member | corrected member |
|---|---|---|---|---|---|---|
| fm.c:776-779 | `try_to_sel` skips the leading directories unless the target contains a slash (`ISDIR`, fm.c:130), but `ls` gives no slash to a symbolic link to a directory (fm.c:706-707), which still sorts among the directories | reload with the cursor on row 0 of the sorted listing [symbolic link to a directory "link", file "a.txt"]: the target "link" has no slash, so ESEL ends at 1 | ESEL stays 0, on the entry that was selected | not executed | Navigation.SymlinkedDirLosesSelection | Navigation.Tab.TrySelEntry |
