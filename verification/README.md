# Shopping list bot: the list state manager in Dafny

This project models the list state of a Telegram shopping-list bot. The bot
keeps one shared list of items (`SHOPPING_LIST`) and a one-level undo copy of
it (`LIST_BACKUP`). Five chat commands read or change them:

- `/add a, b, c` appends the normalised comma-separated items;
- `/remove q` deletes the first item that contains `q`, ignoring case;
- `/clear` empties the list;
- `/undo` restores the backup;
- `/list` shows the list, or says that it is empty.

At startup the bot may replace the list with the one saved by the previous
run.

The model is functional. `ListStore.State` is the pair `(list, backup)`.
Each handler is a pure function that returns the next state together with
the replies the handler would send. The Python handlers mix copying and
aliasing of lists. Still, every handler that mutates the list copies it into
the backup first (add, remove) or binds the list to a fresh object (clear).
So value semantics has the same observable behaviour, and the model uses it.

Files:

- `text.dfy` (module `Text`): ASCII versions of the Python string operations
  the handlers use: `str.strip`, `str.lower`, `str.title`, `str.split(',')`,
  `' '.join(...)` and the substring test `q in item`. Each one comes with an
  independent characterisation: pointwise, as a round trip, or as a
  uniqueness lemma.
- `list_store.dfy` (module `ListStore`): the state, startup restore, and the
  five handlers with their contracts. It also has the lemmas about add
  replies, first-match removal and item well-formedness.
- `commands.dfy` (module `Commands`): dispatch of a command to its handler,
  runs of several commands, and the lemmas that relate commands. These cover
  undo after a mutation, undo twice, a run of adds, and the invariant that
  every stored item is well formed.
- `scenarios.dfy` (module `Scenarios`): worked examples on concrete input.
  `/add  milk ,EGGS, bread` stores `Milk`, `Eggs` and `Bread`; a blank
  segment is stored as the empty item; `/remove EGG` then deletes `Eggs`;
  and `"they're".title()` is `They'Re`.

String conventions:

- Whitespace is the ASCII part of Python's `str.isspace`: code points 9 to 13
  and 28 to 32.
- Lower-casing maps A-Z to a-z.
- Title-casing upper-cases a letter that is not preceded by a letter and
  lower-cases one that is. This is CPython's rule with ASCII letters as the
  only cased characters.

## Model

| member | source | states |
|---|---|---|
| Text.Lower | shopping_list.py:125 | `lower()` has the input's length and lower-cases each character in place |
| Text.CaseMappingsIdempotent | shopping_list.py:106 | lower-casing or upper-casing a character twice is the same as doing it once |
| Text.LowerIdempotent | shopping_list.py:125 | lower-casing twice is the same as lower-casing once |
| Text.Title | shopping_list.py:106 | `title()` has the input's length; a letter after a letter becomes lower case, any other letter becomes upper case, and other characters are kept |
| Text.TitleIdempotent | shopping_list.py:106 | title-casing an already title-cased string changes nothing |
| Text.LowerOfTitle | shopping_list.py:125 | title-casing is invisible to the case-insensitive comparison that remove uses |
| Text.Strip | shopping_list.py:102 | `strip()` is never longer than its input and neither starts nor ends with whitespace |
| Text.StripIsTrimmedSlice | shopping_list.py:102 | what strip keeps is a slice of the input that starts after the leading whitespace, and everything outside the slice is whitespace |
| Text.StripPadded | shopping_list.py:106 | any whitespace padding around a stripped string is exactly what strip removes (uniqueness of the characterisation) |
| Text.StripFixpoint | shopping_list.py:121 | strip returns its input unchanged exactly when the input has no whitespace at either end |
| Text.StripIdempotent | shopping_list.py:106 | stripping an already stripped segment changes nothing |
| Text.TitleKeepsStripped | shopping_list.py:106 | title-casing a stripped string leaves it stripped |
| Text.JoinShape | shopping_list.py:102 | `' '.join(args)` of no words is empty and of one word is that word; otherwise it starts with the first word, ends with the last, and its length is the words' total length plus one separator per gap |
| Text.Split | shopping_list.py:102 | `split(',')` always returns at least one piece, and no piece contains a comma |
| Text.JoinOfSplit | shopping_list.py:102 | joining the pieces of a split with commas gives back the input |
| Text.SplitOfJoin | shopping_list.py:102 | the other round trip: splitting a comma-join of comma-free parts gives back those parts |
| Text.Contains | shopping_list.py:125 | `q in item` is true exactly when `q` occurs at some index of `item` |
| ListStore.Restore | shopping_list.py:42-52 | a stored list, when present, replaces the list; with no stored list nothing changes; the undo backup is never touched |
| ListStore.Startup | shopping_list.py:32-52 | the first command sees the restored list, or the empty list on a first run, with an empty backup |
| ListStore.Show | shopping_list.py:85-88 | the reply is "empty" exactly when the list has no items, and otherwise lists the items |
| ListStore.AppendSegments | shopping_list.py:104-110 | the loop appends the normalised non-empty segments in order and answers each segment: added item, or "please specify" for a segment of length 0 |
| ListStore.AddSegments | shopping_list.py:99-110 | given the comma segments, add makes the backup the pre-add list and appends `title(strip(seg))` for each segment of length > 0, in order; each segment gets one reply, the added item, or "please specify" for a segment of length 0 |
| ListStore.Add | shopping_list.py:95-110 | the add handler on its argument words: the segments are those of `' '.join(args).strip().split(',')`; the backup is the pre-add list, the list is the old list followed by `title(strip(seg))` for each such segment of length > 0, in order, and segment `k` gets reply `k` |
| ListStore.AddWithoutArguments | shopping_list.py:102-110 | add with no arguments leaves the list unchanged, answers once with "please specify", and still overwrites the backup |
| ListStore.BlankNormalizesToEmpty | shopping_list.py:106 | a segment made only of whitespace normalises to the empty item |
| ListStore.WhitespaceSegmentAddsEmptyItem | shopping_list.py:104-107 | a whitespace-only segment passes the length test (made before stripping) and is added as the empty item |
| ListStore.KeptIsAnnounced | shopping_list.py:104-108 | the items appended are exactly the items announced in the "added" replies, in order |
| ListStore.AddAppendsAnnounced | shopping_list.py:104-108 | after add, the list is the old list followed by the announced items |
| ListStore.FirstMatch | shopping_list.py:124-125 | the scan returns the first index whose item contains the query ignoring case, or reports that no item does |
| ListStore.RemoveValue | shopping_list.py:126 | `list.remove(x)` for an element `x` of the list returns a list one shorter |
| ListStore.RemoveValueAtFirstOccurrence | shopping_list.py:124-126 | removing the element found by the scan deletes exactly the scanned position, because no earlier element equals it |
| ListStore.DeleteAtRemovesOneCopy | shopping_list.py:126 | deleting one position removes exactly one copy of its element (multisets) |
| ListStore.RemoveFirstMatch | shopping_list.py:123-128 | on the list alone: the first matching item is deleted and named in the reply; with no match the list is unchanged and the reply is `NoMatch`; the result keeps all other items, one copy fewer of the removed one |
| ListStore.Remove | shopping_list.py:114-130 | after remove, the backup is the pre-remove list. An empty stripped query, or one no item contains, leaves the list unchanged. Otherwise the list is `list[..i] + list[i+1..]` for the first matching index `i`, and the reply names `list[i]` |
| ListStore.RemoveDeletesOneWhenSomeItemMatches | shopping_list.py:123-128 | when some item matches a non-empty query, exactly one item is removed and it matches |
| ListStore.NormalizedItemMatchesItsText | shopping_list.py:106 | a stored item always matches the stripped text it was added from, in any letter case |
| ListStore.Clear | shopping_list.py:132-141 | clear empties the list and moves the pre-clear list into the backup |
| ListStore.Undo | shopping_list.py:144-153 | undo sets the list to the backup, keeps the backup, and shows the restored list ("empty" exactly when it has no items) |
| ListStore.NormalizeIsItem | shopping_list.py:106 | every normalised segment is a well-formed item: stripped and already title-cased |
| ListStore.KeptAreItems | shopping_list.py:104-107 | everything add appends is a well-formed item |
| Commands.Step | shopping_list.py:185-191 | each command runs its handler; `/list` changes nothing; add, remove and clear back up the list they found; undo copies the backup into the list |
| Commands.Run | shopping_list.py:185-191 | a session applies its commands one by one; a session of `/list` commands only leaves the state unchanged, and a session ending in `/undo` leaves the list equal to its backup |
| Commands.RunSnoc | shopping_list.py:185-191 | handling one more command is one more step on the state reached so far |
| Commands.UndoRevertsMutation | shopping_list.py:137-150 | undo right after add, remove or clear restores the exact list from before that command |
| Commands.UndoRevertsLastMutation | shopping_list.py:99-150 | after any earlier session, a mutation followed by undo leaves the list the mutation started from |
| Commands.UndoTwiceIsUndoOnce | shopping_list.py:144-153 | undo takes no backup of its own, so undo twice has the same effect as undo once |
| Commands.UndoBeforeAnyMutation | shopping_list.py:32-50 | undo before any mutation yields the empty list, even after a stored list was restored |
| Commands.RunOfAdds | shopping_list.py:95-110 | a run of adds appends every non-empty segment of every call, in call-then-segment order |
| Commands.StepKeepsWellFormed | shopping_list.py:95-153 | every command keeps all items in the list and backup well formed |
| Commands.RunKeepsWellFormed | shopping_list.py:95-153 | a session that starts from well-formed items only ever holds well-formed items |
| Scenarios.TitleAfterApostrophe | shopping_list.py:106 | `"they're".title()` is `"They'Re"`: the apostrophe is not a letter, so the next letter starts a word |
| Scenarios.SegmentsOfAddExample | shopping_list.py:102 | the words `milk`, `,EGGS,`, `bread` become the segments `"milk "`, `"EGGS"`, `" bread"` |
| Scenarios.AddThreeSegments | shopping_list.py:104-108 | adding three segments of non-zero length to the initial state stores their normalised forms, in order |
| Scenarios.AddExample | shopping_list.py:104-108 | those segments are stored as `Milk`, `Eggs`, `Bread` |
| Scenarios.AddBlankSegmentExample | shopping_list.py:104-107 | the segments `milk`, `" "`, `eggs` are stored as `Milk`, `""`, `Eggs` |
| Scenarios.RemoveSecondOfThree | shopping_list.py:123-126 | of three items, remove deletes the second when the first does not match and the second does |
| Scenarios.RemoveExample | shopping_list.py:114-128 | `/remove EGG` on `Milk`, `Eggs`, `Bread` leaves `Milk`, `Bread` |

## Behaviour of the bot worth knowing

The model follows the code in each of these cases:

- Remove with a query that no item contains sends no message at all. The loop
  in `remove` ends without a reply. The model's reply is `NoMatch`, meaning
  that nothing is sent.
- Add tests the length of a segment before stripping it. A whitespace-only
  segment such as the middle one in `milk, ,eggs` is therefore stored as the
  empty item `""`. Only a segment of length zero (`milk,,eggs`) gets the
  "please specify" reply.
- Add and remove overwrite the backup even when they change nothing.
- Restoring at startup replaces only the list. The backup stays the initial
  empty list, so an undo before any mutation empties the list.

## Left out

- Telegram plumbing: `Updater`, `CommandHandler`, the reply calls, `start`,
  `help` and `main`. This is network I/O and dispatch. Handlers receive the
  argument words directly. The chat library makes them by splitting the
  message at whitespace.
- Markdown joining and escaping in `show_list`. This is presentation for an
  external renderer. The model keeps only the choice between "empty" and the
  listed items.
- Pickle serialisation and file access in `restore_from_backup` and
  `shutdown`. These are foreign library calls and disk I/O. The stored file
  is an optional list: present or absent. A corrupt file raises an exception
  in `restore_from_backup`. That path is not modelled.
- Signal handling and `updater.stop()`: process control.
- Reading the bot token from a file or the environment: I/O.
- Concurrency. The program relies on sequential dispatch of handlers. No
  property about concurrent commands is stated.
- Full Unicode behaviour of `strip`, `lower` and `title`. The model uses
  the ASCII subset described above.
- The `ValueError` that `list.remove` raises for a missing element. The
  handler only passes an element it found in the list, so
  `ListStore.RemoveValue` requires that.
