# Restaurant floor screen — table occupancy and reservation list

This project models the logic inside the event handlers of the restaurant management
screen in `Rest_UI.java`. The model works on plain data and leaves out the JavaFX widgets.
It covers two independent parts of the screen.

- **The table floor** (`tables.dfy`, module `Tables`). There are twelve tables, numbered 1
  to 12 in row-major order over four rows of three. Each table's capacity is drawn from
  {2, 4, 8}.
  - A table is a rectangle filled green (free) or red (occupied). Its label follows the
    fill: `"Table n\nCapacity: c"`, plus `"\nOccupied"` when red.
  - Clicking a green table turns it red.
  - Clicking a red table does not change it. Instead it fills the three texts of the
    details box (table information, a placeholder order and `"Total Bill: $XXX"`) and
    appends one more "Cheque" button to the box.
  - Confirming a cheque button's dialog turns its table green with the base label.
    Cancelling the dialog does nothing.
  - The class `Floor` holds the tables, the three texts and the children of the details
    box. Its methods are `Click(n)` and `ChequeConfirm(n, ok)`.
- **The reservation list** (`reservations.dfy`, module `Reservations`).
  - Ten hyperlinks are built, each labelled `"Reservation i: name - HH:MM"`.
  - They are sorted, stably, by the time read back out of each label. The time is the
    second piece of splitting the label on `": "`, split again on `" - "`.
  - Answering "Yes" to a hyperlink's cancel dialog removes that hyperlink. The class
    `ReservationBox` holds the list, and its method `Cancel(link, yes)` models the dialog.

Two modules model the pieces of the Java library these handlers rely on:

- `java_strings.dfy` (module `JavaStrings`) models `Integer.toString`,
  `String.format("%02d")`, `String.split` with a separator free of regular-expression
  metacharacters, and `String.compareTo`.
- `list_ops.dfy` (module `ListOps`) models `Collections.sort` with a key comparator and
  `List.remove(Object)`.

The random generators become inputs limited to their ranges:

- `Draw` holds the picked name, the hour and the minute; `ValidDraw` limits them to the
  pool, 17..24 and 0..60.
- A capacity is an element of `Capacities`.

Each dialog becomes a boolean: confirm or cancel.

What the code does, and the model with it:

- The code has no separate billing state; clicking an occupied table never frees it.
- The cheque dialog frees its table whatever state the table is in.
- The sort key is parsed out of the display text; there is no separate time field.
- Removing a hyperlink that is no longer in the box is a silent no-op, not an error.

## Model

| member | source | states |
|---|---|---|
| JavaStrings.DecimalString | Rest_UI.java:161-161 | `Integer.toString` of a non-negative int (also the round number at line 118): the decimal digits, most significant first, without a sign; its meaning is stated by `DecimalRoundTrip` and `DecimalDigits` |
| JavaStrings.DecimalRoundTrip | Rest_UI.java:118-118 | reading the decimal string of a non-negative int back gives the int |
| JavaStrings.DecimalDigits | Rest_UI.java:161-161 | `Integer.toString` of a non-negative int is a non-empty run of digits with no leading zero |
| JavaStrings.ZeroPad2 | Rest_UI.java:219-219 | `String.format("%02d", n)`: the decimal string, with one leading `0` below 10; its meaning is stated by `ZeroPad2Digits` and `PaddedOrder` |
| JavaStrings.ZeroPad2Digits | Rest_UI.java:219-219 | `%02d` prints at least two digits; below 100 it prints exactly the tens then the units digit |
| JavaStrings.Split | Rest_UI.java:203-204 | `s.split(sep)` with limit 0 for a separator without regular-expression metacharacters: the whole string when the separator never occurs, otherwise the pieces between its leftmost non-overlapping occurrences with trailing empty pieces dropped; its meaning is stated by `FirstOccurrenceLeftmost`, `DropTrailingEmptyTail`, `SplitAllAt`, `SplitAllNone` and `SplitOnce` |
| JavaStrings.FirstOccurrenceLeftmost | Rest_UI.java:203-203 | the separator match `split` uses is an occurrence with none before it, and no match means no occurrence |
| JavaStrings.DropTrailingEmptyTail | Rest_UI.java:203-203 | `split` with limit 0 drops exactly the run of trailing empty pieces and keeps the rest as a prefix |
| JavaStrings.SplitAllAt | Rest_UI.java:203-203 | splitting `a + sep + b`, when no occurrence starts inside `a`, gives `a` followed by the pieces of `b` |
| JavaStrings.SplitAllNone | Rest_UI.java:204-204 | a string with no occurrence of the separator is its own single piece |
| JavaStrings.SplitOnce | Rest_UI.java:203-204 | with exactly one occurrence and a non-empty text after it, `split` returns the two sides |
| JavaStrings.CompareTo | Rest_UI.java:124-124 | `String.compareTo`: the difference of the first differing characters, or of the lengths when one string is a prefix of the other; its meaning as a total order is stated by `CompareToZero`, `CompareToAntisymmetric`, `LessTransitive`, `NotLessTransitive`, `LessIrreflexive`, `LessAsymmetric` and `CompareToAppend` |
| JavaStrings.CompareToZero | Rest_UI.java:124-124 | `compareTo` is zero exactly on equal strings |
| JavaStrings.CompareToAntisymmetric | Rest_UI.java:124-124 | `a.compareTo(b) < 0` exactly when `b.compareTo(a) > 0` |
| JavaStrings.LessTransitive | Rest_UI.java:124-124 | the comparator's strict order is transitive |
| JavaStrings.NotLessTransitive | Rest_UI.java:124-124 | "not less" is transitive, so a sorted list is ordered across all pairs |
| JavaStrings.LessIrreflexive | Rest_UI.java:124-124 | no string is less than itself |
| JavaStrings.LessAsymmetric | Rest_UI.java:124-124 | `a < b` rules out `b < a` |
| JavaStrings.CompareToAppend | Rest_UI.java:124-124 | equal-length prefixes decide `compareTo`, and only when they are equal does the rest decide |
| ListOps.Sort | Rest_UI.java:124-124 | `Collections.sort` returns a list sorted by key, a permutation of its input, with the elements of each key in input order (stability), and keeps a duplicate-free list duplicate-free |
| ListOps.InsertionPoint | Rest_UI.java:124-124 | helper of the insertion sort that computes `Collections.sort`'s result: the slot for a new element comes after every element whose key is not greater and before a run whose keys are all greater |
| ListOps.InsertStep | Rest_UI.java:124-124 | helper of the insertion sort that computes `Collections.sort`'s result: one insertion keeps the list sorted, a permutation of the elements placed, stable and duplicate-free |
| ListOps.InsertKeepsSorted | Rest_UI.java:124-124 | helper of the insertion sort that computes `Collections.sort`'s result: inserting at that slot keeps the list sorted |
| ListOps.InsertWithKey | Rest_UI.java:124-124 | helper of the insertion sort that computes `Collections.sort`'s result: inserting at that slot puts the element last among those with its key and changes no other key's order |
| ListOps.WithKeyAppend | Rest_UI.java:124-124 | helper of the insertion sort that computes `Collections.sort`'s result: the elements of one key in a concatenation are those of the left part then those of the right part |
| ListOps.WithKeyAllGreater | Rest_UI.java:124-124 | helper of the insertion sort that computes `Collections.sort`'s result: a run of elements whose keys are all greater than `t` holds no element with key `t` |
| ListOps.Remove | Rest_UI.java:264-264 | `List.remove(Object)` on the children list: the first element equal to `x` is taken out, and without one the list is returned unchanged; its meaning is stated by `RemoveMultiset`, `RemoveDeletesOne` and `RemoveExactly` |
| ListOps.RemoveMultiset | Rest_UI.java:264-264 | `List.remove(Object)` takes away one copy of the element when present, and otherwise leaves the list as it was |
| ListOps.RemoveAt | Rest_UI.java:264-264 | removal deletes exactly the first position holding the element |
| ListOps.RemoveDeletesOne | Rest_UI.java:264-264 | when the element is present, removal deletes one position, the first that holds it |
| ListOps.RemoveFirst | Rest_UI.java:264-264 | the index-search loop of `remove` computes the list-removal function |
| ListOps.RemoveExactly | Rest_UI.java:264-264 | in a duplicate-free list, removal deletes that element, keeps all others in their order, and leaves the list duplicate-free |
| ListOps.DeleteKeepsOrder | Rest_UI.java:264-264 | deleting one position keeps a sorted list sorted |
| ListOps.RemoveKeepsSorted | Rest_UI.java:264-264 | removal keeps a sorted list sorted |
| ListOps.RemoveKeepsAll | Rest_UI.java:264-264 | removal keeps a property every element has |
| Reservations.FormatTime | Rest_UI.java:219-219 | `String.format("%02d:%02d", hour, minute)`: the padded hour, a colon, the padded minute; its meaning is stated by `FormatTimeShape` and `TimeOrder` |
| Reservations.ReservationLabel | Rest_UI.java:118-118 | the hyperlink text `"Reservation " + i + ": " + name + " - " + time`; that the time reads back out of it is stated by `LabelRoundTrip` |
| Reservations.TimeFromLabel | Rest_UI.java:202-205 | `getTimeFromHyperlink`: the second piece of `split(": ")`, split again on `" - "`, second piece; None where the source would throw `ArrayIndexOutOfBoundsException`; its meaning is stated by `LabelRoundTrip` |
| Reservations.FormatTimeShape | Rest_UI.java:215-220 | `"%02d:%02d"` gives a non-empty time without spaces, and for two-digit values the five characters `HH:MM` |
| Reservations.PaddedOrder | Rest_UI.java:219-219 | two zero-padded numbers below 100 compare as strings the way they compare as numbers, and are equal exactly when the numbers are |
| Reservations.TimeOrder | Rest_UI.java:217-219 | the string order of formatted times is the numeric (hour, minute) order, and equal strings mean equal times |
| Reservations.LabelRoundTrip | Rest_UI.java:202-205 | reading the time out of `"Reservation i: name - t"` returns `t`, for a name without `:` or `-` and a non-empty `t` without spaces |
| Reservations.NamesArePlain | Rest_UI.java:209-209 | no name in the pool holds `:` or `-` |
| Reservations.MakeLinkTime | Rest_UI.java:115-118 | the time of every hyperlink the generation loop builds reads back as the time it was built with |
| Reservations.GeneratedLinks | Rest_UI.java:114-121 | every generated hyperlink's time can be parsed, and no two generated hyperlinks are the same |
| Reservations.GenerateLinks | Rest_UI.java:114-121 | the generation loop yields the hyperlink of round i at index i - 1 |
| Reservations.SortByTime | Rest_UI.java:123-124 | sorting by the parsed time gives a sorted permutation that keeps generation order among equal times |
| Reservations.CreateReservationBox | Rest_UI.java:105-129 | the box holds exactly the generated hyperlinks, sorted by time, stable, parseable and duplicate-free |
| Reservations.CancelKeepsValid | Rest_UI.java:264-264 | removing a hyperlink keeps the list sorted, parseable and duplicate-free |
| Reservations.ReservationBox.constructor | Rest_UI.java:47-47 | the box starts as the sorted generated list and satisfies its invariant |
| Reservations.ReservationBox.Cancel | Rest_UI.java:254-268 | "Yes" removes the hyperlink from the box and "No" changes nothing; the invariant is kept |
| Tables.BaseLabel | Rest_UI.java:161-161 | the label of a free table, `"Table n\nCapacity: c"`; `NewTable`, `MakeAvailable` and `Consistent` state where it is used |
| Tables.InfoText | Rest_UI.java:169-169 | the table information shown for an occupied table: its base label followed by `"\nStatus: Occupied"`; `Floor.Click` states when it is shown |
| Tables.OrderText | Rest_UI.java:170-170 | the placeholder order text of table n; `Floor.Click` states when it is shown |
| Tables.NewTable | Rest_UI.java:153-164 | a new table is green with its base label |
| Tables.ClickNotRed | Rest_UI.java:180-188 | a click on a table that is not red leaves it consistent; on a consistent table the fallback is dead, and the table turns red with `"\nOccupied"` appended |
| Tables.MakeAvailable | Rest_UI.java:239-243 | OK in the make-available dialog gives a green table with its base label; an occupied table loses exactly its `"\nOccupied"`; a free table is unchanged |
| Tables.MakeAvailableIdempotent | Rest_UI.java:239-243 | confirming twice is the same as confirming once |
| Tables.OccupyThenRelease | Rest_UI.java:181-241 | occupying a free table and then confirming its cheque gives back the free table |
| Tables.ReleaseThenOccupy | Rest_UI.java:181-241 | freeing an occupied table and clicking it again gives back the occupied table |
| Tables.CreateTableInfoGrid | Rest_UI.java:141-148 | the grid holds twelve green tables numbered 1..12, each with its drawn capacity, placed row-major from grid row 1 so that `number == 3 * (row - 1) + col + 1` |
| Tables.ReplaceKeepsGrid | Rest_UI.java:166-189 | swapping one table for a consistent one with the same number, capacity and grid cell keeps the grid valid |
| Tables.Floor.constructor | Rest_UI.java:50-59 | the floor starts with the valid grid of green tables, numbered and placed row-major, with empty texts and the titled details box |
| Tables.Floor.UpdateTableDetails | Rest_UI.java:195-199 | the three texts are overwritten and nothing else changes |
| Tables.Floor.Click | Rest_UI.java:166-189 | clicking a red table keeps every table, fills the three texts and appends one cheque button; clicking a green table turns it red with `"\nOccupied"` appended, keeps its number, capacity and grid cell, and changes nothing else; either way the table is occupied and the invariant holds |
| Tables.Floor.ChequeConfirm | Rest_UI.java:238-245 | OK replaces that table by its freed form (green, base label, same number, capacity and grid cell) and leaves every other table and the details box alone; Cancel changes nothing |

## Left out

- JavaFX layout, styling, sizes, the width and height bindings (floating point), the scroll
  pane, scene, stage and `main` are not modelled. None of them holds state the handlers read.
- The dialogs are not modelled as windows. Only the confirm or cancel choice is kept, as a
  boolean parameter.
- `java.util.Random` is not modelled. Its results become the `Draw` and capacity inputs,
  limited to the ranges the generators can produce.
- The titles made by `createTitle` and `createBox` appear only as `Title` entries among the
  details box children. Their bold style is not modelled.
- The reservation box's own title is not part of `ReservationBox.links`. It is always first
  and is never the hyperlink a cancel removes.
- Hyperlink object identity is represented by the round number stored in `Link.id`.
  Hyperlinks are compared by value, which matches identity because the ids are distinct.
- The button objects themselves are not modelled. A `ChequeButton(n)` child stands for the
  box holding a cheque button whose handler frees table n.
- The merge sort inside `Collections.sort` is not modelled step by step. The result is
  specified as the unique stable sorted order, and the model computes it with an insertion
  sort.
- Sorting and removal work on `seq` values that the methods reassign, not on a list
  updated in place. Aliasing of the children list is not modelled.
- Parse failures are not modelled as exceptions. On a label it cannot parse, the source throws
  `ArrayIndexOutOfBoundsException`, while the sort key `Time` returns the empty string.
  Every caller first establishes that all labels parse, so this value is never used.
- Reservations.LabelRoundTrip: the model requires a name without `:` or `-` characters.
  That is stronger than "no `": "` or `" - "` substring", which is not enough: a name
  ending in `:` puts a second `": "` into the label. Every name in the pool meets the
  stronger condition (NamesArePlain).
- Characters are Dafny `char` values rather than UTF-16 code units. With the ASCII digits
  the model formats with, all the text involved is in the Basic Multilingual Plane, so
  `compareTo` gives the same result.
- Locale-dependent digits are not modelled. `String.format` writes digits and padding zeros
  relative to the default format locale's zero digit; ZeroPad2 and FormatTime always use
  '0'..'9', which assumes a locale whose zero digit is '0'. Under another zero digit (for
  example Thai digits) the times use that locale's digits, and PaddedOrder, TimeOrder and
  LabelRoundTrip are not proved for them.
