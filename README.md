# List-Assignment in Dafny

This project models two parts of a C coursework repository and proves properties about them.

- **`lists.dfy`, module `Lists`.** This is the cursor list of `list.h`. A list holds
  integer items in order. Its current item is either one of those items or a unique
  "none" position. Its default item is fixed when the list is created, and `get`
  returns it when no item is selected.
  - `ListState` describes the list as a value, with one function per library
    operation.
  - `List` is the list as a class. Its fields are changed in place by one method per
    operation. Each method states its explicit cases and is also tied to the
    corresponding `ListState` function.
  - Lemmas about `ListState` cover any sequence of operations: the invariant is kept
    and the default item never changes. They also cover round trips (insert, then
    delete), walks with `after` and `before`, and building or emptying a list.
- **`visualise.dfy`, module `Visualise`.** This is the conversion core of
  `visualise.c`: `mySizeOf`, `stringToType`, `checkType` and `decimalToBinary`.
  - `Formatted` specifies the conversion as a function: either the error or
    the grouped two's-complement bits.
  - `DecimalToBinary` is the program's own algorithm: a character scan, `atoi`, a
    range check and a loop over bit positions. It is proved equal to `Formatted`.
  - Lemmas give the shape of every successful output. Others show that reading the
    bits back as unsigned gives the input value modulo 2^(8·size), and reading them
    as two's complement gives the input value itself. Each rejection is covered, and
    so is every expected conversion in the program's test function.

One open point in `list.h` is settled by a chosen reading.

- list.h:53 and list.h:59 say the inserted item becomes the current item. The
  sentences for the none case (list.h:54-56 and list.h:60-61) say only where the item
  goes. The model reads the none case as inserting at the front (`insertAfter`) or at
  the end (`insertBefore`) with no item becoming current. list.h:60 names
  `insertAfter` in the description of `insertBefore`; the model takes it to mean
  `insertBefore`.

Two facts about `decimalToBinary` in `visualise.c` follow from the code as written,
and the model keeps them.

- "" and "-" are accepted and convert as 0. The scan checks no characters, and
  `atoi` returns 0.
- "-05" is accepted. The leading-zero check at visualise.c:55 applies only when the
  first character is '0'.

## Model

| member | source | states |
|---|---|---|
| Lists.List.constructor | list.h:16-18 | a new list is empty, with no item selected and the given default item |
| Lists.NewList | list.h:16-18 | the new state is valid and at none, has no items, and `get` on it returns the default item |
| Lists.List.First | list.h:23-27 | selects index 0 of a non-empty list; an empty list stays at none; the items are unchanged |
| Lists.List.Last | list.h:23-27 | selects the last index of a non-empty list; an empty list stays at none; the items are unchanged |
| Lists.ListState.First | list.h:23-27 | keeps the invariant, the items and the default item |
| Lists.ListState.Last | list.h:23-27 | keeps the invariant, the items and the default item |
| Lists.List.IsNone | list.h:29-31 | true exactly when no item is selected |
| Lists.ListState.IsNone | list.h:29-31 | true exactly when no item is selected; a valid empty list is always at none |
| Lists.List.After | list.h:33-37 | at none: does nothing and returns false; at the last item: goes to none and returns true; otherwise moves to the next index and returns true |
| Lists.ListState.After | list.h:33-37 | keeps the invariant, the items and the default item |
| Lists.List.Before | list.h:39-43 | at none: does nothing and returns false; at the first item: goes to none and returns true; otherwise moves to the previous index and returns true |
| Lists.ListState.Before | list.h:39-43 | keeps the invariant, the items and the default item |
| Lists.List.Get | list.h:45-47 | the item at the current index, or the default item at none |
| Lists.ListState.Get | list.h:45-47 | at an item, that item of the list; at none, the default item |
| Lists.List.Set | list.h:49-51 | returns true exactly when an item is selected; then only that item is changed to x; at none nothing changes |
| Lists.ListState.Set | list.h:49-51 | keeps the invariant, the length, the current position and the default item |
| Lists.List.InsertAfter | list.h:53-57 | inserts x just after the current item and selects it; at none, puts x at the front and stays at none |
| Lists.ListState.InsertAfter | list.h:53-57 | keeps the invariant and the default item; the list grows by one |
| Lists.List.InsertBefore | list.h:59-62 | inserts x just before the current item and selects it; at none, appends x and stays at none |
| Lists.ListState.InsertBefore | list.h:59-62 | keeps the invariant and the default item; the list grows by one |
| Lists.List.DeleteToAfter | list.h:64-69 | removes the current item and selects its successor, or none if it was the last, and returns true; at none does nothing and returns false |
| Lists.ListState.DeleteToAfter | list.h:64-69 | keeps the invariant and the default item; the list shrinks by one exactly when the delete reports true |
| Lists.List.DeleteToBefore | list.h:71-76 | removes the current item and selects its predecessor, or none if it was the first, and returns true; at none does nothing and returns false |
| Lists.ListState.DeleteToBefore | list.h:71-76 | keeps the invariant and the default item; the list shrinks by one exactly when the delete reports true |
| Lists.ApplyKeepsInvariant | list.h:1-4 | every single operation keeps the current position valid and keeps the default item |
| Lists.RunKeepsInvariant | list.h:1-4 | every sequence of operations keeps the position valid and the default item; at none, `get` returns the creation value |
| Lists.EmptyIsNone | list.h:16-17 | an empty list has no item selected, and `get` returns the default item |
| Lists.InsertAfterThenDeleteToBefore | list.h:53-57 | the inserted item becomes current; then `deleteToBefore` restores the exact earlier state |
| Lists.InsertBeforeThenDeleteToAfter | list.h:59-62 | the inserted item becomes current; then `deleteToAfter` restores the exact earlier state |
| Lists.InsertAtNoneStaysNone | list.h:53-62 | at none, `insertAfter` prepends x and `insertBefore` appends it; neither selects an item |
| Lists.AfterThenBefore | list.h:33-43 | away from the last item, `after` then `before` returns to the same state |
| Lists.BeforeThenAfter | list.h:33-43 | away from the first item, `before` then `after` returns to the same state |
| Lists.SetThenGet | list.h:45-51 | `set` succeeds exactly when an item is selected; `get` then returns x; the other items are unchanged; at none nothing happens; repeating `set` changes nothing more |
| Lists.DeleteRemovesCurrent | list.h:64-76 | both deletions remove exactly the current item and keep the other items in order (also as a multiset); at none they do nothing and return false |
| Lists.WalkForwards | list.h:33-37 | n calls of `after` from index k reach index k+n, or none just past the end |
| Lists.WalkBackwards | list.h:39-43 | n calls of `before` from index k reach index k-n, or none just before the start |
| Lists.Traversal | list.h:23-43 | from `first`, j calls of `after` select item j, and \|items\| calls reach none; from `last`, j calls of `before` select item \|items\|-1-j, and \|items\| calls reach none |
| Lists.BuildWithInsertBefore | list.h:59-62 | at none, repeated `insertBefore` appends the items in order |
| Lists.BuildWithInsertAfter | list.h:53-57 | at none, repeated `insertAfter` prepends the items in reverse order |
| Lists.DeleteSuffix | list.h:64-69 | n calls of `deleteToAfter` from index k remove exactly items k to k+n-1 |
| Lists.DeleteAll | list.h:64-69 | from `first`, \|items\| calls of `deleteToAfter` leave a new empty list with the same default item |
| Visualise.MySizeOf | visualise.c:23-36 | the size is positive exactly for char and int: 1 for char, 4 for int, 0 for anything else |
| Visualise.StringToType | visualise.c:92-101 | returns the char code exactly for "char", the int code exactly for "int", and -1 for every other string |
| Visualise.CheckType | visualise.c:103-109 | true exactly for "char" and "int", which are exactly the type names with a positive size |
| Visualise.LengthOk | visualise.c:43-47 | the length check passes exactly when the input has at most 4 characters for a char (the char case falls through to the int check) and at most 11 for an int |
| Visualise.Numeral | visualise.c:49-62 | a passing input has only digits after an optional leading '-', and one that starts with '0' is all zeros |
| Visualise.Atoi | visualise.c:64 | the value has the sign of the input: not negative without a leading '-', not positive with one; an input starting with '0' reads as 0 |
| Visualise.AtoiBound | visualise.c:64 | an input with k digits reads as a value below 2^(4k) in magnitude |
| Visualise.CharInputFits | visualise.c:43-64 | a char input that passes the length and digit checks always reads as a value of the 32-bit int type |
| Visualise.Unsigned32 | visualise.c:81 | the conversion to unsigned int is below 2^32 and congruent to the value modulo 2^32, and it leaves values already in [0, 2^32) unchanged |
| Visualise.Render | visualise.c:80-87 | the text of the bit loop holds only '0', '1' and ' ' |
| Visualise.Formatted | visualise.c:38-90 | the output is a bit string exactly when the input passes the length, digit and char-range checks |
| Visualise.DecimalToBinary | visualise.c:40-90 | the program's scan, `atoi`, range check and bit loop give exactly `Formatted` |
| Visualise.WriteBits | visualise.c:80-87 | the loop from bit width-1 down to 0 writes `Render`: one character per bit, with a space after every bit at a positive multiple of 4 |
| Visualise.RenderIsGrouped | visualise.c:80-87 | writing 4m bits is the same as writing m nibbles separated by single spaces |
| Visualise.GroupedLayout | visualise.c:72-87 | m nibbles take 5m-1 characters; a space appears exactly at positions 4, 9, 14, ...; every other character is '0' or '1' |
| Visualise.StripRender | visualise.c:80-87 | removing the spaces from the output leaves exactly the bit characters |
| Visualise.BitsValue | visualise.c:80-82 | the bit characters, read as binary, give u modulo 2^n |
| Visualise.TwosComplement | visualise.c:80-82 | a value in the range of a w-bit signed type is recovered from its w-bit pattern |
| Visualise.OutputShape | visualise.c:72-87 | a successful output has 2·size nibbles, 10·size-1 characters and 8·size bits, with spaces only between nibbles |
| Visualise.OutputRoundTrip | visualise.c:64-87 | the output's bits, read unsigned, give the input value modulo 2^(8·size); read as two's complement, they give the input value itself |
| Visualise.Rejections | visualise.c:43-69 | each check on its own rejects: a char longer than 4, any input longer than 11, a non-digit after the optional sign, a leading zero followed by a non-zero, a char value outside [-128, 127] |
| Visualise.CharSeven | visualise.c:164 | char "7" converts to "0000 0111" |
| Visualise.CharMinus128 | visualise.c:165 | char "-128" converts to "1000 0000" |
| Visualise.CharMinus50 | visualise.c:166 | char "-50" converts to "1100 1110" |
| Visualise.Char101 | visualise.c:167 | char "101" converts to "0110 0101" |
| Visualise.Char255Rejected | visualise.c:168 | char "255" gives "Input error." |
| Visualise.CharLeadingZeroRejected | visualise.c:169 | char "08" gives "Input error." |
| Visualise.CharNonDigitRejected | visualise.c:170 | char "-x0" gives "Input error." |
| Visualise.IntTenMillion | visualise.c:172 | int "10000000" converts to "0000 0000 1001 1000 1001 0110 1000 0000" |
| Visualise.IntMinusBillion | visualise.c:173 | int "-1000000000" converts to "1100 0100 0110 0101 0011 0110 0000 0000" |
| Visualise.Int10055 | visualise.c:174 | int "10055" converts to "0000 0000 0000 0000 0010 0111 0100 0111" |
| Visualise.IntRejected | visualise.c:175-177 | int "-100000000000", "0x64" and "000005" each give "Input error." |

## Left out

- `freeList` (list.h:20-21) is left out: Dafny manages memory itself, so there is nothing to free.
- The constant-time claim (list.h:4) is not modelled. `lists.c` is not part of this model, so the items are a sequence and not a concrete linked representation.
- Thread safety (list.h:5) is not modelled; the model is sequential.
- `error`, `visualise`, `main` and all printing (`printf`, `fprintf`, `exit`) are left out: they are I/O around the modelled functions.
- The test harness functions `assert` and `check` are left out. Their expected values are stated as lemmas: the conversions above, and the type-name results through the contracts of `StringToType`, `CheckType` and `MySizeOf`.
- The `malloc` and zero-filled output buffer are left out. The output is a string value, and the zero fill only means the string starts out empty.
- A C string is modelled as its characters before the terminating NUL. Reading `decimalInput[0]` of "" sees the NUL, which is neither '-' nor '0'.
- The comment on `mySizeOf` (visualise.c:23-25) says it returns the output size of the binary string, with spaces and the terminator. The code (visualise.c:29-35) returns the size of the type in bytes, and the model follows the code. The caller computes the buffer size as `mySizeOf(t) * 10` (visualise.c:72).
- `isdigit` is modelled as the ASCII digits '0' to '9' (the C locale).
- Visualise.DecimalToBinary: requires that an int input passing the length and digit checks fits in a 32-bit int. Outside that range `atoi` has undefined behaviour, so the int range check at visualise.c:68 can never fail in the model.
- Visualise.DecimalToBinary: requires the type to be char or int, the only types `visualise` passes. For any other code the C function skips all length checks and would allocate an empty buffer.
- The enumeration members `Long`, `unsignedChar`, `unsignedInt` and `Double` are declared as constants but have no behaviour, as in the source.
