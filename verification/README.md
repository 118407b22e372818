# A verified model of misFITS

misFITS is a C++ layer over CFITSIO for binary tables in FITS files. This project models the logic that is
misFITS' own and proves what that logic promises: packing user values into rows and back, the table's cache of
column descriptions, copying columns between tables, and letting any number of handles share one file whose
current header-data unit (HDU) anyone may move.

`dafny verify dfyconfig.toml` checks everything.

## The parts

- **Store** (`store.dfy`). A small abstract column store stands for CFITSIO. A `File` has a list of HDUs and one
  mutable current HDU. A table HDU has column headers (TTYPE, TFORM and TDIM as text) and rows of cells of raw
  bytes; a row is the concatenation of its cells. CFITSIO's operations work on whichever HDU is current. What is
  assumed of them is what `tests/cfitsio.cc:36-229` records, and the FITS Standard 3.0, sections 7.3.2 (TDIM) and
  7.3.3.1 (bit arrays, character strings).
- **Descriptions** (`extent.dfy`, `numerals.dfy`, `columns.dfy`). Shapes with their 32-bit element count, TDIM and
  TFORM text with printers and parsers, `ColumnInfo` as it is made from a header and as it is written to one, and
  the layout of a whole table with its byte offsets.
- **Codecs** (`bytes.dfy`, `bitset.dfy`, `textcodec.dfy`). The bitset with its block representation and its
  invariant that unused bits are zero, the two iterators that reverse bytes, and the two string codecs.
- **Tables** (`tablespec.dfy`, `table.dfy`). `TableSpecs` says what each mutator does to the pair of a table and its
  cache, in terms in which no current HDU occurs. `Tables.Table` is the class: its methods work on the shared
  `File`, and each is proved equal to its specification for the handle's own HDU, wherever the file stood before,
  leaving every other HDU alone.
- **copy_columns** (`copyspec.dfy`, `copycontract.dfy`, `copysuccess.dfy`, `copystale.dfy`,
  `copyflags.dfy`). The phases plan, insert, extend, refresh, copy; then what holds after success, what is left after
  failure, exactly when it succeeds, what becomes of it when the source's cache is stale, and what the bits of its
  flags mean.
- **Rows** (`rowspec.dfy`, `rowcontract.dfy`, `cursorsteps.dfy`, `rowbytes.dfy`, `cursors.dfy`, `row.dfy`,
  `memblock.dfy`). Columns bound to objects in user memory (a map from addresses to values), the cursor, with and
  without advancing by itself, whole runs of writes and reads, several cursors that read and write one table, nested
  struct descriptions. `RowBytes.ReadsAs` and `RowBytes.StoredIn` say what the bytes of a cell mean for an object
  without any of the functions that read and write; the code is proved to agree with them.
- **Sessions** (`session.dfy`, `sessioncontract.dfy`). Any sequence of calls on any number of `Table` and `Row`
  objects of any number of files, `copy_columns` between files among them, with moves of the files in between, refines
  a system in which there is no current HDU. What holds over all runs is then proved of that system.

The code's classes are classes here (`File`, `Table`, `Row`, `Column`, `MemBlock`, `BlockEntry`, the bitset
iterators), its loops are loops, and each method is proved equal to a specification function; the lemmas are about
these functions. Exceptions are failures in a `Result`, with the state as the exception leaves it.

Some predicates recur. `Sound`: the headers are legal, and the cells have the lengths the headers say.
`Describable`: every TDIM can be read. `Legible`: both, so that the table can be refreshed. `Coherent`: the cache
equals the description of the header, column by column. `InOrder`: the cache's entries are numbered from one.
`Numbered`: that, with an entry at least for each column, as is left after `delete_column(name)`. `Usable`: a shape
with at least one axis, no empty axis, and fewer than 2^31 elements. `Even`: a string column whose width divides its
repeat count. `Knows`: the source's cache entry at the place of a name carries that name and the column's number.

These things about CFITSIO are assumed and are not recorded in `tests/cfitsio.cc`:

- `fits_insert_col` with a number beyond the end appends, and refuses a number below one; `fits_write_tdimll` refuses a
  column that is not there, and a shape whose product is not the repeat count; `fits_read_tdimll` refuses a TDIM of that
  kind. `fits_delete_col`, `fits_modify_vector_len` and `fits_copy_col` refuse columns that are not there.
- New columns and new rows are zero. Writing behind the last row, by column or by bytes, adds rows up to it. Cells that
  become longer are filled with zeros, cells that become shorter are cut.
- `fits_get_colnum` on a name without wildcards disregards case, and fails for a name that several columns have.
- Logical values are the letters T and F in the file and one and zero in memory.
- What `fits_modify_vector_len` makes of the width suffix of a string column is a parameter (`SuffixRule`), with three
  rules: it is kept; it is kept only if the repeat count stays the same; TFORM is always written anew without it. A
  suffix larger than the repeat count (`5A12`) counts as the repeat count.

## Where the code and its intentions part

Each of these is proved, with the exact condition and with an instance.

- `resize` means to write no TDIM for shapes of one dimension (comment at `misfits/table.cc:182-184`), but it tests
  for exactly one axis after squeezing. A scalar has none, so that resizing to a scalar writes `TDIM = '(1)'`; `add`
  tests for more than one axis and writes none (`TableSpecs.ResizeExactly`, `TableSpecs.ScalarResizeWritesTdim`).
- `resize` of a string column with a width suffix to a one-axis shape does not give the shape asked for if CFITSIO
  leaves a suffix between 1 and the new length in TFORM. Under each rule for suffixes the condition is exact
  (`TableSpecs.ResizedShape`). `60A12` asked to become 60 characters in a line stays five strings of twelve, unless
  TFORM is written anew for an unchanged repeat count as well (`TableSpecs.SuffixSurvivesResize`).
- A string column `rAw` whose `w` does not divide `r` is cached with too few bytes, so that every later offset is too
  small (`Columns.InitBytesExact`, `Columns.LayoutTiles`, `Columns.UnevenStrings`).
- `nelem` is the product of the dimensions exactly when the product is below 2^31 (`Extents.NelemExact`,
  `Extents.NelemWraps`).
- `delete_column(name)` does not refresh the cache: every column behind the deleted one is then described by its
  predecessor's entry (`TableSpecs.StaleAfterDeleteNamed`). The promise left is enough for further deletions by name
  to remove the right columns (`TableSpecs.DeleteNamedOutcome`), which `copy_columns` under `Replace` relies on. But
  `resize` then compares with the wrong entry. With any cache it meets its request exactly if this holds: where the
  cached shape is the one asked for, so is the column's own; and elsewhere no width suffix gets in the way
  (`TableSpecs.ResizeExactly`, with the instance `TableSpecs.StaleResizeSkips`).
- As a source of `copy_columns` such a table knows exactly the columns in front of the deleted one
  (`CopyStale.StaleKnows`). For a column behind, the destination gets a column with the name and the type of the
  predecessor, and the requested column's cells go there: the cells arrive in a column of the requested name if and
  only if the source knows the name (`CopyContracts.CopyNamedCells`, with the instance `CopyStale.StaleCopyMisnames`).
  Copying all columns from it fails, unless the deleted column was the last (`CopyStale.StaleCopyAll`).
- `add` of a many-dimensional column with a number beyond the end by more than one fails after CFITSIO has appended
  the column, and the cache does not have it (`TableSpecs.AddOutcome`, `TableSpecs.AddBeyondEnd`).
- `copy_columns` under `Replace` deletes while it plans, so that a failure can lose columns of the destination
  (`CopyContracts.ReplaceFailure`, `CopyContracts.ReplaceLosesColumn`). Which ones is stated exactly. It also fails on
  a destination whose cache ends in front of a column to be deleted, as a failed `add` leaves it.
- Binding a BitSet to a column of a wrong type throws after the BitSet has been resized (`MemBlocks.BitSetRefused`).
- A single string with a NUL in it comes back cut and unpadded, and a second write and read pads it
  (`TextCodec.StringFixedPoint`, `TextCodec.NulIsNoFixedPoint`).
- A description comes back equal only up to axes of length one: a string of shape (1,5) comes back as (5,1)
  (`Columns.DescriptionRoundTrip`). Columns that `copy_columns` creates have one axis, whatever the source's shape
  (`CopyContracts.CreatedType`).

## Model

| member | source | states |
|---|---|---|
| Bytes.ReverseBitsMoves | misfits/bitset.cc:8-15 | the three shifts and masks move bit k of a byte to place 7 - k |
| Bytes.ReverseBitsInvolution | misfits/bitset.cc:8-15 | reversing twice gives the byte back |
| BitSets.ResizeBits | misfits/row_entry.cc:86-93 | resizing keeps every bit below both sizes, adds zeros, and re-establishes that unused bits are zero, also from a set of whole blocks whose last bits are arbitrary |
| BitSets.WriteLayout | misfits/row_entry.cc:110-135 | for every number of bits, bit i is written to byte i/8 at place 7 - i%8, ceil(n/8) bytes are written, and the padding is zero |
| BitSets.BitWeights | misfits/row_entry.cc:44-48 | bit i of a bitset is the one of weight 1, 2, 4, ... in its block, and in the file the one of weight 128, 64, 32, ... in its byte |
| BitSets.ReadBits | misfits/row_entry.cc:77-93 | whatever bytes are stored, padding included, reading ends with exactly n bits, the first n stored ones, and with the bitset's invariant |
| BitSets.ReadIgnoresPadding | misfits/row_entry.cc:86-93 | two cells that agree on their first n bits are read as the same bitset |
| BitSets.BitRoundTrip | misfits/row_entry.cc:77-135 | reading what was written gives the same bitset, for every number of bits |
| BitSets.OutputIterator.Assign | misfits/bitset.hpp:25-28 | an assignment stores the reversed byte at the iterator's place and nowhere else |
| BitSets.ToBlockRange | misfits/row_entry.cc:116-119 | the copy through output iterators fills the buffer's front with the reversed blocks and leaves the rest |
| BitSets.FromBlockRange | misfits/row_entry.cc:89-91 | the copy through input iterators replaces the first blocks by the reversed bytes |
| BitSets.ReadBitColumn | misfits/row_entry.cc:84-93 | resize, fill, resize makes of the buffer the bitset that ReadBits is about, whatever the object held before |
| TextCodec.StringNormalForm | misfits/row_entry.cc:198-228 | a string without NUL comes back truncated and padded with spaces to the full width; with a NUL it comes back cut there |
| TextCodec.PaddedBytes | misfits/row_entry.cc:218-222 | for every cell length, byte by byte: the string as far as it goes, and then spaces (32) |
| TextCodec.StringFixedPoint | misfits/row_entry.cc:198-228 | a second write and read changes nothing if and only if no NUL was written in the first |
| TextCodec.NulIsNoFixedPoint | misfits/row_entry.cc:211-222 | an instance in which the second cycle changes the string |
| TextCodec.WriteString | misfits/row_entry.cc:218-222 | the buffer ends up with the string truncated to it, and spaces behind |
| TextCodec.ReadString | misfits/row_entry.cc:211-215 | the string ends up as the buffer up to its first NUL |
| TextCodec.SlotsLayout | misfits/row_entry.hpp:385-402 | slot i occupies bytes i * w to i * w + w and holds string i alone |
| TextCodec.SlotsBytes | misfits/row_entry.hpp:385-402 | byte k of slot i is byte k of string i; just behind the string NUL; from there to the end of the slot spaces (32) |
| TextCodec.SlotsFill | misfits/row_entry.hpp:385-402 | the bytes behind the last slot are spaces |
| TextCodec.SlotsBehind | misfits/row_entry.hpp:385-402 | behind the last slot every byte is 32 |
| TextCodec.SlotsRoundTrip | misfits/row_entry.hpp:353-408 | after a write and a read string i is the original truncated to the width and cut at its own first NUL, whatever the other strings hold |
| TextCodec.SlotsExact | misfits/row_entry.hpp:353-408 | strings without NUL that fit their slots come back exactly |
| TextCodec.WriteStrings | misfits/row_entry.hpp:385-402 | the loop with the moving pointer stays inside the buffer and writes all of it as SlotsLayout and SlotsFill say |
| TextCodec.WriteSlot | misfits/row_entry.hpp:393-402 | one turn of the loop writes one slot and no other byte |
| TextCodec.ReadStrings | misfits/row_entry.hpp:360-381 | the loop with the moving pointer stays inside the buffer and cuts each string out of its own slot |
| Numerals.DecimalValue | misfits/extent.cc:94-99 | a printed number is read back as itself |
| Numerals.DecimalPlaces | misfits/extent.cc:94-99 | numbers are printed in decimal places, the highest first and none needless |
| Extents.NelemExact | misfits/extent.cc:57-63 | the int accumulator yields the product of the dimensions if and only if the product is below 2^31 |
| Extents.NelemWraps | misfits/extent.cc:57-63 | an instance in which it wraps around to zero |
| Extents.PrefixProduct | misfits/extent.cc:57-63 | no intermediate product exceeds the whole, so that a product below 2^31 never overflows on the way |
| Extents.SqueezeConcat | misfits/extent.cc:65-72 | squeezing treats each part of the list on its own and keeps their order |
| Extents.SqueezeDropsOnes | misfits/extent.cc:65-72 | no one is left, a second squeeze changes nothing, and a list without ones is kept |
| Extents.SameExactly | misfits/extent.cc:75-79 | an axis of length one never matters for equality, and shapes without such axes are equal only with the same axes in the same order |
| Extents.SqueezeKeepsCount | misfits/extent.cc:57-72 | squeezing keeps the accumulated count, even where it wraps around |
| Extents.SqueezeProduct | misfits/extent.cc:65-72 | squeezing keeps the product |
| Extents.SameCount | misfits/extent.cc:75-79 | equal extents have the same number of elements |
| Extents.SqueezedLine | misfits/extent.cc:65-79 | a shape of at most one axis other than ones equals its element count as a line |
| Extents.MakeKeepsShape | misfits/extent.cc:32-55 | a constructed extent is never empty, equals the dimensions it was given, and has their element count |
| Extents.MakeExactly | misfits/extent.cc:44-54 | of the dimensions behind the first, in their order, each is taken if and only if it is above one |
| Extents.MakeInstance | misfits/extent.cc:44-54 | the axes of (3,1,4) are three and four, and its TDIM is (3,4) |
| Extents.ToString | misfits/extent.cc:85-101 | the loop with its early end prints the text that TdimRoundTrip is about |
| Extents.TdimRoundTrip | misfits/extent.cc:85-101 | parsing a printed extent gives it back, for every rank and every dimension |
| Extents.TdimInjective | misfits/extent.cc:85-101 | different extents are printed differently |
| Columns.TformRoundTrip | misfits/columninfo.cc:163-173 | the TFORM written for a description is read back with its type and element count |
| Columns.TformLetters | misfits/types.cc:67-73 | the letter of TFORM for each type, with the count in front unless it is one, and the bytes of the cell |
| Columns.EqualExactly | misfits/columninfo.cc:36-40 | two descriptions are equal if and only if they have the same TFORM and equal shapes |
| Columns.InitCount | misfits/columninfo.cc:102-125 | the element count of a description made from a header is the repeat count exactly for even columns, and never more |
| Columns.InitBytesExact | misfits/columninfo.cc:125-136 | the cached byte count is the length of the cell in the file if and only if the column is even, and never more |
| Columns.UnevenStrings | misfits/columninfo.cc:103-110 | an instance: ten characters in strings of three are cached as nine bytes |
| Columns.DescriptionRoundTrip | misfits/columninfo.cc:95-206 | a description written by insert is read back by init equal, with the same name and element count, with the byte count of the constructor and of the file, with the very same axes if it has several, and else with the element count as its one axis, or as the first of two for strings |
| Columns.LayoutStep | misfits/table.cc:83-87 | one turn of the refresh loop, failing as soon as a description fails |
| Columns.LayoutAt | misfits/table.cc:80-87 | column k of the cache describes column k of the header, has number k + 1, and starts at one plus the sum of the byte counts in front |
| Columns.LayoutTiles | misfits/table.cc:82-87 | the cached byte ranges cover the row exactly if and only if every column is even |
| Columns.LayoutRange | misfits/table.cc:82-87 | a cached offset is the column's true place in the row if and only if all columns in front are even |
| Columns.LayoutPrefix | misfits/table.cc:82-87 | a description depends only on its own column and the columns in front |
| Columns.LayoutAppend | misfits/table.cc:82-87 | appending columns leaves every other description as it was |
| Stores.RelengthForm | misfits/table.cc:172-176 | changing the repeat count of a TFORM keeps it legal and keeps its type, under each rule for the width suffix |
| Stores.FindColFacts | misfits/table.cc:96-122 | a name is found if exactly one column has it, without regard to case; it is not found if none has, and ambiguous if several have |
| Stores.MatchesExactly | misfits/table.cc:102 | a column is called like a name if and only if they are equal letter by letter, but for the case of A to Z |
| Stores.FluxIsFound | misfits/table.cc:102 | an instance: FLUX is found as flux |
| Stores.KeywordKept | misfits/hdu.cc:137-259 | a keyword set in one HDU is read there as it was set; all others, there and in other HDUs, are read as before, and no table changes |
| Stores.RangeIsCell | misfits/row_entry.cc:206-227 | byte access from the start of a cell for the length of the cell reads and writes that cell alone |
| Stores.FlattenLength | misfits/table.cc:82-87 | a cell starts behind the sum of the lengths of those in front |
| Stores.File.MoveTo | misfits/fits.cc:277-285 | moving to an HDU that exists makes it current; to one that does not, fails and moves nothing |
| TableSpecs.AddOutcome | misfits/table.cc:124-158 | with any cache, add succeeds if and only if the shape has at most one axis or the number is at most one beyond the end; it then ends coherent with the requested column in its place; otherwise a column without its shape has been appended and the cache is as it was |
| TableSpecs.AddBeyondEnd | misfits/table.cc:124-158 | an instance of that failure |
| TableSpecs.AddCells | misfits/table.cc:124-158 | however it ends, add keeps every cell of every other column, and the new cells are zero |
| TableSpecs.AppendKeepsLayout | misfits/table.cc:131-136 | adding at the end succeeds and keeps number, offset and shape of every column there was |
| TableSpecs.DeleteOutcome | misfits/table.cc:213-224 | with any cache, deleting by number succeeds if and only if there is such a column, removes it alone, and ends coherent |
| TableSpecs.DeleteCells | misfits/table.cc:213-224 | deleting by number keeps every cell of every other column |
| TableSpecs.DeleteNamedOutcome | misfits/table.cc:226-235 | with any cache in order, deleting by name succeeds if and only if one column has the name and the cache reaches to it, removes that one, and keeps the promise the next deletion relies on |
| TableSpecs.StaleAfterDeleteNamed | misfits/table.cc:226-235 | afterwards the cache is right for the columns in front and names the wrong column for each one behind |
| TableSpecs.ResizedShape | misfits/table.cc:172-200 | under each rule for suffixes the header resize leaves can be described, and has the requested shape if and only if no suffix that is left gets in the way |
| TableSpecs.ResizeExactly | misfits/table.cc:160-203 | with any cache, under each rule for suffixes: how resize ends and what it changes in each case, with TDIM absent exactly for one axis; and the shape read back is the one asked for if and only if, where the cached shape equals it, the column's own does, and elsewhere no suffix that is left gets in the way |
| TableSpecs.ResizeOutcome | misfits/table.cc:160-203 | so on a coherent table resize succeeds, ends coherent, and meets its request exactly when no suffix that is left gets in the way of a changed shape |
| TableSpecs.ResizeNamedExactly | misfits/table.cc:206-211 | with any cache in order: resize by name resizes the one column of the name, unless the cached shape is the one asked for, and meets the request under the same condition as by number; if no column has the name, or several have, or the cache ends in front of it, it fails and nothing changes |
| TableSpecs.ResizeCells | misfits/table.cc:172-176 | resize keeps every cell of every other column, and of its own cells the bytes there is still room for, with zeros behind them |
| TableSpecs.ResizeKeepsOthers | misfits/table.cc:160-203 | with any cache, the other columns keep their descriptions, but that offsets behind move by the bytes gained or lost |
| TableSpecs.ScalarResizeWritesTdim | misfits/table.cc:182-200 | resizing to a scalar writes a TDIM, which adding a scalar does not |
| TableSpecs.SuffixSurvivesResize | misfits/table.cc:160-203 | an instance with an unchanged repeat count, in which the shape read back is not the one asked for unless TFORM is always written anew |
| TableSpecs.StaleResizeSkips | misfits/table.cc:165-169 | after a deletion by name, resize asked for the shape in the stale entry does nothing, and so meets the request only if the column's own shape happens to be the same |
| TableSpecs.RefreshStops | misfits/table.cc:80-87 | refresh fails at the first column that cannot be described, and leaves the cache with the descriptions of those in front of it |
| Tables.Table.Open | misfits/hdu.cc:309-325 | opening by number, or with zero at the current HDU, ends at that HDU with a coherent cache, or fails because there is no such HDU, no table, or a column that cannot be described |
| Tables.Table.SetAsChdu | misfits/hdu.cc:367-369 | afterwards the handle's own HDU is current |
| Tables.Table.Refresh | misfits/table.cc:68-88 | from wherever the file stands, the cache becomes the layout of the handle's own table, and status and cache are right for every failure |
| Tables.Table.ReadColumns | misfits/table.cc:79-87 | the loop with the running offset computes that layout |
| Tables.Table.NumColumns | misfits/table.cc:237-248 | the number of columns of the handle's own table |
| Tables.Table.NumRows | misfits/table.cc:504-517 | the number of rows of the handle's own table |
| Tables.Table.HasColumn | misfits/table.cc:96-105 | true exactly if one column of the handle's own table has the name |
| Tables.Table.ColinfoNamed | misfits/table.cc:112-122 | the cache entry at the place where the header has the name, stale or not |
| Tables.Table.Insert | misfits/columninfo.cc:175-206 | the column and its TDIM are written to the current HDU, and no other HDU changes |
| Tables.Table.AddInfo | misfits/table.cc:124-138 | add of a description does to the handle's own table and cache what AddOutcome is about, and changes no other HDU |
| Tables.Table.AddColumn | misfits/table.cc:140-158 | the same for add of a name, a type and a shape |
| Tables.Table.ResizeColumn | misfits/table.cc:160-203 | resize does to the handle's own table and cache what ResizeOutcome is about, and changes no other HDU |
| Tables.Table.WriteShape | misfits/table.cc:178-200 | TDIM is deleted, written or left absent according to the squeezed shape |
| Tables.Table.ResizeColumnNamed | misfits/table.cc:206-211 | resize by name, through the cache's own numbers |
| Tables.Table.DeleteColumn | misfits/table.cc:213-224 | deletion by number does to the handle's own table and cache what DeleteOutcome is about |
| Tables.Table.DeleteColumnNamed | misfits/table.cc:226-235 | deletion by name does to the handle's own table what DeleteNamedOutcome is about, and leaves the cache |
| Tables.Table.SetKeyword | misfits/hdu.cc:204-255 | a keyword is set in the handle's own HDU, no table changes |
| Tables.Table.GetKeyword | misfits/hdu.cc:135-193 | the keyword of the handle's own HDU, or the default, from wherever the file stands |
| Tables.Table.PlanColumn | misfits/table.cc:294-329 | one turn of the planning loop, with its four policies and its failures, for two handles on two files |
| Tables.Table.PlanAll | misfits/table.cc:286-329 | the planning loop from first to last name |
| Tables.Table.Enlarge | misfits/table.cc:331-368 | the created columns are appended and the rows extended as the policy says |
| Tables.Table.CopyCells | misfits/table.cc:372-382 | the copying loop, with the source's file at the source's HDU throughout |
| Tables.Table.Copy | misfits/table.cc:275-384 | copy_columns does to the destination what the lemmas below are about, whatever the source's cache says, leaves the source and its cache as they were, and changes no other HDU of either file |
| Tables.Table.CopyAll | misfits/table.cc:262-271 | the overload without names copies the columns that the source's cache names, and fails if the cache is shorter than the header |
| Tables.Table.NameColumns | misfits/table.cc:264-268 | its loop collects the names in the cache, one for each column of the header, or runs out of the cache |
| CopySpecs.PlanLeavesDestination | misfits/table.cc:292-329 | without Replace the planning loop changes nothing in the destination, however it ends |
| CopySpecs.PlanPlans | misfits/table.cc:292-329 | a completed planning loop has the source's cache entries for all names, in order, and the headers to create: all under Replace, else those the destination does not have |
| CopySpecs.DescribesKnows | misfits/table.cc:112-122 | an entry that describes its column as refresh would carries its name and number |
| CopySpecs.CoherentDescribes | misfits/table.cc:112-122 | a coherent source describes every column it has |
| CopySpecs.NumberedReached | misfits/table.cc:312-316 | in a destination with an entry for each column nothing stops Replace from deleting |
| CopySpecs.PlanDeletes | misfits/table.cc:312-316 | however the planning loop ends, under Replace it has deleted exactly the columns that the names in front of the failing one find, for any number of deletions through a stale cache; every other column is there with its cells, in order |
| CopyContracts.CopyKeeps | misfits/table.cc:372-382 | a cell to which no copied column goes stays as it is |
| CopyContracts.CopyArrives | misfits/table.cc:372-382 | a copied column arrives if no other column comes later under the same name, even if names are repeated |
| CopyContracts.EnlargedCells | misfits/table.cc:331-368 | enlarging keeps every cell, fills with zeros, and has the row count the extension policy says |
| CopyContracts.CopyLayout | misfits/table.cc:275-384 | after success, for any source, the columns are the old ones that no replaced name finds, in their order, then those created, in the order of the names; the row count is the larger of both, or the source's for an empty destination, or unchanged; the cache is coherent; every name the source knows is found |
| CopyContracts.CopyNamedCells | misfits/table.cc:298-382 | the converted source cells of each name arrive, in the rows both tables have, in the column that the source's entry names; which is the column of the requested name if and only if the source knows the name |
| CopyContracts.KnownUnrivalled | misfits/table.cc:372-382 | names that the source knows never compete for a destination column |
| CopyContracts.CopyOtherCells | misfits/table.cc:275-384 | every column that no entry is called like keeps its cells, and so do the rows the source does not have |
| CopyContracts.KnownEntryNames | misfits/table.cc:299-300 | for names the source knows, being called like an entry is being called like a name |
| CopyContracts.CopyCreatedCells | misfits/table.cc:331-368 | a created column is zero in the rows the source does not have |
| CopyContracts.CreatedType | misfits/table.cc:304-316 | a column created for a described name keeps name and type, has one axis, and keeps the element count exactly if the source column is even or has one element |
| CopyContracts.FailureLeavesDestination | misfits/table.cc:292-329 | under NoDuplicates, OverWrite and unknown flags a failure while planning leaves the destination and its cache as they were |
| CopyContracts.ReplaceFailure | misfits/table.cc:292-329 | under Replace planning fails if and only if the source has no entry for some name or the destination's cache ends in front of a column to be deleted; the destination then has lost exactly the columns that the names in front of that one find, keeps the others with their cells, and is whole if and only if those names find none |
| CopyContracts.ReplaceLosesColumn | misfits/table.cc:312-316 | an instance of the loss |
| CopyContracts.ReplacedGone | misfits/table.cc:312-316 | after success under Replace no old column of a copied name that the source knows is left |
| CopySuccess.PlanSucceeds | misfits/table.cc:292-329 | for any source, planning succeeds if and only if the source has an entry for every name, and the policy has nothing against any and can make room for all |
| CopySuccess.CopyFromSucceeds | misfits/table.cc:372-382 | the copying loop succeeds if and only if each description has its place in the destination and a possible conversion |
| CopySuccess.FinalFinds | misfits/table.cc:370-380 | if the source knows the names, one is found after refreshing if and only if the destination does not have it twice and it is created only once, and then at the created or the overwritten column |
| CopySuccess.CopySucceeds | misfits/table.cc:275-384 | from a source that knows the names, copy_columns succeeds if and only if Replace can make room, and for each name: the source has it once, the policy allows it, the destination does not have it twice, it is repeated only where it overwrites, and the types convert |
| CopySuccess.CopySucceedsAnyway | misfits/table.cc:275-384 | from any source it succeeds if and only if Replace can make room, and for each name: the source has an entry with a legal number, the policy allows the name, the destination ends up with exactly one column called like the entry, and the types convert |
| CopySuccess.CopyStops | misfits/table.cc:331-382 | once planning has succeeded, columns, row count and cache are those of a success, however the copying ends; it fails exactly if it stops at a name whose entry has no single place or no conversion, and what is done by then is what copying the names in front does |
| CopySuccess.StoppedNamedCells | misfits/table.cc:372-382 | the cells of each name in front of the stop have arrived, unless another column came later under the same name |
| CopySuccess.StoppedOtherCells | misfits/table.cc:331-382 | every other cell is as before, or zero if it is new |
| CopyContracts.CompletedCopies | misfits/table.cc:372-382 | the copying loop leaves what it would leave on the completed columns alone, and stops early exactly if it fails |
| CopySuccess.FinalIs | misfits/table.cc:292-380 | how many columns of a name there are to copy to, and which one it is if it is just one, from the columns and names before the call |
| CopySuccess.CreatedVerbatim | misfits/table.cc:304-380 | after success a column created for an even column, if a string one in one piece, holds the source's own bytes, whatever CFITSIO's conversions are |
| CopyFlags.ReplaceFlag | misfits/table.cc:312-316 | for every flag byte with 2 in its low four bits: after success the columns that the names find are gone, the others are there in their order, behind them is one new column for each name, and nothing else is called like a name that the source knows |
| CopyFlags.OverWriteFlag | misfits/table.cc:318-320 | with 3: after success every old column has its place and header, names it has are found where they were, and new columns are only for names that it did not have |
| CopyFlags.DuplicateFlag | misfits/table.cc:308-325 | with any other low bits a name that the destination has makes the call fail with the destination untouched: with 1 as a duplicate, else for the unknown flag |
| CopyFlags.NoDuplicateFlag | misfits/table.cc:303-325 | with any other low bits success means that the destination had none of the names, keeps all its columns, and has got one for each name |
| CopyFlags.RowFlags | misfits/table.cc:353-367 | with bit 16 the row count is then the larger of both; with bit 32 but not 16 rows are added only to an empty destination; with neither it stays |
| CopyFlags.NoNames | misfits/table.cc:278-281 | without names nothing happens |
| CopyStale.StaleKnows | misfits/table.cc:226-235 | after a deletion by name a source knows, and describes, exactly the columns in front of the deleted one |
| CopyStale.CopyOneName | misfits/table.cc:298-380 | one name copied to a table without it, from any cache in order: the copy succeeds, creates a column called like the entry, and finds the name there if and only if the source knows it |
| CopyStale.StaleCopyMisnames | misfits/table.cc:298-380 | an instance: the column behind a deleted one is copied under the deleted one's name and type, and is not found under its own |
| CopyStale.AllNamesExactly | misfits/table.cc:262-271 | with any cache, the overload without names passes on the names in the entries at the places of the columns, and fails if and only if there are not enough entries |
| CopyStale.AllNamesCoherent | misfits/table.cc:262-271 | from a coherent source the overload without names passes on the names of all columns |
| CopyStale.StaleCopyAll | misfits/table.cc:262-271 | after a deletion by name copying all columns fails, unless the deleted column was the last |
| RowSpecs.PreparedFits | misfits/row_entry.hpp:338-350 | binding resizes an object so that reads and writes stay within it |
| RowBytes.BindExactly | misfits/row.hpp:66-72 | with any cache, binding succeeds if and only if the name is found and the column type is one the object accepts, and takes number, offset and count from the cache; where it throws, only a BitSet changes |
| RowBytes.BindSizes | misfits/row_entry.hpp:338-350 | on a coherent table, from the header alone: the bound column is the one of the name; the slot width of a vector of strings is the first axis of TDIM, else the width in TFORM, else the cell; each object has the size of the cell (a vector of strings the product of the other axes), keeps what fits, and every other object is untouched |
| RowBytes.SlotShape | misfits/columninfo.cc:103-110 | width times number of strings is the cached byte count, and the cell exactly for even columns |
| RowBytes.ColumnReads | misfits/row_entry.cc:77-216 | byte by byte, with the header alone: each kind of object is what its cell says; string i is bytes i * w to i * w + w cut at NUL, a bool is the letter T |
| RowBytes.ColumnWrites | misfits/row_entry.cc:110-228 | byte by byte: the cell is what the object says, and no other cell changes; bools become T and F |
| RowBytes.RowReads | misfits/row.cc:72-91 | reading a row leaves in each bound object what its cell says in that sense, and touches no other object |
| RowBytes.RowWrites | misfits/row.cc:93-107 | writing a row leaves in each bound cell what its object says; every other cell is as it was, or zero in a new row |
| RowContracts.LayoutDescribed | misfits/columninfo.cc:95-136 | every description refresh makes is one that a column can be bound to |
| RowContracts.BoundExtent | misfits/row_entry.cc:50-75 | a bound column transfers as many bytes as its cell has, from the cell's place in the row, if and only if it goes by column number or its own column and all in front are even |
| RowContracts.OwnCell | misfits/row_entry.cc:77-228 | then in any row the column reads its own cell and writes that cell alone |
| RowContracts.OwnCellExactly | misfits/row_entry.cc:77-228 | a bound column reads its own cell in every row if and only if it goes by column number or its own column and all in front are even |
| RowContracts.ValueRoundTrip | misfits/row_entry.hpp:353-408 | for every codec reading what was written gives the normal form, whatever the object held in between |
| RowContracts.WrittenCell | misfits/row.cc:101-103 | after all columns of a row are written each one's bytes are in its own cell |
| RowContracts.WriteFromRow | misfits/row.cc:93-107 | writing a row changes that row only, and adds zero rows in front of it if the table is too short |
| RowContracts.ReadFromRow | misfits/row.cc:83-85 | reading a row gives each object its own cell and touches no other object |
| RowContracts.WriteRunAppends | misfits/row.cc:93-107 | consecutive auto-advancing writes append one row for each record, in order |
| RowContracts.ReadWhileAll | misfits/row.cc:72-91 | calling read() while it returns true reads every remaining row, one call each, until a call returns false with the cursor behind the last row |
| CursorSteps.ReadMoves | misfits/row.cc:72-91 | for every Row and table: the cursor moves on by one if and only if it advances by itself and the call has read a row; when read() says no, and when it throws without a row or columns, no object is touched |
| CursorSteps.WriteMoves | misfits/row.cc:93-107 | the cursor moves on by one if and only if it advances by itself and the call has written its row |
| CursorSteps.ReadStays | misfits/row.cc:83-88 | a Row that does not advance by itself reads the same row each time, however often, and leaves the objects as the first call did |
| CursorSteps.WriteStays | misfits/row.cc:101-106 | a Row that does not advance by itself writes the same row each time: the table is as if only the last record had been written |
| CursorSteps.ReadStops | misfits/row.cc:83-85 | at the first column that cannot be read the call stops, with the columns in front read as on their own and no others |
| CursorSteps.WriteStops | misfits/row.cc:101-103 | and so does writing |
| CursorSteps.GrownRows | misfits/row.cc:101-103 | a write behind the last row adds rows up to it and no more, whose bytes are zero |
| RowContracts.WriteThenRead | misfits/row.cc:39-107 | n records written to an empty table and read through a fresh Row by calling read() while it returns true: exactly n calls return true, and give the records in order, each object in its codec's normal form; the next returns false with the cursor at n + 1, as do all further calls, which change nothing |
| RowContracts.ReadFromFrame | misfits/row.cc:83-85 | a read depends on no object but the Row's own, and changes no other |
| RowContracts.CursorsIsolated | misfits/row.hpp:99-113 | under every interleaving of reads by several cursors on one table, each ends where it would have ended alone, with the same outcomes and objects |
| Cursors.WritersIsolated | misfits/row.cc:72-107 | under every interleaving of reads, writes and changes of objects by several cursors, which may make the table grow, in which no write goes to a cell that another cursor comes to and no read to a row that only others have made, each gets the answers it would have got alone, and ends with the same position, objects and cells |
| Cursors.DifferentColumnsZoned | misfits/row.cc:72-107 | cursors on different columns that read no row that only others have made meet that condition |
| RowContracts.ReadAppend | misfits/row.cc:83-85 | a Row reads the same from rows to which cells have been appended |
| RowContracts.AppendKeepsBinding | misfits/table.cc:131-136 | columns bound before a column is appended are still bound to their own cells |
| Rows.Column.constructor | misfits/row_entry.hpp:338-350 | binding resizes the bound object and no other |
| Rows.Column.Read | misfits/row_entry.cc:77-108 | each class's read transfers its bytes from the current HDU and decodes them into its object alone |
| Rows.Column.Write | misfits/row_entry.cc:110-135 | each class's write packs its object and changes its own row of the current HDU alone |
| Rows.Column.Fill | misfits/row_entry.cc:218-222 | the buffer's old contents do not matter |
| Rows.ReadBools | misfits/row_entry.hpp:204-211 | the loop turns each byte of the buffer into a bool and keeps the rest of the vector |
| Rows.WriteBools | misfits/row_entry.hpp:212-218 | the loop turns each bool into a byte that is zero or one |
| Rows.Row.constructor | misfits/row.cc:39-43 | a fresh Row starts at row one, auto-advancing, without columns |
| Rows.Row.Add | misfits/row.hpp:66-72 | a column is bound behind the others, or none is; of the objects only the bound one changes, and for a wrong column type only a BitSet, which is left resized |
| Rows.Row.AddEntry | misfits/row.hpp:79-83 | one turn of the loop over a block's entries |
| Rows.Row.AddBlock | misfits/row.hpp:74-86 | the columns of a block are bound in order, up to the first failure, which leaves its object as Row.Add does |
| Rows.Row.Read | misfits/row.cc:72-91 | read selects its own HDU from wherever the file stands, and advances only after success |
| Rows.Row.Write | misfits/row.cc:93-107 | write selects its own HDU from wherever the file stands, changes its own table only, and advances only after success |
| Rows.Row.ReadEntries | misfits/row.cc:83-85 | the loop over the columns stops at the first failure |
| Rows.Row.WriteEntries | misfits/row.cc:101-103 | the loop over the columns stops at the first failure |
| MemBlocks.MemBlock.AddField | misfits/memblock.hpp:124-128 | an entry is added behind the others |
| MemBlocks.MemBlock.AddAddress | misfits/memblock.hpp:99-107 | an entry is added at the distance of its address from the base |
| MemBlocks.MemBlock.AddBlock | misfits/memblock.cc:31-43 | the other block's entries are added in order, moved by the offset, and the other block keeps its own |
| MemBlocks.Build | misfits/memblock.hpp:109-133 | a description nested to any depth, built by add calls, holds the leaves that NestingSums is about |
| MemBlocks.NestingSums | misfits/memblock.cc:31-43 | whatever the nesting, each leaf lies at the sum of the offsets on its path, in order |
| MemBlocks.ShiftTwice | misfits/memblock.cc:36-41 | adding at one offset and then at another is adding at their sum |
| MemBlocks.BindFromAll | misfits/row.hpp:74-86 | on success there is one more column for each entry, in order |
| MemBlocks.BindStops | misfits/row.hpp:74-86 | at the first field that cannot be bound the call stops: the columns in front are bound as on their own, and no others |
| MemBlocks.BitSetRefused | misfits/row_entry.cc:50-71 | a BitSet bound to a column of numbers: the call throws and the BitSet has the column's element count |
| MemBlocks.NestedBinding | misfits/memblock.hpp:64-70 | a Row to which a nested block is added has a column for each leaf, of its kind, bound at the base plus the offsets on the leaf's path |
| Sessions.Session.Step | misfits/hdu.cc:367-369 | one call on one object has the outcome and the effect it has without any current HDU |
| Sessions.Session.StepCopy | misfits/table.cc:275-384 | so has a copy between tables of different files, by names or of all columns |
| Sessions.Session.Replay | misfits/fits.cc:277-285 | for every sequence of changes, copies between files, queries, keyword calls, bindings of columns and of blocks, reads and writes on any number of Table and Row objects of any number of files, with moves of the files in between, outcomes and final state are those of a system without current HDUs |
| SessionContracts.MovesUnobservable | misfits/fits.cc:277-285 | leaving out all moves from any run changes no outcome of the other calls and not the end |
| SessionContracts.OthersKept | misfits/hdu.cc:367-369 | a call through one Table does not change the table or the cache of another |
| SessionContracts.CopyKept | misfits/table.cc:275-384 | from any source, and however it ends, copy_columns leaves a table that can be refreshed with entries in order: with a right cache once planning has succeeded, and otherwise short of the columns that Replace has deleted |
| SessionContracts.RunExact | misfits/table.cc:68-384 | over every run, with copies, every table can be refreshed at the end and its entries are in order; with the columns deleted by name, by calls or by copies that fail while planning, and the failed additions since its last refresh counted, a cache equals its header if both counts are zero, differs if they are unequal, and so equals it only then if either is zero; it has an entry for each column if and only if no more additions have failed than columns were deleted |
| SessionContracts.StaleButRight | misfits/table.cc:124-235 | an instance of equal counts in which the cache is right without a refresh |
| SessionContracts.RunCoherent | misfits/table.cc:68-384 | over every run, with copies, in which no addition and no copy fails and nothing is deleted by name, every cache stays equal to its header |
| SessionContracts.RunTidy | misfits/table.cc:68-384 | over every run, with copies that succeed or fail, in which no addition fails, every cache stays numbered and long enough, so that each deletion by name removes the column of that name |

## Left out

- Tables.Table.Copy: source and destination are in different `File` objects. With one file, which HDU is current when
  CFITSIO is called depends on the order in which a compiler evaluates arguments (`misfits/table.cc:355-365`), and
  `fits_copy_col` would read from the destination.
- Rows.Row.Add: objects are bound only to column types whose values CFITSIO moves without conversion; a BitSet on a
  Logical column and numeric conversions are CFITSIO's own and not modelled.
- Rows.Row.AddBlock: the same for the fields of a block.
- Rows.Column.Write: a BitSet must have kept the size of its column, and other objects at least theirs; the code
  then reads or writes outside the buffer.
- MemBlocks.MemBlock.AddBlock: a block is not added to itself; the loop would run over a vector that it appends to.
- Cursors.WritersIsolated: the objects of different cursors are apart.
- SessionContracts.RunExact: there is one Table for each HDU (`BUGS:1-2`). Opening tables and making Rows are not among
  a session's calls.
- CopySuccess.CopySucceedsAnyway: the destination can be described and its entries are in order, which holds at the end
  of every run by SessionContracts.RunExact.
- TableSpecs.AddOutcome: shapes are usable, that is, have positive dimensions and fewer than 2^31 elements.
- HDU::has_keyword called directly does not select its HDU (`misfits/hdu.cc:54-60`), so that it does observe the
  current one; it occurs here only inside `resize`, behind a selection.
- CFITSIO itself: disk formats, buffers, error stacks. Row counts are taken as flushed.
- CFITSIO's conversions in `fits_copy_col` are any that give cells of the right length and change nothing between
  equal types.
- Accesses that leave a cell or a row, as through Rows kept across deletions (`BUGS:4-8`), fail in the model.
- Bytes of a Logical column other than T and F read as false.
- Opening, creating, closing and copying files, `delete_hdu`, `flush`, read-only mode, moving by name or by steps.
- Keywords beyond setting a value: comments, histories, long strings, iteration, EXTNAME and EXTVER.
- The types UShort, ULong and complex, ASCII tables, columns of repeat zero, variable-length arrays.
- `tunit`, which `insert` does not write; wildcards in column names.
- `Row::read(row)` and `Row::write(row)` are a change of `idx` followed by the plain calls.
- Smart pointers, templates over storage types, and the texts of exceptions.
