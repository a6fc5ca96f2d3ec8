# AMBER7 binpos reader

This project models the AMBER7 "binpos" trajectory reader of `error_handlers.c`
and proves properties of the model.

A binpos file holds the 4-byte magic `fxyz`, then one record per frame. A
record is a 4-byte atom count followed by `3 * atoms` 4-byte coordinates. The
model covers three parts:

- `open_binpos_read` checks the magic and rejects an atom count that looks
  byte-swapped. It then reconciles the payload size (the file length minus the
  magic) with the number of frames the caller expects. It reports the atom
  count and the payload size.
- `binpos_read` copies each frame's coordinates into the caller's buffer and
  reads past the atom count that follows each frame. A short read of the count
  is tolerated only after the last frame.
- `check_maximum_value` is the bound guard shared by the toolkit.

The modules:

- `MachineInt` (`machine_int.dfy`) writes out the C machine arithmetic. It
  covers the 32-bit `int` wrap, `size_t` reduction modulo 2^64, and the
  little-endian `int` stored in the file.
- `ErrorHandlers` (`error_handlers.dfy`) holds the guard.
- `BinposHeader` (`binpos_header.dfy`) holds the validator in two versions.
  `Validate` widens the atom count to `size_t` before multiplying.
  `ValidateAsWritten` computes `3*nat` in `int` as the code does, assuming
  two's-complement wrap on overflow, which C does not guarantee (signed
  overflow is undefined, and the `(int)` cast of the quotient is
  implementation-defined). The two give the same answer on every file
  whenever `3*nat` fits an `int` (`AsWrittenAgreesWithoutOverflow`), which
  holds for counts in -715827882..715827882.
  Where they differ is listed under "Findings".
- `BinposFrames` (`binpos_frames.dfy`) holds the frame reader as an imperative
  method over an `array`, with its loop. It is proved against `ExpectedRead`,
  a closed-form prediction of the outcome from the number of bytes alone, and
  against `Frames`, the buffer contents the reader should produce.
- `BinposFormat` (`binpos_format.dfy`) holds a reference layout `Encode` that
  builds a file from frames. It proves the round trip: such a file is
  accepted, and reading it gives the frames back. It also proves that every
  file `Validate` accepts is read to its end.

The file is a byte sequence. Where the C code exits the process after a
diagnostic, the model returns an error value instead: `HeaderError`,
`ReadStatus` or `Guard.Exceeded`.

Facts of the code that the model makes explicit:

- The byte-order check is `nat > 1000000000`, so a count of exactly
  1000000000 passes, in both validators (`OtherEndianBoundary`).
- A file `Validate` accepts is `4 + F * (4 + 12 * N)` bytes long for `F`
  frames of `N` atoms (`ValidateAccepts`). Every record starts with its atom
  count, and none follows the last frame, so in every such file the tolerated
  short read after the last frame actually happens (`AcceptedFileReads`). The
  code as written accepts the same files for counts in
  -715827882..715827882; outside that range it does not always (see
  "Findings").
- In both validators, dropping the last byte of an accepted file makes the
  quotient one short. It is therefore reported by the frame-count check, not
  the remainder check (`TruncatedFileMismatch`). One byte too many is reported
  by the remainder check (`ExtendedFileNonInteger`).
- In both validators, a payload of more than 2^31 - 1 whole records can pass
  the frame-count check: the `(int)` cast of the quotient wraps onto
  `nmodels`. The remainder check then reports it as `NonIntegerModels`,
  although it is whole records (`WrappedQuotientNonInteger`). For example,
  atom count 0, a payload of `4 * (2^32 + 5)` bytes and `nmodels = 5`.

## Model

| member | source | states |
|---|---|---|
| ErrorHandlers.CheckMaximumValue | error_handlers.c:43-52 | the guard passes exactly when the value is below the maximum, so the maximum itself fails; a failure reports the value and the maximum |
| MachineInt.Int32RoundTrip | error_handlers.c:113 | reading back the four stored bytes of any `int` gives that `int` |
| BinposHeader.Validate | error_handlers.c:97-139 | an accepted file reports the stored atom count, the payload size `length - 4` and the stream at byte 8; the result is `BadMagic` exactly when the first four bytes are not `fxyz` |
| BinposHeader.ValidateAsWritten | error_handlers.c:97-139 | the same two guarantees for the validator with the record size computed as written |
| BinposHeader.RecordSizeInRange | error_handlers.c:124 | for a count in 0..1000000000 the widened record size `RecordSize` is `4 + 12 * atoms`; a negative count gives a record size above every possible payload; the code as written gives the same size for counts in -715827882..715827882 (`AsWrittenAgreesWithoutOverflow`) |
| BinposHeader.RecordSizeAsWrittenNonZero | error_handlers.c:124-125 | the as-written record size is at least 4 once the byte-order check has passed, so the division is defined |
| BinposHeader.ExactQuotient | error_handlers.c:125 | a payload that is exactly `n` records has quotient `n`, also after the `int` cast |
| BinposHeader.ProductFits | error_handlers.c:131 | once the frame-count check passes, `nmodels * record_size` does not wrap and is at most the payload |
| BinposHeader.WrappedQuotientNonInteger | error_handlers.c:123-135 | a payload of `nmodels + 2^32` whole records passes the frame-count check through the wrapping `(int)` cast and is reported as `NonIntegerModels` |
| BinposHeader.ReconcileExact | error_handlers.c:123-135 | the frame-count check and the exact-multiple check both pass if and only if the payload is exactly `nmodels` records |
| BinposHeader.ValidateAccepts | error_handlers.c:104-139 | `Validate` accepts a file if and only if it has the magic, a count in 0..1000000000 and length `4 + nmodels * (4 + 12 * atoms)`; the code as written agrees for counts in -715827882..715827882 |
| BinposHeader.RejectsBadMagic | error_handlers.c:104-110 | both validators answer `BadMagic` exactly when the magic is wrong, whatever follows |
| BinposHeader.OtherEndianBoundary | error_handlers.c:113-119 | after the magic, both validators report `OtherEndian` exactly when the count exceeds 1000000000, which is `check_maximum_value` with maximum 1000000001 |
| BinposHeader.FrameCountRule | error_handlers.c:123-129 | with a plausible count, `Validate` reports `FrameCountMismatch` exactly when `nmodels` differs from the `int` cast of payload / `(4 + 12 * atoms)` |
| BinposHeader.NonIntegerRule | error_handlers.c:130-135 | once the frame count matches the quotient, `Validate` reports `NonIntegerModels` exactly when the division leaves a remainder |
| BinposHeader.ReconcileTruncated | error_handlers.c:123-129 | for any record size, a payload of whole records without its last byte fails the frame-count check |
| BinposHeader.ReconcileExtended | error_handlers.c:130-135 | for any record size above one byte, a payload of whole records with one byte more fails the remainder check |
| BinposHeader.ReconcileOneFewer | error_handlers.c:123-129 | for any record size, a payload of `nmodels` whole records fails the frame-count check for `nmodels - 1` |
| BinposHeader.TruncatedFileMismatch | error_handlers.c:123-129 | for both validators, an accepted file without its last byte is a frame-count mismatch |
| BinposHeader.ExtendedFileNonInteger | error_handlers.c:130-135 | for both validators, an accepted file with one byte appended is a non-integer number of models |
| BinposHeader.OneFrameFewerMismatch | error_handlers.c:123-129 | for both validators, expecting one frame fewer than an accepted file holds is a frame-count mismatch |
| BinposHeader.AsWrittenAgreesWithoutOverflow | error_handlers.c:124 | when `3*nat` fits an `int`, the code as written and the corrected validator give the same answer on every file |
| BinposHeader.AsWrittenAcceptsNegativeCount | error_handlers.c:113-135 | as written, a 12-byte file with count -1431655765 is accepted for one frame; the corrected validator rejects it |
| BinposHeader.LargeCountRecordSize | error_handlers.c:124 | as written, a count in 715827883..1000000000 gives a record size larger than any file |
| BinposHeader.AsWrittenRejectsLargeCount | error_handlers.c:124-129 | as written, a file of exactly the right length with a count in 715827883..1000000000 is a frame-count mismatch; the corrected validator accepts it |
| BinposFrames.Frames | error_handlers.c:156-162 | the buffer the reader should fill from `n` frames holds `n * pdb_size` words |
| BinposFrames.FramesAt | error_handlers.c:156-162 | slot `k * pdb_size + j` of that buffer holds coordinate `j` of frame `k`, stored `k` strides and `j` words into the stream |
| BinposFrames.ExpectedReadComplete | error_handlers.c:156-168 | a read completes if and only if every frame's coordinates are in the file, whether or not the last atom count is |
| BinposFrames.ReadWords | error_handlers.c:158 | `fread` copies as many whole words as remain, up to the count asked for, and reports that number; when the file ends inside a word, the bytes it holds of that word are stored as well; the slots before `off` and after the last one touched keep their values; the stream advances past the bytes consumed |
| BinposFrames.ShortCoordinatesAt | error_handlers.c:158-161 | a frame whose coordinates are cut short is the outcome predicted for that frame |
| BinposFrames.ShortSentinelAt | error_handlers.c:164-167 | a cut-short atom count after a frame that is not the last is the outcome predicted for that frame |
| BinposFrames.FrameAppended | error_handlers.c:158-162 | copying frame `i` behind the first `i - 1` frames gives the first `i` frames |
| BinposFrames.FramesOfFile | error_handlers.c:156-168 | a stream holding frame `k` at stride `k` reads back as those frames, in order |
| BinposFrames.ReadFrame | error_handlers.c:157-167 | one pass of the loop: the coordinate read is whole exactly when the frame fits, then the buffer holds one more frame; a short read is the predicted failure; the atom count is whole exactly when the file still holds it |
| BinposFrames.BinposRead | error_handlers.c:150-169 | the outcome is the predicted one; the buffer starts with every frame read before a failure, or with all frames; the slots past `nmodels * pdb_size` are untouched, and with no frames the whole buffer is; a complete read leaves the stream after the last record or at the end of the file |
| BinposFormat.CoordinateWordAt | error_handlers.c:158 | a stored coordinate reads back as that coordinate |
| BinposFormat.WordsOfCoordinateBytes | error_handlers.c:158 | reading a frame's worth of words where a frame is stored gives that frame |
| BinposFormat.RecordsLength | error_handlers.c:124 | each record of a file built from frames is `4 + 12 * atoms` bytes |
| BinposFormat.EncodeLength | error_handlers.c:124-135 | a file built from `F` frames has the length the validator demands for `F` frames |
| BinposFormat.EncodedFrameAt | error_handlers.c:156-162 | frame `k` of a built file lies `k` strides after byte 8 |
| BinposFormat.EncodeValidates | error_handlers.c:97-139 | a file built from whole frames is accepted and reports its atom count and payload size |
| BinposFormat.EncodeReadsBack | error_handlers.c:150-169 | reading a built file predicts a complete read and gives back every frame, in order |
| BinposFormat.AcceptedFileReads | error_handlers.c:164-167 | every file `Validate` accepts reads completely: all coordinates are present, and the file ends 4 bytes before the atom count after the last frame would |

## Left out

- File I/O: `fopen`, `fseek`, `ftell`, `rewind` and `fread` on a real stream are modelled as a byte sequence and a position.
- The diagnostics on `stderr` and `exit(FALSE)` are left out. Each fatal path returns an error value instead.
- Coordinates are 4-byte words copied without interpretation. Floating point and `myisnan_` are not part of this model.
- `open_file`, `close_file`, `check_atomp`, `check_malloc`, `check_null` and `check_eof` are plain plumbing around the reader. They are not part of this model.
- The host byte order is taken to be little-endian when decoding the stored atom count.
- Validate, ValidateAsWritten: requires at least 8 bytes. A shorter file leaves the magic or the count uninitialised in C, with no defined outcome.
- Validate, ValidateAsWritten: requires a length below 2^63, which `ftell` can report.
- Validate, ValidateAsWritten: requires `0 <= nmodels < 2^31`, a count of names.
- BinposRead: requires a buffer of at least `nmodels * pdb_size` slots. C writes into it unchecked.
- BinposRead: takes `pdb_size` as a `nat`. A negative `int` would become a huge `size_t` count for `fread`.
- BinposRead: counts frames with an unbounded integer, where C's loop counter `i` is an `int`. With `nmodels = 2147483647`, which the validator allows, `i <= nmodels` holds for every `int`, so `i++` overflows after the last frame. That overflow is undefined in C. Under wrap, the loop would go on with `i = -2147483648` and end in a fatal read of the next frame or of its atom count. The model instead leaves the loop and reports `Complete`.
- BinposRead: after a failed read, only the frames stored before the failure and the slots past `nmodels * pdb_size` are specified. C exits at that point.
- The value of the atom count read between frames is discarded, as in C, and is not compared with the first count.
- The stream position after a failed read is not specified.
- ReadWords: stores the bytes of a partly read word over the first bytes of its slot and keeps the slot's other bytes, as a byte-wise copy does. The C standard leaves that element's value indeterminate. The slot belongs to the frame whose read fails, and C exits after that failure.

## Findings

| source | as written | input that shows it | evidently intended | confidence | as-written member | corrected member |
|---|---|---|---|---|---|---|
| error_handlers.c:124 | `3*nat` is computed in `int` and wraps before the widening to `size_t` | the 12-byte file `fxyz`, bytes `AB AA AA AA`, `00 00 00 00` with `nmodels = 1`: the count -1431655765 gives record size 8, so the file is accepted with a negative atom count | a negative count never passes: the record size is `4 + 12 * nat` computed in `size_t` | not executed; assumes the signed overflow wraps | BinposHeader.AsWrittenAcceptsNegativeCount | BinposHeader.ValidateAccepts |
| error_handlers.c:124-129 | the same `int` product overflows for counts above 715827882 | any file with a count in 715827883..1000000000 and exactly `4 + nmodels * (4 + 12 * nat)` bytes: the wrapped record size exceeds the file, so the quotient is 0 and the frame-count check fails | such a file is accepted, since its count passes the byte-order check | not executed; assumes the signed overflow wraps | BinposHeader.AsWrittenRejectsLargeCount | BinposHeader.ValidateAccepts |
