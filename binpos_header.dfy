/**
 * Header validation of an AMBER7 binpos trajectory (`open_binpos_read`).
 *
 * A binpos file is the 4-byte magic "fxyz" followed by one record per frame;
 * a record is a 4-byte atom count followed by 3 * atoms 4-byte coordinates.
 * The validator checks the magic, reads the first atom count, rejects counts
 * that look byte-swapped, and reconciles the payload size (the file length
 * minus the magic) with the number of frames the caller expects.
 *
 * The file is a byte sequence; the stream position after a successful
 * validation is returned as `cursor`.
 */
module BinposHeader {
  import opened MachineInt
  import ErrorHandlers

  /** "fxyz" in ASCII. */
  const Magic: seq<byte> := [0x66, 0x78, 0x79, 0x7A]
  const MagicSize: nat := 4
  /** Magic plus the first atom count. */
  const HeaderSize: nat := 8
  /** Larger counts are taken as a sign of the wrong byte order. */
  const MaxAtoms: int := 1000000000
  /** `ftell` reports the length as a `long`. */
  const MaxFileSize: int := Two63 - 1

  datatype HeaderError = BadMagic | OtherEndian | FrameCountMismatch | NonIntegerModels

  /** What the validator hands back through its output parameters. */
  datatype Header = Header(atoms: int, size: nat, cursor: nat)

  datatype Result<T> = Ok(value: T) | Err(error: HeaderError)

  /** Files the validator can read a whole header from, and frame counts an
      `int` can hold that a list of names can have. */
  predicate WellSized(file: seq<byte>, nmodels: int) {
    HeaderSize <= |file| <= MaxFileSize && 0 <= nmodels < Two31
  }

  /** The atom count stored right after the magic. */
  function Atoms(file: seq<byte>): (a: int)
    requires |file| >= HeaderSize
    ensures IsInt32(a)
  {
    Int32At(file, MagicSize)
  }

  /** Bytes per record, with the atom count widened to `size_t` before it is
      multiplied (see `RecordSizeAsWritten` for the expression as written). */
  function RecordSize(atoms: int): nat {
    SizeT(4 + 12 * atoms)
  }

  /** `sizeof(int) + 3*nat*sizeof(float)`: `3*nat` is evaluated as an `int`
      (wrapping on overflow) and only then converted to `size_t`. */
  function RecordSizeAsWritten(atoms: int): nat {
    SizeT(4 + 4 * Wrap32(3 * atoms))
  }

  /** The two reconciliation checks of the payload size against `nmodels`. */
  function Reconcile(file: seq<byte>, nmodels: int, atoms: int, record: nat): Result<Header>
    requires |file| >= MagicSize && record > 0
  {
    var size := |file| - MagicSize;
    if nmodels != Wrap32(size / record) then Err(FrameCountMismatch)
    else if size != SizeT(nmodels * record) then Err(NonIntegerModels)
    else Ok(Header(atoms, size, HeaderSize))
  }

  /** The validator, with the record size computed without `int` overflow. */
  function Validate(file: seq<byte>, nmodels: int): (r: Result<Header>)
    requires WellSized(file, nmodels)
    ensures r.Ok? ==> r.value == Header(Atoms(file), |file| - MagicSize, HeaderSize)
    ensures r.Err? && r.error == BadMagic <==> file[..MagicSize] != Magic
  {
    if file[..MagicSize] != Magic then Err(BadMagic)
    else if Atoms(file) > MaxAtoms then Err(OtherEndian)
    else
      RecordSizeInRange(Atoms(file));
      Reconcile(file, nmodels, Atoms(file), RecordSize(Atoms(file)))
  }

  /** The validator as written, `int` overflow of `3*nat` included. C leaves
      that overflow undefined; it is taken to wrap, as two's complement does. */
  function ValidateAsWritten(file: seq<byte>, nmodels: int): (r: Result<Header>)
    requires WellSized(file, nmodels)
    ensures r.Ok? ==> r.value == Header(Atoms(file), |file| - MagicSize, HeaderSize)
    ensures r.Err? && r.error == BadMagic <==> file[..MagicSize] != Magic
  {
    if file[..MagicSize] != Magic then Err(BadMagic)
    else if Atoms(file) > MaxAtoms then Err(OtherEndian)
    else
      RecordSizeAsWrittenNonZero(Atoms(file));
      Reconcile(file, nmodels, Atoms(file), RecordSizeAsWritten(Atoms(file)))
  }

  /** A real atom count gives the record size of the format, at least 4; a
      negative one lands above every file length. */
  lemma RecordSizeInRange(atoms: int)
    requires IsInt32(atoms)
    ensures 0 <= atoms <= MaxAtoms ==> RecordSize(atoms) == 4 + 12 * atoms
    ensures atoms < 0 ==> RecordSize(atoms) > MaxFileSize
    ensures RecordSize(atoms) >= 4
  {
    if atoms < 0 {
      SizeTOfNegative(4 + 12 * atoms);
    } else if atoms <= MaxAtoms {
      SizeTIdentity(4 + 12 * atoms);
    }
  }

  /** The division `size / record_size` of the frame-count check is defined
      whenever it is reached: the only `int` whose as-written record size
      wraps to 0 is 1431655765, which the byte-order check has already
      rejected. Every other count gives at least one 4-byte word. */
  lemma RecordSizeAsWrittenNonZero(atoms: int)
    requires IsInt32(atoms) && atoms <= MaxAtoms
    ensures RecordSizeAsWritten(atoms) >= 4
  {
    var w := Wrap32(3 * atoms);
    assert w != -1;
    if 4 + 4 * w < 0 {
      SizeTOfNegative(4 + 4 * w);
    } else {
      SizeTIdentity(4 + 4 * w);
    }
  }

  /** The length of a well-formed file: the magic, then per frame one atom
      count and 3 * atoms coordinates. */
  function FormatLength(atoms: int, nmodels: int): int {
    MagicSize + nmodels * (4 + 12 * atoms)
  }

  /** An exact multiple has the expected quotient, as the `int` cast sees it. */
  lemma ExactQuotient(size: nat, record: nat, n: int)
    requires record > 0 && 0 <= n < Two31
    ensures size == n * record ==> Wrap32(size / record) == n
  {
    if size == n * record {
      DivModOf(size, record, n);
      Wrap32Identity(n);
    }
  }

  /** When the frame-count check passes, the `size_t` product does not wrap. */
  lemma ProductFits(size: nat, record: nat, n: int)
    requires record > 0 && 0 <= n < Two31 && size <= MaxFileSize
    requires n == Wrap32(size / record)
    ensures n * record <= size && SizeT(n * record) == n * record
  {
    var q := size / record;
    QuotientBelow(size, record);
    if q < Two31 {
      Wrap32Identity(q);
    }
    MulMonotone(n, q, record);
    MulMonotone(0, n, record);
    SizeTIdentity(n * record);
  }

  /** An exact multiple is one that leaves no remainder. */
  lemma RemainderRule(size: nat, record: nat, n: int)
    requires record > 0 && n == size / record
    ensures size == n * record <==> size % record == 0
  {
    assert size == n * record + size % record;
  }

  /** More than 2^31 - 1 whole records: the `int` cast of the quotient wraps
      onto `nmodels`, so the frame-count check passes, and the payload, which
      is whole records, is then reported as a non-integer number of models. */
  lemma WrappedQuotientNonInteger(file: seq<byte>, nmodels: int, atoms: int, record: nat)
    requires |file| <= MaxFileSize && record > 0 && 0 <= nmodels < Two31
    requires |file| - MagicSize == (nmodels + Two32) * record
    ensures Reconcile(file, nmodels, atoms, record) == Err(NonIntegerModels)
  {
    var size := |file| - MagicSize;
    var q := nmodels + Two32;
    DivModOf(size, record, q);
    assert q % Two32 == nmodels;
    MulMonotone(0, nmodels, record);
    MulMonotone(nmodels, q, record);
    MulMonotone(1, Two32, record);
    assert nmodels * record < size;
    SizeTIdentity(nmodels * record);
  }

  /** The two reconciliation checks together pass exactly when the payload is
      `nmodels` whole records. */
  lemma ReconcileExact(size: nat, record: nat, nmodels: int)
    requires record > 0 && 0 <= nmodels < Two31 && size <= MaxFileSize
    ensures nmodels == Wrap32(size / record) && size == SizeT(nmodels * record) <==>
      size == nmodels * record
  {
    ExactQuotient(size, record, nmodels);
    if nmodels == Wrap32(size / record) {
      ProductFits(size, record, nmodels);
    }
  }

  /** A record longer than the payload leaves no room for a nonzero payload
      made of whole records, nor for a file of the format's length with a
      negative atom count. */
  lemma NegativeCountNeverExact(size: nat, record: nat, atoms: int, nmodels: int)
    requires 4 <= size < record && atoms < 0 && nmodels >= 0
    ensures size != nmodels * record
    ensures MagicSize + size != FormatLength(atoms, nmodels)
  {
    if nmodels >= 1 {
      MulMonotone(1, nmodels, record);
    }
    MulMonotone(4 + 12 * atoms, 0, nmodels);
  }

  /** A file is accepted exactly when it has the magic, a plausible atom count,
      and the length of `nmodels` records of that many atoms. */
  lemma ValidateAccepts(file: seq<byte>, nmodels: int)
    requires WellSized(file, nmodels)
    ensures Validate(file, nmodels).Ok? <==>
      file[..MagicSize] == Magic && 0 <= Atoms(file) <= MaxAtoms &&
      |file| == FormatLength(Atoms(file), nmodels)
  {
    if file[..MagicSize] == Magic && Atoms(file) <= MaxAtoms {
      var a := Atoms(file);
      var size := |file| - MagicSize;
      var record := RecordSize(a);
      RecordSizeInRange(a);
      ReconcileExact(size, record, nmodels);
      if a < 0 {
        NegativeCountNeverExact(size, record, a, nmodels);
      }
    }
  }

  /** No check after the magic runs on a file without it, whatever it holds. */
  lemma RejectsBadMagic(file: seq<byte>, nmodels: int)
    requires WellSized(file, nmodels)
    ensures Validate(file, nmodels) == Err(BadMagic) <==> file[..MagicSize] != Magic
    ensures ValidateAsWritten(file, nmodels) == Err(BadMagic) <==> file[..MagicSize] != Magic
  {
  }

  /** The byte-order check is strict: a count of exactly 1000000000 passes. It
      is `check_maximum_value` with maximum 1000000001. */
  lemma OtherEndianBoundary(file: seq<byte>, nmodels: int)
    requires WellSized(file, nmodels) && file[..MagicSize] == Magic
    ensures Validate(file, nmodels) == Err(OtherEndian) <==> Atoms(file) > MaxAtoms
    ensures Validate(file, nmodels) == Err(OtherEndian) <==>
      ErrorHandlers.CheckMaximumValue(Atoms(file), MaxAtoms + 1).Exceeded?
    ensures ValidateAsWritten(file, nmodels) == Err(OtherEndian) <==> Atoms(file) > MaxAtoms
    ensures ValidateAsWritten(file, nmodels) == Err(OtherEndian) <==>
      ErrorHandlers.CheckMaximumValue(Atoms(file), MaxAtoms + 1).Exceeded?
  {
    if Atoms(file) <= MaxAtoms {
      RecordSizeInRange(Atoms(file));
    }
  }

  /** The frame-count check compares `nmodels` with the integer quotient of the
      payload size by the record size (through the `int` cast). */
  lemma FrameCountRule(file: seq<byte>, nmodels: int)
    requires WellSized(file, nmodels) && file[..MagicSize] == Magic
    requires 0 <= Atoms(file) <= MaxAtoms
    ensures Validate(file, nmodels) == Err(FrameCountMismatch) <==>
      nmodels != Wrap32((|file| - MagicSize) / (4 + 12 * Atoms(file)))
  {
    RecordSizeInRange(Atoms(file));
  }

  /** Once the frame count matches the quotient, the second check fails exactly
      when the division leaves a remainder. */
  lemma NonIntegerRule(file: seq<byte>, nmodels: int)
    requires WellSized(file, nmodels) && file[..MagicSize] == Magic
    requires 0 <= Atoms(file) <= MaxAtoms
    requires nmodels == (|file| - MagicSize) / (4 + 12 * Atoms(file))
    ensures Validate(file, nmodels) == Err(NonIntegerModels) <==>
      (|file| - MagicSize) % (4 + 12 * Atoms(file)) != 0
  {
    var size := |file| - MagicSize;
    var record := 4 + 12 * Atoms(file);
    RecordSizeInRange(Atoms(file));
    Wrap32Identity(nmodels);
    ProductFits(size, record, nmodels);
    RemainderRule(size, record, nmodels);
  }

  /** One byte short of `n` whole records holds only `n - 1` of them. */
  lemma OneByteShort(size: int, record: int, n: int)
    requires record > 0 && n >= 1 && size == n * record
    ensures (size - 1) / record == n - 1
  {
    MulSucc(n, record);
    DivModOf(size - 1, record, n - 1);
  }

  /** A payload of whole records without its last byte fails the frame-count
      check, whatever the record size. */
  lemma ReconcileTruncated(file: seq<byte>, nmodels: int, atoms: int, record: nat)
    requires MagicSize < |file| <= MaxFileSize && record > 0 && 0 <= nmodels < Two31
    requires Reconcile(file, nmodels, atoms, record).Ok?
    ensures Reconcile(file[..|file| - 1], nmodels, atoms, record) == Err(FrameCountMismatch)
  {
    var size := |file| - MagicSize;
    ReconcileExact(size, record, nmodels);
    PositiveFactor(nmodels, record);
    OneByteShort(size, record, nmodels);
    Wrap32Identity(nmodels - 1);
  }

  /** A payload of whole records with one byte more still divides to
      `nmodels` when a record is longer than a byte, and fails the remainder
      check. */
  lemma ReconcileExtended(file: seq<byte>, nmodels: int, atoms: int, record: nat, extra: byte)
    requires MagicSize <= |file| < MaxFileSize && record > 1 && 0 <= nmodels < Two31
    requires Reconcile(file, nmodels, atoms, record).Ok?
    ensures Reconcile(file + [extra], nmodels, atoms, record) == Err(NonIntegerModels)
  {
    var size := |file| - MagicSize;
    ReconcileExact(size, record, nmodels);
    DivModOf(size + 1, record, nmodels);
    Wrap32Identity(nmodels);
    SizeTIdentity(nmodels * record);
  }

  /** A payload of `nmodels` whole records does not pass for `nmodels - 1`. */
  lemma ReconcileOneFewer(file: seq<byte>, nmodels: int, atoms: int, record: nat)
    requires MagicSize <= |file| <= MaxFileSize && record > 0 && 1 <= nmodels < Two31
    requires Reconcile(file, nmodels, atoms, record).Ok?
    ensures Reconcile(file, nmodels - 1, atoms, record) == Err(FrameCountMismatch)
  {
    var size := |file| - MagicSize;
    ReconcileExact(size, record, nmodels);
    ExactQuotient(size, record, nmodels);
  }

  /** Dropping the last byte of an accepted file makes the quotient one short,
      so it is reported as a frame-count mismatch, by both validators. */
  lemma TruncatedFileMismatch(file: seq<byte>, nmodels: int)
    requires WellSized(file, nmodels) && |file| > HeaderSize
    ensures Validate(file, nmodels).Ok? ==>
      Validate(file[..|file| - 1], nmodels) == Err(FrameCountMismatch)
    ensures ValidateAsWritten(file, nmodels).Ok? ==>
      ValidateAsWritten(file[..|file| - 1], nmodels) == Err(FrameCountMismatch)
  {
    var short := file[..|file| - 1];
    assert short[..MagicSize] == file[..MagicSize];
    assert Atoms(short) == Atoms(file);
    var a := Atoms(file);
    if file[..MagicSize] == Magic && a <= MaxAtoms {
      RecordSizeInRange(a);
      RecordSizeAsWrittenNonZero(a);
      if Validate(file, nmodels).Ok? {
        ReconcileTruncated(file, nmodels, a, RecordSize(a));
      }
      if ValidateAsWritten(file, nmodels).Ok? {
        ReconcileTruncated(file, nmodels, a, RecordSizeAsWritten(a));
      }
    }
  }

  /** One byte more than an accepted file still divides to `nmodels`, so it is
      reported as a non-integer number of models, by both validators. */
  lemma ExtendedFileNonInteger(file: seq<byte>, nmodels: int, extra: byte)
    requires WellSized(file, nmodels) && |file| < MaxFileSize
    ensures Validate(file, nmodels).Ok? ==>
      Validate(file + [extra], nmodels) == Err(NonIntegerModels)
    ensures ValidateAsWritten(file, nmodels).Ok? ==>
      ValidateAsWritten(file + [extra], nmodels) == Err(NonIntegerModels)
  {
    var long := file + [extra];
    assert long[..MagicSize] == file[..MagicSize];
    assert Atoms(long) == Atoms(file);
    var a := Atoms(file);
    if file[..MagicSize] == Magic && a <= MaxAtoms {
      RecordSizeInRange(a);
      RecordSizeAsWrittenNonZero(a);
      if Validate(file, nmodels).Ok? {
        ReconcileExtended(file, nmodels, a, RecordSize(a), extra);
      }
      if ValidateAsWritten(file, nmodels).Ok? {
        ReconcileExtended(file, nmodels, a, RecordSizeAsWritten(a), extra);
      }
    }
  }

  /** Expecting one frame fewer than an accepted file holds is a mismatch, for
      both validators. */
  lemma OneFrameFewerMismatch(file: seq<byte>, nmodels: int)
    requires WellSized(file, nmodels) && nmodels >= 1
    ensures Validate(file, nmodels).Ok? ==>
      Validate(file, nmodels - 1) == Err(FrameCountMismatch)
    ensures ValidateAsWritten(file, nmodels).Ok? ==>
      ValidateAsWritten(file, nmodels - 1) == Err(FrameCountMismatch)
  {
    var a := Atoms(file);
    if file[..MagicSize] == Magic && a <= MaxAtoms {
      RecordSizeInRange(a);
      RecordSizeAsWrittenNonZero(a);
      if Validate(file, nmodels).Ok? {
        ReconcileOneFewer(file, nmodels, a, RecordSize(a));
      }
      if ValidateAsWritten(file, nmodels).Ok? {
        ReconcileOneFewer(file, nmodels, a, RecordSizeAsWritten(a));
      }
    }
  }

  /** The largest count whose `3*nat` fits an `int`. */
  const MaxUnwrappedAtoms: int := 715827882

  /** Without overflow in `3*nat` the code as written is the validator. */
  lemma AsWrittenAgreesWithoutOverflow(file: seq<byte>, nmodels: int)
    requires WellSized(file, nmodels) && IsInt32(3 * Atoms(file))
    ensures ValidateAsWritten(file, nmodels) == Validate(file, nmodels)
  {
    Wrap32Identity(3 * Atoms(file));
    assert RecordSizeAsWritten(Atoms(file)) == RecordSize(Atoms(file));
  }

  /** Twelve bytes: the magic, the count 0xAAAAAAAB (-1431655765) and one
      4-byte word. */
  const NegativeCountFile: seq<byte> := Magic + [0xAB, 0xAA, 0xAA, 0xAA] + [0, 0, 0, 0]

  /** As written, `3*nat` for the count -1431655765 wraps to 1, the record
      size comes out as 8, and this file is accepted with a negative atom
      count; the validator rejects it. */
  lemma AsWrittenAcceptsNegativeCount()
    ensures WellSized(NegativeCountFile, 1)
    ensures ValidateAsWritten(NegativeCountFile, 1) == Ok(Header(-1431655765, 8, HeaderSize))
    ensures Validate(NegativeCountFile, 1) == Err(FrameCountMismatch)
  {
    var file := NegativeCountFile;
    assert file[..MagicSize] == Magic;
    assert Atoms(file) == -1431655765;
    assert Wrap32(3 * -1431655765) == 1;
    assert RecordSizeAsWritten(Atoms(file)) == 8;
    Wrap32Identity(1);
    RecordSizeInRange(Atoms(file));
    DivModOf(8, RecordSize(Atoms(file)), 0);
    Wrap32Identity(0);
  }

  /** For a count above 715827882, `3*nat` wraps to a negative `int` and the
      record size as written wraps to more than any file length. */
  lemma LargeCountRecordSize(atoms: int)
    requires MaxUnwrappedAtoms < atoms <= MaxAtoms
    ensures RecordSizeAsWritten(atoms) > MaxFileSize
  {
    var p := 3 * atoms;
    DivModOf(p, Two32, 0);
    assert Wrap32(p) == p - Two32;
    SizeTOfNegative(4 + 4 * (p - Two32));
  }

  /** As written, a count above 715827882 makes `3*nat` overflow: the record
      size wraps to more than any file length, so a file of exactly the right
      length is refused although the validator accepts it. */
  lemma AsWrittenRejectsLargeCount(file: seq<byte>, nmodels: int)
    requires WellSized(file, nmodels) && nmodels >= 1
    requires file[..MagicSize] == Magic && MaxUnwrappedAtoms < Atoms(file) <= MaxAtoms
    requires |file| == FormatLength(Atoms(file), nmodels)
    ensures Validate(file, nmodels).Ok?
    ensures ValidateAsWritten(file, nmodels) == Err(FrameCountMismatch)
  {
    ValidateAccepts(file, nmodels);
    var record := RecordSizeAsWritten(Atoms(file));
    LargeCountRecordSize(Atoms(file));
    DivModOf(|file| - MagicSize, record, 0);
    Wrap32Identity(0);
  }
}
