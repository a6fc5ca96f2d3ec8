/**
 * The binpos layout as a reference encoding, and the properties that tie the
 * validator and the frame reader to it: a file laid out from whole frames is
 * accepted, reading it back yields the frames in order, and every accepted
 * file is read to the end without a fatal short read.
 */
module BinposFormat {
  import opened MachineInt
  import opened BinposHeader
  import opened BinposFrames

  function WordBytes(w: Word): (b: seq<byte>)
    ensures |b| == 4
  {
    [w.b0, w.b1, w.b2, w.b3]
  }

  /** The stored bytes of one frame's coordinates. */
  function CoordinateBytes(frame: seq<Word>): (b: seq<byte>)
    ensures |b| == 4 * |frame|
  {
    if frame == [] then [] else WordBytes(frame[0]) + CoordinateBytes(frame[1..])
  }

  /** One record: the atom count, then the frame's coordinates. */
  function Record(atoms: int, frame: seq<Word>): (b: seq<byte>)
    requires IsInt32(atoms)
    ensures |b| == 4 + 4 * |frame|
  {
    Int32Bytes(atoms) + CoordinateBytes(frame)
  }

  function Records(atoms: int, frames: seq<seq<Word>>): seq<byte>
    requires IsInt32(atoms)
  {
    if frames == [] then [] else Record(atoms, frames[0]) + Records(atoms, frames[1..])
  }

  /** The whole file for `frames`, each of them `3 * atoms` coordinates. */
  function Encode(atoms: int, frames: seq<seq<Word>>): seq<byte>
    requires IsInt32(atoms)
  {
    Magic + Records(atoms, frames)
  }

  predicate WellShaped(atoms: int, frames: seq<seq<Word>>) {
    0 <= atoms <= MaxAtoms && forall f :: f in frames ==> |f| == 3 * atoms
  }

  /** Coordinate `j` of a frame sits `4 * j` bytes into its stored bytes. */
  lemma {:induction false} CoordinateBytesAt(frame: seq<Word>, j: nat)
    requires j < |frame|
    ensures CoordinateBytes(frame)[4 * j..4 * j + 4] == WordBytes(frame[j])
    decreases j
  {
    var b := CoordinateBytes(frame);
    var rest := CoordinateBytes(frame[1..]);
    assert b == WordBytes(frame[0]) + rest;
    if j == 0 {
      assert b[..4] == WordBytes(frame[0]);
    } else {
      CoordinateBytesAt(frame[1..], j - 1);
      assert frame[1..][j - 1] == frame[j];
      assert b[4 * j..4 * j + 4] == rest[4 * (j - 1)..4 * (j - 1) + 4];
    }
  }

  /** A word whose bytes lie `i` bytes into a stored block `t` is read back
      from the file holding that block at `off`. */
  lemma WordWithin(s: seq<byte>, off: nat, t: seq<byte>, i: nat, w: Word)
    requires off + |t| <= |s| && s[off..off + |t|] == t
    requires i + 4 <= |t| && t[i..i + 4] == WordBytes(w)
    ensures WordAt(s, off + i) == w
  {
    var u := t[i..i + 4];
    assert u[0] == w.b0 && u[1] == w.b1 && u[2] == w.b2 && u[3] == w.b3;
    assert s[off + i] == t[i] == u[0];
    assert s[off + i + 1] == t[i + 1] == u[1];
    assert s[off + i + 2] == t[i + 2] == u[2];
    assert s[off + i + 3] == t[i + 3] == u[3];
  }

  /** Coordinate `j` of a stored frame reads back as that coordinate. */
  lemma CoordinateWordAt(s: seq<byte>, off: nat, frame: seq<Word>, j: nat)
    requires off + 4 * |frame| <= |s| && s[off..off + 4 * |frame|] == CoordinateBytes(frame)
    requires j < |frame|
    ensures off + 4 * j + 4 <= |s|
    ensures WordAt(s, off + 4 * j) == frame[j]
  {
    var t := CoordinateBytes(frame);
    var i := 4 * j;
    CoordinateBytesAt(frame, j);
    WordWithin(s, off, t, i, frame[j]);
    assert WordAt(s, off + 4 * j) == WordAt(s, off + i);
  }

  /** Reading `|frame|` words where a frame is stored gives the frame back. */
  lemma WordsOfCoordinateBytes(s: seq<byte>, off: nat, frame: seq<Word>)
    requires off + 4 * |frame| <= |s| && s[off..off + 4 * |frame|] == CoordinateBytes(frame)
    ensures WordsAt(s, off, |frame|) == frame
  {
    var w := WordsAt(s, off, |frame|);
    forall j | 0 <= j < |frame| ensures w[j] == frame[j] {
      CoordinateWordAt(s, off, frame, j);
    }
  }

  lemma WellShapedTail(atoms: int, frames: seq<seq<Word>>)
    requires WellShaped(atoms, frames) && frames != []
    ensures |frames[0]| == 3 * atoms && WellShaped(atoms, frames[1..])
  {
    assert frames[0] in frames;
    forall f | f in frames[1..] ensures |f| == 3 * atoms {
      assert f in frames;
    }
  }

  /** Every record of well-shaped frames is one stride long. */
  lemma {:induction false} RecordsLength(atoms: int, frames: seq<seq<Word>>)
    requires WellShaped(atoms, frames)
    ensures |Records(atoms, frames)| == |frames| * Stride(3 * atoms)
    decreases |frames|
  {
    if frames != [] {
      WellShapedTail(atoms, frames);
      RecordsLength(atoms, frames[1..]);
      assert |frames| * Stride(3 * atoms) == Stride(3 * atoms) + (|frames| - 1) * Stride(3 * atoms);
    }
  }

  lemma MiddleOf<T>(x: seq<T>, y: seq<T>, z: seq<T>)
    ensures (x + y + z)[|x|..|x| + |y|] == y
  {
  }

  lemma WellShapedSlice(atoms: int, frames: seq<seq<Word>>, i: nat, j: nat)
    requires WellShaped(atoms, frames) && i <= j <= |frames|
    ensures WellShaped(atoms, frames[i..j])
  {
    forall f | f in frames[i..j] ensures |f| == 3 * atoms {
      assert f in frames;
    }
  }

  /** Regrouping a concatenation of three parts. */
  lemma Regroup3<T>(x: seq<T>, y: seq<T>, z: seq<T>)
    ensures x + (y + z) == x + y + z
  {
  }

  /** The records of a sequence of frames are those of its two halves. */
  lemma {:induction false} RecordsSplit(atoms: int, frames: seq<seq<Word>>, k: nat)
    requires IsInt32(atoms) && k <= |frames|
    ensures Records(atoms, frames) == Records(atoms, frames[..k]) + Records(atoms, frames[k..])
    decreases k
  {
    if k == 0 {
      assert frames[..0] == [] && frames[0..] == frames;
    } else {
      var tail := frames[1..];
      var first := Record(atoms, frames[0]);
      RecordsSplit(atoms, tail, k - 1);
      var front := Records(atoms, tail[..k - 1]);
      var back := Records(atoms, tail[k - 1..]);
      assert Records(atoms, frames) == first + (front + back);
      assert frames[..k][0] == frames[0] && frames[..k][1..] == tail[..k - 1];
      assert Records(atoms, frames[..k]) == first + front;
      assert tail[k - 1..] == frames[k..];
      Regroup3(first, front, back);
    }
  }

  /** A file laid out from whole frames has the length the validator demands. */
  lemma EncodeLength(atoms: int, frames: seq<seq<Word>>)
    requires WellShaped(atoms, frames)
    ensures |Encode(atoms, frames)| == FormatLength(atoms, |frames|)
  {
    RecordsLength(atoms, frames);
  }

  /** Regrouping the file around one frame's records. */
  lemma Regroup5<T>(m: seq<T>, pre: seq<T>, count: seq<T>, coords: seq<T>, post: seq<T>)
    ensures m + (pre + (count + coords + post)) == m + pre + count + coords + post
  {
  }

  /** The file is the magic, the records before frame `k`, frame `k`'s atom
      count, its coordinates, and the records after it. */
  lemma EncodedAround(atoms: int, frames: seq<seq<Word>>, k: nat)
    requires IsInt32(atoms) && k < |frames|
    ensures Encode(atoms, frames) ==
      Magic + Records(atoms, frames[..k]) + Int32Bytes(atoms) +
      CoordinateBytes(frames[k]) + Records(atoms, frames[k + 1..])
  {
    var pre := Records(atoms, frames[..k]);
    var post := Records(atoms, frames[k + 1..]);
    var count := Int32Bytes(atoms);
    var coords := CoordinateBytes(frames[k]);
    var rest := frames[k..];
    RecordsSplit(atoms, frames, k);
    assert rest[0] == frames[k] && rest[1..] == frames[k + 1..];
    assert Records(atoms, rest) == count + coords + post;
    assert Encode(atoms, frames) == Magic + (pre + (count + coords + post));
    Regroup5(Magic, pre, count, coords, post);
  }

  /** Where frame `k`'s coordinates are stored in the file. */
  lemma EncodedFrameAt(atoms: int, frames: seq<seq<Word>>, k: nat)
    requires WellShaped(atoms, frames) && k < |frames|
    ensures FrameStart(HeaderSize, 3 * atoms, k) + 12 * atoms <= |Encode(atoms, frames)|
    ensures WordsAt(Encode(atoms, frames), FrameStart(HeaderSize, 3 * atoms, k), 3 * atoms) == frames[k]
  {
    var file := Encode(atoms, frames);
    var x := Magic + Records(atoms, frames[..k]) + Int32Bytes(atoms);
    var coords := CoordinateBytes(frames[k]);
    EncodedAround(atoms, frames, k);
    WellShapedSlice(atoms, frames, 0, k);
    RecordsLength(atoms, frames[..k]);
    assert frames[k] in frames;
    assert |x| == HeaderSize + k * Stride(3 * atoms);
    MiddleOf(x, coords, Records(atoms, frames[k + 1..]));
    WordsOfCoordinateBytes(file, |x|, frames[k]);
  }

  /** The validator accepts a file laid out from whole frames and reports its
      atom count. */
  lemma EncodeValidates(atoms: int, frames: seq<seq<Word>>)
    requires WellShaped(atoms, frames) && 1 <= |frames| < Two31
    requires FormatLength(atoms, |frames|) <= MaxFileSize
    ensures WellSized(Encode(atoms, frames), |frames|)
    ensures Validate(Encode(atoms, frames), |frames|) ==
      Ok(Header(atoms, |Encode(atoms, frames)| - MagicSize, HeaderSize))
  {
    var file := Encode(atoms, frames);
    EncodeLength(atoms, frames);
    MulMonotone(1, |frames|, 4 + 12 * atoms);
    assert file[..MagicSize] == Magic;
    assert file[MagicSize..HeaderSize] == Int32Bytes(atoms);
    Int32RoundTrip(atoms, file, MagicSize);
    ValidateAccepts(file, |frames|);
  }

  /** Round trip: reading all frames of such a file gives every frame back, in
      order; with `FramesAt`, slot `k * 3 * atoms + j` holds `frames[k][j]`. */
  lemma EncodeReadsBack(atoms: int, frames: seq<seq<Word>>)
    requires WellShaped(atoms, frames) && 1 <= |frames|
    ensures HeaderSize <= |Encode(atoms, frames)|
    ensures ExpectedRead(|Encode(atoms, frames)| - HeaderSize, 3 * atoms, |frames|) == Complete
    ensures Fits(|Encode(atoms, frames)| - HeaderSize, 3 * atoms, |frames|)
    ensures Frames(Encode(atoms, frames), HeaderSize, 3 * atoms, |frames|) == Flatten(frames)
  {
    var file := Encode(atoms, frames);
    var pdb := 3 * atoms;
    forall k | 0 <= k < |frames|
      ensures FrameStart(HeaderSize, pdb, k) + 4 * pdb <= |file|
      ensures WordsAt(file, FrameStart(HeaderSize, pdb, k), pdb) == frames[k]
    {
      EncodedFrameAt(atoms, frames, k);
    }
    EncodedFrameAt(atoms, frames, 0);
    FramesOfFile(file, HeaderSize, pdb, frames, |frames|);
    assert frames[..|frames|] == frames;
    ExpectedReadComplete(|file| - HeaderSize, pdb, |frames|);
  }

  /** An accepted file is read to its end: every frame's coordinates are there,
      and the atom count after the last frame never is, so the one short read
      the reader tolerates happens on every accepted file. */
  lemma AcceptedFileReads(file: seq<byte>, nmodels: int)
    requires WellSized(file, nmodels) && Validate(file, nmodels).Ok?
    ensures nmodels >= 1 && 0 <= Atoms(file) <= MaxAtoms
    ensures ExpectedRead(|file| - HeaderSize, 3 * Atoms(file), nmodels) == Complete
    ensures Fits(|file| - HeaderSize, 3 * Atoms(file), nmodels)
    ensures HeaderSize + nmodels * Stride(3 * Atoms(file)) == |file| + 4
  {
    ValidateAccepts(file, nmodels);
    var pdb := 3 * Atoms(file);
    var s := Stride(pdb);
    assert s == 4 + 12 * Atoms(file);
    assert |file| == MagicSize + nmodels * s;
    PositiveFactor(nmodels, s);
    MulSucc(nmodels, s);
    ExpectedReadComplete(|file| - HeaderSize, pdb, nmodels);
  }
}
