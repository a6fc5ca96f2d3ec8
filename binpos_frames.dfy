/**
 * Frame reading of an AMBER7 binpos trajectory (`binpos_read`).
 *
 * The stream stands right after a frame's atom count. For each of `nmodels`
 * frames the reader copies `pdb` 4-byte coordinates into the caller's array
 * at the next free slot, then reads and discards the following atom count.
 * A short read of coordinates is fatal; a short read of the atom count is
 * fatal except after the last frame, where the file normally ends.
 */
module BinposFrames {
  import opened MachineInt

  /** One stored coordinate, copied byte for byte and never interpreted. */
  datatype Word = Word(b0: byte, b1: byte, b2: byte, b3: byte)

  /** How a read ended; frames are numbered from 1, as the loop counts them. */
  datatype ReadStatus = Complete | ShortCoordinates(frame: nat) | ShortSentinel(frame: nat)

  function Min(x: int, y: int): int {
    if x <= y then x else y
  }

  function WordAt(file: seq<byte>, off: nat): Word
    requires off + 4 <= |file|
  {
    Word(file[off], file[off + 1], file[off + 2], file[off + 3])
  }

  /** Bytes from one frame's first coordinate to the next frame's: the
      coordinates plus the atom count in between. */
  function Stride(pdb: nat): nat {
    4 * pdb + 4
  }

  /** Where the coordinates of the frame after the first `k` begin. */
  function FrameStart(start: nat, pdb: nat, k: nat): nat {
    start + k * Stride(pdb)
  }

  /** The `count` words stored from byte `off` on. */
  function WordsAt(file: seq<byte>, off: nat, count: nat): (s: seq<Word>)
    requires off + 4 * count <= |file|
    ensures |s| == count
    ensures forall j :: 0 <= j < count ==> s[j] == WordAt(file, off + 4 * j)
  {
    seq(count, j requires 0 <= j < count => WordAt(file, off + 4 * j))
  }

  /** The coordinates of the first `n` frames lie within `avail` bytes. */
  predicate Fits(avail: int, pdb: nat, n: int) {
    n <= 0 || (n - 1) * Stride(pdb) + 4 * pdb <= avail
  }

  lemma FitsFewer(avail: int, pdb: nat, n: int, m: int)
    requires m <= n && Fits(avail, pdb, n)
    ensures Fits(avail, pdb, m)
  {
    if m > 0 {
      MulMonotone(m - 1, n - 1, Stride(pdb));
    }
  }

  /** The buffer the reader should produce from the first `n` frames: frame
      after frame, `pdb` words each. */
  function Frames(file: seq<byte>, start: nat, pdb: nat, n: nat): (s: seq<Word>)
    requires start <= |file| && Fits(|file| - start, pdb, n)
    ensures |s| == n * pdb
    decreases n
  {
    if n == 0 then []
    else
      FitsFewer(|file| - start, pdb, n, n - 1);
      Frames(file, start, pdb, n - 1) + WordsAt(file, FrameStart(start, pdb, n - 1), pdb)
  }

  /** The first `n` frames are the first `n - 1` and then frame `n`'s words. */
  lemma FramesStep(file: seq<byte>, start: nat, pdb: nat, n: nat, prefix: seq<Word>, frame: seq<Word>)
    requires start <= |file| && n >= 1 && Fits(|file| - start, pdb, n)
    requires FrameStart(start, pdb, n - 1) + 4 * pdb <= |file|
    requires Fits(|file| - start, pdb, n - 1) && Frames(file, start, pdb, n - 1) == prefix
    requires WordsAt(file, FrameStart(start, pdb, n - 1), pdb) == frame
    ensures Frames(file, start, pdb, n) == prefix + frame
  {
  }

  /** The frames one after another, as the caller's buffer holds them. */
  function Flatten(frames: seq<seq<Word>>): seq<Word> {
    if frames == [] then [] else Flatten(frames[..|frames| - 1]) + frames[|frames| - 1]
  }

  /** A file whose frame `k` is stored `k` strides after the start reads back
      as those frames, in order. */
  lemma {:induction false} FramesOfFile(file: seq<byte>, start: nat, pdb: nat, frames: seq<seq<Word>>, n: nat)
    requires start <= |file| && n <= |frames|
    requires forall k :: 0 <= k < |frames| ==>
      FrameStart(start, pdb, k) + 4 * pdb <= |file| && WordsAt(file, FrameStart(start, pdb, k), pdb) == frames[k]
    ensures Fits(|file| - start, pdb, n)
    ensures Frames(file, start, pdb, n) == Flatten(frames[..n])
    decreases n
  {
    if n == 0 {
      assert frames[..0] == [];
    } else {
      FramesOfFile(file, start, pdb, frames, n - 1);
      var before := frames[..n - 1];
      assert frames[..n][..n - 1] == before && frames[..n][n - 1] == frames[n - 1];
      assert Flatten(frames[..n]) == Flatten(before) + frames[n - 1];
      FramesStep(file, start, pdb, n, Flatten(before), frames[n - 1]);
    }
  }

  /** Slot `k * pdb + j` holds coordinate `j` of frame `k`, the word stored
      `k` strides and `j` words after the start. */
  lemma {:induction false} FramesAt(file: seq<byte>, start: nat, pdb: nat, n: nat, k: nat, j: nat)
    requires start <= |file| && Fits(|file| - start, pdb, n)
    requires k < n && j < pdb
    ensures k * pdb + j < n * pdb
    ensures start + k * Stride(pdb) + 4 * j + 4 <= |file|
    ensures Frames(file, start, pdb, n)[k * pdb + j] == WordAt(file, start + k * Stride(pdb) + 4 * j)
    decreases n
  {
    FitsFewer(|file| - start, pdb, n, n - 1);
    if k == n - 1 {
      assert (n - 1) * pdb + j < n * pdb;
    } else {
      FramesAt(file, start, pdb, n - 1, k, j);
      assert (n - 1) * pdb <= n * pdb;
    }
  }

  /** The outcome predicted from the number of bytes after the start alone:
      `k` whole records fit, and the first frame that does not fit decides. */
  function ExpectedRead(avail: nat, pdb: nat, nmodels: int): ReadStatus {
    var k := avail / Stride(pdb);
    if k >= nmodels then Complete
    else if avail % Stride(pdb) < 4 * pdb then ShortCoordinates(k + 1)
    else if k + 1 < nmodels then ShortSentinel(k + 1)
    else Complete
  }

  /** A read completes exactly when every frame's coordinates are in the file;
      whether the last atom count is there does not matter. */
  lemma ExpectedReadComplete(avail: nat, pdb: nat, nmodels: int)
    ensures ExpectedRead(avail, pdb, nmodels) == Complete <==> Fits(avail, pdb, nmodels)
  {
    var s := Stride(pdb);
    var k := avail / s;
    var r := avail % s;
    assert avail == k * s + r && 0 <= r < s;
    if k >= nmodels {
      if nmodels > 0 {
        MulMonotone(nmodels, k, s);
        MulSucc(nmodels, s);
      }
    } else if r < 4 * pdb {
      MulMonotone(k, nmodels - 1, s);
    } else if k + 1 < nmodels {
      MulMonotone(k + 1, nmodels - 1, s);
      MulSucc(k + 1, s);
    } else {
      assert nmodels - 1 == k;
    }
  }

  /** 1 when `fread` of `count` words from `avail` bytes ends inside a word:
      the bytes of that last, partial word are still stored. */
  function Torn(avail: nat, count: nat): nat {
    if avail / 4 < count && avail % 4 != 0 then 1 else 0
  }

  /** The element `fread` leaves behind when the file ends inside it: the
      bytes from `off` to the end of the file, then the element's own bytes. */
  function PartialWord(w: Word, file: seq<byte>, off: nat): Word
    requires off < |file| < off + 4
  {
    Word(file[off],
         if off + 1 < |file| then file[off + 1] else w.b1,
         if off + 2 < |file| then file[off + 2] else w.b2,
         w.b3)
  }

  /** `fread` of `count` 4-byte items at `pos` into `a[off..]`: it copies the
      whole words the file still holds, says how many, and moves the stream
      past every byte it consumed. When the file ends inside a word, the bytes
      it holds of that word are stored too. */
  method ReadWords(file: seq<byte>, pos: nat, a: array<Word>, off: nat, count: nat)
      returns (got: nat, next: nat)
    requires pos <= |file| && off + count <= a.Length
    modifies a
    ensures got == Min(count, (|file| - pos) / 4) && next == pos + Min(4 * count, |file| - pos)
    ensures a[..off] == old(a[..off])
    ensures a[off + got + Torn(|file| - pos, count)..] == old(a[off + got + Torn(|file| - pos, count)..])
    ensures a[off..off + got] == WordsAt(file, pos, got)
    ensures Torn(|file| - pos, count) == 1 ==>
      off + got < a.Length && pos + 4 * got < |file| < pos + 4 * got + 4 &&
      a[off + got] == PartialWord(old(a[off + got]), file, pos + 4 * got)
  {
    got := Min(count, (|file| - pos) / 4);
    next := pos + Min(4 * count, |file| - pos);
    if Torn(|file| - pos, count) == 1 {
      var avail := |file| - pos;
      assert avail == avail / 4 * 4 + avail % 4;
      a[off + got] := PartialWord(a[off + got], file, pos + 4 * got);
    }
    forall j | 0 <= j < got {
      a[off + j] := WordAt(file, pos + 4 * j);
    }
  }

  /** The loop's step: one more frame is one more stride and `pdb` more slots. */
  lemma NextFrame(i: int, pdb: nat)
    ensures i * Stride(pdb) == (i - 1) * Stride(pdb) + Stride(pdb)
    ensures i * pdb == (i - 1) * pdb + pdb
  {
  }

  /** Frame `i` is the first whose coordinates are cut short. */
  lemma ShortCoordinatesAt(avail: nat, pdb: nat, nmodels: int, i: int)
    requires 1 <= i <= nmodels
    requires (i - 1) * Stride(pdb) <= avail < (i - 1) * Stride(pdb) + 4 * pdb
    ensures ExpectedRead(avail, pdb, nmodels) == ShortCoordinates(i)
  {
    NextFrame(i, pdb);
    DivModOf(avail, Stride(pdb), i - 1);
  }

  /** Frame `i`, not the last, is followed by a cut-short atom count. */
  lemma ShortSentinelAt(avail: nat, pdb: nat, nmodels: int, i: int)
    requires 1 <= i < nmodels
    requires (i - 1) * Stride(pdb) + 4 * pdb <= avail < i * Stride(pdb)
    ensures ExpectedRead(avail, pdb, nmodels) == ShortSentinel(i)
  {
    NextFrame(i, pdb);
    DivModOf(avail, Stride(pdb), i - 1);
  }

  /** Copying frame `i` behind the first `i - 1` frames gives the first `i`. */
  lemma FrameAppended(file: seq<byte>, start: nat, pdb: nat, i: nat, prev: seq<Word>, now: seq<Word>, offset: nat)
    requires start <= |file| && i >= 1 && Fits(|file| - start, pdb, i)
    requires offset == (i - 1) * pdb && offset + pdb <= |prev| == |now|
    requires prev[..offset] == Frames(file, start, pdb, i - 1)
    requires now[..offset] == prev[..offset]
    requires now[offset..offset + pdb] == WordsAt(file, FrameStart(start, pdb, i - 1), pdb)
    ensures now[..offset + pdb] == Frames(file, start, pdb, i)
  {
    assert now[..offset + pdb] == now[..offset] + now[offset..offset + pdb];
  }

  /** What the reader has not reached yet still holds what the caller put there. */
  lemma SuffixKept(orig: seq<Word>, prev: seq<Word>, now: seq<Word>, offset: nat, got: nat)
    requires offset + got <= |orig| == |prev| == |now|
    requires prev[offset..] == orig[offset..]
    requires now[offset + got..] == prev[offset + got..]
    ensures now[offset + got..] == orig[offset + got..]
  {
    assert prev[offset + got..] == prev[offset..][got..];
    assert orig[offset + got..] == orig[offset..][got..];
  }

  /** A suffix kept intact keeps every shorter suffix intact. */
  lemma LaterSuffix<T>(x: seq<T>, y: seq<T>, p: nat, q: nat)
    requires p <= q <= |x| == |y| && x[p..] == y[p..]
    ensures x[q..] == y[q..]
  {
    assert x[q..] == x[p..][q - p..];
    assert y[q..] == y[p..][q - p..];
  }

  /** `fread` returns the full count exactly when the bytes for all of it remain. */
  lemma WholeWords(avail: nat, count: nat)
    ensures Min(count, avail / 4) == count <==> 4 * count <= avail
  {
    assert avail == avail / 4 * 4 + avail % 4;
  }

  /** One pass of the reader's loop, for frame `i`: copy its coordinates to
      `a[offset..]`, then read and discard the atom count after it. Says
      whether each of the two reads was whole, and where the stream stands. */
  method ReadFrame(file: seq<byte>, start: nat, a: array<Word>, pdb: nat, nmodels: int,
                   i: nat, offset: nat, cursor: nat)
      returns (coordinatesRead: bool, sentinelRead: bool, next: nat)
    requires start <= |file| && 1 <= i <= nmodels && offset == (i - 1) * pdb
    requires offset + pdb <= a.Length
    requires Fits(|file| - start, pdb, i - 1)
    requires cursor == FrameStart(start, pdb, i - 1) <= |file|
    requires a[..offset] == Frames(file, start, pdb, i - 1)
    modifies a
    ensures a[..offset] == old(a[..offset]) && a[offset + pdb..] == old(a[offset + pdb..])
    ensures coordinatesRead <==> Fits(|file| - start, pdb, i)
    ensures !coordinatesRead ==> ExpectedRead(|file| - start, pdb, nmodels) == ShortCoordinates(i)
    ensures coordinatesRead ==> a[..offset + pdb] == Frames(file, start, pdb, i)
    ensures coordinatesRead ==> next == Min(|file|, FrameStart(start, pdb, i))
    ensures coordinatesRead ==> (sentinelRead <==> FrameStart(start, pdb, i) <= |file|)
    ensures coordinatesRead && !sentinelRead && i < nmodels ==>
      ExpectedRead(|file| - start, pdb, nmodels) == ShortSentinel(i)
  {
    NextFrame(i, pdb);
    ghost var prev := a[..];
    var got;
    got, next := ReadWords(file, cursor, a, offset, pdb);
    WholeWords(|file| - cursor, pdb);
    LaterSuffix(a[..], prev, offset + got + Torn(|file| - cursor, pdb), offset + pdb);
    if got != pdb {
      ShortCoordinatesAt(|file| - start, pdb, nmodels, i);
      return false, false, next;
    }
    FrameAppended(file, start, pdb, i, prev, a[..], offset);
    ghost var nextFrame := FrameStart(start, pdb, i);
    assert next + 4 == nextFrame;
    coordinatesRead, sentinelRead := true, |file| - next >= 4;
    if !sentinelRead && i < nmodels {
      assert |file| - start < nextFrame - start;
      ShortSentinelAt(|file| - start, pdb, nmodels, i);
    }
    next := next + Min(4, |file| - next);
  }

  /** How many whole frames a read that ended with `status` has stored: all
      of them, all before the frame whose coordinates were cut short, or all up
      to the frame whose atom count was cut short. */
  function FramesStored(status: ReadStatus, nmodels: int): nat {
    match status
    case Complete => if nmodels > 0 then nmodels else 0
    case ShortCoordinates(frame) => if frame > 0 then frame - 1 else 0
    case ShortSentinel(frame) => frame
  }

  /** `binpos_read`: fills `a` with `nmodels` frames of `pdb` coordinates from
      the stream at `start`, skipping each frame's following atom count. */
  method BinposRead(file: seq<byte>, start: nat, a: array<Word>, pdb: nat, nmodels: int)
      returns (status: ReadStatus, cursor: nat)
    requires start <= |file|
    requires nmodels * pdb <= a.Length
    modifies a
    ensures status == ExpectedRead(|file| - start, pdb, nmodels)
    ensures FramesStored(status, nmodels) * pdb <= a.Length
    ensures Fits(|file| - start, pdb, FramesStored(status, nmodels))
    ensures a[..FramesStored(status, nmodels) * pdb] == Frames(file, start, pdb, FramesStored(status, nmodels))
    ensures nmodels <= 0 ==> a[..] == old(a[..])
    ensures nmodels >= 0 ==> a[nmodels * pdb..] == old(a[nmodels * pdb..])
    ensures status.Complete? ==> cursor == Min(|file|, FrameStart(start, pdb, FramesStored(status, nmodels)))
  {
    var offset := 0;
    cursor := start;
    var i := 1;
    while i <= nmodels
      invariant 1 <= i && (nmodels >= 0 ==> i <= nmodels + 1) && (nmodels < 0 ==> i == 1)
      invariant offset == (i - 1) * pdb && Fits(|file| - start, pdb, i - 1)
      invariant i <= nmodels ==> FrameStart(start, pdb, i - 1) <= |file|
      invariant cursor == Min(|file|, FrameStart(start, pdb, i - 1))
      invariant a[..offset] == Frames(file, start, pdb, i - 1)
      invariant a[offset..] == old(a[offset..])
    {
      MulMonotone(i, nmodels, pdb);
      NextFrame(i, pdb);
      ghost var prev := a[..];
      var coordinatesRead, sentinelRead, next := ReadFrame(file, start, a, pdb, nmodels, i, offset, cursor);
      SuffixKept(old(a[..]), prev, a[..], offset, pdb);
      if !coordinatesRead {
        LaterSuffix(a[..], old(a[..]), offset + pdb, nmodels * pdb);
        assert FramesStored(ShortCoordinates(i), nmodels) == i - 1;
        return ShortCoordinates(i), next;
      }
      cursor, offset := next, offset + pdb;
      if !sentinelRead && i < nmodels {
        assert FramesStored(ShortSentinel(i), nmodels) * pdb == offset;
        return ShortSentinel(i), cursor;
      }
      i := i + 1;
    }
    status := Complete;
    ExpectedReadComplete(|file| - start, pdb, nmodels);
    assert FramesStored(status, nmodels) == i - 1;
    if nmodels <= 0 {
      assert offset == 0 && a[..] == a[offset..];
    }
  }
}
