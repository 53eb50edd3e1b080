/** What damage inside four consecutive bytes of a file does: to the checked header bytes,
    to the seek table, to a frame, or across the borders between them. */
module Damage {
  import opened Words
  import opened Results
  import opened Format
  import opened Frame
  import opened FrameTheorems
  import opened Decoder
  import opened Ranges
  import opened Pipeline
  import opened Encoder
  import opened EndToEnd
  import Crc32

  /** The first byte of the seek table. */
  function TableStart(file: seq<u8>): nat
    requires SkipId3v2Prefix(file).Ok?
  {
    SkipId3v2Prefix(file).value + HEADER_LEN
  }

  /** Byte strings with a common front have the same slices inside it. */
  lemma SameSlice(m: seq<u8>, m': seq<u8>, n: nat, i: nat, j: nat)
    requires i <= j <= n <= |m| && n <= |m'| && m[..n] == m'[..n]
    ensures m[i..j] == m'[i..j]
  {
    assert m[i..j] == m[..n][i..j] && m'[i..j] == m'[..n][i..j];
  }

  /** Slices of a suffix. */
  lemma SliceOfSuffix(m: seq<u8>, base: nat, i: nat, j: nat)
    requires base <= |m| && i <= j <= |m| - base
    ensures m[base..][i..j] == m[base + i..base + j]
  {
  }

  /** Bytes that agree up to the seek table have the same tag and header. */
  lemma SameFront(file: seq<u8>, file': seq<u8>)
    requires |file| == |file'| && SkipId3v2Prefix(file).Ok?
    requires TableStart(file) <= |file| && file[..TableStart(file)] == file'[..TableStart(file)]
    ensures var id3 := SkipId3v2Prefix(file).value;
            SkipId3v2Prefix(file') == Ok(id3) && ParseHeader(file'[id3..]) == ParseHeader(file[id3..])
  {
    hide ParseHeader;
    var id3, n := SkipId3v2Prefix(file).value, TableStart(file);
    SameTagOfFront(file, file', n);
    hide SkipId3v2Prefix;
    SameSlice(file, file', n, id3, n);
    SliceOfSuffix(file, id3, 0, 22);
    SliceOfSuffix(file', id3, 0, 22);
    HeaderOfFront(file[id3..], file'[id3..]);
  }

  lemma SameTagOfFront(file: seq<u8>, file': seq<u8>, n: nat)
    requires |file| == |file'| && 10 <= n <= |file| && file[..n] == file'[..n]
    ensures SkipId3v2Prefix(file') == SkipId3v2Prefix(file)
  {
    assert forall i :: 0 <= i < n ==> file[i] == file[..n][i] == file'[..n][i] == file'[i];
    SameSlice(file, file', n, 0, 3);
  }

  lemma HeaderOfFront(buf: seq<u8>, buf': seq<u8>)
    requires HEADER_LEN <= |buf| && HEADER_LEN <= |buf'| && buf[..22] == buf'[..22]
    ensures ParseHeader(buf') == ParseHeader(buf)
  {
    hide Crc32.LeWord, Crc32.Checksum, FromLe16, FromLe32;
    var a, b := buf[..22], buf'[..22];
    assert buf[0..4] == a[0..4] && buf[4..6] == a[4..6] && buf[6..8] == a[6..8] && buf[8..10] == a[8..10];
    assert buf[10..14] == a[10..14] && buf[14..18] == a[14..18] && buf[18..22] == a[18..22] && buf[..18] == a[..18];
    assert buf'[0..4] == b[0..4] && buf'[4..6] == b[4..6] && buf'[6..8] == b[6..8] && buf'[8..10] == b[8..10];
    assert buf'[10..14] == b[10..14] && buf'[14..18] == b[14..18] && buf'[18..22] == b[18..22] && buf'[..18] == b[..18];
  }

  /** Damage that reaches the table, with the header untouched: the file opens with the
      same header, but is unseekable. */
  lemma DamagedTable(file: seq<u8>, file': seq<u8>, prime: Priming, at: nat)
    requires Opened(file, prime).Ok? && Opened(file, prime).value.seekTableCrcOk
    requires Crc32.DifferInWindow(file, file', at)
    requires file[..TableStart(file)] == file'[..TableStart(file)]
    requires TableEnd(file, prime) <= |file|
    requires file[TableStart(file)..TableEnd(file, prime)] != file'[TableStart(file)..TableEnd(file, prime)]
    ensures Opened(file', prime).Ok?
    ensures Opened(file', prime).value.header == Opened(file, prime).value.header
    ensures !Opened(file', prime).value.seekTableCrcOk
  {
    hide ParseHeader, SkipId3v2Prefix, StreamHeader.FrameGeometry, StreamHeader.RegularFrameSamples, SeekTableOf, Decoder.Valid;
    hide Crc32.DifferInWindow, Clip;
    var base, dec := TableStart(file), Opened(file, prime).value;
    var n := 4 * dec.header.FrameGeometry().0 + 4;
    SameLength(file, file', at);
    SameFront(file, file');
    TableLength(file[base..], dec.header, base + n);
    RegionDiffers(file, file', at, base, base + n);
    SliceOfSuffix(file, base, 0, n);
    SliceOfSuffix(file', base, 0, n);
    SeekTableBurstFlagged(file[base..], file'[base..], dec.header, base + n, Clip(at, base, base + n));
  }

  lemma SameLength(m: seq<u8>, m': seq<u8>, at: nat)
    requires Crc32.DifferInWindow(m, m', at)
    ensures |m| == |m'| && at + 4 <= |m| && m != m' && m[..at] == m'[..at]
  {
  }

  /** The byte after the seek table. */
  function TableEnd(file: seq<u8>, prime: Priming): nat
    requires Opened(file, prime).Ok?
  {
    TableStart(file) + 4 * |Opened(file, prime).value.frames| + 4
  }

  lemma TableLength(buf: seq<u8>, h: StreamHeader, start: nat)
    ensures match SeekTableOf(buf, h, start)
            case Err(_) => true
            case Ok(table) => |table.frames| == h.FrameGeometry().0 && 4 * |table.frames| + 4 <= |buf|
  {
    hide Descriptors, StreamHeader.FrameGeometry, Crc32.LeWord, Crc32.Checksum;
  }

  lemma SameOutside(m: seq<u8>, m': seq<u8>, at: nat, i: nat)
    requires Crc32.DifferInWindow(m, m', at) && i < |m| && (i < at || at + 4 <= i)
    ensures m[i] == m'[i]
  {
    if i < at {
      assert m[i] == m[..at][i] == m'[..at][i];
    } else {
      assert m[i] == m[at + 4..][i - at - 4] == m'[at + 4..][i - at - 4];
    }
  }

  /** The part of a window that lies in a region, widened to four bytes of it. */
  function Clip(at: nat, from: nat, to: nat): (k: nat)
    requires from + 4 <= to
    ensures from + k + 4 <= to
  {
    if at < from then 0 else if at + 4 > to then to - from - 4 else at - from
  }

  /** A region a window reaches, if only in part, differs in a window of its own. */
  lemma RegionDiffers(m: seq<u8>, m': seq<u8>, at: nat, from: nat, to: nat)
    requires Crc32.DifferInWindow(m, m', at) && from + 4 <= to <= |m|
    requires m[from..to] != m'[from..to]
    ensures Crc32.DifferInWindow(m[from..to], m'[from..to], Clip(at, from, to))
  {
    var a, b, k := m[from..to], m'[from..to], Clip(at, from, to);
    forall i | 0 <= i < to - from && !(k <= i < k + 4)
      ensures a[i] == b[i]
    {
      SameOutside(m, m', at, from + i);
    }
    hide Crc32.DifferInWindow;
    Closed(a, b, k);
  }

  lemma Closed(a: seq<u8>, b: seq<u8>, k: nat)
    requires |a| == |b| && k + 4 <= |a| && a != b
    requires forall i :: 0 <= i < |a| && !(k <= i < k + 4) ==> a[i] == b[i]
    ensures Crc32.DifferInWindow(a, b, k)
  {
    assert a[..k] == b[..k];
    var x, y := a[k + 4..], b[k + 4..];
    forall i | 0 <= i < |x|
      ensures x[i] == y[i]
    {
      assert a[k + 4 + i] == b[k + 4 + i];
    }
  }

  /** An unseekable stream refuses every seek and every proper range. */
  lemma DamagedTableRefusesSeeks(file: seq<u8>, file': seq<u8>, prime: Priming, at: nat, start: nat, end: nat)
    requires Opened(file, prime).Ok? && Opened(file, prime).value.seekTableCrcOk
    requires Crc32.DifferInWindow(file, file', at)
    requires file[..TableStart(file)] == file'[..TableStart(file)]
    requires TableEnd(file, prime) <= |file|
    requires file[TableStart(file)..TableEnd(file, prime)] != file'[TableStart(file)..TableEnd(file, prime)]
    requires start < end <= Opened(file, prime).value.header.totalSamples
    ensures Opened(file', prime).Ok?
    ensures SeekToSample(Opened(file', prime).value, start) == Err(SeekTableUnreliable)
    ensures RangeResult(Opened(file', prime).value, start, end) == (Err(SeekTableUnreliable), [])
  {
    DamagedTable(file, file', prime, at);
    hide Opened;
  }

  /** Damage behind the magic that reaches the header or its checksum: the file does not
      open. */
  lemma DamagedHeader(file: seq<u8>, file': seq<u8>, prime: Priming, at: nat)
    requires Opened(file, prime).Ok? && Crc32.DifferInWindow(file, file', at)
    requires SkipId3v2Prefix(file).value + 4 <= at && TableStart(file) <= |file|
    requires file[SkipId3v2Prefix(file).value..TableStart(file)] != file'[SkipId3v2Prefix(file).value..TableStart(file)]
    ensures Opened(file', prime) == Err(Crc32Mismatch(HeaderRegion))
  {
    hide Opened, ParseHeader, Crc32.DifferInWindow, SkipId3v2Prefix, Clip;
    TagAndHeader(file, prime);
    SameTag(file, file', at);
    HeaderWindow(file, file', SkipId3v2Prefix(file).value, at);
    BadHeader(file', prime);
  }

  lemma HeaderWindow(file: seq<u8>, file': seq<u8>, id3: nat, at: nat)
    requires Crc32.DifferInWindow(file, file', at) && id3 + 4 <= at && id3 + HEADER_LEN <= |file|
    requires file[id3..id3 + HEADER_LEN] != file'[id3..id3 + HEADER_LEN] && ParseHeader(file[id3..]).Ok?
    ensures ParseHeader(file'[id3..]) == Err(Crc32Mismatch(HeaderRegion))
  {
    hide ParseHeader, Crc32.DifferInWindow, Clip;
    SameLength(file, file', at);
    RegionDiffers(file, file', at, id3, id3 + HEADER_LEN);
    SliceOfSuffix(file, id3, 0, HEADER_LEN);
    SliceOfSuffix(file', id3, 0, HEADER_LEN);
    ClipInHeader(at, id3);
    HeaderBurstRejected(file[id3..], file'[id3..], Clip(at, id3, id3 + HEADER_LEN));
  }

  lemma TagAndHeader(file: seq<u8>, prime: Priming)
    requires Opened(file, prime).Ok?
    ensures SkipId3v2Prefix(file).Ok? && ParseHeader(file[SkipId3v2Prefix(file).value..]).Ok?
  {
    hide SkipId3v2Prefix, ParseHeader, SeekTableOf;
  }

  lemma BadHeader(file: seq<u8>, prime: Priming)
    requires SkipId3v2Prefix(file).Ok? && ParseHeader(file[SkipId3v2Prefix(file).value..]).Err?
    ensures Opened(file, prime) == Err(ParseHeader(file[SkipId3v2Prefix(file).value..]).error)
  {
    hide SkipId3v2Prefix, ParseHeader, SeekTableOf;
  }

  lemma ClipInHeader(at: nat, id3: nat)
    requires id3 + 4 <= at
    ensures 4 <= Clip(at, id3, id3 + HEADER_LEN) <= 18
  {
  }

  lemma SameTag(file: seq<u8>, file': seq<u8>, at: nat)
    requires SkipId3v2Prefix(file).Ok? && Crc32.DifferInWindow(file, file', at)
    requires SkipId3v2Prefix(file).value + 4 <= at && ParseHeader(file[SkipId3v2Prefix(file).value..]).Ok?
    ensures SkipId3v2Prefix(file') == SkipId3v2Prefix(file)
  {
    hide ParseHeader;
    assert forall i :: 0 <= i < at ==> file[i] == file[..at][i] == file'[..at][i] == file'[i];
    if at >= 10 {
      SameTagOfFront(file, file', at);
    }
  }

  /** Damage that reaches a frame, with header and table untouched: the file opens as
      before, that frame fails, and so does decoding the whole. */
  lemma DamagedFrame(file: seq<u8>, file': seq<u8>, prime: Priming, i: nat, at: nat)
    requires Opened(file, prime).Ok? && Crc32.DifferInWindow(file, file', at)
    requires TableEnd(file, prime) <= |file| && file[..TableEnd(file, prime)] == file'[..TableEnd(file, prime)]
    requires var dec := Opened(file, prime).value;
             && i < |dec.frames| && dec.FrameAt(i).Ok?
             && var d := dec.frames[i];
                file[d.fileOffset..d.fileOffset + d.diskSize] != file'[d.fileOffset..d.fileOffset + d.diskSize]
    ensures Opened(file', prime) == Ok(Opened(file, prime).value.(bytes := file'))
    ensures Opened(file', prime).value.FrameAt(i).Err? && Opened(file', prime).value.All().Err?
  {
    hide Opened, SkipId3v2Prefix, Decoder.FrameAt, Decoder.FramesUpTo, Decoder.Valid, Crc32.DifferInWindow;
    var dec := Opened(file, prime).value;
    SameTable(file, file', prime, at);
    DamagedWindow(dec, file', i, at);
    FailedFrame(dec.(bytes := file'), 0, i);
  }

  lemma DamagedWindow(dec: Decoder, bytes: seq<u8>, i: nat, at: nat)
    requires dec.header.InScope() && i < |dec.frames| && dec.FrameAt(i).Ok?
    requires Crc32.DifferInWindow(dec.bytes, bytes, at)
    requires var d := dec.frames[i];
             dec.bytes[d.fileOffset..d.fileOffset + d.diskSize] != bytes[d.fileOffset..d.fileOffset + d.diskSize]
    ensures dec.(bytes := bytes).FrameAt(i).Err?
  {
    hide CheckedSamples, Crc32.DifferInWindow;
    var d := dec.frames[i];
    var from, to := d.fileOffset, d.fileOffset + d.diskSize;
    SameLength(dec.bytes, bytes, at);
    RegionDiffers(dec.bytes, bytes, at, from, to);
    var x, y := dec.bytes[from..to], bytes[from..to];
    assert x[..d.diskSize] == x && y[..d.diskSize] == y;
    hide FrameResult;
    FrameBurstRejected(dec.header, d, x, y, dec.qmPriming, dec.qmPriming, Clip(at, from, to));
  }

  lemma SameTable(file: seq<u8>, file': seq<u8>, prime: Priming, at: nat)
    requires Opened(file, prime).Ok? && Crc32.DifferInWindow(file, file', at)
    requires TableEnd(file, prime) <= |file| && file[..TableEnd(file, prime)] == file'[..TableEnd(file, prime)]
    ensures Opened(file', prime) == Ok(Opened(file, prime).value.(bytes := file'))
  {
    hide ParseHeader, SkipId3v2Prefix, StreamHeader.FrameGeometry, StreamHeader.RegularFrameSamples, SeekTableOf, Decoder.Valid;
    hide Crc32.DifferInWindow;
    SameLength(file, file', at);
    var base, end, dec := TableStart(file), TableEnd(file, prime), Opened(file, prime).value;
    var n := 4 * dec.header.FrameGeometry().0 + 4;
    SameSlice(file, file', end, 0, base);
    SameFront(file, file');
    TableLength(file[base..], dec.header, base + n);
    SameSlice(file, file', end, base, base + n);
    SliceOfSuffix(file, base, 0, n);
    SliceOfSuffix(file', base, 0, n);
    TableOfFront(file[base..], file'[base..], dec.header, base + n);
  }

  lemma TableOfFront(buf: seq<u8>, buf': seq<u8>, h: StreamHeader, start: nat)
    requires |buf| == |buf'|
    requires var n := 4 * h.FrameGeometry().0 + 4; n <= |buf| && buf[..n] == buf'[..n]
    ensures SeekTableOf(buf', h, start) == SeekTableOf(buf, h, start)
  {
    hide StreamHeader.FrameGeometry, Descriptors, Entries, Crc32.LeWord, Crc32.Checksum;
    var n := 4 * h.FrameGeometry().0;
    assert buf[..n] == buf[..n + 4][..n] == buf'[..n + 4][..n] == buf'[..n];
    assert buf[n..n + 4] == buf[..n + 4][n..] == buf'[..n + 4][n..] == buf'[n..n + 4];
  }

  lemma {:induction false} FailedFrame(dec: Decoder, j: nat, i: nat)
    requires dec.header.InScope() && j <= i < |dec.frames| && dec.FrameAt(i).Err?
    ensures dec.FramesUpTo(j, |dec.frames|).Err?
    decreases i - j
  {
    hide Decoder.FrameAt;
    if j < i {
      FailedFrame(dec, j + 1, i);
    }
  }

  // ----- anywhere behind the magic

  /** Where frame `i` starts, if the frames follow the table and each other. */
  function FrameStart(dec: Decoder, start: nat, i: nat): nat
    requires i <= |dec.frames|
  {
    if i == 0 then start else dec.frames[i - 1].fileOffset + dec.frames[i - 1].diskSize
  }

  /** The frames tile the file from `start` to its end. */
  ghost predicate Tiles(dec: Decoder, start: nat) {
    && (forall i :: 0 <= i < |dec.frames| ==> dec.frames[i].fileOffset == FrameStart(dec, start, i))
    && (forall i :: 0 <= i <= |dec.frames| ==> start <= FrameStart(dec, start, i) <= |dec.bytes|)
    && FrameStart(dec, start, |dec.frames|) == |dec.bytes|
  }

  lemma Joined(m: seq<u8>, a: nat, b: nat)
    requires a <= b <= |m|
    ensures m[..b] == m[..a] + m[a..b]
  {
  }

  ghost predicate SameFrame(dec: Decoder, bytes: seq<u8>, i: nat)
    requires i < |dec.frames|
  {
    var d := dec.frames[i];
    d.fileOffset + d.diskSize <= |dec.bytes| == |bytes|
    ==> dec.bytes[d.fileOffset..d.fileOffset + d.diskSize] == bytes[d.fileOffset..d.fileOffset + d.diskSize]
  }

  ghost predicate SameUpTo(dec: Decoder, bytes: seq<u8>, start: nat, i: nat)
    requires i <= |dec.frames|
  {
    FrameStart(dec, start, i) <= |dec.bytes| == |bytes|
    && dec.bytes[..FrameStart(dec, start, i)] == bytes[..FrameStart(dec, start, i)]
  }

  lemma TileAt(dec: Decoder, start: nat, i: nat)
    requires Tiles(dec, start) && i < |dec.frames|
    ensures dec.frames[i].fileOffset == FrameStart(dec, start, i)
    ensures dec.frames[i].fileOffset + dec.frames[i].diskSize == FrameStart(dec, start, i + 1) <= |dec.bytes|
  {
    assert FrameStart(dec, start, i + 1) == dec.frames[i].fileOffset + dec.frames[i].diskSize;
  }

  lemma SameOn(dec: Decoder, bytes: seq<u8>, start: nat, i: nat)
    requires Tiles(dec, start) && i < |dec.frames| && SameUpTo(dec, bytes, start, i) && SameFrame(dec, bytes, i)
    ensures SameUpTo(dec, bytes, start, i + 1)
  {
    TileAt(dec, start, i);
    hide Tiles, FrameStart;
    var a, b := FrameStart(dec, start, i), FrameStart(dec, start, i + 1);
    Extended(dec.bytes, bytes, a, b);
  }

  lemma NoneSame(bytes: seq<u8>, dec: Decoder, start: nat)
    requires start <= |bytes| == |dec.bytes| && dec.bytes[..start] == bytes[..start]
    ensures SameUpTo(dec, bytes, start, 0)
  {
  }

  lemma NotAllSame(bytes: seq<u8>, dec: Decoder, start: nat)
    requires Tiles(dec, start) && |bytes| == |dec.bytes| && bytes != dec.bytes
    ensures !SameUpTo(dec, bytes, start, |dec.frames|)
  {
    assert dec.bytes[..|bytes|] == dec.bytes && bytes[..|bytes|] == bytes;
  }

  /** A difference behind the table is a difference of some frame. */
  lemma DifferingFrame(dec: Decoder, bytes: seq<u8>, start: nat) returns (i: nat)
    requires Tiles(dec, start) && |bytes| == |dec.bytes| && bytes != dec.bytes
    requires start <= |bytes| && dec.bytes[..start] == bytes[..start]
    ensures i < |dec.frames| && !SameFrame(dec, bytes, i)
  {
    hide SameFrame, SameUpTo, Tiles;
    NoneSame(bytes, dec, start);
    NotAllSame(bytes, dec, start);
    i := 0;
    while i < |dec.frames| && SameFrame(dec, bytes, i)
      invariant i <= |dec.frames| && SameUpTo(dec, bytes, start, i)
    {
      SameOn(dec, bytes, start, i);
      i := i + 1;
    }
  }

  /** Damage behind the table of a good, tiled file reaches some frame. */
  lemma DamageBehindTable(file: seq<u8>, file': seq<u8>, prime: Priming, at: nat)
    requires Opened(file, prime).Ok? && Crc32.DifferInWindow(file, file', at)
    requires var dec := Opened(file, prime).value;
             dec.All().Ok? && Tiles(dec, TableEnd(file, prime))
    requires TableEnd(file, prime) <= |file| && file[..TableEnd(file, prime)] == file'[..TableEnd(file, prime)]
    ensures Opened(file', prime).Ok? && Opened(file', prime).value.All().Err?
  {
    SameLength(file, file', at);
    hide Opened, SkipId3v2Prefix, Crc32.DifferInWindow, Decoder.FramesUpTo, Decoder.FrameAt, Decoder.Valid, Tiles;
    var dec := Opened(file, prime).value;
    var i := DifferingFrame(dec, file', TableEnd(file, prime));
    FramesDecode(dec, i);
    DamagedFrame(file, file', prime, i, at);
  }

  /** The file from its tag to the end of its table. */
  lemma FrontBounds(file: seq<u8>, prime: Priming)
    requires Opened(file, prime).Ok?
    requires Tiles(Opened(file, prime).value, TableEnd(file, prime))
    ensures SkipId3v2Prefix(file).Ok?
    ensures SkipId3v2Prefix(file).value <= TableStart(file) <= TableEnd(file, prime) <= |file|
  {
    hide SkipId3v2Prefix;
    assert FrameStart(Opened(file, prime).value, TableEnd(file, prime), 0) == TableEnd(file, prime);
  }

  /** Any damage inside four consecutive bytes behind the magic of a good, tiled file is
      reported: the file does not open, or is unseekable, or does not decode. */
  lemma DamageReported(file: seq<u8>, file': seq<u8>, prime: Priming, at: nat)
    requires Opened(file, prime).Ok? && Crc32.DifferInWindow(file, file', at)
    requires SkipId3v2Prefix(file).value + 4 <= at
    requires var dec := Opened(file, prime).value;
             dec.seekTableCrcOk && dec.All().Ok? && Tiles(dec, TableEnd(file, prime))
    ensures match Opened(file', prime)
            case Err(e) => e == Crc32Mismatch(HeaderRegion)
            case Ok(dec) => !dec.seekTableCrcOk || dec.All().Err?
  {
    hide Opened, SkipId3v2Prefix, Crc32.DifferInWindow, Decoder.FramesUpTo, Decoder.Valid, Tiles;
    FrontBounds(file, prime);
    SameLength(file, file', at);
    var id3, base, end := SkipId3v2Prefix(file).value, TableStart(file), TableEnd(file, prime);
    hide TableStart, TableEnd;
    if file[id3..base] != file'[id3..base] {
      DamagedHeader(file, file', prime, at);
    } else {
      SameSlice(file, file', at, 0, id3);
      Extended(file, file', id3, base);
      if file[base..end] != file'[base..end] {
        DamagedTable(file, file', prime, at);
      } else {
        Extended(file, file', base, end);
        DamageBehindTable(file, file', prime, at);
      }
    }
  }

  lemma Extended(m: seq<u8>, m': seq<u8>, a: nat, b: nat)
    requires a <= b <= |m| && b <= |m'|
    requires m[..a] == m'[..a] && m[a..b] == m'[a..b]
    ensures m[..b] == m'[..b]
  {
    Joined(m, a, b);
    Joined(m', a, b);
  }

  lemma FramesDecode(dec: Decoder, i: nat)
    requires dec.header.InScope() && dec.All().Ok? && i < |dec.frames|
    ensures dec.FrameAt(i).Ok?
  {
    hide Decoder.FrameAt;
    if dec.FrameAt(i).Err? {
      FailedFrame(dec, 0, i);
    }
  }

  /** Every encoded file is good and tiled, so any such damage to it is reported. */
  lemma EncodedDamageReported(samples: seq<i32>, h: StreamHeader, prime: Priming, file': seq<u8>, at: nat)
    requires h.InScope() && WholeSlots(samples, h.channels) && |samples| == h.totalSamples * h.channels
    requires h.format == 2 ==> prime.Some?
    requires Fits(h, FrameBlobs(samples, h, prime)) && 4 <= at
    requires Crc32.DifferInWindow(FileBytes(h, FrameBlobs(samples, h, prime)), file', at)
    ensures match Opened(file', prime)
            case Err(e) => e == Crc32Mismatch(HeaderRegion)
            case Ok(dec) => !dec.seekTableCrcOk || dec.All().Err?
  {
    var blobs := FrameBlobs(samples, h, prime);
    ChunksWhole(samples, h);
    ChunksMatchGeometry(samples, h);
    hide FrameBlobs, FileBytes, Opened, BlocksClean, Decoder.FramesUpTo, Crc32.DifferInWindow, Fits, SkipId3v2Prefix, Decoder.Valid;
    hide Tiles, Chunks, BlockSize, StreamHeader.FrameGeometry, StreamHeader.RegularFrameSamples;
    FileRoundTrip(samples, h, prime);
    EncodedTiles(h, blobs, prime);
    DamageReported(FileBytes(h, blobs), file', prime, at);
  }

  lemma EncodedTiles(h: StreamHeader, blobs: seq<seq<u8>>, prime: Priming)
    requires h.InScope() && |blobs| == h.FrameGeometry().0 && Fits(h, blobs)
    requires h.format == 2 ==> prime.Some?
    ensures var file := FileBytes(h, blobs);
            && SkipId3v2Prefix(file) == Ok(0) && Opened(file, prime).Ok?
            && Opened(file, prime).value.seekTableCrcOk
            && Tiles(Opened(file, prime).value, TableEnd(file, prime))
  {
    hide Opened, HeaderBytes, SeekTableBytes, Concat, SkipId3v2Prefix, StreamHeader.FrameGeometry, StreamHeader.InScope;
    var file := FileBytes(h, blobs);
    StartsWithMagic(h, SeekTableBytes(Lengths(blobs)) + Concat(blobs));
    assert file == HeaderBytes(h) + (SeekTableBytes(Lengths(blobs)) + Concat(blobs));
    SeekTableTilesFile(h, blobs, prime);
    var dec, end := Opened(file, prime).value, TableEnd(file, prime);
    EncodedBytes(h, blobs, prime);
    forall i | 0 <= i <= |dec.frames|
      ensures end <= FrameStart(dec, end, i) <= |dec.bytes|
    {
      StartsBehind(dec, end, i);
    }
  }

  lemma EncodedBytes(h: StreamHeader, blobs: seq<seq<u8>>, prime: Priming)
    requires h.InScope() && |blobs| == h.FrameGeometry().0
    requires h.format == 2 ==> prime.Some?
    ensures Opened(FileBytes(h, blobs), prime).Ok?
    ensures Opened(FileBytes(h, blobs), prime).value.bytes == FileBytes(h, blobs)
    ensures |FileBytes(h, blobs)| == DataStart(|blobs|) + |Concat(blobs)|
    ensures blobs == [] ==> |Concat(blobs)| == 0
  {
    hide Opened, HeaderBytes, SeekTableBytes, Descriptors, StreamHeader.FrameGeometry, StreamHeader.InScope;
    OpensEncoded(h, blobs, prime);
  }

  ghost predicate Contiguous(dec: Decoder, start: nat) {
    forall j :: 0 <= j < |dec.frames| ==>
      && dec.frames[j].fileOffset == FrameStart(dec, start, j)
      && dec.frames[j].fileOffset + dec.frames[j].diskSize <= |dec.bytes|
  }

  lemma FirstStart(dec: Decoder, start: nat)
    ensures FrameStart(dec, start, 0) == start
  {
  }

  lemma NextStart(dec: Decoder, start: nat, i: nat)
    requires Contiguous(dec, start) && i < |dec.frames|
    ensures FrameStart(dec, start, i) <= FrameStart(dec, start, i + 1) <= |dec.bytes|
  {
    assert FrameStart(dec, start, i + 1) == dec.frames[i].fileOffset + dec.frames[i].diskSize;
  }

  lemma {:induction false} StartsBehind(dec: Decoder, start: nat, i: nat)
    requires i <= |dec.frames| && start <= |dec.bytes| && Contiguous(dec, start)
    ensures start <= FrameStart(dec, start, i) <= |dec.bytes|
  {
    hide Contiguous, FrameStart;
    FirstStart(dec, start);
    if i > 0 {
      StartsBehind(dec, start, i - 1);
      NextStart(dec, start, i - 1);
    }
  }
}
