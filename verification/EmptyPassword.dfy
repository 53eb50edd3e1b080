/** Encoding under the empty password against encoding without one (src/encoder.rs). */
module EmptyPassword {
  import opened Words
  import opened Results
  import opened Pipeline
  import opened Format
  import opened Frame
  import opened Encoder
  import opened ChannelSteps
  import Crc32
  import Password

  /** The frames are the same: zero weights are what an unprimed filter starts with. */
  lemma SameQueue(nch: nat, bytesPerSample: nat)
    requires nch > 0 && 1 <= bytesPerSample <= 3
    ensures FrameQueue(nch, bytesPerSample, Some(Password.Priming([]))) == FrameQueue(nch, bytesPerSample, None)
  {
    hide Password.Priming;
    Password.EmptyPasswordPrimesNothing();
    assert FrameEntry(bytesPerSample, Some(Password.Priming([]))) == FrameEntry(bytesPerSample, None);
  }

  lemma SameBlobs(samples: seq<i32>, h1: StreamHeader, h2: StreamHeader)
    requires h1.InScope() && h2 == h1.(format := 2) && WholeSlots(samples, h1.channels)
    ensures FrameBlobs(samples, h2, Some(Password.Priming([]))) == FrameBlobs(samples, h1, None)
  {
    hide Password.Priming, Chunks, FrameQueue, EncodeRun, ForwardAll, Crc32.Checksum, Crc32.WordBytes;
    assert h2.RegularFrameSamples() == h1.RegularFrameSamples() && BlockSize(h2) == BlockSize(h1);
    SameQueue(h1.channels, h1.BytesPerSample());
    ChunksWhole(samples, h1);
    var chunks := Chunks(samples, BlockSize(h1));
    forall i | 0 <= i < |chunks|
      ensures FrameBlob(chunks[i], h2.channels, h2.BytesPerSample(), Some(Password.Priming([])))
           == FrameBlob(chunks[i], h1.channels, h1.BytesPerSample(), None)
    {
    }
  }

  /** Two headers that differ in the format only: byte 4 differs, and so does the
      checksum. */
  lemma FormatInHeader(h1: StreamHeader, h2: StreamHeader)
    requires h1.format == 1 && h2 == h1.(format := 2)
    ensures var a, b := HeaderBytes(h1), HeaderBytes(h2);
            a[..4] == b[..4] && a[4] == 1 && b[4] == 2 && a[5..18] == b[5..18] && a[18..] != b[18..]
  {
    hide Crc32.Checksum, Crc32.WordBytes, Crc32.LeWord;
    var a, b := HeaderBody(h1), HeaderBody(h2);
    var x, y := Crc32.WordBytes(Crc32.Checksum(a)), Crc32.WordBytes(Crc32.Checksum(b));
    assert a[4] == 1 && b[4] == 2 && a[..4] == b[..4] && a[5..] == b[5..] && a[8..] == b[8..];
    assert HeaderBytes(h1)[5..18] == a[5..] && HeaderBytes(h2)[5..18] == b[5..];
    assert HeaderBytes(h1)[18..] == x && HeaderBytes(h2)[18..] == y;
    Crc32.WordBytesLe(Crc32.Checksum(a));
    Crc32.WordBytesLe(Crc32.Checksum(b));
    if x == y {
      assert (a + x)[4] != (b + y)[4];
      assert (a + x)[..4] == a[..4] && (b + y)[..4] == b[..4];
      assert (a + x)[8..] == a[8..] + x && (b + y)[8..] == b[8..] + y;
      Crc32.BurstDetected(a, x, b, y, 4);
      assert false;
    }
  }

  /** The empty password changes nothing but the low format byte and the header
      checksum, and always changes both; errors are the same. */
  lemma EmptyPasswordFile(samples: seq<i32>, channels: u16, bits: u16, rate: u32)
    ensures match Encoded(samples, channels, bits, rate, 1, None)
            case Err(e) => Encoded(samples, channels, bits, rate, 2, Some(Password.Priming([]))) == Err(e)
            case Ok(a) =>
              match Encoded(samples, channels, bits, rate, 2, Some(Password.Priming([])))
              case Err(_) => false
              case Ok(b) =>
                && HEADER_LEN <= |a| == |b|
                && a[..4] == b[..4] && a[4] == 1 && b[4] == 2 && a[5..18] == b[5..18]
                && a[18..22] != b[18..22]
                && a[22..] == b[22..]
  {
    hide Password.Priming, HeaderBytes, SeekTableBytes, Concat, FrameBlobs, Kept;
    var checked := Checked(samples, channels, bits, rate, 1);
    if checked.Ok? {
      var h1 := checked.value;
      var h2 := h1.(format := 2);
      assert Checked(samples, channels, bits, rate, 2) == Ok(h2);
      SameKept(samples, h1, h2);
      SameBlobs(Kept(samples, h1), h1, h2);
      FormatInHeader(h1, h2);
      var blobs := FrameBlobs(Kept(samples, h1), h1, None);
      var rest := SeekTableBytes(Lengths(blobs)) + Concat(blobs);
      assert FileBytes(h1, blobs) == HeaderBytes(h1) + rest && FileBytes(h2, blobs) == HeaderBytes(h2) + rest;
      AfterHeader(HeaderBytes(h1), rest);
      AfterHeader(HeaderBytes(h2), rest);
    }
  }

  lemma SameKept(samples: seq<i32>, h1: StreamHeader, h2: StreamHeader)
    requires h1.InScope() && h2 == h1.(format := 2) && WholeSlots(samples, h1.channels)
    requires h1.totalSamples == WrapU32(|samples| / h1.channels)
    ensures Kept(samples, h2) == Kept(samples, h1)
  {
  }

  lemma AfterHeader(head: seq<u8>, rest: seq<u8>)
    requires |head| == HEADER_LEN
    ensures var file := head + rest;
            && file[..4] == head[..4] && file[4] == head[4] && file[5..18] == head[5..18]
            && file[18..22] == head[18..] && file[22..] == rest
  {
  }
}
