/** Results and the crate's error values. */
module Results {
  import opened Words

  datatype Option<+T> = None | Some(value: T)

  datatype Result<+T> = Ok(value: T) | Err(error: Error)

  datatype Region = HeaderRegion | FrameRegion

  datatype Error =
    | Truncated
    | InvalidMagic
    | Crc32Mismatch(region: Region)
    | UnsupportedFormat(format: u16)
    | UnsupportedBitDepth(bits: u16)
    | UnsupportedChannelCount(channels: u16)
    | UnsupportedSampleRate(rate: u32)
    | PasswordRequired
    | InvalidSampleBuffer
    | FrameIndexOutOfRange
    | SampleIndexOutOfRange
    | SeekTableUnreliable
}
