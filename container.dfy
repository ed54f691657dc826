/** The container builder: once every frame is decoded, the converter writes
    the .bin artifact as a 14-byte header of seven big-endian 16-bit fields,
    the title and the duration text each cut to 17 characters and ended by a
    NUL, and then every packed frame in the order of the frame list; it reads
    back the file's size to derive the flash page constant of the generated
    header file. */
module Container {
  import opened Bytes
  import opened Duration
  import opened Settings
  import opened FrameEncoder

  /** A frame the encoder can pack: decoded, with whole 8-row bands. */
  predicate Encodable(bm: Bitmap)
  {
    Decoded(bm) && bm.height % 8 == 0
  }

  /** What the converter works with when decoding ends: validated settings,
      header fields that fit in 16 bits, and frames the encoder can pack. */
  predicate Convertible(video: VideoSpec, bitmaps: seq<Bitmap>)
  {
    ValidSpec(video) && video.fps < 0x1_0000 && |bitmaps| < 0x1_0000 &&
    forall i :: 0 <= i < |bitmaps| ==> Encodable(bitmaps[i])
  }

  /** The duration text: readable_duration(frames / fps), on whole seconds. */
  function DurationText(video: VideoSpec, frames: nat): (d: string)
    requires video.fps > 0 && frames < 0x1_0000
    ensures |d| <= 11
  {
    ReadableDurationShort(frames / video.fps);
    ReadableDuration(frames / video.fps)
  }

  /** meta_data: version 0, width, height, frame count, fps, and the lengths
      of the title and of the duration text, each plus one. */
  function MetaData(video: VideoSpec, frames: nat): (fields: seq<nat>)
    requires Convertible(video, []) && frames < 0x1_0000
    ensures |fields| == 7 && forall i :: 0 <= i < 7 ==> fields[i] < 0x1_0000
  {
    [0, video.width, video.height, frames, video.fps,
     |video.title| + 1, |DurationText(video, frames)| + 1]
  }

  /** The big-endian encoding of a list of 16-bit fields, in list order. */
  function HeaderBytes(fields: seq<nat>): (r: seq<Byte>)
    requires forall i :: 0 <= i < |fields| ==> fields[i] < 0x1_0000
    ensures |r| == 2 * |fields|
  {
    if fields == [] then []
    else HeaderBytes(fields[..|fields| - 1]) + WriteUInt16BE(fields[|fields| - 1])
  }

  /** Field i of the header is read back from bytes 2 i and 2 i + 1. */
  lemma {:induction false} HeaderBytesField(fields: seq<nat>, i: nat)
    requires forall j :: 0 <= j < |fields| ==> fields[j] < 0x1_0000
    requires i < |fields|
    ensures ReadUInt16BE(HeaderBytes(fields), 2 * i) == fields[i]
  {
    var init := fields[..|fields| - 1];
    if i < |fields| - 1 {
      HeaderBytesField(init, i);
      assert HeaderBytes(fields)[..2 * |init|] == HeaderBytes(init);
    }
  }

  /** A string written with `.substring(0, 17) + '\0'` in the 'ascii' encoding. */
  function CString(s: string): (r: seq<Byte>)
    ensures |r| == Min(|s|, 17) + 1 && r[|r| - 1] == 0
    ensures r[..|r| - 1] == AsciiBytes(s[..Min(|s|, 17)])
  {
    AsciiBytes(s[..Min(|s|, 17)] + "\0")
  }

  /** One frame as it is appended to the artifact: thresholded, then packed. */
  function EncodeFrame(bm: Bitmap): (r: seq<Byte>)
    requires Encodable(bm)
    ensures |r| == bm.width * (bm.height / 8)
  {
    Packed(Binarized(bm), bm.width, bm.height)
  }

  function EncodedFrames(bitmaps: seq<Bitmap>): (frames: seq<seq<Byte>>)
    requires forall i :: 0 <= i < |bitmaps| ==> Encodable(bitmaps[i])
    ensures |frames| == |bitmaps|
  {
    seq(|bitmaps|, i requires 0 <= i < |bitmaps| => EncodeFrame(bitmaps[i]))
  }

  /** Header, title and duration: everything the artifact holds before the frames. */
  function Preamble(video: VideoSpec, frames: nat): (r: seq<Byte>)
    requires Convertible(video, []) && frames < 0x1_0000
    ensures |r| == 16 + Min(|video.title|, 17) + |DurationText(video, frames)|
    ensures r[14 + Min(|video.title|, 17)] == 0 && r[|r| - 1] == 0
  {
    HeaderBytes(MetaData(video, frames)) + CString(video.title) + CString(DurationText(video, frames))
  }

  /** The whole .bin file the converter writes. */
  function Artifact(video: VideoSpec, bitmaps: seq<Bitmap>): (r: seq<Byte>)
    requires Convertible(video, bitmaps)
    ensures |r| == |Preamble(video, |bitmaps|)| + TotalLength(EncodedFrames(bitmaps))
    ensures r[..|Preamble(video, |bitmaps|)|] == Preamble(video, |bitmaps|)
  {
    Preamble(video, |bitmaps|) + Concat(EncodedFrames(bitmaps))
  }

  /** FX_DATA_PAGE = 0xffffff - FX_DATA_BYTES / 256: the artifact's size in
      whole 256-byte pages, counted down from 0xffffff. */
  function FxDataPage(size: nat): (page: int)
    ensures (0xFF_FFFF - page) * 256 <= size < (0xFF_FFFF - page + 1) * 256
  {
    0xFF_FFFF - size / 256
  }

  /** The first 14 bytes of the artifact decode to the seven meta_data fields. */
  lemma ArtifactHeader(video: VideoSpec, bitmaps: seq<Bitmap>, i: nat)
    requires Convertible(video, bitmaps) && i < 7
    ensures 14 <= |Artifact(video, bitmaps)|
    ensures ReadUInt16BE(Artifact(video, bitmaps), 2 * i) == MetaData(video, |bitmaps|)[i]
  {
    var fields := MetaData(video, |bitmaps|);
    var art := Artifact(video, bitmaps);
    HeaderBytesField(fields, i);
    assert art[..14] == HeaderBytes(fields);
  }

  /** The artifact's size: 14 header bytes, the title cut to 17 characters
      plus NUL, the duration text plus NUL (never cut), and every frame. */
  lemma ArtifactSize(video: VideoSpec, bitmaps: seq<Bitmap>)
    requires Convertible(video, bitmaps)
    ensures |Artifact(video, bitmaps)| ==
      14 + Min(|video.title|, 17) + 1 + |DurationText(video, |bitmaps|)| + 1 +
      TotalLength(EncodedFrames(bitmaps))
  {
  }

  /** The title length field exceeds the stored title (with its NUL) by the
      number of characters past the 17th: by 1 or 2 for an 18- or 19-character title. */
  lemma TitleFieldOverstates(video: VideoSpec, bitmaps: seq<Bitmap>)
    requires Convertible(video, bitmaps)
    ensures 14 + Min(|video.title|, 17) < |Artifact(video, bitmaps)|
    ensures Artifact(video, bitmaps)[14 + Min(|video.title|, 17)] == 0
    ensures ReadUInt16BE(Artifact(video, bitmaps), 10) - (Min(|video.title|, 17) + 1) ==
      if |video.title| > 17 then |video.title| - 17 else 0
  {
    ArtifactHeader(video, bitmaps, 5);
    var header := HeaderBytes(MetaData(video, |bitmaps|));
    var t := CString(video.title);
    var rest := CString(DurationText(video, |bitmaps|)) + Concat(EncodedFrames(bitmaps));
    assert Artifact(video, bitmaps) == (header + t) + rest;
    assert (header + t)[14 + |t| - 1] == t[|t| - 1];
  }

  /** Unpacking an encoded frame gives its thresholded image back. */
  lemma EncodeFrameUnpacks(bm: Bitmap)
    requires Encodable(bm)
    ensures Unpacked(EncodeFrame(bm), bm.width, bm.height) == Binarized(bm)
  {
    UnpackPacked(Binarized(bm), bm.width, bm.height);
    assert Binarized(bm)[..bm.height] == Binarized(bm);
  }

  /** The number of bytes one frame of the video's size packs into. */
  function FrameSize(video: VideoSpec): nat
  {
    video.width * (video.height / 8)
  }

  /** Where frame i starts when every frame has FrameSize bytes: after the
      preamble and the i frames before it. */
  function FrameStart(video: VideoSpec, frames: nat, i: nat): nat
    requires Convertible(video, []) && frames < 0x1_0000
  {
    MulNonNegative(i, FrameSize(video));
    |Preamble(video, frames)| + i * FrameSize(video)
  }

  /** When every frame has the video's size, frame i occupies FrameSize bytes
      from FrameStart: frames follow the preamble in list order, without gaps. */
  lemma ArtifactFrame(video: VideoSpec, bitmaps: seq<Bitmap>, i: nat)
    requires Convertible(video, bitmaps) && i < |bitmaps|
    requires forall j :: 0 <= j < |bitmaps| ==>
      bitmaps[j].width == video.width && bitmaps[j].height == video.height
    ensures FrameStart(video, |bitmaps|, i) + FrameSize(video) <= |Artifact(video, bitmaps)|
    ensures Artifact(video, bitmaps)[FrameStart(video, |bitmaps|, i) .. FrameStart(video, |bitmaps|, i) + FrameSize(video)]
            == EncodeFrame(bitmaps[i])
  {
    var pre := Preamble(video, |bitmaps|);
    var f := FrameSize(video);
    var frames := EncodedFrames(bitmaps);
    assert forall p :: 0 <= p < |frames| ==> |frames[p]| == f;
    PrefixConcatSlice(pre, frames, f, i);
  }

  /** What the player reads back as frame i: unpacking those bytes gives the
      thresholded image of the i-th decoded frame. */
  lemma ArtifactFrameImage(video: VideoSpec, bitmaps: seq<Bitmap>, i: nat)
    requires Convertible(video, bitmaps) && i < |bitmaps|
    requires forall j :: 0 <= j < |bitmaps| ==>
      bitmaps[j].width == video.width && bitmaps[j].height == video.height
    ensures FrameStart(video, |bitmaps|, i) + FrameSize(video) <= |Artifact(video, bitmaps)|
    ensures Unpacked(Artifact(video, bitmaps)[FrameStart(video, |bitmaps|, i) ..
                                              FrameStart(video, |bitmaps|, i) + FrameSize(video)],
                     video.width, video.height) == Binarized(bitmaps[i])
  {
    ArtifactFrame(video, bitmaps, i);
    EncodeFrameUnpacks(bitmaps[i]);
  }

  /** When every frame has the video's size, the artifact is the preamble plus
      N * width * (height / 8) bytes. */
  lemma ArtifactSizeUniform(video: VideoSpec, bitmaps: seq<Bitmap>)
    requires Convertible(video, bitmaps)
    requires forall j :: 0 <= j < |bitmaps| ==>
      bitmaps[j].width == video.width && bitmaps[j].height == video.height
    ensures |Artifact(video, bitmaps)| ==
      |Preamble(video, |bitmaps|)| + |bitmaps| * FrameSize(video)
  {
    var frames := EncodedFrames(bitmaps);
    assert forall p :: 0 <= p < |frames| ==> |frames[p]| == FrameSize(video);
    TotalLengthUniform(frames, FrameSize(video));
  }

  /** The header of a 128 x 64 video titled "Test" with 75 frames at 15
      frames per second: the fields 0, 128, 64, 75, 15, 5, 3, high byte first. */
  lemma HeaderExample()
    ensures MetaData(VideoSpec("Test", 15, 128, 64), 75) == [0, 128, 64, 75, 15, 5, 3]
    ensures HeaderBytes([0, 128, 64, 75, 15, 5, 3]) == [0, 0, 0, 128, 0, 64, 0, 75, 0, 15, 0, 5, 0, 3]
  {
    var video := VideoSpec("Test", 15, 128, 64);
    assert DurationText(video, 75) == "5s" by {
      assert ReadableDuration(5) == "5s" by { ReadableDurationShortExamples(); }
    }
    var fields := [0, 128, 64, 75, 15, 5, 3];
    var expected := [0, 0, 0, 128, 0, 64, 0, 75, 0, 15, 0, 5, 0, 3];
    forall k | 0 <= k < 14
      ensures HeaderBytes(fields)[k] == expected[k]
    {
      HeaderBytesField(fields, k / 2);
    }
  }

  /** The same video's preamble: the header, then "Test", NUL, "5s", NUL;
      and an artifact of 2560 bytes ends 10 pages below 0xffffff. */
  lemma PreambleExample()
    ensures Preamble(VideoSpec("Test", 15, 128, 64), 75) ==
      [0, 0, 0, 128, 0, 64, 0, 75, 0, 15, 0, 5, 0, 3] +
      ['T' as int, 'e' as int, 's' as int, 't' as int, 0] + ['5' as int, 's' as int, 0]
    ensures FxDataPage(2560) == 16777205
  {
    var video := VideoSpec("Test", 15, 128, 64);
    assert DurationText(video, 75) == "5s" by {
      assert ReadableDuration(5) == "5s" by { ReadableDurationShortExamples(); }
    }
    HeaderExample();
  }

  /** The output file, as the bytes written to it so far. */
  class OutputFile {
    var contents: seq<Byte>

    constructor ()
      ensures contents == []
    {
      contents := [];
    }

    /** fs.writeFileSync: the file now holds exactly `data`. */
    method Write(data: seq<Byte>)
      modifies this
      ensures contents == data
    {
      contents := data;
    }

    /** fs.appendFileSync: `data` is added at the end. */
    method Append(data: seq<Byte>)
      modifies this
      ensures contents == old(contents) + data
    {
      contents := contents + data;
    }

    /** fs.statSync(...).size */
    method Size() returns (size: nat)
      ensures size == |contents|
    {
      size := |contents|;
    }
  }

  /** meta_buffer: Buffer.alloc(2 * n) then writeUInt16BE(fields[i], 2 * i) for each field. */
  method EncodeMetaBuffer(fields: seq<nat>) returns (buffer: array<Byte>)
    requires forall i :: 0 <= i < |fields| ==> fields[i] < 0x1_0000
    ensures fresh(buffer) && buffer.Length == 2 * |fields|
    ensures forall i :: 0 <= i < |fields| ==> ReadUInt16BE(buffer[..], 2 * i) == fields[i]
    ensures buffer[..] == HeaderBytes(fields)
  {
    buffer := new Byte[2 * |fields|](_ => 0);
    for i := 0 to |fields|
      invariant buffer[..2 * i] == HeaderBytes(fields[..i])
    {
      var be := WriteUInt16BE(fields[i]);
      buffer[2 * i] := be[0];
      buffer[2 * i + 1] := be[1];
      assert fields[..i + 1][..i] == fields[..i];
    }
    assert fields[..|fields|] == fields;
    assert buffer[..] == buffer[..2 * |fields|];
    forall i | 0 <= i < |fields|
      ensures ReadUInt16BE(buffer[..], 2 * i) == fields[i]
    {
      HeaderBytesField(fields, i);
    }
  }

  /** The frames.forEach callback: threshold one decoded frame, pack it and
      append the bytes to the file. */
  method AppendFrame(bm: Bitmap, out: OutputFile)
    requires Encodable(bm)
    modifies out
    ensures out.contents == old(out.contents) + EncodeFrame(bm)
  {
    var image := BinarizeFrame(bm);
    assert image[..bm.height] == Binarized(bm);
    var compactRow := PackFrame(image[..bm.height], bm.width, bm.height);
    out.Append(compactRow);
  }

  /** The start of the end callback: the meta_data buffer is written to the
      file, then the title and the duration text are appended. */
  method WritePreamble(video: VideoSpec, frames: nat, out: OutputFile)
    returns (duration: string)
    requires Convertible(video, []) && frames < 0x1_0000
    modifies out
    ensures duration == DurationText(video, frames)
    ensures out.contents == Preamble(video, frames)
  {
    duration := ReadableDuration(frames / video.fps);
    var metaData := [0, video.width, video.height, frames, video.fps,
                     |video.title| + 1, |duration| + 1];
    assert metaData == MetaData(video, frames);
    var metaBuffer := EncodeMetaBuffer(metaData);
    out.Write(metaBuffer[..]);
    out.Append(CString(video.title));
    out.Append(CString(duration));
  }

  /** The frame loop of the end callback: every frame, in list order, is
      thresholded, packed and appended to the file. */
  method AppendFrames(bitmaps: seq<Bitmap>, out: OutputFile)
    requires forall i :: 0 <= i < |bitmaps| ==> Encodable(bitmaps[i])
    modifies out
    ensures out.contents == old(out.contents) + Concat(EncodedFrames(bitmaps))
  {
    ghost var start := out.contents;
    ghost var encoded := EncodedFrames(bitmaps);
    for i := 0 to |bitmaps|
      invariant out.contents == start + Concat(encoded[..i])
    {
      AppendFrame(bitmaps[i], out);
      ConcatStep(encoded, i);
    }
    assert encoded[..|bitmaps|] == encoded;
  }

  /** The end callback: writes the artifact to `out` and returns the size
      read back and the FX_DATA_PAGE value derived from it. */
  method WriteArtifact(video: VideoSpec, bitmaps: seq<Bitmap>, out: OutputFile)
    returns (size: nat, page: int)
    requires Convertible(video, bitmaps)
    modifies out
    ensures out.contents == Artifact(video, bitmaps)
    ensures size == |Artifact(video, bitmaps)| && page == FxDataPage(size)
  {
    var duration := WritePreamble(video, |bitmaps|, out);
    AppendFrames(bitmaps, out);
    size := out.Size();
    page := FxDataPage(size);
  }
}
