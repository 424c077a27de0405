/** An optional value, for nullable things that are not objects. */
module Wrappers {
  datatype Option<+T> = None | Some(value: T)
}

/**
  The entities the subtitle session manager of player/sub.c works with: tracks,
  subtitle decoders, demuxers, timestamps and the external calls it issues.
  Decoders, demuxers and tracks are objects because the player compares them by
  identity and updates a track's decoder handle in place.
 */
module SubTypes {
  import opened Wrappers

  /** Number of subtitle display slots: 0 is the primary, 1 the secondary subtitle. */
  const NumSubSlots: nat := 2

  /** Frame-rate hint given to a new decoder when the video track has no codec data. */
  const DefaultFps: real := 25.0

  /** Refresh interval (seconds) requested while subtitles are drawn past the end of video. */
  const ForcedRefreshInterval: real := 0.1

  datatype StreamType = VideoStream | AudioStream | SubStream

  /** A playback timestamp, or the "no timestamp" sentinel. Only equality is used. */
  datatype Pts = NoPts | At(seconds: real)

  /** An auxiliary file (for instance a font) carried by a demuxer. */
  datatype Attachment = Attachment(name: string, mimeType: string, data: seq<bv8>)

  /** An elementary stream of a demuxer, as a track refers to it. */
  datatype Stream = Stream(id: nat, kind: StreamType)

  /** The primary video track: the frame rate of its codec (None when it has no stream)
      and whether it is an attached picture. */
  datatype VideoTrack = VideoTrack(codecFps: Option<real>, attachedPicture: bool)

  /** What the player knows about video: is there a video output, has the video
      reached its end, and which track is the primary video track. */
  datatype VideoState = VideoState(hasOutput: bool, eof: bool, track: Option<VideoTrack>)

  /** The answers the decoder and demuxer give during one update of one track:
      sub_can_preload, sub_read_packets and sub_get_text. */
  datatype Reply = Reply(canPreload: bool, readOk: bool, text: Option<string>)

  /** A demuxer: whether the whole file has been read, and its attachments. */
  class Demuxer {
    const fullyRead: bool
    const attachments: seq<Attachment>

    constructor (fullyRead: bool, attachments: seq<Attachment>)
      ensures this.fullyRead == fullyRead && this.attachments == attachments
    {
      this.fullyRead := fullyRead;
      this.attachments := attachments;
    }
  }

  /** A subtitle decoder instance. It stays bound to the display order it was created with. */
  class Decoder {
    const stream: Stream
    const attachments: seq<Attachment>
    const order: int
    var selected: bool

    constructor (stream: Stream, attachments: seq<Attachment>, order: int)
      ensures this.stream == stream && this.attachments == attachments
      ensures this.order == order && !selected
    {
      this.stream := stream;
      this.attachments := attachments;
      this.order := order;
      selected := false;
    }
  }

  /** A track of the playback session and the decoder handle it owns. */
  class Track {
    const kind: StreamType
    const stream: Option<Stream>
    const demuxer: Demuxer?
    var selected: bool
    var dsub: Decoder?

    constructor (kind: StreamType, stream: Option<Stream>, demuxer: Demuxer?, selected: bool)
      ensures this.kind == kind && this.stream == stream && this.demuxer == demuxer
      ensures this.selected == selected && dsub == null
    {
      this.kind := kind;
      this.stream := stream;
      this.demuxer := demuxer;
      this.selected := selected;
      dsub := null;
    }

    /** A decoder only ever exists for a track that has a demuxer and a stream. */
    ghost predicate Consistent()
      reads this
    {
      dsub != null ==> demuxer != null && stream.Some?
    }
  }

  /** The calls into decoder, demuxer, video output and player that leave no state in this model. */
  datatype Call =
    | SubReset(dec: Decoder)
    | SubSetPlayDir(dec: Decoder, dir: int)
    | SubDestroy(dec: Decoder)
    | SubReadPackets(dec: Decoder, pts: Pts, forceReadAhead: bool)
    | DemuxSeek(demuxer: Demuxer, seekPts: real)
    | SubPreload(dec: Decoder)
    | SubSetDefaultFps(dec: Decoder, fps: real)
    | OsdResetWantRedraw
    | VoRedraw
    | SetTimeout(seconds: real)
    | ErrorOnTrack(track: Track)

  /** The outputs one update writes: terminal subtitle text, the OSD forced video
      timestamp, and the log of external calls. */
  datatype Outputs = Outputs(termText: Option<string>, forcePts: Pts, calls: seq<Call>)

  /** The calls reset_subtitles makes on a decoder handle (none when it is null). */
  function ResetCalls(d: Decoder?, dir: int): (cs: seq<Call>)
    ensures d == null <==> cs == []
  {
    if d == null then [] else [SubReset(d), SubSetPlayDir(d, dir)]
  }

  /** The calls uninit_sub(track, true) makes on a track's decoder handle. */
  function UninitCalls(d: Decoder?, dir: int): (cs: seq<Call>)
    ensures d == null <==> cs == []
    ensures d != null ==> SubDestroy(d) in cs
  {
    if d == null then [] else ResetCalls(d, dir) + [SubDestroy(d)]
  }
}
