/**
  The subtitle session manager of player/sub.c. The player context is a `Player` object:
  its track list, the two-slot subtitle selection table, the two OSD subtitle slots, the
  terminal subtitle text, the OSD forced video timestamp and a log of external calls.
  Each method is one C function; each states its new state in terms of the old one,
  using the value-level specifications of the Slots, Attachments and SubUpdate modules.
 */
module PlayerSub {
  import opened Wrappers
  import opened SubTypes
  import opened Slots
  import opened Attachments
  import opened SubUpdate

  /** The track, as a set, so that a frame can name its fields when it is not null. */
  function Own(t: Track?): set<Track>
  {
    if t == null then {} else {t}
  }

  /** The decoder a track currently owns, as a set. */
  function DecoderOf(t: Track?): set<Decoder>
    reads t
  {
    if t == null || t.dsub == null then {} else {t.dsub}
  }

  /** The decoder handle of each track, in track order. */
  function DecodersOf(ts: seq<Track>): (ds: seq<Decoder?>)
    reads set t | t in ts
    ensures |ds| == |ts| && forall i :: 0 <= i < |ts| ==> ds[i] == ts[i].dsub
  {
    seq(|ts|, i requires 0 <= i < |ts| reads ts => ts[i].dsub)
  }

  /** The calls reset_subtitle_state makes for decoders `ds`, in track order. */
  function ResetAllCalls(ds: seq<Decoder?>, dir: int): (cs: seq<Call>)
    ensures forall c :: c in cs ==> c.SubReset? || (c.SubSetPlayDir? && c.dir == dir)
    decreases |ds|
  {
    if ds == [] then [] else ResetAllCalls(ds[..|ds| - 1], dir) + ResetCalls(ds[|ds| - 1], dir)
  }

  /** The calls uninit_sub_all makes for decoders `ds`, in track order. */
  function UninitAllCalls(ds: seq<Decoder?>, dir: int): (cs: seq<Call>)
    ensures |cs| <= 3 * |ds|
    decreases |ds|
  {
    if ds == [] then [] else UninitAllCalls(ds[..|ds| - 1], dir) + UninitCalls(ds[|ds| - 1], dir)
  }

  /** reset_subtitle_state resets exactly the decoders the tracks hold. */
  lemma {:induction false} ResetAllCallsResetEach(ds: seq<Decoder?>, dir: int, d: Decoder)
    ensures SubReset(d) in ResetAllCalls(ds, dir) <==> d in ds
    decreases |ds|
  {
    if ds != [] {
      var k := |ds| - 1;
      ResetAllCallsResetEach(ds[..k], dir, d);
      assert ds == ds[..k] + [ds[k]];
      assert SubReset(d) in ResetCalls(ds[k], dir) <==> ds[k] == d;
    }
  }

  /** uninit_sub_all destroys exactly the decoders the tracks hold. */
  lemma {:induction false} UninitAllCallsDestroyEach(ds: seq<Decoder?>, dir: int, d: Decoder)
    ensures SubDestroy(d) in UninitAllCalls(ds, dir) <==> d in ds
    decreases |ds|
  {
    if ds != [] {
      var k := |ds| - 1;
      UninitAllCallsDestroyEach(ds[..k], dir, d);
      assert ds == ds[..k] + [ds[k]];
      if ds[k] != null {
        assert UninitCalls(ds[k], dir) == [SubReset(ds[k]), SubSetPlayDir(ds[k], dir), SubDestroy(ds[k])];
      }
      assert SubDestroy(d) in UninitCalls(ds[k], dir) <==> ds[k] == d;
    }
  }

  /** uninit_sub_all makes no call exactly when no track holds a decoder. */
  lemma {:induction false} UninitAllCallsNone(ds: seq<Decoder?>, dir: int)
    ensures UninitAllCalls(ds, dir) == [] <==> !AnyDecoder(ds)
    decreases |ds|
  {
    if ds != [] {
      var k := |ds| - 1;
      UninitAllCallsNone(ds[..k], dir);
      AnyDecoderPrefix(ds, k);
      assert ds[..k + 1] == ds;
    }
  }

  predicate AnyDecoder(ds: seq<Decoder?>)
  {
    exists i :: 0 <= i < |ds| && ds[i] != null
  }

  /** One more track has a decoder among the first n + 1 exactly when it is the last one
      or one of the first n has. */
  lemma AnyDecoderPrefix(ds: seq<Decoder?>, n: int)
    requires 0 <= n < |ds|
    ensures AnyDecoder(ds[..n + 1]) <==> AnyDecoder(ds[..n]) || ds[n] != null
  {
    if AnyDecoder(ds[..n + 1]) && ds[n] == null {
      var i :| 0 <= i < n + 1 && ds[..n + 1][i] != null;
      assert ds[..n][i] != null;
    }
    if AnyDecoder(ds[..n]) {
      var i :| 0 <= i < n && ds[..n][i] != null;
      assert ds[..n + 1][i] != null;
    }
    if ds[n] != null {
      assert ds[..n + 1][n] != null;
    }
  }

  /** The outputs of uninit_sub_all after n tracks, advanced by the uninit_sub of track n
      (`c`, `text`, `osd` before it, `c1`, `text1`, `osd1` after it), are those after n + 1 tracks. */
  lemma UninitAdvance(decs: seq<Decoder?>, orders: seq<int>, osd0: seq<Decoder?>, calls0: seq<Call>,
                      text0: Option<string>, dir: int, n: int,
                      c: seq<Call>, text: Option<string>, osd: seq<Decoder?>,
                      c1: seq<Call>, text1: Option<string>, osd1: seq<Decoder?>)
    requires 0 <= n < |decs| == |orders|
    requires c == calls0 + UninitAllCalls(decs[..n], dir)
    requires text == if AnyDecoder(decs[..n]) then None else text0
    requires osd == Cleared(osd0, decs[..n], orders[..n])
    requires c1 == c + UninitCalls(decs[n], dir)
    requires text1 == if decs[n] != null then None else text
    requires osd1 == if decs[n] != null then Publish(osd, orders[n], null) else osd
    ensures c1 == calls0 + UninitAllCalls(decs[..n + 1], dir)
    ensures text1 == if AnyDecoder(decs[..n + 1]) then None else text0
    ensures osd1 == Cleared(osd0, decs[..n + 1], orders[..n + 1])
  {
    assert decs[..n + 1][..n] == decs[..n] && orders[..n + 1][..n] == orders[..n];
    AnyDecoderPrefix(decs, n);
    AppendAssoc(calls0, UninitAllCalls(decs[..n], dir), UninitCalls(decs[n], dir));
  }

  /** The outputs of the binding part of reinit_sub for a track whose decoder goes from
      `d0` to `d1`: the teardown of a stale decoder, then the frame-rate hint of a new one
      or the error report when none could be made. */
  function BoundOutputs(o: Outputs, t: Track, d0: Decoder?, d1: Decoder?, order: int, dir: int,
                        fps: real): (r: Outputs)
    ensures o.calls <= r.calls
    ensures d1 == null ==> |r.calls| > 0 && r.calls[|r.calls| - 1] == ErrorOnTrack(t)
  {
    var o1 := if Stale(d0, order) then Outputs(None, o.forcePts, o.calls + UninitCalls(d0, dir)) else o;
    if d1 == null then o1.(calls := o1.calls + [ErrorOnTrack(t)])
    else if d1 != d0 then o1.(calls := o1.calls + [SubSetDefaultFps(d1, fps)])
    else o1
  }

  lemma AppendAssoc<T>(a: seq<T>, b: seq<T>, c: seq<T>)
    ensures (a + b) + c == a + (b + c)
  {
  }

  /** reinit_sub leaves a track alone when it has no subtitle stream. */
  predicate Skips(t: Track?)
  {
    t == null || t.stream.None? || t.stream.value.kind != SubStream
  }

  /** A decoder must be destroyed and created again when its bound order is not the track's order. */
  predicate Stale(d: Decoder?, order: int)
  {
    d != null && d.order != order
  }

  /** The frame-rate hint of the primary video track's codec, or the default. */
  function VideoFps(video: VideoState): (fps: real)
    ensures video.track.None? ==> fps == DefaultFps
    ensures fps == DefaultFps || (video.track.Some? && video.track.value.codecFps == Some(fps))
  {
    if video.track.Some? && video.track.value.codecFps.Some? then video.track.value.codecFps.value
    else DefaultFps
  }

  class Player {
    var tracks: seq<Track>
    /** Selection table for subtitles: slot 0 primary, slot 1 secondary. */
    const currentSub: array<Track?>
    /** The decoder each OSD subtitle slot draws from. */
    const osdSubs: array<Decoder?>
    /** Subtitle text shown on the terminal (None: nothing shown). */
    var termText: Option<string>
    /** The timestamp the OSD draws subtitles at when no video frames come. */
    var forcePts: Pts
    /** Calls made into decoders, demuxers, video output and player, oldest first. */
    var calls: seq<Call>
    var playDir: int
    var video: VideoState
    /** Option: subtitles keep being shown after the video ends. */
    var subPastVideoEnd: bool
    var playbackInitialized: bool
    var paused: bool
    var playbackPts: Pts

    /** Slot tables have two entries; tracks are distinct objects; no two tracks share a
        decoder; a decoder exists only for a track with a demuxer and a stream. */
    ghost predicate Valid()
      reads this`tracks, set t | t in tracks
    {
      currentSub.Length == NumSubSlots && osdSubs.Length == NumSubSlots &&
      (forall i, j :: 0 <= i < j < |tracks| ==> tracks[i] != tracks[j]) &&
      (forall i, j :: 0 <= i < |tracks| && 0 <= j < |tracks| && i != j && tracks[i].dsub != null ==>
         tracks[i].dsub != tracks[j].dsub) &&
      (forall i :: 0 <= i < |tracks| ==> tracks[i].Consistent())
    }

    constructor (tracks: seq<Track>, primary: Track?, secondary: Track?)
      requires forall i, j :: 0 <= i < j < |tracks| ==> tracks[i] != tracks[j]
      requires forall i :: 0 <= i < |tracks| ==> tracks[i].dsub == null
      ensures Valid() && fresh(currentSub) && fresh(osdSubs)
      ensures this.tracks == tracks && currentSub[..] == [primary, secondary]
      ensures osdSubs[..] == [null, null] && termText == None && forcePts == NoPts && calls == []
      ensures !playbackInitialized && !paused && playDir == 1
    {
      this.tracks := tracks;
      currentSub := new Track?[2] [primary, secondary];
      osdSubs := new Decoder?[2] [null, null];
      termText := None;
      forcePts := NoPts;
      calls := [];
      playDir := 1;
      video := VideoState(false, false, None);
      subPastVideoEnd := false;
      playbackInitialized := false;
      paused := false;
      playbackPts := NoPts;
    }

    /** The display order of a track: its slot in the selection table, or -1. */
    ghost function Order(t: Track): int
      reads currentSub
    {
      IndexOf(currentSub[..], t)
    }

    ghost function OrdersOf(ts: seq<Track>): (os: seq<int>)
      reads currentSub
      ensures |os| == |ts| && forall i :: 0 <= i < |ts| ==> os[i] == Order(ts[i])
    {
      seq(|ts|, i requires 0 <= i < |ts| reads currentSub => Order(ts[i]))
    }

    ghost function Out(): Outputs
      reads this`termText, this`forcePts, this`calls
    {
      Outputs(termText, forcePts, calls)
    }

    ghost function ViewOf(t: Track?): (v: TrackView)
      requires currentSub.Length == NumSubSlots
      reads currentSub, t
      ensures t != null && t.Consistent() ==> WellFormed(v)
    {
      if t == null then TrackView(SubStream, null, null, false)
      else TrackView(t.kind, t.dsub, t.demuxer, currentSub[0] == t)
    }

    ghost function Views(): (vs: seq<TrackView>)
      requires Valid()
      reads this`tracks, currentSub, set t | t in tracks
      ensures |vs| == |tracks| && AllWellFormed(vs)
      ensures forall i :: 0 <= i < |tracks| ==> vs[i] == ViewOf(tracks[i])
    {
      var ts := tracks;
      seq(|ts|, i requires 0 <= i < |ts| && currentSub.Length == NumSubSlots
                  reads currentSub, ts => ViewOf(ts[i]))
    }

    /** The decoder replies given to reinit_sub let its final update finish: one reply
        when playing, and while paused one reply that makes the track ready. */
    ghost predicate Answers(t: Track?, rs: seq<Reply>)
      reads this`playbackInitialized, this`paused, this`playbackPts
    {
      (playbackInitialized ==> |rs| > 0) &&
      (playbackInitialized && paused && t != null && t.demuxer != null ==>
         exists i :: 0 <= i < |rs| && (playbackPts == NoPts || t.demuxer.fullyRead || rs[i].readOk))
    }

    /** What the update at the end of reinit_sub writes for track `t`, starting from outputs `o`. */
    ghost function Settle(o: Outputs, t: Track, rs: seq<Reply>): (r: Outputs)
      requires currentSub.Length == NumSubSlots && t.Consistent() && Answers(t, rs)
      reads currentSub, t, this`playbackInitialized, this`paused, this`playbackPts, this`video,
            this`subPastVideoEnd
      ensures o.calls <= r.calls
    {
      var v := ViewOf(t);
      if !playbackInitialized then o
      else if paused then
        assert exists i :: 0 <= i < |rs| && Ready(v, playbackPts, rs[i]) by {
          if t.demuxer == null {
            assert Ready(v, playbackPts, rs[0]);
          } else {
            var i :| 0 <= i < |rs| && (playbackPts == NoPts || t.demuxer.fullyRead || rs[i].readOk);
            assert Ready(v, playbackPts, rs[i]);
          }
        }
        WaitReady(o, v, video, subPastVideoEnd, playbackPts, rs)
      else Step(o, v, video, subPastVideoEnd, playbackPts, true, rs[0]).0
    }

    /** get_order: the first slot of the selection table that holds the track, or -1. */
    method GetOrder(t: Track) returns (order: int)
      requires currentSub.Length == NumSubSlots
      ensures order == Order(t)
    {
      var n := 0;
      while n < NumSubSlots
        invariant 0 <= n <= NumSubSlots
        invariant forall m :: 0 <= m < n ==> currentSub[m] != t
      {
        if currentSub[n] == t {
          return n;
        }
        n := n + 1;
      }
      return -1;
    }

    /** osd_set_sub: the OSD draws slot `order` from `d`; another order is ignored. */
    method OsdSetSub(order: int, d: Decoder?)
      requires osdSubs.Length == NumSubSlots
      modifies osdSubs
      ensures osdSubs[..] == Publish(old(osdSubs[..]), order, d)
    {
      if 0 <= order < NumSubSlots {
        osdSubs[order] := d;
      }
    }

    /** reset_subtitles: reset the track's decoder (if any) and clear the terminal text. */
    method ResetSubtitles(t: Track)
      modifies this`calls, this`termText
      ensures calls == old(calls) + ResetCalls(t.dsub, playDir)
      ensures termText == None
    {
      if t.dsub != null {
        calls := calls + [SubReset(t.dsub), SubSetPlayDir(t.dsub, playDir)];
      }
      termText := None;
    }

    /** reset_subtitle_state: reset every track's decoder, in track order. */
    method ResetSubtitleState()
      modifies this`calls, this`termText
      ensures calls == old(calls) + ResetAllCalls(DecodersOf(tracks), playDir)
      ensures termText == None
    {
      ghost var decs := DecodersOf(tracks);
      var n := 0;
      while n < |tracks|
        invariant 0 <= n <= |tracks|
        invariant calls == old(calls) + ResetAllCalls(decs[..n], playDir)
      {
        ResetSubtitles(tracks[n]);
        assert decs[..n + 1][..n] == decs[..n];
        AppendAssoc(old(calls), ResetAllCalls(decs[..n], playDir), ResetCalls(decs[n], playDir));
        n := n + 1;
      }
      assert decs[..n] == decs;
      termText := None;
    }

    /** uninit_sub: when the track has a decoder, optionally destroy it, then clear the OSD
        slot of the track's order as resolved at that moment. A track without a decoder
        is left alone, so destroying twice is the same as destroying once. */
    method UninitSub(t: Track?, destroy: bool)
      requires currentSub.Length == NumSubSlots && osdSubs.Length == NumSubSlots
      modifies Own(t)`dsub, DecoderOf(t)`selected, osdSubs, this`calls, this`termText
      ensures t == null || old(t.dsub) == null ==>
        calls == old(calls) && termText == old(termText) && osdSubs[..] == old(osdSubs[..]) &&
        (t != null ==> t.dsub == null)
      ensures t != null && old(t.dsub) != null ==>
        osdSubs[..] == Publish(old(osdSubs[..]), Order(t), null)
      ensures t != null && old(t.dsub) != null && destroy ==>
        t.dsub == null && !old(t.dsub).selected && termText == None &&
        calls == old(calls) + UninitCalls(old(t.dsub), playDir)
      ensures t != null && old(t.dsub) != null && !destroy ==>
        t.dsub == old(t.dsub) && t.dsub.selected == old(t.dsub.selected) &&
        calls == old(calls) && termText == old(termText)
    {
      if t != null && t.dsub != null {
        if destroy {
          ResetSubtitles(t);
          t.dsub.selected := false;
          calls := calls + [SubDestroy(t.dsub)];
          t.dsub := null;
        }
        var order := GetOrder(t);
        OsdSetSub(order, null);
      }
    }

    /** uninit_sub_all: destroy every track's decoder, in track order. */
    method UninitSubAll()
      requires Valid()
      modifies (set t | t in tracks)`dsub, (set t | t in tracks && t.dsub != null :: t.dsub)`selected
      modifies osdSubs, this`calls, this`termText
      ensures Valid()
      ensures forall t :: t in tracks ==> t.dsub == null
      ensures forall i :: 0 <= i < |tracks| && old(tracks[i].dsub) != null ==> !old(tracks[i].dsub).selected
      ensures calls == old(calls) + UninitAllCalls(old(DecodersOf(tracks)), playDir)
      ensures termText == if AnyDecoder(old(DecodersOf(tracks))) then None else old(termText)
      ensures osdSubs[..] == Cleared(old(osdSubs[..]), old(DecodersOf(tracks)), OrdersOf(tracks))
    {
      ghost var ts := tracks;
      ghost var decs := DecodersOf(tracks);
      ghost var orders := OrdersOf(tracks);
      ghost var osd0 := osdSubs[..];
      var n := 0;
      while n < |tracks|
        invariant 0 <= n <= |tracks| && tracks == ts
        invariant Cleaned(ts, decs, n)
        invariant calls == old(calls) + UninitAllCalls(decs[..n], playDir)
        invariant termText == if AnyDecoder(decs[..n]) then None else old(termText)
        invariant osdSubs[..] == Cleared(osd0, decs[..n], orders[..n])
      {
        UninitNext(n, ts, decs, orders, osd0, old(calls), old(termText));
        n := n + 1;
      }
      assert decs[..n] == decs && orders[..n] == orders;
      ValidWithoutDecoders();
    }

    /** Tracks without decoders are valid. */
    lemma ValidWithoutDecoders()
      requires currentSub.Length == NumSubSlots && osdSubs.Length == NumSubSlots
      requires forall i, j :: 0 <= i < j < |tracks| ==> tracks[i] != tracks[j]
      requires forall i :: 0 <= i < |tracks| ==> tracks[i].dsub == null
      ensures Valid()
    {
    }

    /** Tracks `ts` with decoders `decs` at the start, after the first n went through
        uninit_sub(track, true): those have no decoder and their decoders are deselected;
        the rest are untouched. */
    ghost predicate Cleaned(ts: seq<Track>, decs: seq<Decoder?>, n: int)
      reads set t | t in ts, set d: Decoder | d in decs
    {
      |decs| == |ts| && 0 <= n <= |ts| &&
      (forall i, j :: 0 <= i < j < |ts| ==> ts[i] != ts[j]) &&
      (forall i, j :: 0 <= i < |decs| && 0 <= j < |decs| && i != j && decs[i] != null ==> decs[i] != decs[j]) &&
      (forall j :: 0 <= j < n ==> ts[j].dsub == null) &&
      (forall j :: n <= j < |ts| ==> ts[j].dsub == decs[j]) &&
      (forall j :: 0 <= j < n && decs[j] != null ==> !decs[j].selected)
    }

    /** One iteration of uninit_sub_all: uninit_sub(tracks[n], true). */
    method UninitNext(n: int, ghost ts: seq<Track>, ghost decs: seq<Decoder?>, ghost orders: seq<int>,
                      ghost osd0: seq<Decoder?>, ghost calls0: seq<Call>, ghost text0: Option<string>)
      requires currentSub.Length == NumSubSlots && osdSubs.Length == NumSubSlots
      requires tracks == ts && 0 <= n < |ts| && Cleaned(ts, decs, n)
      requires |orders| == |ts| && orders[n] == Order(ts[n])
      requires calls == calls0 + UninitAllCalls(decs[..n], playDir)
      requires termText == if AnyDecoder(decs[..n]) then None else text0
      requires osdSubs[..] == Cleared(osd0, decs[..n], orders[..n])
      modifies Own(tracks[n])`dsub, DecoderOf(tracks[n])`selected, osdSubs, this`calls, this`termText
      ensures Cleaned(ts, decs, n + 1)
      ensures calls == calls0 + UninitAllCalls(decs[..n + 1], playDir)
      ensures termText == if AnyDecoder(decs[..n + 1]) then None else text0
      ensures osdSubs[..] == Cleared(osd0, decs[..n + 1], orders[..n + 1])
    {
      ghost var c, text, osd := calls, termText, osdSubs[..];
      UninitSub(tracks[n], true);
      UninitAdvance(decs, orders, osd0, calls0, text0, playDir, n, c, text, osd, calls, termText, osdSubs[..]);
    }

    /** update_subtitle: bring one track's decoder to `pts` and publish what it shows
        when no video frame will. */
    method UpdateSubtitle(pts: Pts, t: Track?, force: bool, r: Reply) returns (ok: bool)
      requires currentSub.Length == NumSubSlots
      requires t != null ==> t.Consistent()
      modifies this`termText, this`forcePts, this`calls
      ensures (Out(), ok) == Step(old(Out()), ViewOf(t), video, subPastVideoEnd, pts, force, r)
    {
      var dec := if t != null then t.dsub else null;
      if dec == null || pts == NoPts {
        return true;
      }
      ghost var o := Out();
      if t.demuxer.fullyRead {
        if r.canPreload {
          calls := calls + [DemuxSeek(t.demuxer, 0.0), SubPreload(dec)];
        }
      } else {
        calls := calls + [SubReadPackets(dec, pts, force)];
        if !r.readOk {
          return false;
        }
      }
      ghost var v := ViewOf(t);
      assert calls == o.calls + FetchCalls(v, pts, force, r);
      if currentSub[0] == t && !video.hasOutput {
        termText := r.text;
      }
      ghost var redraw := DrawsPastVideoEnd(video, subPastVideoEnd) && o.forcePts != pts;
      if video.hasOutput && video.eof &&
         (subPastVideoEnd || video.track.None? || video.track.value.attachedPicture)
      {
        if forcePts != pts {
          forcePts := pts;
          calls := calls + [OsdResetWantRedraw, VoRedraw, SetTimeout(ForcedRefreshInterval)];
        }
      }
      assert calls == o.calls + FetchCalls(v, pts, force, r) + RedrawCalls(redraw);
      return true;
    }

    /** update_subtitles: update every subtitle track, in track order, and AND the results
        without short-circuiting. */
    method UpdateSubtitles(pts: Pts, force: bool, rs: seq<Reply>) returns (ok: bool)
      requires Valid() && |rs| == |tracks|
      modifies this`termText, this`forcePts, this`calls
      ensures (Out(), ok) == UpdateAll(old(Out()), Views(), video, subPastVideoEnd, pts, force, rs)
    {
      ghost var vs := Views();
      ok := true;
      var n := 0;
      while n < |tracks|
        invariant 0 <= n <= |tracks|
        invariant var rest := UpdateAll(Out(), vs[n..], video, subPastVideoEnd, pts, force, rs[n..]);
          (rest.0, ok && rest.1) == UpdateAll(old(Out()), vs, video, subPastVideoEnd, pts, force, rs)
      {
        assert vs[n..][1..] == vs[n + 1..] && rs[n..][1..] == rs[n + 1..];
        if tracks[n].kind == SubStream {
          var r := UpdateSubtitle(pts, tracks[n], force, rs[n]);
          ok := ok && r;
        }
        n := n + 1;
      }
    }

    /** get_all_attachments: copy the attachments of each track's demuxer, skipping a
        demuxer equal to the previous non-null one. */
    method GetAllAttachments() returns (list: seq<Attachment>)
      ensures list == AttachmentsOf(DemuxersOf(tracks), null)
    {
      ghost var ds := DemuxersOf(tracks);
      list := [];
      var prev: Demuxer? := null;
      var n := 0;
      while n < |tracks|
        invariant 0 <= n <= |tracks|
        invariant list + AttachmentsOf(ds[n..], prev) == AttachmentsOf(ds, null)
      {
        var t := tracks[n];
        assert ds[n..][0] == t.demuxer && ds[n..][1..] == ds[n + 1..];
        if t.demuxer != null && prev != t.demuxer {
          prev := t.demuxer;
          ghost var before := list;
          var atts := t.demuxer.attachments;
          var i := 0;
          while i < |atts|
            invariant 0 <= i <= |atts|
            invariant list == before + atts[..i]
          {
            var att := atts[i];
            list := list + [Attachment(att.name, att.mimeType, att.data)];
            assert atts[..i + 1] == atts[..i] + [atts[i]];
            i := i + 1;
          }
          assert atts[..i] == atts;
        }
        n := n + 1;
      }
    }

    /** init_subdec: create a decoder for a track that has none, bound to the track's
        current order, with every demuxer's attachments, and give it a frame-rate hint. */
    method InitSubdec(t: Track, createOk: bool) returns (ok: bool)
      requires t.dsub == null
      requires currentSub.Length == NumSubSlots
      modifies t`dsub, this`calls
      ensures ok <==> t.demuxer != null && t.stream.Some? && createOk
      ensures !ok ==> t.dsub == null && calls == old(calls)
      ensures ok ==>
        t.dsub != null && fresh(t.dsub) && !t.dsub.selected &&
        t.dsub.stream == t.stream.value && t.dsub.order == Order(t) &&
        t.dsub.attachments == AttachmentsOf(DemuxersOf(tracks), null) &&
        calls == old(calls) + [SubSetDefaultFps(t.dsub, VideoFps(video))]
    {
      if t.demuxer == null || t.stream.None? {
        return false;
      }
      var attachments := GetAllAttachments();
      var order := GetOrder(t);
      if !createOk {
        return false;
      }
      var d := new Decoder(t.stream.value, attachments, order);
      t.dsub := d;
      var vtrack := video.track;
      var fps := if vtrack.Some? && vtrack.value.codecFps.Some? then vtrack.value.codecFps.value
                 else DefaultFps;
      calls := calls + [SubSetDefaultFps(d, fps)];
      return true;
    }

    /** What the binding part of reinit_sub guarantees for a subtitle track `t` of order
        `order` whose decoder was `d0` and with OSD slots `osd0` before: a decoder bound to
        another order is deselected and replaced, a decoder bound to this order is kept, a
        missing one is created unless the track has no demuxer or creation fails, the
        decoder is selected, and the OSD shows it in slot `order` when the track is selected. */
    ghost predicate Bound(t: Track, order: int, createOk: bool, d0: Decoder?, osd0: seq<Decoder?>)
      reads t, DecoderOf(t), if d0 == null then {} else {d0}, osdSubs, this`tracks
    {
      var torn := Stale(d0, order);
      (torn ==> !d0.selected && t.dsub != d0) &&
      (d0 != null && !torn ==> t.dsub == d0) &&
      (t.dsub == null <==> (d0 == null || torn) && (t.demuxer == null || t.stream.None? || !createOk)) &&
      (t.dsub != null ==> t.dsub.selected && t.dsub.order == order) &&
      (t.dsub != null && t.dsub != d0 ==>
         t.stream.Some? && t.dsub.stream == t.stream.value &&
         t.dsub.attachments == AttachmentsOf(DemuxersOf(tracks), null)) &&
      osdSubs[..] == (var osd := if torn then Publish(osd0, order, null) else osd0;
                      if t.dsub != null && t.selected then Publish(osd, order, t.dsub) else osd)
    }

    /** The binding part of reinit_sub for a subtitle track of order `order`; false when
        no decoder could be created, after reporting the error on the track. */
    method BindDecoder(t: Track, order: int, createOk: bool) returns (ok: bool)
      requires Valid() && t.Consistent() && order == Order(t)
      modifies t`dsub, DecoderOf(t)`selected, osdSubs, this`calls, this`termText
      ensures Valid() && t.Consistent() && (ok <==> t.dsub != null)
      ensures Bound(t, order, createOk, old(t.dsub), old(osdSubs[..]))
      ensures t.dsub != null && t.dsub != old(t.dsub) ==> fresh(t.dsub)
      ensures Out() == BoundOutputs(old(Out()), t, old(t.dsub), t.dsub, order, playDir, VideoFps(video))
    {
      ghost var decs0 := DecodersOf(tracks);
      if t.dsub != null {
        var curOrder := t.dsub.order;
        if order != curOrder {
          UninitSub(t, true);
        }
      }
      ok := true;
      if t.dsub == null {
        ok := InitSubdec(t, createOk);
        if !ok {
          calls := calls + [ErrorOnTrack(t)];
        }
      }
      if ok {
        t.dsub.selected := true;
        if t.selected {
          OsdSetSub(order, t.dsub);
        }
      }
      ValidAfterRebind(t, decs0);
    }

    /** Changing one track's decoder to none, to the one it had, or to a new decoder keeps
        the tracks valid. */
    lemma ValidAfterRebind(t: Track, decs0: seq<Decoder?>)
      requires currentSub.Length == NumSubSlots && osdSubs.Length == NumSubSlots && t.Consistent()
      requires forall i, j :: 0 <= i < j < |tracks| ==> tracks[i] != tracks[j]
      requires |decs0| == |tracks|
      requires forall i, j :: 0 <= i < |decs0| && 0 <= j < |decs0| && i != j && decs0[i] != null ==> decs0[i] != decs0[j]
      requires forall i :: 0 <= i < |tracks| && tracks[i] != t ==> tracks[i].dsub == decs0[i] && tracks[i].Consistent()
      requires t.dsub == null || t.dsub !in decs0 || forall i :: 0 <= i < |tracks| && tracks[i] == t ==> t.dsub == decs0[i]
      ensures Valid()
    {
    }

    /** reinit_sub: make the track's decoder match its current order (destroying a stale
        one), select it, publish it to the OSD if the track is selected, and bring it up
        to the playback position; a failed creation is reported as a track error. */
    method ReinitSub(t: Track?, createOk: bool, rs: seq<Reply>)
      requires Valid() && Answers(t, rs)
      requires t != null ==> t.Consistent()
      modifies Own(t)`dsub, DecoderOf(t)`selected, osdSubs, this`calls, this`termText, this`forcePts
      ensures Valid() && old(calls) <= calls
      ensures Skips(t) ==>
        Out() == old(Out()) && osdSubs[..] == old(osdSubs[..]) &&
        (t != null ==> t.dsub == old(t.dsub) && (t.dsub != null ==> t.dsub.selected == old(t.dsub.selected)))
      ensures !Skips(t) ==>
        Bound(t, Order(t), createOk, old(t.dsub), old(osdSubs[..])) &&
        (t.dsub != null && t.dsub != old(t.dsub) ==> fresh(t.dsub))
      ensures !Skips(t) ==>
        var bound := BoundOutputs(old(Out()), t, old(t.dsub), t.dsub, Order(t), playDir, VideoFps(video));
        Out() == if t.dsub == null then bound else Settle(bound, t, rs)
    {
      if t == null || t.stream.None? || t.stream.value.kind != SubStream {
        return;
      }
      var order := GetOrder(t);
      var ok := BindDecoder(t, order, createOk);
      ghost var bound := Bound(t, order, createOk, old(t.dsub), old(osdSubs[..]));
      ghost var valid := Valid();
      if ok {
        CatchUp(t, rs);
      }
      assert bound == Bound(t, order, createOk, old(t.dsub), old(osdSubs[..])) && valid == Valid();
    }

    /** The last part of reinit_sub: once playback has started, update the track at the
        playback position with read-ahead forced; while paused, wait until it is ready. */
    method CatchUp(t: Track, rs: seq<Reply>)
      requires currentSub.Length == NumSubSlots && t.Consistent() && Answers(t, rs)
      modifies this`termText, this`forcePts, this`calls
      ensures Out() == Settle(old(Out()), t, rs)
    {
      if playbackInitialized {
        if paused {
          assert exists i :: 0 <= i < |rs| && Ready(ViewOf(t), playbackPts, rs[i]) by {
            if t.demuxer == null { assert Ready(ViewOf(t), playbackPts, rs[0]); }
          }
          WaitUntilReady(t, rs);
        } else {
          var ready := UpdateSubtitle(playbackPts, t, true, rs[0]);
        }
      }
    }

    /** The paused wait of reinit_sub: update the track with read-ahead forced until the
        update reports ready, taking the next decoder reply after each wakeup. */
    method WaitUntilReady(t: Track, rs: seq<Reply>)
      requires currentSub.Length == NumSubSlots && t.Consistent()
      requires exists i :: 0 <= i < |rs| && Ready(ViewOf(t), playbackPts, rs[i])
      modifies this`termText, this`forcePts, this`calls
      ensures Out() == WaitReady(old(Out()), ViewOf(t), video, subPastVideoEnd, playbackPts, rs)
    {
      var i := 0;
      while true
        invariant 0 <= i < |rs|
        invariant exists j :: i <= j < |rs| && Ready(ViewOf(t), playbackPts, rs[j])
        invariant WaitReady(Out(), ViewOf(t), video, subPastVideoEnd, playbackPts, rs[i..]) ==
                  WaitReady(old(Out()), ViewOf(t), video, subPastVideoEnd, playbackPts, rs)
        decreases |rs| - i
      {
        ghost var before := Out();
        var ready := UpdateSubtitle(playbackPts, t, true, rs[i]);
        if ready {
          return;
        }
        assert rs[i..][1..] == rs[i + 1..];
        i := i + 1;
      }
    }

    /** reinit_sub_all: reinitialize every track, in track order; a failing track does not
        stop the others. */
    method ReinitSubAll(createOk: seq<bool>, rs: seq<seq<Reply>>)
      requires Valid() && |createOk| == |tracks| && |rs| == |tracks|
      requires forall i :: 0 <= i < |tracks| ==> Answers(tracks[i], rs[i])
      modifies (set t | t in tracks)`dsub, (set t | t in tracks && t.dsub != null :: t.dsub)`selected
      modifies osdSubs, this`calls, this`termText, this`forcePts
      ensures Valid()
      ensures old(calls) <= calls
      ensures forall i :: 0 <= i < |tracks| && Skips(tracks[i]) ==> tracks[i].dsub == old(tracks[i].dsub)
      ensures forall i :: 0 <= i < |tracks| && !Skips(tracks[i]) ==>
        (tracks[i].dsub != null && tracks[i].dsub.selected && tracks[i].dsub.order == Order(tracks[i])) ||
        (tracks[i].dsub == null && ErrorOnTrack(tracks[i]) in calls)
    {
      ghost var ts := tracks;
      ghost var decs0 := DecodersOf(tracks);
      var n := 0;
      while n < |tracks|
        invariant 0 <= n <= |tracks| && tracks == ts
        invariant Valid() && old(calls) <= calls
        invariant Reinited(ts, decs0, n)
      {
        ReinitNext(n, ts, decs0, createOk[n], rs[n], old(calls));
        n := n + 1;
      }
    }

    /** The tracks `ts`, whose decoders were `decs0`, after reinit_sub ran on the first n:
        those with a subtitle stream have a selected decoder bound to their order or a
        reported error; the others and the rest keep their decoders. */
    ghost predicate Reinited(ts: seq<Track>, decs0: seq<Decoder?>, n: int)
      reads this`calls, currentSub, set t | t in ts
      reads set i | 0 <= i < |ts| && ts[i].dsub != null :: ts[i].dsub
    {
      |decs0| == |ts| && 0 <= n <= |ts| &&
      (forall j :: n <= j < |ts| ==> ts[j].dsub == decs0[j]) &&
      (forall j :: 0 <= j < n && Skips(ts[j]) ==> ts[j].dsub == decs0[j]) &&
      (forall j :: 0 <= j < n && !Skips(ts[j]) ==>
         (ts[j].dsub != null && ts[j].dsub.selected && ts[j].dsub.order == Order(ts[j])) ||
         (ts[j].dsub == null && ErrorOnTrack(ts[j]) in calls))
    }

    /** One iteration of reinit_sub_all: reinit_sub(tracks[n]). */
    method ReinitNext(n: int, ghost ts: seq<Track>, ghost decs0: seq<Decoder?>, createOk: bool,
                      rs: seq<Reply>, ghost calls0: seq<Call>)
      requires Valid() && tracks == ts && 0 <= n < |ts| && Reinited(ts, decs0, n)
      requires calls0 <= calls && Answers(ts[n], rs)
      modifies Own(tracks[n])`dsub, DecoderOf(tracks[n])`selected, osdSubs, this`calls, this`termText,
               this`forcePts
      ensures Valid() && Reinited(ts, decs0, n + 1) && calls0 <= calls
    {
      var t := tracks[n];
      assert forall j :: 0 <= j < |ts| && j != n ==> ts[j] != t;
      assert forall j :: 0 <= j < |ts| && j != n && ts[j].dsub != null ==> ts[j].dsub != t.dsub;
      ReinitSub(t, createOk, rs);
      assert forall j :: 0 <= j < |ts| && j != n ==> ts[j].dsub == old(ts[j].dsub);
      assert forall j :: 0 <= j < |ts| && j != n && ts[j].dsub != null ==>
        ts[j].dsub.selected == old(ts[j].dsub.selected);
    }
  }
}
