/**
  Per-frame subtitle update (update_subtitle, update_subtitles) and the paused
  "wait until ready" loop of reinit_sub, as functions over the outputs they write.
  Decoder and demuxer behaviour enters through a `Reply` per attempt.
 */
module SubUpdate {
  import opened Wrappers
  import opened SubTypes

  /** What an update sees of one track: its type, its decoder handle, its demuxer, and
      whether it is the primary subtitle selection (slot 0 of the selection table). */
  datatype TrackView = TrackView(kind: StreamType, dec: Decoder?, demuxer: Demuxer?, primary: bool)

  /** A decoder is only ever created for a track that has a demuxer. */
  predicate WellFormed(v: TrackView)
  {
    v.dec != null ==> v.demuxer != null
  }

  /** Subtitles are drawn on the video output without new video frames: there is an
      output, video has ended, and subtitles may outlive the video (by option, or because
      there is no video track, or the video track is a still picture). */
  predicate DrawsPastVideoEnd(video: VideoState, pastVideoEnd: bool)
  {
    video.hasOutput && video.eof &&
    (pastVideoEnd || video.track.None? || video.track.value.attachedPicture)
  }

  /** An update of the track reports ready: it has nothing to do, or its demuxer has been
      read entirely, or the decoder read the packets it needed. */
  predicate Ready(v: TrackView, pts: Pts, r: Reply)
    requires WellFormed(v)
  {
    v.dec == null || pts == NoPts || v.demuxer.fullyRead || r.readOk
  }

  /** The packet calls of an update that goes through: read ahead while the demuxer is
      still reading; once it has read everything, seek back to the start and preload
      when the decoder can. */
  function FetchCalls(v: TrackView, pts: Pts, force: bool, r: Reply): (cs: seq<Call>)
    requires WellFormed(v) && v.dec != null
    ensures v.demuxer.fullyRead ==> SubReadPackets(v.dec, pts, force) !in cs
    ensures v.demuxer.fullyRead ==> (r.canPreload <==> SubPreload(v.dec) in cs)
  {
    if !v.demuxer.fullyRead then [SubReadPackets(v.dec, pts, force)]
    else if r.canPreload then [DemuxSeek(v.demuxer, 0.0), SubPreload(v.dec)]
    else []
  }

  /** The calls that redraw the video output and request a refresh. */
  function RedrawCalls(redraw: bool): (cs: seq<Call>)
    ensures forall c :: c in cs ==> !c.SubReadPackets? && !c.SubPreload?
  {
    if redraw then [OsdResetWantRedraw, VoRedraw, SetTimeout(ForcedRefreshInterval)] else []
  }

  /** update_subtitle for one track. */
  function Step(o: Outputs, v: TrackView, video: VideoState, pastVideoEnd: bool,
                pts: Pts, force: bool, r: Reply): (res: (Outputs, bool))
    requires WellFormed(v)
    ensures res.1 <==> Ready(v, pts, r)
    ensures o.calls <= res.0.calls
    ensures v.dec == null || pts == NoPts ==> res == (o, true)
    ensures !res.1 ==> res.0 == o.(calls := o.calls + [SubReadPackets(v.dec, pts, force)])
  {
    if v.dec == null || pts == NoPts then (o, true)
    else if !v.demuxer.fullyRead && !r.readOk then
      (o.(calls := o.calls + [SubReadPackets(v.dec, pts, force)]), false)
    else
      var text := if v.primary && !video.hasOutput then r.text else o.termText;
      var redraw := DrawsPastVideoEnd(video, pastVideoEnd) && o.forcePts != pts;
      (Outputs(text, if redraw then pts else o.forcePts,
               o.calls + FetchCalls(v, pts, force, r) + RedrawCalls(redraw)), true)
  }

  /** A fully read demuxer is never asked for packets; it is seeked to the start and the
      decoder preloads, exactly when the decoder can preload. */
  lemma StepPreload(o: Outputs, v: TrackView, video: VideoState, pastVideoEnd: bool,
                    pts: Pts, force: bool, r: Reply)
    requires WellFormed(v) && v.dec != null && pts != NoPts && v.demuxer.fullyRead
    ensures var added := Step(o, v, video, pastVideoEnd, pts, force, r).0.calls[|o.calls|..];
      SubReadPackets(v.dec, pts, force) !in added &&
      (r.canPreload <==> SubPreload(v.dec) in added) &&
      (r.canPreload ==> added[..2] == [DemuxSeek(v.demuxer, 0.0), SubPreload(v.dec)])
  {
    var redraw := DrawsPastVideoEnd(video, pastVideoEnd) && o.forcePts != pts;
    var fetch := FetchCalls(v, pts, force, r);
    var redrawCalls := RedrawCalls(redraw);
    var added := Step(o, v, video, pastVideoEnd, pts, force, r).0.calls[|o.calls|..];
    assert added == fetch + redrawCalls;
    assert SubReadPackets(v.dec, pts, force) !in redrawCalls && SubPreload(v.dec) !in redrawCalls;
  }

  /** The terminal text is replaced only for the primary track without a video output,
      and then by the decoder's text at `pts`. */
  lemma StepTermText(o: Outputs, v: TrackView, video: VideoState, pastVideoEnd: bool,
                     pts: Pts, force: bool, r: Reply)
    requires WellFormed(v)
    ensures var res := Step(o, v, video, pastVideoEnd, pts, force, r);
      (res.0.termText != o.termText ==> v.primary && !video.hasOutput && res.0.termText == r.text) &&
      (res.1 && v.dec != null && pts != NoPts && v.primary && !video.hasOutput ==> res.0.termText == r.text)
  {
  }

  /** The forced OSD timestamp changes, with a redraw and a refresh timeout, exactly when
      subtitles are drawn past video end and it differs from `pts`. */
  lemma StepForcePts(o: Outputs, v: TrackView, video: VideoState, pastVideoEnd: bool,
                     pts: Pts, force: bool, r: Reply)
    requires WellFormed(v)
    ensures var res := Step(o, v, video, pastVideoEnd, pts, force, r);
      (res.0.forcePts != o.forcePts <==>
         res.1 && v.dec != null && pts != NoPts && DrawsPastVideoEnd(video, pastVideoEnd) && o.forcePts != pts) &&
      (res.0.forcePts != o.forcePts ==>
         res.0.forcePts == pts &&
         res.0.calls[|res.0.calls| - 3..] == [OsdResetWantRedraw, VoRedraw, SetTimeout(ForcedRefreshInterval)])
  {
  }

  predicate AllWellFormed(vs: seq<TrackView>)
  {
    forall i :: 0 <= i < |vs| ==> WellFormed(vs[i])
  }

  /** update_subtitles: every subtitle track is updated in order, the others are skipped,
      and the results are combined with a non-short-circuit AND. */
  function UpdateAll(o: Outputs, vs: seq<TrackView>, video: VideoState, pastVideoEnd: bool,
                     pts: Pts, force: bool, rs: seq<Reply>): (res: (Outputs, bool))
    requires |vs| == |rs| && AllWellFormed(vs)
    ensures o.calls <= res.0.calls
    decreases |vs|
  {
    if vs == [] then (o, true)
    else
      var first := if vs[0].kind == SubStream then Step(o, vs[0], video, pastVideoEnd, pts, force, rs[0])
                   else (o, true);
      var rest := UpdateAll(first.0, vs[1..], video, pastVideoEnd, pts, force, rs[1..]);
      (rest.0, first.1 && rest.1)
  }

  /** The combined result is true exactly when every subtitle track is ready. */
  lemma {:induction false} UpdateAllReady(o: Outputs, vs: seq<TrackView>, video: VideoState,
                                          pastVideoEnd: bool, pts: Pts, force: bool, rs: seq<Reply>)
    requires |vs| == |rs| && AllWellFormed(vs)
    ensures UpdateAll(o, vs, video, pastVideoEnd, pts, force, rs).1 <==>
      forall i :: 0 <= i < |vs| && vs[i].kind == SubStream ==> Ready(vs[i], pts, rs[i])
    decreases |vs|
  {
    if vs != [] {
      var first := if vs[0].kind == SubStream then Step(o, vs[0], video, pastVideoEnd, pts, force, rs[0])
                   else (o, true);
      UpdateAllReady(first.0, vs[1..], video, pastVideoEnd, pts, force, rs[1..]);
      assert forall i :: 1 <= i < |vs| ==> vs[1..][i - 1] == vs[i] && rs[1..][i - 1] == rs[i];
    }
  }

  /** Without a timestamp nothing is read, drawn or logged, and the result is true. */
  lemma {:induction false} UpdateAllNoPts(o: Outputs, vs: seq<TrackView>, video: VideoState,
                                          pastVideoEnd: bool, force: bool, rs: seq<Reply>)
    requires |vs| == |rs| && AllWellFormed(vs)
    ensures UpdateAll(o, vs, video, pastVideoEnd, NoPts, force, rs) == (o, true)
    decreases |vs|
  {
    if vs != [] {
      UpdateAllNoPts(o, vs[1..], video, pastVideoEnd, force, rs[1..]);
    }
  }

  /** No short-circuit: every subtitle track whose demuxer is still being read is asked for
      packets, whatever the tracks before it returned. */
  lemma {:induction false} UpdateAllReadsEveryTrack(o: Outputs, vs: seq<TrackView>, video: VideoState,
                                                    pastVideoEnd: bool, pts: Pts, force: bool,
                                                    rs: seq<Reply>, i: int)
    requires |vs| == |rs| && AllWellFormed(vs)
    requires 0 <= i < |vs| && vs[i].kind == SubStream && vs[i].dec != null
    requires pts != NoPts && !vs[i].demuxer.fullyRead
    ensures SubReadPackets(vs[i].dec, pts, force) in UpdateAll(o, vs, video, pastVideoEnd, pts, force, rs).0.calls
    decreases |vs|
  {
    var first := if vs[0].kind == SubStream then Step(o, vs[0], video, pastVideoEnd, pts, force, rs[0])
                 else (o, true);
    var rest := UpdateAll(first.0, vs[1..], video, pastVideoEnd, pts, force, rs[1..]);
    if i == 0 {
      assert first.0.calls[|o.calls|] == SubReadPackets(vs[0].dec, pts, force);
      assert rest.0.calls[|o.calls|] == first.0.calls[|o.calls|];
    } else {
      UpdateAllReadsEveryTrack(first.0, vs[1..], video, pastVideoEnd, pts, force, rs[1..], i - 1);
    }
  }

  /** The terminal text is only ever replaced by the text of a primary subtitle track, and
      never while there is a video output. */
  lemma {:induction false} UpdateAllTermText(o: Outputs, vs: seq<TrackView>, video: VideoState,
                                             pastVideoEnd: bool, pts: Pts, force: bool, rs: seq<Reply>)
    requires |vs| == |rs| && AllWellFormed(vs)
    ensures var t := UpdateAll(o, vs, video, pastVideoEnd, pts, force, rs).0.termText;
      t == o.termText ||
      (!video.hasOutput &&
       exists i :: 0 <= i < |vs| && vs[i].kind == SubStream && vs[i].primary && t == rs[i].text)
    decreases |vs|
  {
    if vs != [] {
      var first := if vs[0].kind == SubStream then Step(o, vs[0], video, pastVideoEnd, pts, force, rs[0])
                   else (o, true);
      UpdateAllTermText(first.0, vs[1..], video, pastVideoEnd, pts, force, rs[1..]);
      var t := UpdateAll(o, vs, video, pastVideoEnd, pts, force, rs).0.termText;
      if t != o.termText {
        if t == first.0.termText {
          assert vs[0].kind == SubStream && vs[0].primary && t == rs[0].text;
        } else {
          var i :| 0 <= i < |vs[1..]| && vs[1..][i].kind == SubStream && vs[1..][i].primary && t == rs[1..][i].text;
          assert vs[i + 1] == vs[1..][i] && rs[i + 1] == rs[1..][i];
        }
      }
    }
  }

  /** The forced OSD timestamp either stays or becomes `pts`, and only while subtitles are
      drawn past the end of video. */
  lemma {:induction false} UpdateAllForcePts(o: Outputs, vs: seq<TrackView>, video: VideoState,
                                             pastVideoEnd: bool, pts: Pts, force: bool, rs: seq<Reply>)
    requires |vs| == |rs| && AllWellFormed(vs)
    ensures var f := UpdateAll(o, vs, video, pastVideoEnd, pts, force, rs).0.forcePts;
      f == o.forcePts || (DrawsPastVideoEnd(video, pastVideoEnd) && f == pts)
    decreases |vs|
  {
    if vs != [] {
      var first := if vs[0].kind == SubStream then Step(o, vs[0], video, pastVideoEnd, pts, force, rs[0])
                   else (o, true);
      UpdateAllForcePts(first.0, vs[1..], video, pastVideoEnd, pts, force, rs[1..]);
    }
  }

  /** The read-ahead calls of `n` attempts that found the packets not yet there. */
  function Retries(d: Decoder?, pts: Pts, n: nat): (cs: seq<Call>)
    ensures d != null ==> |cs| == n && forall k :: 0 <= k < n ==> cs[k] == SubReadPackets(d, pts, true)
  {
    if d == null then [] else seq(n, _ => SubReadPackets(d, pts, true))
  }

  /** The paused wait of reinit_sub: update the track with read-ahead forced, one decoder
      reply per wakeup, until an update reports ready. The replies must hold one that
      makes the track ready; otherwise the player would wait forever. */
  ghost function WaitReady(o: Outputs, v: TrackView, video: VideoState, pastVideoEnd: bool,
                           pts: Pts, rs: seq<Reply>): (r: Outputs)
    requires WellFormed(v)
    requires exists i :: 0 <= i < |rs| && Ready(v, pts, rs[i])
    ensures o.calls <= r.calls
    decreases |rs|
  {
    var step := Step(o, v, video, pastVideoEnd, pts, true, rs[0]);
    if step.1 then step.0
    else
      var i :| 0 <= i < |rs| && Ready(v, pts, rs[i]);
      assert i > 0 && rs[1..][i - 1] == rs[i];
      WaitReady(step.0, v, video, pastVideoEnd, pts, rs[1..])
  }

  /** The wait ends at the first ready reply: the attempts before it only log their
      read-ahead calls, and the outputs are those of the ready update. */
  lemma {:induction false} WaitReadyAtFirstReady(o: Outputs, v: TrackView, video: VideoState,
                                                 pastVideoEnd: bool, pts: Pts, rs: seq<Reply>, i: int)
    requires WellFormed(v)
    requires 0 <= i < |rs| && Ready(v, pts, rs[i])
    requires forall j :: 0 <= j < i ==> !Ready(v, pts, rs[j])
    ensures WaitReady(o, v, video, pastVideoEnd, pts, rs) ==
      Step(o.(calls := o.calls + Retries(v.dec, pts, i)), v, video, pastVideoEnd, pts, true, rs[i]).0
    decreases i
  {
    if i == 0 {
      assert Retries(v.dec, pts, 0) == [];
      assert o.(calls := o.calls + []) == o;
    } else {
      assert !Ready(v, pts, rs[0]);
      var o1 := o.(calls := o.calls + [SubReadPackets(v.dec, pts, true)]);
      assert forall j :: 0 <= j < i - 1 ==> rs[1..][j] == rs[j + 1];
      WaitReadyAtFirstReady(o1, v, video, pastVideoEnd, pts, rs[1..], i - 1);
      assert o1.calls + Retries(v.dec, pts, i - 1) == o.calls + Retries(v.dec, pts, i);
    }
  }
}
