# Subtitle session manager of mpv's player (player/sub.c)

This project models mpv's player-side subtitle session manager. For every subtitle track it
keeps a decoder handle, and it keeps those handles consistent with the two-slot subtitle
selection table (slot 0 for primary subtitles, slot 1 for secondary). The model covers:

- resolving the slot of a track (`get_order`);
- resetting and destroying decoders (`reset_subtitles`, `reset_subtitle_state`,
  `uninit_sub`, `uninit_sub_all`);
- the per-frame update (`update_subtitle`, `update_subtitles`);
- the attachment list handed to a new decoder (`get_all_attachments`);
- creating decoders (`init_subdec`) and re-binding them when a track's slot changes
  (`reinit_sub`, `reinit_sub_all`), including the paused wait until the subtitle at the
  current timestamp has been decoded.

The code is written in the same imperative style as the C functions it models:

- The player context is the class `PlayerSub.Player`. Its fields are:
  - the track list;
  - the selection table `currentSub` (an array of 2);
  - the OSD subtitle slots `osdSubs` (an array of 2);
  - the terminal subtitle text;
  - the OSD forced video timestamp;
  - the playback flags;
  - `calls`, a log of the external calls that leave no state in this model (`sub_reset`,
    `sub_destroy`, `sub_read_packets`, `demux_seek`, `vo_redraw`, `error_on_track`, ...).
- Tracks, decoders and demuxers are classes (`SubTypes.Track`, `SubTypes.Decoder`,
  `SubTypes.Demuxer`), because the C code compares them by pointer and assigns
  `track->d_sub` in place.
- Each C function is a method. Its contract states the new state in terms of the old one
  through value-level specification functions:
  - `Slots.IndexOf`, `Slots.Publish`, `Slots.Cleared` for the slots;
  - `Attachments.AttachmentsOf` for the attachment list;
  - `SubUpdate.Step`, `SubUpdate.UpdateAll`, `SubUpdate.WaitReady` for the updates.
- The properties of the C code are lemmas about those functions.

The decoder and the demuxer are oracles:

- Whether `sub_create` succeeds is a `createOk` parameter.
- Each update attempt receives a `Reply`. It holds the result of `sub_can_preload`, the
  result of `sub_read_packets` and the text `sub_get_text` returns.
- A decoder's bound order (`sub_get_order`), stream and attachments are fixed when it is
  created.

`Player.Valid()` is the invariant the session keeps:

- the tracks are distinct;
- no two tracks share a decoder;
- a track only has a decoder when it has a demuxer and a stream.

`get_all_attachments` skips a track's demuxer only when it equals the previous non-null
demuxer (player/sub.c:156-158), so only consecutive repeats are dropped. Two lemmas state
both sides:

- `Attachments.AttachmentsCollapseRun`: a repeat separated only by tracks without a demuxer
  is copied once;
- `Attachments.RepeatIsCopiedAgain`: demuxers `a, b, a` copy `a`'s attachments twice.

## Model

| member | source | states |
|---|---|---|
| Slots.IndexOf | player/sub.c:40-47 | The result is the smallest slot index that holds the track, or -1 exactly when no slot holds it. |
| PlayerSub.Player.GetOrder | player/sub.c:40-47 | The loop with early return computes `IndexOf` of the selection table. |
| Slots.Publish | player/sub.c:75 | `osd_set_sub` stores the decoder in slot `order` and leaves the other slot unchanged. An order outside the slots changes nothing. |
| PlayerSub.Player.OsdSetSub | player/sub.c:75 | The OSD slot array becomes `Publish` of its old contents. |
| SubTypes.ResetCalls | player/sub.c:51-54 | `sub_reset` and `sub_set_play_dir` are called exactly when the track has a decoder. |
| PlayerSub.Player.ResetSubtitles | player/sub.c:49-56 | The calls are the reset calls for the track's decoder, the terminal text is cleared, and nothing else changes. |
| PlayerSub.Player.ResetSubtitleState | player/sub.c:58-63 | Every track is reset in track order, and the terminal text ends up cleared. |
| PlayerSub.ResetAllCalls | player/sub.c:58-63 | The calls `reset_subtitle_state` makes, track by track. They are only `sub_reset` and `sub_set_play_dir` with the player's direction. |
| PlayerSub.ResetAllCallsResetEach | player/sub.c:58-63 | A decoder is reset by `reset_subtitle_state` exactly when some track holds it. |
| SubTypes.UninitCalls | player/sub.c:67-72 | A destroyed decoder is reset and destroyed. A null handle makes no call. |
| PlayerSub.Player.UninitSub | player/sub.c:65-77 | A null track or a track without a decoder changes nothing, so a second destroy is a no-op. Otherwise the OSD slot at the order resolved now is cleared. With `destroy`, the decoder is deselected and destroyed and `d_sub` becomes null. Without it, the decoder is kept. |
| PlayerSub.Player.UninitSubAll | player/sub.c:79-84 | Afterwards no track has a decoder, and every old decoder is deselected. The calls are the uninit calls in track order. The OSD slots are the old ones with each decoder-holding track's slot cleared. The terminal text is cleared if any track had a decoder. The invariant is kept. |
| PlayerSub.Player.UninitNext | player/sub.c:81-83 | One loop iteration extends every one of these facts from the first n tracks to the first n + 1. |
| Slots.Cleared | player/sub.c:79-84 | The OSD slots after `uninit_sub_all`: for each track in order that had a decoder, the slot at its order is cleared. Clearing keeps the number of slots and only ever empties a slot. |
| Slots.ClearedAt | player/sub.c:74-75 | After `uninit_sub_all`, an OSD slot is empty exactly when some track with a decoder resolved to it. Every other slot keeps its content. |
| PlayerSub.UninitAllCalls | player/sub.c:79-84 | The calls `uninit_sub_all` makes, track by track: at most three per track (reset, play direction, destroy). |
| PlayerSub.UninitAllCallsNone | player/sub.c:79-84 | `uninit_sub_all` makes no call exactly when no track holds a decoder. |
| PlayerSub.UninitAllCallsDestroyEach | player/sub.c:79-84 | `uninit_sub_all` destroys exactly the decoders the tracks hold. |
| SubUpdate.Ready | player/sub.c:89-108 | When an update reports true: no decoder, the NOPTS timestamp, a fully read demuxer, or a successful `sub_read_packets`. |
| SubUpdate.DrawsPastVideoEnd | player/sub.c:120-123 | When subtitles are drawn without new video frames: a video output, video at its end, and the option set, or no video track, or a still-picture video track. |
| SubUpdate.Step | player/sub.c:86-133 | The update reports true exactly when the track is ready: no decoder, the NOPTS timestamp, a fully read demuxer, or a successful read. No decoder or NOPTS changes nothing. A false result only logs the failed read. The call log only grows. |
| PlayerSub.Player.UpdateSubtitle | player/sub.c:86-133 | The method's outputs and result are `Step` of the old outputs and the track's view. |
| SubUpdate.FetchCalls | player/sub.c:100-108 | A fully read demuxer is never asked for packets, and preloading happens exactly when the decoder can preload. |
| SubUpdate.RedrawCalls | player/sub.c:124-130 | The redraw calls never read or preload packets. |
| SubUpdate.StepPreload | player/sub.c:100-106 | With a fully read demuxer, the calls an update adds contain no packet read. They contain a preload exactly when the decoder can preload, and then they start with a seek to 0 followed by the preload. |
| SubUpdate.StepTermText | player/sub.c:110-115 | The terminal text changes only for the slot-0 track without a video output, and then to the decoder's text. A successful update of such a track always sets it. |
| SubUpdate.StepForcePts | player/sub.c:120-131 | The forced OSD timestamp changes exactly when subtitles are drawn past video end and it differs from the timestamp. It then becomes the timestamp, and the update ends with redraw, `vo_redraw` and a 0.1 s timeout. |
| SubUpdate.UpdateAll | player/sub.c:139-148 | The call log only grows across the whole pass. |
| SubUpdate.UpdateAllReady | player/sub.c:139-148 | The combined result is true exactly when every subtitle track is ready. Non-subtitle tracks do not count. |
| SubUpdate.UpdateAllNoPts | player/sub.c:89-92 | With the NOPTS timestamp, `update_subtitles` returns true and changes nothing. |
| SubUpdate.UpdateAllReadsEveryTrack | player/sub.c:141-147 | `&=` does not short-circuit. Every subtitle track with a decoder and an unfinished demuxer is asked for packets, whatever earlier tracks returned. |
| SubUpdate.UpdateAllTermText | player/sub.c:110-115 | After the pass, the terminal text is unchanged, or there is no video output and the text is that of a slot-0 subtitle track. |
| SubUpdate.UpdateAllForcePts | player/sub.c:120-131 | After the pass, the forced timestamp is unchanged, or subtitles are drawn past video end and it equals the timestamp. |
| PlayerSub.Player.UpdateSubtitles | player/sub.c:139-148 | The outputs and the result are `UpdateAll` of the old outputs and the views of all tracks, in order. |
| Attachments.AttachmentsOf | player/sub.c:153-168 | The attachment list: each non-null demuxer's attachments in order, skipped when the demuxer equals the previous non-null one. Demuxers that are all null or equal to the marker contribute nothing. |
| PlayerSub.Player.GetAllAttachments | player/sub.c:150-171 | The list built in place equals `AttachmentsOf` of the tracks' demuxers with no previous demuxer. |
| Attachments.AttachmentsIgnoreNull | player/sub.c:156-158 | Tracks without a demuxer neither contribute nor reset the previous-demuxer marker. |
| Attachments.AttachmentsSound | player/sub.c:159-168 | Every collected attachment is a verbatim attachment of some track's demuxer. |
| Attachments.AttachmentsComplete | player/sub.c:154-168 | Every attachment of a demuxer that is not the marker at the start is collected. |
| Attachments.SkipNulls | player/sub.c:156-157 | A run of tracks without a demuxer is skipped without effect. |
| Attachments.AttachmentsCollapseRun | player/sub.c:156-158 | A demuxer repeated after tracks without a demuxer is copied only once. |
| Attachments.RepeatIsCopiedAgain | player/sub.c:156-158 | A repeat that is not consecutive is copied again: `a, b, a` yields `a`, `b`, `a`'s attachments. |
| PlayerSub.VideoFps | player/sub.c:186-189 | The frame-rate hint: the primary video track's codec frame rate when there is one, else 25. Without a video track it is 25. |
| PlayerSub.Player.InitSubdec | player/sub.c:173-193 | Creation succeeds exactly when there is a demuxer, a stream and `sub_create` succeeds. On failure nothing changes. On success, the fresh, unselected decoder has the track's stream, all attachments and the track's order. It then gets the video codec's fps hint, or 25 without one. |
| PlayerSub.BoundOutputs | player/sub.c:201-212 | The call log only grows. When no decoder results, the last call is `error_on_track` for the track. |
| PlayerSub.Skips | player/sub.c:197-198 | `reinit_sub` returns at once for a null track, a track without a stream, or a stream that is not a subtitle stream. |
| PlayerSub.Stale | player/sub.c:201-204 | A decoder is torn down when it exists and its bound order differs from the order resolved now. |
| PlayerSub.Player.BindDecoder | player/sub.c:200-215 | A decoder whose order differs is torn down, clearing the OSD slot at the new order. Otherwise it is kept. A decoder is missing exactly when none was kept and creation could not succeed. A present decoder is selected and bound to the track's order. It is published into the OSD slot only when the track is selected. The invariant is kept. |
| PlayerSub.Player.ReinitSub | player/sub.c:195-240 | A null track, a track without a stream, or a non-subtitle track changes nothing. Otherwise the track ends either with a selected decoder bound to `get_order`, or with no decoder after `error_on_track`. The OSD slots are as in `BindDecoder`. The outputs are those of the binding, followed by the catch-up update when a decoder exists. The invariant is kept. |
| PlayerSub.Player.CatchUp | player/sub.c:217-238 | Nothing happens before playback is initialised. While playing there is one update with read-ahead forced. While paused, updates repeat until one is ready. |
| PlayerSub.Player.WaitUntilReady | player/sub.c:226-235 | The loop's outputs are `WaitReady` over the replies. |
| SubUpdate.WaitReady | player/sub.c:230-232 | The paused wait only adds calls. |
| SubUpdate.WaitReadyAtFirstReady | player/sub.c:230-232 | The wait stops at the first ready reply. Earlier attempts only log their forced read-ahead calls, and the outputs are those of the ready update. |
| PlayerSub.Player.ReinitSubAll | player/sub.c:242-246 | Every track is processed in order. Skipped tracks keep their decoder. Each other track ends with a selected decoder bound to its order, or with no decoder and an `error_on_track` call. Failures do not stop the loop. The invariant is kept. |
| PlayerSub.Player.ReinitNext | player/sub.c:244-245 | One loop iteration extends the per-track end states from the first n tracks to the first n + 1. |

## Left out

- libav_compat.h holds only libavutil version and alias macros. It is not part of this model.
- Passing video parameters to the decoder (`SD_CTRL_SET_VIDEO_PARAMS`, player/sub.c:94-98) is not modelled. It leaves no state here.
- The paused wait takes a finite sequence of decoder replies, one per wakeup, and requires one of them to make the track ready. The C loop waits without bound, and a wait that never ends is not modelled.
- The wakeup callback, the dispatch queue that sleeps between attempts, `talloc` memory management and `MP_VERBOSE` logging are not modelled.
- Timestamps and frame rates are abstract reals compared only for equality, plus a NOPTS value. No floating-point arithmetic is modelled.
- Whether a demuxer is fully read is fixed per demuxer. It does not change between updates.
- `osd_set_sub` is taken to ignore an order outside the two slots, such as -1 for a track in no slot. The OSD module (osd.c) is not part of this model.
- The internals of the decoder and the demuxer are oracle parameters. These are `sub_create`, `sub_read_packets`, `sub_can_preload`, `sub_preload`, `sub_get_text`, `sub_control`, `sub_reset`, `sub_set_play_dir`, `sub_destroy` and `demux_seek`. The calls that leave no state are recorded in the call log.
- `sub_select` is the decoder's `selected` flag.
- `error_on_track` is only recorded in the call log. The player's handler for a failed track, outside player/sub.c, also deselects the track; that effect is not modelled.
- PlayerSub.Player.ReinitSubAll: states each track's end state and the growth of the call log. It does not state the composed OSD slots and outputs of the whole pass. Those follow from `ReinitSub` applied track by track.
- PlayerSub.Player.ReinitSub: the requirement that the tracks' decoders are distinct and belong to tracks with a demuxer and a stream (`Valid`) is the session invariant. The C code keeps it but does not check it.
