/**
  The attachment list handed to a new subtitle decoder (get_all_attachments):
  the attachments of every track's demuxer, skipping a demuxer only when it is the
  same as the previous non-null one. Repeats that are not consecutive are copied again.
 */
module Attachments {
  import opened SubTypes

  /** The demuxer of each track, in track order. */
  function DemuxersOf(ts: seq<Track>): (ds: seq<Demuxer?>)
    ensures |ds| == |ts| && forall i :: 0 <= i < |ts| ==> ds[i] == ts[i].demuxer
  {
    seq(|ts|, i requires 0 <= i < |ts| => ts[i].demuxer)
  }

  /** The attachments copied from demuxers `ds` when the last non-null demuxer seen is `prev`. */
  function AttachmentsOf(ds: seq<Demuxer?>, prev: Demuxer?): (r: seq<Attachment>)
    ensures (forall i :: 0 <= i < |ds| ==> ds[i] == null || ds[i] == prev) ==> r == []
  {
    if ds == [] then []
    else if ds[0] == null || ds[0] == prev then AttachmentsOf(ds[1..], prev)
    else ds[0].attachments + AttachmentsOf(ds[1..], ds[0])
  }

  /** The non-null demuxers, in order. */
  function NonNull(ds: seq<Demuxer?>): (r: seq<Demuxer>)
    ensures |r| <= |ds|
    ensures forall i :: 0 <= i < |r| ==> r[i] in ds
  {
    if ds == [] then []
    else if ds[0] == null then NonNull(ds[1..])
    else [ds[0]] + NonNull(ds[1..])
  }

  /** Tracks without a demuxer neither contribute nor reset the "previous demuxer" marker:
      the result is the same as over the non-null demuxers alone. */
  lemma {:induction false} AttachmentsIgnoreNull(ds: seq<Demuxer?>, prev: Demuxer?)
    ensures AttachmentsOf(ds, prev) == AttachmentsOf(NonNull(ds), prev)
  {
    if ds != [] {
      AttachmentsIgnoreNull(ds[1..], prev);
      if ds[0] != null {
        AttachmentsIgnoreNull(ds[1..], ds[0]);
        var nn := NonNull(ds);
        assert nn[0] == ds[0] && nn[1..] == NonNull(ds[1..]);
      }
    }
  }

  /** Every copied attachment comes from one of the demuxers. */
  lemma {:induction false} AttachmentsSound(ds: seq<Demuxer?>, prev: Demuxer?, a: Attachment)
    requires a in AttachmentsOf(ds, prev)
    ensures exists i :: 0 <= i < |ds| && ds[i] != null && a in ds[i].attachments
  {
    if ds[0] == null || ds[0] == prev || a !in ds[0].attachments {
      AttachmentsSound(ds[1..], if ds[0] == null || ds[0] == prev then prev else ds[0], a);
      var i :| 0 <= i < |ds[1..]| && ds[1..][i] != null && a in ds[1..][i].attachments;
      assert ds[i + 1] == ds[1..][i];
    } else {
      assert ds[0] != null && a in ds[0].attachments;
    }
  }

  /** Every attachment of every demuxer other than the starting marker is copied; so,
      starting from no previous demuxer, nothing any track refers to is lost. */
  lemma {:induction false} AttachmentsComplete(ds: seq<Demuxer?>, prev: Demuxer?, i: int, a: Attachment)
    requires 0 <= i < |ds| && ds[i] != null && ds[i] != prev && a in ds[i].attachments
    ensures a in AttachmentsOf(ds, prev)
  {
    if i == 0 {
      assert AttachmentsOf(ds, prev) == ds[0].attachments + AttachmentsOf(ds[1..], ds[0]);
    } else if ds[0] == null || ds[0] == prev {
      AttachmentsComplete(ds[1..], prev, i - 1, a);
    } else if ds[i] == ds[0] {
      assert AttachmentsOf(ds, prev) == ds[0].attachments + AttachmentsOf(ds[1..], ds[0]);
    } else {
      AttachmentsComplete(ds[1..], ds[0], i - 1, a);
    }
  }

  /** A demuxer that follows itself (possibly across demuxer-less tracks) is copied once. */
  lemma {:induction false} AttachmentsCollapseRun(d: Demuxer, gap: nat, rest: seq<Demuxer?>, prev: Demuxer?)
    ensures AttachmentsOf([d] + seq(gap, _ => null) + [d] + rest, prev)
         == AttachmentsOf([d] + rest, prev)
  {
    var nulls: seq<Demuxer?> := seq(gap, _ => null);
    var run := [d] + nulls + [d] + rest;
    assert run[0] == d && run[1..] == nulls + ([d] + rest);
    assert ([d] + rest)[0] == d && ([d] + rest)[1..] == rest;
    SkipNulls(gap, [d] + rest, if d == prev then prev else d);
  }

  /** Tracks without a demuxer are passed over. */
  lemma {:induction false} SkipNulls(gap: nat, tail: seq<Demuxer?>, prev: Demuxer?)
    ensures AttachmentsOf(seq(gap, _ => null) + tail, prev) == AttachmentsOf(tail, prev)
  {
    var nulls: seq<Demuxer?> := seq(gap, _ => null);
    if gap == 0 {
      assert nulls + tail == tail;
    } else {
      assert (nulls + tail)[0] == null;
      assert (nulls + tail)[1..] == seq(gap - 1, _ => null) + tail;
      SkipNulls(gap - 1, tail, prev);
    }
  }

  /** The dedup is not set-based: a demuxer that comes back after another one is copied again. */
  lemma RepeatIsCopiedAgain(a: Demuxer, b: Demuxer)
    requires a != b
    ensures AttachmentsOf([a, b, a], null) == a.attachments + b.attachments + a.attachments
  {
    var ds: seq<Demuxer?> := [a, b, a];
    assert ds[1..] == [b, a] && ds[1..][1..] == [a] && ds[1..][1..][1..] == [];
    assert AttachmentsOf([a], b) == a.attachments + AttachmentsOf([], a);
    assert AttachmentsOf([b, a], a) == b.attachments + AttachmentsOf([a], b);
    assert AttachmentsOf(ds, null) == a.attachments + AttachmentsOf([b, a], a);
  }
}
