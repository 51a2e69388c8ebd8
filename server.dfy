/** The render server's shared state: the current job, the frames completed
    for it, the finished animation, and the delivery progress of every
    connected viewer, with the per-viewer delivery state machine. */
module Server {
  import opened Shared

  /** Identity of a connected viewer (its mailbox address in the source). */
  type ClientId = nat
  type Bytes = seq<u8>

  datatype ParallelType = PerBlock | PerFrame

  datatype RenderJob = RenderJob(
    totalFrames: nat,
    samplesPerPixel: u32,
    width: u16,
    height: u16,
    parallel: ParallelType)

  /** `RenderJob::default()`, the job queued at start-up. */
  const DEFAULT_JOB: RenderJob := RenderJob(40, 128 / 4, 1280 / 4, 720 / 4, PerFrame)

  /** A finished frame: its raw RGB image and its PNG thumbnail. */
  datatype RenderFrame = RenderFrame(img: Bytes, png: Bytes)

  /** The current job, its frames in completion order (each tagged with its
      frame index) and, once built, the animated GIF. */
  datatype RenderStatus = RenderStatus(job: RenderJob, frames: seq<(nat, RenderFrame)>, gif: Option<Bytes>)

  /** What a viewer still needs to be sent. */
  datatype ClientState =
    | NeedsConfig
    | NeedsFrameMeta(i: nat)
    | NeedsFrame(i: nat)
    | NeedsGifMeta
    | NeedsGif
    | Complete

  type PoolStatus = string

  datatype MetaMsg = Frame(index: nat) | Gif | Reset(job: RenderJob, poolStatus: PoolStatus)
  datatype Msg = Meta(meta: MetaMsg) | Binary(data: Bytes)

  /** Result of `try_send` on a viewer's mailbox. */
  datatype SendOutcome = Delivered | Full | Closed

  /** A viewer's bounded mailbox as `try_send` sees it: closed, or open with
      `room` free slots. */
  datatype Mailbox = Mailbox(closed: bool, room: nat)

  function TrySend(mailbox: Mailbox): SendOutcome
  {
    if mailbox.closed then Closed else if mailbox.room == 0 then Full else Delivered
  }

  /** The mailbox after it accepted one message. */
  function Accept(mailbox: Mailbox): Mailbox
    requires TrySend(mailbox) == Delivered
  {
    mailbox.(room := mailbox.room - 1)
  }

  /** Frames only ever belong to the current job, at most one per frame of
      it, and the GIF is built only once every frame is in. */
  ghost predicate StatusValid(r: RenderStatus)
  {
    |r.frames| <= r.job.totalFrames && (r.gif.Some? ==> |r.frames| == r.job.totalFrames)
  }

  /** A viewer's progress never runs ahead of what has been rendered; this
      is what makes the `frames[i]` lookups of `update_client` safe. */
  ghost predicate ClientValid(r: RenderStatus, cs: ClientState)
  {
    match cs
    case NeedsConfig => true
    case NeedsFrameMeta(i) => i <= |r.frames|
    case NeedsFrame(i) => i < |r.frames|
    case NeedsGifMeta => |r.frames| == r.job.totalFrames
    case NeedsGif => |r.frames| == r.job.totalFrames
    case Complete => |r.frames| == r.job.totalFrames && r.gif.Some?
  }

  /** `needs_gif`: every frame of the job is in and no GIF exists yet. */
  predicate GifPending(r: RenderStatus)
  {
    |r.frames| == r.job.totalFrames && r.gif.None?
  }

  /** Remaining steps of a viewer's delivery; every step that changes the
      state lowers it. */
  function Rank(r: RenderStatus, cs: ClientState): nat
    requires StatusValid(r) && ClientValid(r, cs)
  {
    var total := r.job.totalFrames;
    match cs
    case NeedsConfig => 2 * total + 4
    case NeedsFrameMeta(i) => 2 * (total - i) + 3
    case NeedsFrame(i) => 2 * (total - i) + 2
    case NeedsGifMeta => 2
    case NeedsGif => 1
    case Complete => 0
  }

  /** One evaluation of `update_client`'s match: wait, move on without
      sending, or send a message and move on if the send succeeds. */
  datatype Step = Wait | Skip(next: ClientState) | Emit(msg: Msg, next: ClientState)

  function NextStep(r: RenderStatus, cs: ClientState, poolStatus: PoolStatus): (step: Step)
    requires StatusValid(r) && ClientValid(r, cs)
    ensures !step.Wait? ==> ClientValid(r, step.next) && Rank(r, step.next) < Rank(r, cs)
  {
    match cs
    case NeedsConfig => Emit(Meta(Reset(r.job, poolStatus)), NeedsFrameMeta(0))
    case NeedsFrameMeta(i) =>
      if i == r.job.totalFrames then Skip(NeedsGifMeta)
      else if i == |r.frames| then Wait
      else Emit(Meta(Frame(r.frames[i].0)), NeedsFrame(i))
    case NeedsFrame(i) => Emit(Binary(r.frames[i].1.png), NeedsFrameMeta(i + 1))
    case NeedsGifMeta => Emit(Meta(Gif), NeedsGif)
    case NeedsGif => if r.gif.Some? then Emit(Binary(r.gif.value), Complete) else Wait
    case Complete => Wait
  }

  datatype PassResult = PassResult(state: ClientState, mailbox: Mailbox, sent: seq<Msg>)

  /** A whole `update_client` pass: steps until the viewer has to wait or a
      send is refused, returning the final state, the mailbox and the
      messages delivered. */
  function ClientPass(r: RenderStatus, cs: ClientState, mailbox: Mailbox, poolStatus: PoolStatus): (res: PassResult)
    requires StatusValid(r) && ClientValid(r, cs)
    ensures ClientValid(r, res.state)
    ensures res.mailbox.closed == mailbox.closed && res.mailbox.room + |res.sent| == mailbox.room
    ensures Rank(r, res.state) <= Rank(r, cs)
    decreases Rank(r, cs)
  {
    match NextStep(r, cs, poolStatus)
    case Wait => PassResult(cs, mailbox, [])
    case Skip(next) => ClientPass(r, next, mailbox, poolStatus)
    case Emit(msg, next) =>
      if TrySend(mailbox) == Delivered then
        var rest := ClientPass(r, next, Accept(mailbox), poolStatus);
        PassResult(rest.state, rest.mailbox, [msg] + rest.sent)
      else
        PassResult(cs, mailbox, [])
  }

  /** One unfolding of `ClientPass`, for callers that step through it. */
  lemma PassStep(r: RenderStatus, cs: ClientState, mailbox: Mailbox, poolStatus: PoolStatus)
    requires StatusValid(r) && ClientValid(r, cs)
    ensures var step := NextStep(r, cs, poolStatus);
      ClientPass(r, cs, mailbox, poolStatus) ==
        if step.Wait? then PassResult(cs, mailbox, [])
        else if step.Skip? then ClientPass(r, step.next, mailbox, poolStatus)
        else if TrySend(mailbox) != Delivered then PassResult(cs, mailbox, [])
        else
          var rest := ClientPass(r, step.next, Accept(mailbox), poolStatus);
          PassResult(rest.state, rest.mailbox, [step.msg] + rest.sent)
  {
  }

  // ---------------------------------------------------------------------
  // The delivery protocol: the messages a viewer receives, in order.

  function FrameMessages(frames: seq<(nat, RenderFrame)>): seq<Msg>
  {
    if frames == [] then []
    else
      var last := frames[|frames| - 1];
      FrameMessages(frames[..|frames| - 1]) + [Meta(Frame(last.0)), Binary(last.1.png)]
  }

  /** Everything a viewer is to receive for the current status: the config,
      a frame notice and the PNG of every completed frame in completion
      order, then, once all frames are in, the GIF notice and, once built,
      the GIF. */
  function Protocol(r: RenderStatus, poolStatus: PoolStatus): seq<Msg>
  {
    [Meta(Reset(r.job, poolStatus))] + FrameMessages(r.frames) +
    if |r.frames| == r.job.totalFrames then
      [Meta(Gif)] + if r.gif.Some? then [Binary(r.gif.value)] else []
    else []
  }

  /** How many protocol messages a viewer in state `cs` has received. */
  function Pos(r: RenderStatus, cs: ClientState): nat
  {
    var total := r.job.totalFrames;
    match cs
    case NeedsConfig => 0
    case NeedsFrameMeta(i) => 2 * i + 1
    case NeedsFrame(i) => 2 * i + 2
    case NeedsGifMeta => 2 * total + 1
    case NeedsGif => 2 * total + 2
    case Complete => 2 * total + 3
  }

  lemma {:induction false} FrameMessagesAt(frames: seq<(nat, RenderFrame)>)
    ensures |FrameMessages(frames)| == 2 * |frames|
    ensures forall i :: 0 <= i < |frames| ==>
      FrameMessages(frames)[2 * i] == Meta(Frame(frames[i].0)) &&
      FrameMessages(frames)[2 * i + 1] == Binary(frames[i].1.png)
  {
    if frames != [] {
      var init := frames[..|frames| - 1];
      FrameMessagesAt(init);
      forall i | 0 <= i < |frames|
        ensures FrameMessages(frames)[2 * i] == Meta(Frame(frames[i].0))
        ensures FrameMessages(frames)[2 * i + 1] == Binary(frames[i].1.png)
      {
        if i < |init| {
          assert init[i] == frames[i];
        }
      }
    }
  }

  /** The shape of the protocol: config first, then a frame notice and the
      frame's PNG for each completed frame (the notice carries the frame's
      own index, not its completion position), then the GIF notice and the
      GIF. */
  lemma ProtocolAt(r: RenderStatus, poolStatus: PoolStatus)
    requires StatusValid(r)
    ensures var p := Protocol(r, poolStatus);
      && |p| == 1 + 2 * |r.frames| + (if |r.frames| == r.job.totalFrames then 1 + (if r.gif.Some? then 1 else 0) else 0)
      && p[0] == Meta(Reset(r.job, poolStatus))
      && (forall i :: 0 <= i < |r.frames| ==>
            p[2 * i + 1] == Meta(Frame(r.frames[i].0)) && p[2 * i + 2] == Binary(r.frames[i].1.png))
      && (|r.frames| == r.job.totalFrames ==> p[2 * |r.frames| + 1] == Meta(Gif))
      && (r.gif.Some? ==> p[2 * |r.frames| + 2] == Binary(r.gif.value))
  {
    FrameMessagesAt(r.frames);
    var p := Protocol(r, poolStatus);
    forall i | 0 <= i < |r.frames|
      ensures p[2 * i + 1] == Meta(Frame(r.frames[i].0)) && p[2 * i + 2] == Binary(r.frames[i].1.png)
    {
      assert p[2 * i + 1] == FrameMessages(r.frames)[2 * i];
      assert p[2 * i + 2] == FrameMessages(r.frames)[2 * i + 1];
    }
  }

  /** A single step follows the protocol: a send is the next protocol
      message, a silent move keeps the count, and the viewer waits exactly
      when it has received everything currently available. */
  lemma StepFollowsProtocol(r: RenderStatus, cs: ClientState, poolStatus: PoolStatus)
    requires StatusValid(r) && ClientValid(r, cs)
    ensures var p := Protocol(r, poolStatus);
      && Pos(r, cs) <= |p|
      && (NextStep(r, cs, poolStatus).Wait? <==> Pos(r, cs) == |p|)
      && (NextStep(r, cs, poolStatus).Skip? ==> Pos(r, NextStep(r, cs, poolStatus).next) == Pos(r, cs))
      && (NextStep(r, cs, poolStatus).Emit? ==>
            && Pos(r, cs) < |p|
            && p[Pos(r, cs)] == NextStep(r, cs, poolStatus).msg
            && Pos(r, NextStep(r, cs, poolStatus).next) == Pos(r, cs) + 1)
  {
    ProtocolAt(r, poolStatus);
  }

  /** A pass delivers exactly the protocol messages between the viewer's
      old and new positions, with no gap, repeat or reordering; it stops
      only when the viewer is caught up or the mailbox refuses a message. */
  lemma {:induction false} PassFollowsProtocol(r: RenderStatus, cs: ClientState, mailbox: Mailbox, poolStatus: PoolStatus)
    requires StatusValid(r) && ClientValid(r, cs)
    ensures var res := ClientPass(r, cs, mailbox, poolStatus);
      var p := Protocol(r, poolStatus);
      && Pos(r, cs) <= Pos(r, res.state) <= |p|
      && res.sent == p[Pos(r, cs) .. Pos(r, res.state)]
      && (Pos(r, res.state) == |p| || TrySend(res.mailbox) != Delivered)
    decreases Rank(r, cs)
  {
    StepFollowsProtocol(r, cs, poolStatus);
    PassStep(r, cs, mailbox, poolStatus);
    var p := Protocol(r, poolStatus);
    match NextStep(r, cs, poolStatus)
    case Wait =>
    case Skip(next) =>
      PassFollowsProtocol(r, next, mailbox, poolStatus);
    case Emit(msg, next) =>
      if TrySend(mailbox) == Delivered {
        PassFollowsProtocol(r, next, Accept(mailbox), poolStatus);
        var rest := ClientPass(r, next, Accept(mailbox), poolStatus);
        SliceCons(p, Pos(r, cs), Pos(r, rest.state));
      }
  }

  lemma SliceCons<T>(p: seq<T>, a: nat, c: nat)
    requires a < c <= |p|
    ensures p[a..c] == [p[a]] + p[a + 1..c]
  {
  }

  /** A refused send (mailbox full or closed) delivers nothing and leaves the
      viewer where it was, apart from the silent move past the last frame. */
  lemma PassRefused(r: RenderStatus, cs: ClientState, mailbox: Mailbox, poolStatus: PoolStatus)
    requires StatusValid(r) && ClientValid(r, cs)
    requires TrySend(mailbox) != Delivered
    ensures var res := ClientPass(r, cs, mailbox, poolStatus);
      && res.sent == [] && res.mailbox == mailbox
      && res.state == if cs == NeedsFrameMeta(r.job.totalFrames) then NeedsGifMeta else cs
  {
    if cs == NeedsFrameMeta(r.job.totalFrames) {
      assert ClientPass(r, cs, mailbox, poolStatus) == ClientPass(r, NeedsGifMeta, mailbox, poolStatus);
    }
  }

  /** With an open mailbox that has room for everything outstanding, a pass
      brings the viewer fully up to date. */
  lemma PassCatchesUp(r: RenderStatus, cs: ClientState, mailbox: Mailbox, poolStatus: PoolStatus)
    requires StatusValid(r) && ClientValid(r, cs)
    requires !mailbox.closed && Pos(r, cs) + mailbox.room >= |Protocol(r, poolStatus)|
    ensures var res := ClientPass(r, cs, mailbox, poolStatus);
      && Pos(r, res.state) == |Protocol(r, poolStatus)|
      && res.sent == Protocol(r, poolStatus)[Pos(r, cs)..]
  {
    PassFollowsProtocol(r, cs, mailbox, poolStatus);
  }

  /** A new viewer of a finished job, given room for the whole protocol,
      receives exactly: the config, then for each frame its notice and its
      PNG, then the GIF notice and the GIF, and ends Complete. */
  lemma FinishedJobDelivery(r: RenderStatus, mailbox: Mailbox, poolStatus: PoolStatus)
    requires StatusValid(r) && |r.frames| == r.job.totalFrames && r.gif.Some?
    requires !mailbox.closed && mailbox.room >= 2 * r.job.totalFrames + 3
    ensures var res := ClientPass(r, NeedsConfig, mailbox, poolStatus);
      && res.state == Complete
      && res.sent == Protocol(r, poolStatus)
      && |res.sent| == 2 * r.job.totalFrames + 3
  {
    ProtocolAt(r, poolStatus);
    PassCatchesUp(r, NeedsConfig, mailbox, poolStatus);
    var res := ClientPass(r, NeedsConfig, mailbox, poolStatus);
    match res.state
    case NeedsFrameMeta(i) =>
    case NeedsFrame(i) =>
    case _ =>
  }

  /** `r2` is `r1` after more frames or the GIF arrived for the same job. */
  ghost predicate Extends(r1: RenderStatus, r2: RenderStatus)
  {
    && StatusValid(r1) && StatusValid(r2)
    && r1.job == r2.job
    && r1.frames <= r2.frames
    && (r1.gif.Some? ==> r2.gif == r1.gif)
  }

  /** Growth of the render status only appends to the protocol and keeps
      every viewer's progress valid. */
  lemma ExtendsProtocol(r1: RenderStatus, r2: RenderStatus, cs: ClientState, poolStatus: PoolStatus)
    requires Extends(r1, r2) && ClientValid(r1, cs)
    ensures Protocol(r1, poolStatus) <= Protocol(r2, poolStatus)
    ensures ClientValid(r2, cs) && Pos(r2, cs) == Pos(r1, cs)
  {
    FrameMessagesPrefix(r1.frames, r2.frames);
    if |r1.frames| == r1.job.totalFrames {
      assert r1.frames == r2.frames;
    }
  }

  lemma {:induction false} FrameMessagesPrefix(f1: seq<(nat, RenderFrame)>, f2: seq<(nat, RenderFrame)>)
    requires f1 <= f2
    ensures FrameMessages(f1) <= FrameMessages(f2)
    decreases |f2|
  {
    if |f1| < |f2| {
      var init := f2[..|f2| - 1];
      assert f1 <= init;
      FrameMessagesPrefix(f1, init);
    } else {
      assert f1 == f2;
    }
  }

  /** The delivery across a series of passes, one per evaluation, while the
      status grows from `rs[0]` to `rs[|rs| - 1]`; `mailboxes[k]` is the
      mailbox as pass `k` finds it. */
  function Session(rs: seq<RenderStatus>, mailboxes: seq<Mailbox>, cs: ClientState, poolStatus: PoolStatus): (res: PassResult)
    requires |rs| == |mailboxes| > 0
    requires forall k :: 0 <= k < |rs| - 1 ==> Extends(rs[k], rs[k + 1])
    requires StatusValid(rs[0]) && ClientValid(rs[0], cs)
    ensures ClientValid(rs[|rs| - 1], res.state)
    decreases |rs|
  {
    var first := ClientPass(rs[0], cs, mailboxes[0], poolStatus);
    if |rs| == 1 then first
    else
      ExtendsProtocol(rs[0], rs[1], first.state, poolStatus);
      var rest := Session(rs[1..], mailboxes[1..], first.state, poolStatus);
      PassResult(rest.state, rest.mailbox, first.sent + rest.sent)
  }

  /** Over any series of passes the viewer receives a contiguous stretch of
      the final protocol, from where it started to where it ends: frames
      arriving between passes never cause a gap, a repeat or a reordering. */
  lemma {:induction false} SessionFollowsProtocol(rs: seq<RenderStatus>, mailboxes: seq<Mailbox>, cs: ClientState, poolStatus: PoolStatus)
    requires |rs| == |mailboxes| > 0
    requires forall k :: 0 <= k < |rs| - 1 ==> Extends(rs[k], rs[k + 1])
    requires StatusValid(rs[0]) && ClientValid(rs[0], cs)
    ensures var res := Session(rs, mailboxes, cs, poolStatus);
      var last := rs[|rs| - 1];
      && Pos(last, cs) <= Pos(last, res.state) <= |Protocol(last, poolStatus)|
      && res.sent == Protocol(last, poolStatus)[Pos(last, cs) .. Pos(last, res.state)]
    decreases |rs|
  {
    PassFollowsProtocol(rs[0], cs, mailboxes[0], poolStatus);
    if |rs| > 1 {
      var first := ClientPass(rs[0], cs, mailboxes[0], poolStatus);
      var tail := rs[1..];
      ExtendsProtocol(rs[0], rs[1], first.state, poolStatus);
      TailExtends(rs);
      SessionFollowsProtocol(tail, mailboxes[1..], first.state, poolStatus);
      ExtendsChain(rs, 0, first.state, poolStatus);
      ExtendsChain(rs, 0, cs, poolStatus);
      var last := rs[|rs| - 1];
      assert tail[|tail| - 1] == last;
      var rest := Session(tail, mailboxes[1..], first.state, poolStatus);
      var p0, p := Protocol(rs[0], poolStatus), Protocol(last, poolStatus);
      var a, b, c := Pos(last, cs), Pos(last, first.state), Pos(last, rest.state);
      PrefixSlice(p0, p, a, b);
      SliceConcat(p, a, b, c);
      var res := Session(rs, mailboxes, cs, poolStatus);
      assert res == PassResult(rest.state, rest.mailbox, first.sent + rest.sent);
    }
  }

  lemma PrefixSlice<T>(p0: seq<T>, p: seq<T>, a: nat, b: nat)
    requires p0 <= p && a <= b <= |p0|
    ensures p0[a..b] == p[a..b]
  {
    assert p0 == p[..|p0|];
  }

  lemma SliceConcat<T>(p: seq<T>, a: nat, b: nat, c: nat)
    requires a <= b <= c <= |p|
    ensures p[a..b] + p[b..c] == p[a..c]
  {
  }

  lemma TailExtends(rs: seq<RenderStatus>)
    requires |rs| > 1
    requires forall k :: 0 <= k < |rs| - 1 ==> Extends(rs[k], rs[k + 1])
    ensures forall k :: 0 <= k < |rs[1..]| - 1 ==> Extends(rs[1..][k], rs[1..][k + 1])
  {
    forall k | 0 <= k < |rs[1..]| - 1 ensures Extends(rs[1..][k], rs[1..][k + 1]) {
      assert rs[1..][k] == rs[k + 1] && rs[1..][k + 1] == rs[k + 2];
    }
  }

  /** Statuses later in a growing series extend earlier ones. */
  lemma {:induction false} ExtendsChain(rs: seq<RenderStatus>, k: nat, cs: ClientState, poolStatus: PoolStatus)
    requires |rs| > 0 && k < |rs|
    requires forall j :: 0 <= j < |rs| - 1 ==> Extends(rs[j], rs[j + 1])
    requires StatusValid(rs[0]) && ClientValid(rs[k], cs)
    ensures Protocol(rs[k], poolStatus) <= Protocol(rs[|rs| - 1], poolStatus)
    ensures ClientValid(rs[|rs| - 1], cs) && Pos(rs[|rs| - 1], cs) == Pos(rs[k], cs)
    decreases |rs| - k
  {
    if k < |rs| - 1 {
      ExtendsProtocol(rs[k], rs[k + 1], cs, poolStatus);
      ExtendsChain(rs, k + 1, cs, poolStatus);
    }
  }

  // ---------------------------------------------------------------------
  // Ordering frames for the GIF.

  /** `s` is in ascending order of frame index. */
  predicate SortedByIndex<T>(s: seq<(nat, T)>)
  {
    forall i, j :: 0 <= i < j < |s| ==> s[i].0 <= s[j].0
  }

  /** Places `x` after every element whose index is not greater than its own. */
  function InsertByIndex<T>(x: (nat, T), s: seq<(nat, T)>): seq<(nat, T)>
  {
    if s == [] then [x]
    else if x.0 < s[0].0 then [x] + s
    else [s[0]] + InsertByIndex(x, s[1..])
  }

  /** `sort_by_key` on the frame index; a stable sort. */
  function SortByIndex<T>(s: seq<(nat, T)>): seq<(nat, T)>
  {
    if s == [] then []
    else InsertByIndex(s[|s| - 1], SortByIndex(s[..|s| - 1]))
  }

  lemma {:induction false} InsertByIndexPerm<T>(x: (nat, T), s: seq<(nat, T)>)
    ensures multiset(InsertByIndex(x, s)) == multiset(s) + multiset{x}
  {
    if s != [] && x.0 >= s[0].0 {
      InsertByIndexPerm(x, s[1..]);
      assert s == [s[0]] + s[1..];
    }
  }

  lemma {:induction false} InsertByIndexBounded<T>(x: (nat, T), s: seq<(nat, T)>, lo: nat)
    requires x.0 >= lo && forall k :: 0 <= k < |s| ==> s[k].0 >= lo
    ensures forall k :: 0 <= k < |InsertByIndex(x, s)| ==> InsertByIndex(x, s)[k].0 >= lo
  {
    if s != [] && x.0 >= s[0].0 {
      InsertByIndexBounded(x, s[1..], lo);
    }
  }

  lemma {:induction false} InsertByIndexSorted<T>(x: (nat, T), s: seq<(nat, T)>)
    requires SortedByIndex(s)
    ensures SortedByIndex(InsertByIndex(x, s))
  {
    if s != [] && x.0 >= s[0].0 {
      var rest := InsertByIndex(x, s[1..]);
      InsertByIndexSorted(x, s[1..]);
      InsertByIndexBounded(x, s[1..], s[0].0);
      var out := [s[0]] + rest;
      forall i, j | 0 <= i < j < |out| ensures out[i].0 <= out[j].0 {
        assert out[j] == rest[j - 1];
        if i > 0 {
          assert out[i] == rest[i - 1];
        }
      }
    }
  }

  /** The GIF's frame order: ascending frame index, and exactly the
      completed frames, each as often as it was completed. */
  lemma {:induction false} SortByIndexCorrect<T>(s: seq<(nat, T)>)
    ensures SortedByIndex(SortByIndex(s))
    ensures multiset(SortByIndex(s)) == multiset(s)
  {
    if s != [] {
      var init := s[..|s| - 1];
      SortByIndexCorrect(init);
      InsertByIndexSorted(s[|s| - 1], SortByIndex(init));
      InsertByIndexPerm(s[|s| - 1], SortByIndex(init));
      assert s == init + [s[|s| - 1]];
    }
  }

  /** The image of every frame, in the given order. */
  function FrameImages(raws: seq<(nat, Bytes)>): (imgs: seq<Bytes>)
    ensures |imgs| == |raws| && forall k :: 0 <= k < |raws| ==> imgs[k] == raws[k].1
  {
    seq(|raws|, k requires 0 <= k < |raws| => raws[k].1)
  }

  /** One iteration of `update_client`'s loop: the match on the viewer's
      state and, for a message, the `try_send`. It stops the pass when the
      viewer must wait or the send is refused; otherwise the rest of the
      pass continues from `next` and `accepted` after `delivered`. */
  method Advance(r: RenderStatus, cs: ClientState, mailbox: Mailbox, poolStatus: PoolStatus)
    returns (stop: bool, next: ClientState, delivered: seq<Msg>, accepted: Mailbox)
    requires StatusValid(r) && ClientValid(r, cs)
    ensures ClientValid(r, next)
    ensures stop ==> ClientPass(r, cs, mailbox, poolStatus) == PassResult(cs, mailbox, [])
    ensures !stop ==>
      && Rank(r, next) < Rank(r, cs)
      && ClientPass(r, cs, mailbox, poolStatus).state == ClientPass(r, next, accepted, poolStatus).state
      && ClientPass(r, cs, mailbox, poolStatus).mailbox == ClientPass(r, next, accepted, poolStatus).mailbox
      && ClientPass(r, cs, mailbox, poolStatus).sent == delivered + ClientPass(r, next, accepted, poolStatus).sent
  {
    PassStep(r, cs, mailbox, poolStatus);
    match NextStep(r, cs, poolStatus) {
      case Wait =>
        stop, next, delivered, accepted := true, cs, [], mailbox;
      case Skip(n) =>
        stop, next, delivered, accepted := false, n, [], mailbox;
      case Emit(msg, n) =>
        match TrySend(mailbox) {
          case Delivered =>
            stop, next, delivered, accepted := false, n, [msg], Accept(mailbox);
          case Full =>
            stop, next, delivered, accepted := true, cs, [], mailbox;
          case Closed =>
            stop, next, delivered, accepted := true, cs, [], mailbox;
        }
    }
  }

  /** `update_client`: deliver to a viewer through its mailbox for as long
      as it has something to receive and the mailbox accepts it; the
      viewer's state is updated in place in the source. */
  method UpdateClient(r: RenderStatus, state: ClientState, mailbox: Mailbox, poolStatus: PoolStatus)
    returns (newState: ClientState, sent: seq<Msg>, after: Mailbox)
    requires StatusValid(r) && ClientValid(r, state)
    ensures var pass := ClientPass(r, state, mailbox, poolStatus);
      newState == pass.state && sent == pass.sent && after == pass.mailbox
  {
    var cs := state;
    sent := [];
    after := mailbox;
    ghost var total := ClientPass(r, state, mailbox, poolStatus);
    while true
      invariant ClientValid(r, cs)
      invariant total.state == ClientPass(r, cs, after, poolStatus).state
      invariant total.mailbox == ClientPass(r, cs, after, poolStatus).mailbox
      invariant total.sent == sent + ClientPass(r, cs, after, poolStatus).sent
      decreases Rank(r, cs)
    {
      var stop, next, delivered, accepted := Advance(r, cs, after, poolStatus);
      if stop {
        break;
      }
      assert total.sent == (sent + delivered) + ClientPass(r, next, accepted, poolStatus).sent;
      sent := sent + delivered;
      after := accepted;
      cs := next;
    }
    newState := cs;
  }

  // ---------------------------------------------------------------------
  // The shared server state.

  class ServerData {
    var clients: map<ClientId, ClientState>
    var render: RenderStatus

    ghost predicate Valid()
      reads this
    {
      StatusValid(render) && forall id :: id in clients ==> ClientValid(render, clients[id])
    }

    /** The state `main` starts from: no viewers and the default status. */
    constructor ()
      ensures Valid() && clients == map[] && render == RenderStatus(DEFAULT_JOB, [], None)
    {
      clients := map[];
      render := RenderStatus(DEFAULT_JOB, [], None);
    }

    /** A viewer connects and starts from `NeedsConfig`; its address is new
        (the source asserts so). */
    method Started(id: ClientId)
      requires Valid() && id !in clients
      modifies this
      ensures Valid() && render == old(render)
      ensures clients == old(clients)[id := NeedsConfig]
    {
      clients := clients[id := NeedsConfig];
    }

    /** A viewer disconnects and its progress is dropped; it was registered
        (the source asserts so). */
    method Stopping(id: ClientId)
      requires Valid() && id in clients
      modifies this
      ensures Valid() && render == old(render)
      ensures clients == old(clients) - {id}
    {
      clients := clients - {id};
    }

    /** The state part of `reset_job`: the status restarts empty for the new
        job and every viewer goes back to `NeedsConfig`. */
    method ResetJob(job: RenderJob)
      requires Valid()
      modifies this
      ensures Valid()
      ensures render == RenderStatus(job, [], None)
      ensures clients.Keys == old(clients).Keys
      ensures forall id :: id in clients ==> clients[id] == NeedsConfig
    {
      render := RenderStatus(job, [], None);
      var remaining := clients.Keys;
      while remaining != {}
        invariant remaining <= clients.Keys && clients.Keys == old(clients).Keys
        invariant forall id :: id in clients && id !in remaining ==> clients[id] == NeedsConfig
        invariant render == RenderStatus(job, [], None)
        decreases remaining
      {
        var id :| id in remaining;
        clients := clients[id := NeedsConfig];
        remaining := remaining - {id};
      }
    }

    /** The controller's drain loop: every job waiting in the queue is
        applied in turn, so only the last one survives. */
    method DrainJobs(queue: seq<RenderJob>)
      requires Valid()
      modifies this
      ensures Valid()
      ensures queue == [] ==> render == old(render) && clients == old(clients)
      ensures queue != [] ==>
        && render == RenderStatus(queue[|queue| - 1], [], None)
        && clients.Keys == old(clients).Keys
        && forall id :: id in clients ==> clients[id] == NeedsConfig
    {
      var i := 0;
      while i < |queue|
        invariant 0 <= i <= |queue|
        invariant Valid() && clients.Keys == old(clients).Keys
        invariant i == 0 ==> render == old(render) && clients == old(clients)
        invariant i > 0 ==> render == RenderStatus(queue[i - 1], [], None)
        invariant i > 0 ==> forall id :: id in clients ==> clients[id] == NeedsConfig
      {
        ResetJob(queue[i]);
        i := i + 1;
      }
    }

    /** A rendered frame arrives for the current job and is appended in
        completion order. The frame producer of the current job sends one
        frame per frame of the job, so the status is never over-full. */
    method PushFrame(index: nat, frame: RenderFrame)
      requires Valid() && |render.frames| < render.job.totalFrames
      modifies this
      ensures Valid() && clients == old(clients)
      ensures render == old(render).(frames := old(render).frames + [(index, frame)])
      ensures Extends(old(render), render)
    {
      render := render.(frames := render.frames + [(index, frame)]);
    }

    /** `render_gif`: the frame images in ascending frame-index order are
        encoded (by the supplied GIF encoder) and stored as the GIF. */
    method RenderGif(encode: (seq<Bytes>, u16, u16) -> Bytes)
      requires Valid() && GifPending(render)
      modifies this
      ensures Valid() && clients == old(clients)
      ensures render == old(render).(gif := Some(encode(
        FrameImages(SortByIndex(RawFrames(old(render).frames))), old(render).job.width, old(render).job.height)))
      ensures Extends(old(render), render) && !GifPending(render)
    {
      var raws := RawFrames(render.frames);
      raws := SortByIndex(raws);
      var gif := encode(FrameImages(raws), render.job.width, render.job.height);
      render := render.(gif := Some(gif));
    }

    /** `update_client` on the entry of viewer `id` in the client map. */
    method ApplyPass(id: ClientId, mailbox: Mailbox, poolStatus: PoolStatus) returns (pass: PassResult)
      requires Valid() && id in clients
      modifies this
      ensures Valid() && render == old(render)
      ensures pass == ClientPass(render, old(clients)[id], mailbox, poolStatus)
      ensures clients == old(clients)[id := pass.state]
    {
      var cs, out, mb := UpdateClient(render, clients[id], mailbox, poolStatus);
      pass := PassResult(cs, mb, out);
      clients := clients[id := cs];
    }

    /** `update_clients`: one pass for every viewer, in whatever order the
        map yields them. Passes are independent, so each viewer ends as its
        own pass leaves it, whatever the order; no viewer is added or
        removed. `passes[id]` records what viewer `id` was sent and its
        mailbox afterwards. */
    method UpdateClients(mailboxes: map<ClientId, Mailbox>, poolStatus: PoolStatus)
      returns (passes: map<ClientId, PassResult>)
      requires Valid() && clients.Keys <= mailboxes.Keys
      modifies this
      ensures Valid() && render == old(render)
      ensures clients.Keys == old(clients).Keys && passes.Keys == clients.Keys
      ensures forall id :: id in old(clients) ==>
        passes[id] == ClientPass(render, old(clients)[id], mailboxes[id], poolStatus) && clients[id] == passes[id].state
    {
      passes := map[];
      ghost var before := clients;
      var remaining := clients.Keys;
      while remaining != {}
        invariant Valid() && render == old(render)
        invariant forall id :: id in clients <==> id in before
        invariant forall id :: id in remaining ==> id in clients && clients[id] == before[id]
        invariant forall id :: id in passes <==> id in before && id !in remaining
        invariant forall id :: id in passes ==>
          passes[id] == ClientPass(render, before[id], mailboxes[id], poolStatus) && clients[id] == passes[id].state
        decreases remaining
      {
        var id :| id in remaining;
        var pass := ApplyPass(id, mailboxes[id], poolStatus);
        passes := passes[id := pass];
        remaining := remaining - {id};
      }
    }

    /** The end of one controller iteration: every viewer gets its pass
        against the status as it stands, and only afterwards, if every frame
        is in and no GIF exists yet, the GIF is built; so viewers receive
        the last frame before the controller spends time on the GIF, and
        no GIF is left pending. */
    method ServeThenBuildGif(mailboxes: map<ClientId, Mailbox>, poolStatus: PoolStatus,
                             encode: (seq<Bytes>, u16, u16) -> Bytes)
      returns (passes: map<ClientId, PassResult>)
      requires Valid() && clients.Keys <= mailboxes.Keys
      modifies this
      ensures Valid()
      ensures clients.Keys == old(clients).Keys && passes.Keys == clients.Keys
      ensures forall id :: id in old(clients) ==>
        passes[id] == ClientPass(old(render), old(clients)[id], mailboxes[id], poolStatus) && clients[id] == passes[id].state
      ensures render == if GifPending(old(render)) then old(render).(gif := Some(encode(
        FrameImages(SortByIndex(RawFrames(old(render).frames))), old(render).job.width, old(render).job.height)))
        else old(render)
      ensures Extends(old(render), render) && !GifPending(render)
    {
      passes := UpdateClients(mailboxes, poolStatus);
      if GifPending(render) {
        RenderGif(encode);
      }
    }
  }

  /** The `(index, image)` pairs `render_gif` sorts. */
  function RawFrames(frames: seq<(nat, RenderFrame)>): (raws: seq<(nat, Bytes)>)
    ensures |raws| == |frames|
    ensures forall k :: 0 <= k < |frames| ==> raws[k] == (frames[k].0, frames[k].1.img)
  {
    seq(|frames|, k requires 0 <= k < |frames| => (frames[k].0, frames[k].1.img))
  }

  /** When the stored frames carry the indices `0 .. n-1`, each once,
      `render_gif` hands the encoder the image of frame `k` as its `k`-th
      image, whatever order the frames were stored in. */
  lemma GifFrameOrder(frames: seq<(nat, RenderFrame)>)
    requires forall i :: 0 <= i < |frames| ==> frames[i].0 < |frames|
    requires forall i, j :: 0 <= i < j < |frames| ==> frames[i].0 != frames[j].0
    ensures var imgs := FrameImages(SortByIndex(RawFrames(frames)));
      |imgs| == |frames| && forall i :: 0 <= i < |frames| ==> imgs[frames[i].0] == frames[i].1.img
  {
    var raws := RawFrames(frames);
    var sorted := SortByIndex(raws);
    SortByIndexCorrect(raws);
    assert |sorted| == |raws| by {
      assert |multiset(sorted)| == |multiset(raws)|;
    }
    assert Distinct(raws) by {
      forall i, j | 0 <= i < j < |raws| ensures raws[i] != raws[j] {
        assert raws[i].0 == frames[i].0 && raws[j].0 == frames[j].0;
      }
    }
    DistinctByMultiset(sorted, raws);
    forall i, j | 0 <= i < j < |sorted| ensures sorted[i].0 < sorted[j].0 {
      var mi := Occurrence(raws, sorted[i]);
      var mj := Occurrence(raws, sorted[j]);
      assert raws[mi].0 == frames[mi].0 && raws[mj].0 == frames[mj].0;
    }
    forall k | 0 <= k < |sorted| ensures sorted[k].0 < |sorted| {
      var m := Occurrence(raws, sorted[k]);
      assert raws[m].0 == frames[m].0;
    }
    forall i | 0 <= i < |frames| ensures FrameImages(sorted)[frames[i].0] == frames[i].1.img {
      assert raws[i] in multiset(sorted);
      var k := Occurrence(sorted, raws[i]);
      IndexIsRank(sorted, k);
    }
  }

  /** In a sequence of `n` entries whose indices strictly increase and stay
      below `n`, entry `k` has index `k`. */
  lemma IndexIsRank<T>(s: seq<(nat, T)>, k: nat)
    requires forall i, j :: 0 <= i < j < |s| ==> s[i].0 < s[j].0
    requires forall i :: 0 <= i < |s| ==> s[i].0 < |s|
    requires k < |s|
    ensures s[k].0 == k
  {
    RankFromBelow(s, k);
    RankFromAbove(s, k);
  }

  lemma {:induction false} RankFromBelow<T>(s: seq<(nat, T)>, k: nat)
    requires forall i, j :: 0 <= i < j < |s| ==> s[i].0 < s[j].0
    requires k < |s|
    ensures k <= s[k].0
  {
    if k > 0 {
      RankFromBelow(s, k - 1);
    }
  }

  lemma {:induction false} RankFromAbove<T>(s: seq<(nat, T)>, k: nat)
    requires forall i, j :: 0 <= i < j < |s| ==> s[i].0 < s[j].0
    requires forall i :: 0 <= i < |s| ==> s[i].0 < |s|
    requires k < |s|
    ensures s[k].0 <= k
    decreases |s| - k
  {
    if k + 1 < |s| {
      RankFromAbove(s, k + 1);
    }
  }
}
