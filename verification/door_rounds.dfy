// One round of the tracking loop as a step of values, and what holds over every run of rounds:
// who is announced to the lock controller, how often, and on which identification results.
module DoorRounds {
  import opened Words
  import opened Cobs
  import opened Frames
  import opened DoorTracker

  const CMD_IDENTIFY := 0x10
  const CMD_UNKNOWN := 0x11
  const CMD_NOFACE := 0x12
  const CMD_MULTIFACE := 0x13
  const DIR_PI_TO_STM32 := 0x01

  /** The settings; gbk converts names for the display. */
  datatype Config = Config(confirmFrames: nat, skipFrames: nat, overlap: Overlap, gbk: string -> seq<byte>)

  /** What one round sees: the faces in the picture, the time, and whether the port is open. */
  datatype Picture = Picture(faces: seq<Detection>, now: real, open: bool)

  /** The state of the loop.  histories holds every identification result of every track so far;
      it is no part of the program. */
  datatype World = World(
    tracks: seq<Track>, nextTrackId: nat, frameCount: nat,
    lastUartCmd: string, lastUartTime: real, lastNoFaceSent: real,
    histories: map<nat, seq<string>>)

  datatype FaceState = NoFace | Identified | UnknownFace | ManyFaces

  /** The command string that debounces. */
  function CommandText(state: FaceState, name: string): string {
    match state
    case Identified => "IDENTIFY:" + name
    case UnknownFace => "UNKNOWN"
    case ManyFaces => "MULTIFACE"
    case NoFace => "NOFACE"
  }

  predicate DoInfer(frameCount: nat, skipFrames: nat, noTracks: bool)
    requires skipFrames > 0
  {
    frameCount % skipFrames == 1 || (noTracks && frameCount % 2 == 1)
  }

  /** While a track is live, some frames are looked at exactly when the skip is not one: inference
      in every frame cannot be asked for. */
  lemma InfersIffSkipIsNotOne(skipFrames: nat)
    requires skipFrames > 0
    ensures (exists frameCount: nat :: DoInfer(frameCount, skipFrames, false)) <==> skipFrames != 1
  {
    if skipFrames != 1 {
      assert 1 % skipFrames == 1;
      assert DoInfer(1, skipFrames, false);
    } else {
      forall frameCount: nat
        ensures !DoInfer(frameCount, 1, false)
      {
        DivideByOne(frameCount);
      }
    }
  }

  lemma DivideByOne(n: nat)
    ensures n % 1 == 0
  {
  }

  // ---- a round ----

  /** Whether the next picture is looked at. */
  predicate Looks(c: Config, w: World)
    requires c.skipFrames > 0
  {
    DoInfer(w.frameCount + 1, c.skipFrames, w.tracks == [])
  }

  ghost predicate Matches(c: Config, w: World, faces: seq<Detection>, m: seq<int>) {
    && Greedy(Boxes(w.tracks), DetectionBoxes(faces), c.overlap, m)
    && |m| == |w.tracks| && forall t :: 0 <= t < |m| ==> -1 <= m[t] < |faces|
  }

  /** After the inference on a picture, with matching m. */
  ghost function AfterInfer(c: Config, w: World, faces: seq<Detection>, now: real, m: seq<int>): World
    requires Matches(c, w, faces, m)
  {
    var created := Created(faces, UsedBy(m, |faces|), w.nextTrackId, now);
    w.(tracks := Updated(w.tracks, faces, m, now) + created,
       nextTrackId := w.nextTrackId + |created|,
       histories := Extended(w.histories, w.tracks, faces, m, w.nextTrackId + |created|))
  }

  /** The name to announce, if the only track is confirmed, named and not announced yet. */
  function Announced(c: Config, tracks: seq<Track>): string {
    if |tracks| == 1 && tracks[0].confirmCount >= c.confirmFrames && !tracks[0].resultSent then tracks[0].name else ""
  }

  function Marked(c: Config, tracks: seq<Track>): seq<Track> {
    if Announced(c, tracks) != "" then [tracks[0].(resultSent := true)] else tracks
  }

  /** What the tracks, after marking, amount to. */
  function StateOf(tracks: seq<Track>): FaceState {
    if |tracks| > 1 then ManyFaces
    else if |tracks| == 0 then NoFace
    else if tracks[0].name == "" then UnknownFace
    else if tracks[0].resultSent then Identified
    else NoFace
  }

  /** The bytes of a name in an IDENTIFY frame. */
  function NameData(c: Config, name: string): seq<byte> { c.gbk(name)[..|c.gbk(name)| % 0x1_0000] }

  /** The command that gets through the debouncing. */
  function Command(c: Config, w: World, state: FaceState, name: string, now: real): Option<Frame> {
    match state
    case Identified =>
      if name != "" && |NameData(c, name)| <= MAX_DATA_LEN
         && (CommandText(state, name) != w.lastUartCmd || now - w.lastUartTime > 3.0)
      then Some(Frame(CMD_IDENTIFY, DIR_PI_TO_STM32, NameData(c, name))) else None
    case UnknownFace => if w.lastUartCmd != "UNKNOWN" then Some(Frame(CMD_UNKNOWN, DIR_PI_TO_STM32, [])) else None
    case ManyFaces => if w.lastUartCmd != "MULTIFACE" then Some(Frame(CMD_MULTIFACE, DIR_PI_TO_STM32, [])) else None
    case NoFace => if now - w.lastNoFaceSent > 2.0 then Some(Frame(CMD_NOFACE, DIR_PI_TO_STM32, [])) else None
  }

  predicate Is(sent: Option<Frame>, cmd: byte) { sent.Some? && sent.value.cmd == cmd }

  /** The frame of IDENTIFY carries the converted name; the length of the conversion is cast to 16
      bits, so of a conversion of 65536 bytes or more only the first bytes would be sent. */
  ghost predicate Carries(c: Config, sent: Frame, name: string) {
    && sent.cmd == 0x10 && sent.dir == 0x01
    && (|c.gbk(name)| < 0x1_0000 ==> sent.data == c.gbk(name))
    && (|c.gbk(name)| >= 0x1_0000 ==> sent.data == c.gbk(name)[..|c.gbk(name)| % 0x1_0000])
  }

  /** Exactly when each command is sent. */
  lemma CommandIff(c: Config, w: World, state: FaceState, name: string, now: real)
    requires name != "" ==> state == Identified
    ensures var sent := Command(c, w, state, name, now);
            && (Is(sent, CMD_IDENTIFY) <==>
                  && name != "" && |c.gbk(name)| % 0x1_0000 <= 64
                  && ("IDENTIFY:" + name != w.lastUartCmd || now - w.lastUartTime > 3.0))
            && (Is(sent, CMD_IDENTIFY) ==> Carries(c, sent.value, name))
            && (Is(sent, CMD_UNKNOWN) ==> sent.value == Frame(0x11, 0x01, []))
            && (Is(sent, CMD_NOFACE) ==> sent.value == Frame(0x12, 0x01, []))
            && (Is(sent, CMD_MULTIFACE) ==> sent.value == Frame(0x13, 0x01, []))
            && (Is(sent, CMD_UNKNOWN) <==> state == UnknownFace && w.lastUartCmd != "UNKNOWN")
            && (Is(sent, CMD_MULTIFACE) <==> state == ManyFaces && w.lastUartCmd != "MULTIFACE")
            && (Is(sent, CMD_NOFACE) <==> state == NoFace && now - w.lastNoFaceSent > 2.0)
            && (sent.Some? ==> Sendable(sent.value) && sent.value.dir == DIR_PI_TO_STM32)
  {
  }

  function AfterReport(w: World, sent: Option<Frame>, state: FaceState, name: string, now: real): World {
    w.(lastUartTime := if sent.Some? then now else w.lastUartTime,
       lastUartCmd := if sent.Some? && state != NoFace then CommandText(state, name) else w.lastUartCmd,
       lastNoFaceSent := if sent.Some? && state == NoFace then now else w.lastNoFaceSent)
  }

  /** The state before the report: the picture is looked at if it is its turn, stale tracks go, and
      a confirmed track is marked. */
  ghost function BeforeReport(c: Config, w: World, p: Picture, m: seq<int>): World
    requires c.skipFrames > 0
    requires Looks(c, w) ==> Matches(c, w, p.faces, m)
  {
    var counted := w.(frameCount := w.frameCount + 1);
    var seen := if Looks(c, w)
                then AfterInfer(c, counted, p.faces, p.now, m) else counted;
    seen.(tracks := Fresh(seen.tracks, p.now))
  }

  /** The round from w to w2 on the picture p, in which sent was written. */
  ghost predicate Round(c: Config, w: World, p: Picture, w2: World, sent: Option<Frame>)
    requires c.skipFrames > 0
  {
    exists m ::
      && (Looks(c, w) ==> Matches(c, w, p.faces, m))
      && RoundWith(c, w, p, m, w2, sent)
  }

  ghost predicate RoundWith(c: Config, w: World, p: Picture, m: seq<int>, w2: World, sent: Option<Frame>)
    requires c.skipFrames > 0
    requires Looks(c, w) ==> Matches(c, w, p.faces, m)
  {
    var w1 := BeforeReport(c, w, p, m);
    var name := Announced(c, w1.tracks);
    var marked := w1.(tracks := Marked(c, w1.tracks));
    var state := StateOf(marked.tracks);
    && sent == (if p.open then Command(c, marked, state, name, p.now) else None)
    && w2 == AfterReport(marked, sent, state, name, p.now)
  }

  lemma MatchingOf(c: Config, w: World, p: Picture, w2: World, sent: Option<Frame>) returns (m: seq<int>)
    requires c.skipFrames > 0 && Round(c, w, p, w2, sent)
    ensures Looks(c, w) ==> Matches(c, w, p.faces, m)
    ensures RoundWith(c, w, p, m, w2, sent)
  {
    hide Matches, RoundWith;
    m :| && (Looks(c, w) ==> Matches(c, w, p.faces, m))
         && RoundWith(c, w, p, m, w2, sent);
  }

  /** The histories hold nothing but results: a round that looks at the picture adds to each live
      track exactly what identify said of the detection matched to it, whichever way the matching
      is found; a round that does not look adds nothing. */
  lemma HistoriesAreResults(c: Config, w: World, p: Picture, w2: World, sent: Option<Frame>, m: seq<int>)
    requires Invariant(c, w) && Round(c, w, p, w2, sent)
    requires Looks(c, w) ==> Matches(c, w, p.faces, m)
    ensures !Looks(c, w) ==> w2.histories == w.histories
    ensures forall t :: 0 <= t < |w.tracks| ==>
              && w.tracks[t].id in w.histories && w.tracks[t].id in w2.histories
              && w2.histories[w.tracks[t].id] == w.histories[w.tracks[t].id] +
                   (if Looks(c, w) && m[t] >= 0 then [p.faces[m[t]].identified] else [])
    ensures forall id :: id in w.histories && (forall t :: 0 <= t < |w.tracks| ==> w.tracks[t].id != id) ==>
              id in w2.histories && w2.histories[id] == w.histories[id]
    ensures forall id :: id in w2.histories && id !in w.histories ==> w2.histories[id] == []
  {
    hide Greedy, GreedyAt, Tells, RoundWith, Round, Extended, ResultsFor, Boxes, DetectionBoxes, Looks;
    var n := MatchingOf(c, w, p, w2, sent);
    HistoriesAfter(c, w, p, n, w2, sent);
    if Looks(c, w) {
      GreedyIsUnique(Boxes(w.tracks), DetectionBoxes(p.faces), c.overlap, m, n);
      forall id | id in w2.histories
        ensures w2.histories[id] ==
                  (if id in w.histories then w.histories[id] else []) + ResultsFor(w.tracks, p.faces, m, id)
        ensures forall t :: 0 <= t < |w.tracks| && w.tracks[t].id == id ==>
                  ResultsFor(w.tracks, p.faces, m, id) == if m[t] >= 0 then [p.faces[m[t]].identified] else []
        ensures (forall t :: 0 <= t < |w.tracks| ==> w.tracks[t].id != id) ==>
                  ResultsFor(w.tracks, p.faces, m, id) == []
      {
        ResultsAre(w.tracks, p.faces, m, id);
      }
    }
  }

  lemma HistoriesAfter(c: Config, w: World, p: Picture, m: seq<int>, w2: World, sent: Option<Frame>)
    requires Invariant(c, w)
    requires Looks(c, w) ==> Matches(c, w, p.faces, m)
    requires RoundWith(c, w, p, m, w2, sent)
    ensures !Looks(c, w) ==> w2.histories == w.histories
    ensures Looks(c, w) ==>
              && w2.histories.Keys >= w.histories.Keys
              && forall id :: id in w2.histories ==>
                   w2.histories[id] ==
                     (if id in w.histories then w.histories[id] else []) + ResultsFor(w.tracks, p.faces, m, id)
  {
    hide Greedy, Tells, Created, Updated, Fresh, Command, ResultsFor;
  }

  // ---- what every round keeps ----

  /** Every live track has a history and says what it says; ids are never used twice. */
  ghost predicate Invariant(c: Config, w: World) {
    && c.skipFrames > 0 && w.lastUartCmd != "NOFACE"
    && (forall id :: id in w.histories <==> 0 <= id < w.nextTrackId)
    && DistinctIds(w.tracks)
    && (forall i :: 0 <= i < |w.tracks| ==>
          w.tracks[i].id in w.histories && Tells(w.tracks[i], w.histories[w.tracks[i].id]))
  }

  function Start(now: real): World { World([], 0, 0, "", now, now, map[]) }

  lemma StartIsFine(c: Config, now: real)
    requires c.skipFrames > 0
    ensures Invariant(c, Start(now))
  {
  }

  /** A result of another name, or of nobody, from position at on. */
  ghost predicate OtherSince(h: seq<string>, name: string, at: nat) {
    exists k :: at <= k < |h| && h[k] != name
  }

  /** Name was announced for the track id when it had at results: the track remembers, unless a
      different result has come since. */
  ghost predicate Remembers(w: World, id: nat, name: string, at: nat) {
    && id in w.histories && 0 < at <= |w.histories[id]| && w.histories[id][at - 1] == name != ""
    && forall i :: 0 <= i < |w.tracks| && w.tracks[i].id == id ==>
         w.tracks[i].resultSent || OtherSince(w.histories[id], name, at)
  }

  // The tracks after an inference, one by one.
  lemma InferredTrack(c: Config, w: World, faces: seq<Detection>, now: real, m: seq<int>, i: nat)
    requires Invariant(c, w) && Matches(c, w, faces, m) && i < |AfterInfer(c, w, faces, now, m).tracks|
    ensures var n := AfterInfer(c, w, faces, now, m);
            var t := n.tracks[i];
            && t.id in n.histories && Tells(t, n.histories[t.id])
            && (i < |w.tracks| ==> t.id == w.tracks[i].id)
            && (i >= |w.tracks| ==> t.id == w.nextTrackId + (i - |w.tracks|) && !t.resultSent)
            && (i < |w.tracks| && m[i] < 0 ==> t == w.tracks[i] && n.histories[t.id] == w.histories[t.id])
            && (i < |w.tracks| && m[i] >= 0 ==>
                  && n.histories[t.id] == w.histories[t.id] + [faces[m[i]].identified]
                  && t == Observe(w.tracks[i].(box := faces[m[i]].box, lastSeen := now), faces[m[i]].identified))
  {
    hide Invariant, Matches, AfterInfer, Tells, Observe;
    if i < |w.tracks| {
      OldTrack(c, w, faces, now, m, i);
    } else {
      NewTrack(c, w, faces, now, m, i);
    }
  }

  lemma OldTrack(c: Config, w: World, faces: seq<Detection>, now: real, m: seq<int>, i: nat)
    requires Invariant(c, w) && Matches(c, w, faces, m) && i < |w.tracks|
    ensures var n := AfterInfer(c, w, faces, now, m);
            var t := w.tracks[i];
            && |w.tracks| <= |n.tracks| && n.tracks[i].id == t.id && t.id in n.histories && t.id in w.histories
            && Tells(n.tracks[i], n.histories[t.id])
            && (m[i] < 0 ==> n.tracks[i] == t && n.histories[t.id] == w.histories[t.id])
            && (m[i] >= 0 ==>
                  && n.histories[t.id] == w.histories[t.id] + [faces[m[i]].identified]
                  && n.tracks[i] == Observe(t.(box := faces[m[i]].box, lastSeen := now), faces[m[i]].identified))
  {
    hide Greedy, GreedyAt, LastOf, Streak, Created, UsedBy;
    var n := AfterInfer(c, w, faces, now, m);
    var t := w.tracks[i];
    ResultsAre(w.tracks, faces, m, t.id);
    assert n.tracks[i] == Updated(w.tracks, faces, m, now)[i];
    if m[i] >= 0 {
      ObserveTells(t.(box := faces[m[i]].box, lastSeen := now), w.histories[t.id], faces[m[i]].identified);
    } else {
      assert w.histories[t.id] + [] == w.histories[t.id];
    }
  }

  lemma NewTrack(c: Config, w: World, faces: seq<Detection>, now: real, m: seq<int>, i: nat)
    requires Invariant(c, w) && Matches(c, w, faces, m) && |w.tracks| <= i < |AfterInfer(c, w, faces, now, m).tracks|
    ensures var n := AfterInfer(c, w, faces, now, m);
            var t := n.tracks[i];
            && t.id == w.nextTrackId + (i - |w.tracks|) && !t.resultSent
            && t.id in n.histories && Tells(t, n.histories[t.id])
  {
    hide Greedy, GreedyAt, Observe, Created;
    var n := AfterInfer(c, w, faces, now, m);
    var used := UsedBy(m, |faces|);
    CreatedAre(faces, used, w.nextTrackId, now);
    var t := n.tracks[i];
    assert t == Created(faces, used, w.nextTrackId, now)[i - |w.tracks|];
    ResultsAre(w.tracks, faces, m, t.id);
    assert n.histories[t.id] == [] + [];
  }

  lemma InferKeeps(c: Config, w: World, faces: seq<Detection>, now: real, m: seq<int>)
    requires Invariant(c, w) && Matches(c, w, faces, m)
    ensures Invariant(c, AfterInfer(c, w, faces, now, m))
    ensures var n := AfterInfer(c, w, faces, now, m);
            forall id :: id in w.histories ==> id in n.histories && w.histories[id] <= n.histories[id]
  {
    hide Greedy, GreedyAt, Tells, Matches, Created, Updated;
    var n := AfterInfer(c, w, faces, now, m);
    forall i | 0 <= i < |n.tracks|
      ensures n.tracks[i].id in n.histories && Tells(n.tracks[i], n.histories[n.tracks[i].id])
      ensures i < |w.tracks| ==> n.tracks[i].id == w.tracks[i].id
      ensures i >= |w.tracks| ==> n.tracks[i].id == w.nextTrackId + (i - |w.tracks|)
    {
      InferredTrack(c, w, faces, now, m, i);
    }
    forall i, j | 0 <= i < j < |n.tracks|
      ensures n.tracks[i].id != n.tracks[j].id
    {
      if i < |w.tracks| {
        assert w.tracks[i].id in w.histories;
      }
    }
  }

  lemma InferRemembers(c: Config, w: World, faces: seq<Detection>, now: real, m: seq<int>,
                       id: nat, name: string, at: nat)
    requires Invariant(c, w) && Matches(c, w, faces, m) && Remembers(w, id, name, at)
    ensures Remembers(AfterInfer(c, w, faces, now, m), id, name, at)
  {
    hide Greedy, GreedyAt, Created, Updated, Streak, AfterInfer;
    var n := AfterInfer(c, w, faces, now, m);
    InferKeeps(c, w, faces, now, m);
    var h, h2 := w.histories[id], n.histories[id];
    forall i | 0 <= i < |n.tracks| && n.tracks[i].id == id
      ensures n.tracks[i].resultSent || OtherSince(h2, name, at)
    {
      InferredTrack(c, w, faces, now, m, i);
      assert i < |w.tracks|;
      var t := w.tracks[i];
      if OtherSince(h, name, at) {
        var k :| at <= k < |h| && h[k] != name;
        assert h2[k] != name;
      } else if m[i] >= 0 && faces[m[i]].identified != t.name {
        assert |h| == at || h[|h| - 1] == name;
        assert h2[|h|] != name;
      }
    }
  }

  lemma FewerTracks(c: Config, w: World, now: real)
    requires Invariant(c, w)
    ensures Invariant(c, w.(tracks := Fresh(w.tracks, now)))
    ensures var n := w.(tracks := Fresh(w.tracks, now));
            forall id, name, at: nat :: Remembers(w, id, name, at) ==> Remembers(n, id, name, at)
  {
    hide Tells, Fresh, OtherSince;
    var kept := FreshOf(w.tracks, now);
  }

  /** The state before the report keeps the invariant and what the tracks remember. */
  lemma BeforeReportKeeps(c: Config, w: World, p: Picture, m: seq<int>)
    requires Invariant(c, w)
    requires Looks(c, w) ==> Matches(c, w, p.faces, m)
    ensures Invariant(c, BeforeReport(c, w, p, m))
    ensures forall id :: id in w.histories ==>
              id in BeforeReport(c, w, p, m).histories && w.histories[id] <= BeforeReport(c, w, p, m).histories[id]
    ensures forall id, name, at: nat :: Remembers(w, id, name, at) ==> Remembers(BeforeReport(c, w, p, m), id, name, at)
  {
    hide Tells, Fresh, OtherSince, Matches, AfterInfer;
    var counted := w.(frameCount := w.frameCount + 1);
    assert forall id, name, at: nat :: Remembers(w, id, name, at) ==> Remembers(counted, id, name, at);
    if Looks(c, w) {
      MatchesAgain(c, w, counted, p.faces, m);
      InferKeeps(c, counted, p.faces, p.now, m);
      forall id, name, at: nat | Remembers(counted, id, name, at)
        ensures Remembers(AfterInfer(c, counted, p.faces, p.now, m), id, name, at)
      {
        InferRemembers(c, counted, p.faces, p.now, m, id, name, at);
      }
      FewerTracks(c, AfterInfer(c, counted, p.faces, p.now, m), p.now);
    } else {
      FewerTracks(c, counted, p.now);
    }
  }

  lemma MatchesAgain(c: Config, w: World, w2: World, faces: seq<Detection>, m: seq<int>)
    requires Matches(c, w, faces, m) && w2.tracks == w.tracks
    ensures Matches(c, w2, faces, m)
  {
  }

  lemma CommandsDiffer(state: FaceState, name: string)
    ensures state != NoFace ==> CommandText(state, name) != "NOFACE"
    ensures state != UnknownFace ==> CommandText(state, name) != "UNKNOWN"
    ensures state != ManyFaces ==> CommandText(state, name) != "MULTIFACE"
    ensures CommandText(UnknownFace, name) == "UNKNOWN" && CommandText(ManyFaces, name) == "MULTIFACE"
  {
    assert CommandText(state, name)[0] ==
      match state { case Identified => 'I' case UnknownFace => 'U' case ManyFaces => 'M' case NoFace => 'N' };
  }

  /** Every round keeps the invariant, extends histories, and forgets no announcement. */
  lemma RoundKeeps(c: Config, w: World, p: Picture, w2: World, sent: Option<Frame>)
    requires Invariant(c, w) && Round(c, w, p, w2, sent)
    ensures Invariant(c, w2)
    ensures forall id :: id in w.histories ==> id in w2.histories && w.histories[id] <= w2.histories[id]
    ensures forall id, name, at: nat :: Remembers(w, id, name, at) ==> Remembers(w2, id, name, at)
  {
    hide Tells, OtherSince, Matches, BeforeReport, Command;
    var m := MatchingOf(c, w, p, w2, sent);
    BeforeReportKeeps(c, w, p, m);
    var w1 := BeforeReport(c, w, p, m);
    CommandsDiffer(StateOf(Marked(c, w1.tracks)), Announced(c, w1.tracks));
    MarkedTells(c, w1);
    forall id, name, at: nat | Remembers(w, id, name, at)
      ensures Remembers(w2, id, name, at)
    {
      assert Remembers(w1, id, name, at);
    }
  }

  lemma MarkedTells(c: Config, w: World)
    requires Invariant(c, w)
    ensures |Marked(c, w.tracks)| == |w.tracks|
    ensures forall i :: 0 <= i < |w.tracks| ==>
              var t := Marked(c, w.tracks)[i];
              && t.id == w.tracks[i].id && (w.tracks[i].resultSent ==> t.resultSent)
              && Tells(t, w.histories[t.id])
  {
    forall i | 0 <= i < |w.tracks|
      ensures Marked(c, w.tracks)[i] == w.tracks[i].(resultSent := Marked(c, w.tracks)[i].resultSent)
      ensures w.tracks[i].resultSent ==> Marked(c, w.tracks)[i].resultSent
    {
    }
  }

  /** An IDENTIFY is sent only while exactly one track is live, with the converted name that its last
      confirmFrames identification results, and its very last one, all gave. */
  ghost predicate Confirmed(c: Config, w2: World, sent: Frame) {
    && |w2.tracks| == 1 && w2.tracks[0].id in w2.histories
    && var name, h := w2.tracks[0].name, w2.histories[w2.tracks[0].id];
       && name != "" && Carries(c, sent, name) && |sent.data| <= 64
       && c.confirmFrames <= |h| && 0 < |h| && h[|h| - 1] == name
       && forall k :: |h| - c.confirmFrames <= k < |h| ==> h[k] == name
  }

  lemma IdentifyIsConfirmed(c: Config, w: World, p: Picture, w2: World, sent: Option<Frame>)
    requires Invariant(c, w) && Round(c, w, p, w2, sent)
    requires sent.Some? && sent.value.cmd == CMD_IDENTIFY
    ensures Confirmed(c, w2, sent.value) && p.open
    ensures var t := w2.tracks[0]; Remembers(w2, t.id, t.name, |w2.histories[t.id]|)
    ensures forall at: nat, name :: Remembers(w, w2.tracks[0].id, name, at) ==>
              OtherSince(w2.histories[w2.tracks[0].id], name, at)
  {
    hide OtherSince, Matches, BeforeReport;
    var m := MatchingOf(c, w, p, w2, sent);
    BeforeReportKeeps(c, w, p, m);
    var w1 := BeforeReport(c, w, p, m);
    assert Announced(c, w1.tracks) != "";
    assert Tells(w1.tracks[0], w1.histories[w1.tracks[0].id]);
    StreakIs(w1.histories[w1.tracks[0].id]);
    LastOfNamed(w1.histories[w1.tracks[0].id]);
    assert w2.tracks == [w1.tracks[0].(resultSent := true)] && w2.histories == w1.histories;
    forall at: nat, name | Remembers(w, w2.tracks[0].id, name, at)
      ensures OtherSince(w2.histories[w2.tracks[0].id], name, at)
    {
      assert Remembers(w1, w2.tracks[0].id, name, at);
      assert w1.tracks[0].id == w2.tracks[0].id;
    }
  }

  lemma LastOfNamed(h: seq<string>)
    ensures LastOf(h) != "" ==> |h| > 0 && h[|h| - 1] == LastOf(h)
  {
  }

  // ---- runs ----

  /** The rounds on the pictures ps lead through the states ws and write what sents says. */
  ghost predicate Runs(c: Config, ps: seq<Picture>, ws: seq<World>, sents: seq<Option<Frame>>) {
    && c.skipFrames > 0 && |ws| == |ps| + 1 && |sents| == |ps|
    && forall i :: 0 <= i < |ps| ==> Round(c, ws[i], ps[i], ws[i + 1], sents[i])
  }

  lemma {:induction false} RunKeeps(c: Config, ps: seq<Picture>, ws: seq<World>,
                                    sents: seq<Option<Frame>>, i: nat, j: nat)
    requires Runs(c, ps, ws, sents) && Invariant(c, ws[0]) && i <= j <= |ps|
    ensures Invariant(c, ws[i]) && Invariant(c, ws[j])
    ensures forall id :: id in ws[i].histories ==> id in ws[j].histories && ws[i].histories[id] <= ws[j].histories[id]
    ensures forall id, name, at: nat :: Remembers(ws[i], id, name, at) ==> Remembers(ws[j], id, name, at)
    decreases i + j
  {
    hide Invariant, Round, Remembers;
    if i < j {
      RunKeeps(c, ps, ws, sents, i, j - 1);
      RoundKeeps(c, ws[j - 1], ps[j - 1], ws[j], sents[j - 1]);
    } else if 0 < i {
      RunKeeps(c, ps, ws, sents, i - 1, i);
    }
  }

  // Frames are counted one by one.
  lemma {:induction false} FramesAreCounted(c: Config, ps: seq<Picture>, ws: seq<World>, sents: seq<Option<Frame>>,
                                            i: nat)
    requires Runs(c, ps, ws, sents) && i <= |ps|
    ensures ws[i].frameCount == ws[0].frameCount + i
  {
    hide Looks, Matches, Greedy, Command, Created, Updated, Extended, Fresh;
    if i > 0 {
      FramesAreCounted(c, ps, ws, sents, i - 1);
      var m := MatchingOf(c, ws[i - 1], ps[i - 1], ws[i], sents[i - 1]);
    }
  }

  /** Which pictures of a run are looked at: those whose number is 1 modulo skipFrames, and as long as
      there is no track every odd one. */
  lemma LooksIff(c: Config, ps: seq<Picture>, ws: seq<World>, sents: seq<Option<Frame>>, i: nat)
    requires Runs(c, ps, ws, sents) && i < |ps| && ws[0].frameCount == 0
    ensures Looks(c, ws[i]) <==> (i + 1) % c.skipFrames == 1 || (ws[i].tracks == [] && (i + 1) % 2 == 1)
  {
    hide Round;
    FramesAreCounted(c, ps, ws, sents, i);
  }

  /** Door safety over any run: each IDENTIFY was written with the port open and exactly one track
      live, for the name its last confirmFrames results gave. */
  lemma EveryIdentifyIsConfirmed(c: Config, ps: seq<Picture>, ws: seq<World>, sents: seq<Option<Frame>>, i: nat)
    requires Runs(c, ps, ws, sents) && Invariant(c, ws[0]) && i < |ps| && Is(sents[i], CMD_IDENTIFY)
    ensures Confirmed(c, ws[i + 1], sents[i].value) && ps[i].open
  {
    RunKeeps(c, ps, ws, sents, 0, i);
    IdentifyIsConfirmed(c, ws[i], ps[i], ws[i + 1], sents[i]);
  }

  /** Between two IDENTIFYs for one track lies an identification result of that track that gave
      another name, or nobody. */
  lemma IdentifiesAreSeparated(c: Config, ps: seq<Picture>, ws: seq<World>, sents: seq<Option<Frame>>, i: nat, j: nat)
    requires Runs(c, ps, ws, sents) && Invariant(c, ws[0]) && i < j < |ps|
    requires Is(sents[i], CMD_IDENTIFY) && Is(sents[j], CMD_IDENTIFY)
    requires |ws[i + 1].tracks| == 1 == |ws[j + 1].tracks| && ws[i + 1].tracks[0].id == ws[j + 1].tracks[0].id
    ensures var id, name := ws[i + 1].tracks[0].id, ws[i + 1].tracks[0].name;
            && id in ws[i + 1].histories && id in ws[j + 1].histories
            && ws[i + 1].histories[id] <= ws[j + 1].histories[id]
            && OtherSince(ws[j + 1].histories[id], name, |ws[i + 1].histories[id]|)
  {
    hide Round, OtherSince;
    RunKeeps(c, ps, ws, sents, 0, i);
    IdentifyIsConfirmed(c, ws[i], ps[i], ws[i + 1], sents[i]);
    RunKeeps(c, ps, ws, sents, i + 1, j);
    IdentifyIsConfirmed(c, ws[j], ps[j], ws[j + 1], sents[j]);
    RunKeeps(c, ps, ws, sents, i + 1, j + 1);
  }

  // ---- debouncing over a run ----

  // What a round does to the memory of the debouncing.
  lemma RoundDebounces(c: Config, w: World, p: Picture, w2: World, sent: Option<Frame>)
    requires c.skipFrames > 0 && Round(c, w, p, w2, sent)
    ensures Is(sent, CMD_NOFACE) ==> p.now - w.lastNoFaceSent > 2.0 && w2.lastNoFaceSent == p.now
    ensures !Is(sent, CMD_NOFACE) ==> w2.lastNoFaceSent == w.lastNoFaceSent
    ensures Is(sent, CMD_UNKNOWN) ==> w.lastUartCmd != "UNKNOWN" && w2.lastUartCmd == "UNKNOWN"
    ensures Is(sent, CMD_MULTIFACE) ==> w.lastUartCmd != "MULTIFACE" && w2.lastUartCmd == "MULTIFACE"
    ensures Is(sent, CMD_IDENTIFY) ==>
              && |w2.tracks| == 1 && w2.lastUartCmd == "IDENTIFY:" + w2.tracks[0].name
              && (w.lastUartCmd != w2.lastUartCmd || p.now - w.lastUartTime > 3.0)
    ensures sent.None? || Is(sent, CMD_NOFACE) ==> w2.lastUartCmd == w.lastUartCmd
    ensures w2.lastUartTime == if sent.Some? then p.now else w.lastUartTime
    ensures sent.Some? ==> sent.value.cmd in {CMD_IDENTIFY, CMD_UNKNOWN, CMD_NOFACE, CMD_MULTIFACE} && p.open
  {
    hide Matches, BeforeReport;
    var m := MatchingOf(c, w, p, w2, sent);
    var w1 := BeforeReport(c, w, p, m);
    SameMemory(c, w, p, m);
    CommandsDiffer(StateOf(Marked(c, w1.tracks)), Announced(c, w1.tracks));
  }

  lemma SameMemory(c: Config, w: World, p: Picture, m: seq<int>)
    requires c.skipFrames > 0
    requires Looks(c, w) ==> Matches(c, w, p.faces, m)
    ensures var w1 := BeforeReport(c, w, p, m);
            && w1.lastUartCmd == w.lastUartCmd && w1.lastUartTime == w.lastUartTime
            && w1.lastNoFaceSent == w.lastNoFaceSent
  {
  }

  /** Two NOFACE commands are more than two seconds apart. */
  lemma NoFacesAreSpaced(c: Config, ps: seq<Picture>, ws: seq<World>, sents: seq<Option<Frame>>, i: nat, j: nat)
    requires Runs(c, ps, ws, sents) && i < j < |ps| && Is(sents[i], CMD_NOFACE) && Is(sents[j], CMD_NOFACE)
    ensures ps[j].now - ps[i].now > 2.0
  {
    hide Round;
    RoundDebounces(c, ws[i], ps[i], ws[i + 1], sents[i]);
    NoFaceMemory(c, ps, ws, sents, i + 1, j);
    RoundDebounces(c, ws[j], ps[j], ws[j + 1], sents[j]);
  }

  /** Nor does one come in the first two seconds. */
  lemma NoFaceWaitsAtStart(c: Config, ps: seq<Picture>, ws: seq<World>, sents: seq<Option<Frame>>, now: real, j: nat)
    requires Runs(c, ps, ws, sents) && ws[0] == Start(now) && j < |ps| && Is(sents[j], CMD_NOFACE)
    ensures ps[j].now - now > 2.0
  {
    hide Round;
    NoFaceMemory(c, ps, ws, sents, 0, j);
    RoundDebounces(c, ws[j], ps[j], ws[j + 1], sents[j]);
  }

  lemma {:induction false} NoFaceMemory(c: Config, ps: seq<Picture>, ws: seq<World>,
                                        sents: seq<Option<Frame>>, i: nat, j: nat)
    requires Runs(c, ps, ws, sents) && i <= j <= |ps|
    ensures ws[j].lastNoFaceSent >= ws[i].lastNoFaceSent
    decreases j
  {
    hide Round;
    if i < j {
      NoFaceMemory(c, ps, ws, sents, i, j - 1);
      RoundDebounces(c, ws[j - 1], ps[j - 1], ws[j], sents[j - 1]);
    }
  }

  /** Since round i nothing but NOFACE has been sent before round j: the last command is remembered. */
  ghost predicate OnlyNoFace(sents: seq<Option<Frame>>, i: nat, j: nat) {
    forall k :: i < k < j && k < |sents| ==> sents[k].None? || Is(sents[k], CMD_NOFACE)
  }

  lemma {:induction false} CommandMemory(c: Config, ps: seq<Picture>, ws: seq<World>,
                                         sents: seq<Option<Frame>>, i: nat, j: nat)
    requires Runs(c, ps, ws, sents) && i < j <= |ps| && OnlyNoFace(sents, i, j)
    ensures ws[j].lastUartCmd == ws[i + 1].lastUartCmd
    decreases j
  {
    hide Round;
    if i + 1 < j {
      CommandMemory(c, ps, ws, sents, i, j - 1);
      RoundDebounces(c, ws[j - 1], ps[j - 1], ws[j], sents[j - 1]);
    }
  }

  ghost predicate TimeGoesOn(ps: seq<Picture>) {
    forall k :: 0 < k < |ps| ==> ps[k - 1].now <= ps[k].now
  }

  lemma {:induction false} TimeMemory(c: Config, ps: seq<Picture>, ws: seq<World>,
                                      sents: seq<Option<Frame>>, i: nat, j: nat)
    requires Runs(c, ps, ws, sents) && i < j <= |ps| && TimeGoesOn(ps) && ws[i + 1].lastUartTime == ps[i].now
    ensures ps[i].now <= ws[j].lastUartTime && ps[i].now <= ps[j - 1].now
    decreases j
  {
    hide Round;
    if i + 1 < j {
      TimeMemory(c, ps, ws, sents, i, j - 1);
      RoundDebounces(c, ws[j - 1], ps[j - 1], ws[j], sents[j - 1]);
    }
  }

  /** Between two UNKNOWN commands, or two MULTIFACE commands, another command than NOFACE is sent:
      they are never repeated, however much time passes. */
  lemma StateCommandsAlternate(c: Config, ps: seq<Picture>, ws: seq<World>,
                               sents: seq<Option<Frame>>, i: nat, j: nat, cmd: byte)
    requires Runs(c, ps, ws, sents) && i < j < |ps| && (cmd == CMD_UNKNOWN || cmd == CMD_MULTIFACE)
    requires Is(sents[i], cmd) && Is(sents[j], cmd)
    ensures exists k :: i < k < j && sents[k].Some? && !Is(sents[k], CMD_NOFACE)
  {
    hide Round;
    RoundDebounces(c, ws[i], ps[i], ws[i + 1], sents[i]);
    RoundDebounces(c, ws[j], ps[j], ws[j + 1], sents[j]);
    if OnlyNoFace(sents, i, j) {
      CommandMemory(c, ps, ws, sents, i, j);
    }
  }

  /** An IDENTIFY for the same name is not repeated within three seconds, unless another command
      than NOFACE was sent between. */
  lemma SameNameNotWithinThreeSeconds(c: Config, ps: seq<Picture>, ws: seq<World>,
                                      sents: seq<Option<Frame>>, i: nat, j: nat)
    requires Runs(c, ps, ws, sents) && i < j < |ps| && OnlyNoFace(sents, i, j)
    requires TimeGoesOn(ps)
    requires Is(sents[i], CMD_IDENTIFY) && Is(sents[j], CMD_IDENTIFY)
    ensures |ws[i + 1].tracks| == 1 == |ws[j + 1].tracks|
    ensures ws[i + 1].tracks[0].name == ws[j + 1].tracks[0].name ==> ps[j].now - ps[i].now > 3.0
  {
    hide Round;
    RoundDebounces(c, ws[i], ps[i], ws[i + 1], sents[i]);
    RoundDebounces(c, ws[j], ps[j], ws[j + 1], sents[j]);
    CommandMemory(c, ps, ws, sents, i, j);
    TimeMemory(c, ps, ws, sents, i, j);
    SameText(ws[i + 1].tracks[0].name, ws[j + 1].tracks[0].name);
  }

  lemma SameText(a: string, b: string)
    ensures a == b ==> "IDENTIFY:" + a == "IDENTIFY:" + b
  {
  }
}
