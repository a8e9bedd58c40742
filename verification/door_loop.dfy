// The tracking loop of the door as the program runs it, field by field, against the steps of the
// rounds.
module DoorLoops {
  import opened Words
  import opened Cobs
  import opened CommandFrames
  import opened Frames
  import opened DoorTracker
  import opened DoorRounds

  class DoorLoop {
    const confirmFrames: nat
    const skipFrames: nat
    const overlap: Overlap
    // The conversion of names for the display.
    const gbk: string -> seq<byte>
    var tracks: seq<Track>
    var nextTrackId: nat
    var frameCount: nat
    var lastUartCmd: string
    var lastUartTime: real
    var lastNoFaceSent: real
    // Every identification result of every track so far.
    ghost var histories: map<nat, seq<string>>

    ghost function Settings(): Config { Config(confirmFrames, skipFrames, overlap, gbk) }

    ghost function View(): World
      reads this
    {
      World(tracks, nextTrackId, frameCount, lastUartCmd, lastUartTime, lastNoFaceSent, histories)
    }

    ghost predicate Valid()
      reads this
    {
      Invariant(Settings(), View())
    }

    constructor (confirm: nat, skip: nat, overlap_: Overlap, gbk_: string -> seq<byte>, now: real)
      requires skip > 0
      ensures Valid() && View() == Start(now) && Settings() == Config(confirm, skip, overlap_, gbk_)
      ensures tracks == [] && nextTrackId == 0 && frameCount == 0
      ensures lastUartCmd == "" && lastUartTime == now && lastNoFaceSent == now
    {
      confirmFrames, skipFrames, overlap, gbk := confirm, skip, overlap_, gbk_;
      tracks, nextTrackId, frameCount := [], 0, 0;
      lastUartCmd, lastUartTime, lastNoFaceSent := "", now, now;
      histories := map[];
      new;
      StartIsFine(Settings(), now);
    }

    /** Matching, update of the matched tracks and creation of new ones: the tracks and their
        histories change exactly as the matching of the faces says. */
    method Infer(faces: seq<Detection>, now: real)
      requires Valid()
      modifies this`tracks, this`nextTrackId, this`histories
      ensures Valid()
      ensures exists m {:trigger Matches(Settings(), old(View()), faces, m)} ::
                && Matches(Settings(), old(View()), faces, m)
                && View() == AfterInfer(Settings(), old(View()), faces, now, m)
    {
      hide Tells, Greedy, Created, Updated, Extended, UsedBy;
      ghost var before := View();
      var matchedTo, used := Match(Boxes(tracks), DetectionBoxes(faces), overlap);
      GreedyIsBounded(Boxes(tracks), DetectionBoxes(faces), overlap, matchedTo);
      assert Matches(Settings(), before, faces, matchedTo);
      UpdateMatched(faces, matchedTo, now);
      CreateUnmatched(faces, used, now);
      ExtendedGrows(before.histories, before.tracks, faces, matchedTo, before.nextTrackId, nextTrackId);
      InferKeeps(Settings(), before, faces, now, matchedTo);
    }

    // The loop over the matched tracks.
    method UpdateMatched(faces: seq<Detection>, matchedTo: seq<int>, now: real)
      requires Valid() && |matchedTo| == |tracks| && forall t :: 0 <= t < |matchedTo| ==> -1 <= matchedTo[t] < |faces|
      modifies this`tracks, this`histories
      ensures tracks == Updated(old(tracks), faces, matchedTo, now)
      ensures histories == Extended(old(histories), old(tracks), faces, matchedTo, nextTrackId)
      ensures forall id :: id in histories <==> 0 <= id < nextTrackId
    {
      hide Tells, Observe, Extended;
      ghost var before, start := tracks, histories;
      var ti := 0;
      NothingExtended(start, faces, nextTrackId);
      while ti < |tracks|
        invariant 0 <= ti <= |tracks| == |before|
        invariant forall t :: 0 <= t < ti ==> tracks[t] == Updated(before, faces, matchedTo, now)[t]
        invariant forall t :: ti <= t < |tracks| ==> tracks[t] == before[t]
        invariant histories == Extended(start, before[..ti], faces, matchedTo[..ti], nextTrackId)
        invariant forall id :: id in histories <==> 0 <= id < nextTrackId
      {
        ExtendedStep(start, before, faces, matchedTo, ti, nextTrackId);
        if matchedTo[ti] >= 0 {
          var det := faces[matchedTo[ti]];
          var trk := tracks[ti].(box := det.box, lastSeen := now);
          RecordResult(ti, trk, det.identified);
        }
        ti := ti + 1;
      }
      assert tracks == Updated(before, faces, matchedTo, now);
      assert before[..ti] == before && matchedTo[..ti] == matchedTo;
    }

    // One identification result is recorded on a track, and in its history.
    method RecordResult(ti: nat, trk: Track, result: string)
      requires ti < |tracks| && trk.id in histories
      modifies this`tracks, this`histories
      ensures tracks == old(tracks)[ti := Observe(trk, result)]
      ensures histories == old(histories)[trk.id := old(histories)[trk.id] + [result]]
    {
      var next := trk;
      if result != "" {
        if next.name == result {
          next := next.(confirmCount := next.confirmCount + 1);
        } else {
          next := next.(name := result, confirmCount := 1, resultSent := false);
        }
      } else {
        next := next.(name := result, confirmCount := 0, resultSent := false);
      }
      histories := histories[trk.id := histories[trk.id] + [result]];
      tracks := tracks[ti := next];
    }

    // The loop over the detections not used.
    method CreateUnmatched(faces: seq<Detection>, used: seq<bool>, now: real)
      requires |used| == |faces| && forall id :: id in histories <==> 0 <= id < nextTrackId
      modifies this`tracks, this`nextTrackId, this`histories
      ensures tracks == old(tracks) + Created(faces, used, old(nextTrackId), now)
      ensures nextTrackId == old(nextTrackId) + |Created(faces, used, old(nextTrackId), now)|
      ensures forall id :: id in histories <==> 0 <= id < nextTrackId
      ensures forall id :: id in histories ==> histories[id] == if id in old(histories) then old(histories)[id] else []
    {
      hide Created;
      var di := 0;
      NothingCreated(nextTrackId, now);
      while di < |faces|
        invariant 0 <= di <= |faces|
        invariant tracks == old(tracks) + Created(faces[..di], used[..di], old(nextTrackId), now)
        invariant nextTrackId == old(nextTrackId) + |Created(faces[..di], used[..di], old(nextTrackId), now)|
        invariant forall id :: id in histories <==> 0 <= id < nextTrackId
        invariant forall id :: id in histories ==>
                    histories[id] == if id in old(histories) then old(histories)[id] else []
      {
        OneMoreCreated(faces, used, di, old(nextTrackId), now);
        if !used[di] {
          var trk := Track(nextTrackId, faces[di].box, "", 0, false, now);
          histories := histories[nextTrackId := []];
          nextTrackId := nextTrackId + 1;
          tracks := tracks + [trk];
        }
        di := di + 1;
      }
      assert faces[..di] == faces && used[..di] == used;
    }

    /** Tracks not seen for more than two seconds are dropped: exactly the others stay. */
    method RemoveStale(now: real)
      requires Valid()
      modifies this`tracks
      ensures Valid() && tracks == Fresh(old(tracks), now)
      ensures forall t :: t in tracks <==> t in old(tracks) && now - t.lastSeen <= 2.0
    {
      hide Tells, Fresh;
      ghost var before := View();
      var kept: seq<Track> := [];
      var i := 0;
      NothingFresh(now);
      while i < |tracks|
        invariant 0 <= i <= |tracks| && tracks == before.tracks && kept == Fresh(tracks[..i], now)
      {
        OneMoreFresh(tracks, i, now);
        if !(now - tracks[i].lastSeen > 2.0) {
          kept := kept + [tracks[i]];
        }
        i := i + 1;
      }
      assert tracks[..i] == tracks;
      FewerTracks(Settings(), before, now);
      ghost var ks := FreshOf(tracks, now);
      tracks := kept;
    }

    /** The decision for this frame.  A confirmed track is marked as announced here, whether or not
        the command is going to be written; while a named one is not confirmed yet, the decision
        is that there is no face. */
    method Decide() returns (state: FaceState, name: string)
      requires Valid()
      modifies this`tracks
      ensures View() == old(View()).(tracks := Marked(Settings(), old(tracks)))
      ensures name == Announced(Settings(), old(tracks)) && state == StateOf(tracks)
      ensures name != "" ==>
                state == Identified && |old(tracks)| == 1 && tracks == [old(tracks)[0].(resultSent := true)]
      ensures name == "" ==> tracks == old(tracks)
      ensures name != "" <==>
                && |old(tracks)| == 1 && old(tracks)[0].confirmCount >= confirmFrames
                && old(tracks)[0].name != "" && !old(tracks)[0].resultSent
      ensures state == ManyFaces <==> |tracks| > 1
      ensures state == UnknownFace <==> |tracks| == 1 && tracks[0].name == ""
      ensures state == Identified <==> |tracks| == 1 && tracks[0].name != "" && tracks[0].resultSent
    {
      state, name := NoFace, "";
      if tracks == [] {
        state := NoFace;
      } else if |tracks| > 1 {
        state := ManyFaces;
      } else {
        var trk := tracks[0];
        assert trk.name == "" ==> trk.confirmCount == 0;
        if trk.confirmCount >= confirmFrames && trk.name != "" && !trk.resultSent {
          state, name := Identified, trk.name;
          tracks := tracks[0 := trk.(resultSent := true)];
        } else if trk.name == "" && trk.confirmCount == 0 {
          state := UnknownFace;
        } else if trk.name != "" && trk.resultSent {
          state := Identified;
        }
      }
    }

    /** The debounced command for the lock controller: the frame written, if any, and what is
        remembered of it. */
    method Report(state: FaceState, name: string, now: real, open: bool)
      returns (sent: Option<Frame>, written: seq<byte>)
      requires lastUartCmd != "NOFACE" && (name != "" ==> state == Identified)
      modifies this`lastUartCmd, this`lastUartTime, this`lastNoFaceSent
      ensures written == (if sent.None? then [] else Wire(sent.value))
      ensures sent == if open then Command(Settings(), old(View()), state, name, now) else None
      ensures View() == AfterReport(old(View()), sent, state, name, now)
      ensures lastUartTime == if sent.Some? then now else old(lastUartTime)
      ensures lastNoFaceSent == if Is(sent, CMD_NOFACE) then now else old(lastNoFaceSent)
      ensures lastUartCmd == if sent.Some? && state != NoFace then CommandText(state, name) else old(lastUartCmd)
      ensures sent.Some? ==> Sendable(sent.value) && sent.value.dir == DIR_PI_TO_STM32
      ensures Is(sent, CMD_IDENTIFY) <==>
                && open && name != "" && |gbk(name)| % 0x1_0000 <= 64
                && ("IDENTIFY:" + name != old(lastUartCmd) || now - old(lastUartTime) > 3.0)
      ensures Is(sent, CMD_IDENTIFY) ==> sent.value.cmd == 0x10 && sent.value.dir == 0x01
      ensures Is(sent, CMD_IDENTIFY) && |gbk(name)| < 0x1_0000 ==> sent.value.data == gbk(name)
      ensures Is(sent, CMD_IDENTIFY) && |gbk(name)| >= 0x1_0000 ==>
                sent.value.data == gbk(name)[..|gbk(name)| % 0x1_0000]
      ensures Is(sent, CMD_UNKNOWN) ==> sent.value == Frame(0x11, 0x01, [])
      ensures Is(sent, CMD_NOFACE) ==> sent.value == Frame(0x12, 0x01, [])
      ensures Is(sent, CMD_MULTIFACE) ==> sent.value == Frame(0x13, 0x01, [])
      ensures Is(sent, CMD_UNKNOWN) <==> open && state == UnknownFace && old(lastUartCmd) != "UNKNOWN"
      ensures Is(sent, CMD_MULTIFACE) <==> open && state == ManyFaces && old(lastUartCmd) != "MULTIFACE"
      ensures Is(sent, CMD_NOFACE) <==> open && state == NoFace && now - old(lastNoFaceSent) > 2.0
    {
      hide Wire;
      sent, written := None, [];
      if !open {
        return;
      }
      var uartCmd := CommandText(state, name);
      CommandsDiffer(state, name);
      CommandIff(Settings(), View(), state, name, now);
      if uartCmd != lastUartCmd || now - lastUartTime > 3.0 {
        var frame := Frame(CMD_NOFACE, DIR_PI_TO_STM32, []);
        var shouldSend := false;
        if state == Identified && name != "" {
          var text := gbk(name);
          frame := Frame(CMD_IDENTIFY, DIR_PI_TO_STM32, text[..|text| % 0x1_0000]);
          shouldSend := true;
        } else if state == UnknownFace && lastUartCmd != "UNKNOWN" {
          frame := Frame(CMD_UNKNOWN, DIR_PI_TO_STM32, []);
          shouldSend := true;
        } else if state == ManyFaces && lastUartCmd != "MULTIFACE" {
          frame := Frame(CMD_MULTIFACE, DIR_PI_TO_STM32, []);
          shouldSend := true;
        } else if state == NoFace && now - lastNoFaceSent > 2.0 {
          shouldSend := true;
          lastNoFaceSent := now;
        }
        if shouldSend {
          var bytes := EncodeFrameVector(frame);
          WireIsNotEmpty(frame);
          if bytes != [] {
            sent, written := Some(frame), bytes;
            lastUartTime := now;
            if state != NoFace {
              lastUartCmd := uartCmd;
            }
          }
        }
      }
    }

    // The first half of a round: inference if it is its turn, and the removal of stale tracks.
    method Look(p: Picture) returns (ghost m: seq<int>)
      requires Valid()
      modifies this`frameCount, this`tracks, this`nextTrackId, this`histories
      ensures Valid() && (Looks(Settings(), old(View())) ==> Matches(Settings(), old(View()), p.faces, m))
      ensures View() == BeforeReport(Settings(), old(View()), p, m)
    {
      hide Tells, Greedy, Fresh, AfterInfer, Matches;
      ghost var w, c := View(), Settings();
      frameCount := frameCount + 1;
      m := [];
      if DoInfer(frameCount, skipFrames, tracks == []) {
        ghost var counted := View();
        Infer(p.faces, p.now);
        m :| Matches(c, counted, p.faces, m) && View() == AfterInfer(c, counted, p.faces, p.now, m);
        MatchesAgain(c, counted, w, p.faces, m);
      }
      RemoveStale(p.now);
    }

    /** One round of the loop. */
    method NextFrame(p: Picture) returns (sent: Option<Frame>, written: seq<byte>)
      requires Valid()
      modifies this
      ensures Valid() && Round(Settings(), old(View()), p, View(), sent)
      ensures written == (if sent.None? then [] else Wire(sent.value))
      ensures Is(sent, CMD_IDENTIFY) ==> Confirmed(Settings(), View(), sent.value)
      ensures Is(sent, CMD_UNKNOWN) ==> written == [0x03, 0x11, 0x01, 0x01, 0x01, 0x1A, 0x00]
      ensures Is(sent, CMD_NOFACE) ==> written == [0x03, 0x12, 0x01, 0x01, 0x01, 0x20, 0x00]
      ensures Is(sent, CMD_MULTIFACE) ==> written == [0x03, 0x13, 0x01, 0x01, 0x01, 0x36, 0x00]
    {
      CommandBytes();
      InvariantGives(Settings(), View());
      hide Wire, Command, Marked, StateOf, Announced, BeforeReport, AfterReport, Matches, Invariant, Confirmed, Is,
           Looks;
      ghost var w, c := View(), Settings();
      ghost var m := Look(p);
      InvariantGives(c, View());
      var state, name := Decide();
      sent, written := Report(state, name, p.now, p.open);
      RoundIs(c, w, p, m, View(), sent);
      RoundKeeps(c, w, p, View(), sent);
      if Is(sent, CMD_IDENTIFY) {
        IdentifyIsConfirmed(c, w, p, View(), sent);
      }
    }

    /** The loop: the frames written are those of a run of rounds on exactly these pictures, to
        which the theorems about runs apply. */
    method RunLoop(ps: seq<Picture>) returns (sents: seq<Option<Frame>>, written: seq<seq<byte>>, ghost ws: seq<World>)
      requires Valid()
      modifies this
      ensures Valid() && Runs(Settings(), ps, ws, sents) && ws[0] == old(View()) && ws[|ps|] == View()
      ensures AllWritten(sents, written)
      ensures forall i :: 0 <= i < |ps| && Is(sents[i], CMD_IDENTIFY) ==>
                Confirmed(Settings(), ws[i + 1], sents[i].value) && ps[i].open
    {
      hide Round, Wire, Invariant, Confirmed, Runs, AllWritten;
      ghost var c := Settings();
      NoRounds(c, View());
      sents, written, ws := [], [], [View()];
      while |written| < |ps|
        invariant Valid() && |written| <= |ps| && |sents| == |written| && |ws| == |written| + 1
        invariant ws[0] == old(View()) && ws[|written|] == View()
        invariant Runs(c, ps[..|written|], ws, sents) && AllWritten(sents, written)
      {
        var n := |written|;
        var sent, bytes := NextFrame(ps[n]);
        OneMoreRound(c, ps, n, ws, sents, View(), sent);
        OneMoreWritten(sents, written, sent, bytes);
        sents, written, ws := sents + [sent], written + [bytes], ws + [View()];
      }
      assert ps[..|written|] == ps;
      forall i | 0 <= i < |ps| && Is(sents[i], CMD_IDENTIFY)
        ensures Confirmed(c, ws[i + 1], sents[i].value) && ps[i].open
      {
        EveryIdentifyIsConfirmed(c, ps, ws, sents, i);
      }
    }
  }

  /** What was written in each round are the bytes of the frame sent, if any. */
  ghost predicate AllWritten(sents: seq<Option<Frame>>, written: seq<seq<byte>>) {
    && |written| == |sents|
    && forall i :: 0 <= i < |sents| ==> written[i] == if sents[i].None? then [] else Wire(sents[i].value)
  }

  lemma OneMoreWritten(sents: seq<Option<Frame>>, written: seq<seq<byte>>, sent: Option<Frame>, bytes: seq<byte>)
    requires AllWritten(sents, written) && bytes == if sent.None? then [] else Wire(sent.value)
    ensures AllWritten(sents + [sent], written + [bytes])
  {
    hide Wire;
  }

  lemma InvariantGives(c: Config, w: World)
    requires Invariant(c, w)
    ensures c.skipFrames > 0 && w.lastUartCmd != "NOFACE"
  {
  }

  lemma NoRounds(c: Config, w: World)
    requires Invariant(c, w)
    ensures Runs(c, [], [w], []) && AllWritten([], [])
  {
  }

  lemma OneMoreRound(c: Config, ps: seq<Picture>, n: nat, ws: seq<World>, sents: seq<Option<Frame>>, w: World,
                     sent: Option<Frame>)
    requires n < |ps| && Runs(c, ps[..n], ws, sents) && c.skipFrames > 0 && Round(c, ws[n], ps[n], w, sent)
    ensures Runs(c, ps[..n + 1], ws + [w], sents + [sent])
  {
    hide Round;
  }

  lemma RoundIs(c: Config, w: World, p: Picture, m: seq<int>, w2: World, sent: Option<Frame>)
    requires c.skipFrames > 0 && (Looks(c, w) ==> Matches(c, w, p.faces, m))
    requires RoundWith(c, w, p, m, w2, sent)
    ensures Round(c, w, p, w2, sent)
  {
  }

  lemma NothingExtended(histories: map<nat, seq<string>>, faces: seq<Detection>, nextId: nat)
    requires forall id :: id in histories <==> 0 <= id < nextId
    ensures Extended(histories, [], faces, [], nextId) == histories
  {
    forall id | id in histories
      ensures histories[id] + [] == histories[id]
    {
    }
  }

  lemma ExtendedStep(histories: map<nat, seq<string>>, tracks: seq<Track>, faces: seq<Detection>, m: seq<int>, n: nat,
                     nextId: nat)
    requires |m| == |tracks| && n < |tracks| && forall t :: 0 <= t < |m| ==> m[t] < |faces|
    requires forall id :: id in histories <==> 0 <= id < nextId
    requires tracks[n].id in histories
    ensures var e := Extended(histories, tracks[..n], faces, m[..n], nextId);
            && tracks[n].id in e
            && Extended(histories, tracks[..n + 1], faces, m[..n + 1], nextId) ==
                 if m[n] >= 0 then e[tracks[n].id := e[tracks[n].id] + [faces[m[n]].identified]] else e
  {
    hide ResultsFor;
    var e := Extended(histories, tracks[..n], faces, m[..n], nextId);
    var e2 := Extended(histories, tracks[..n + 1], faces, m[..n + 1], nextId);
    forall id | id in histories
      ensures e2[id] == e[id] + (if tracks[n].id == id && m[n] >= 0 then [faces[m[n]].identified] else [])
    {
      OneMoreResult(tracks, faces, m, n, id);
    }
    assert forall id :: id in histories ==> e[id] + [] == e[id];
  }

  // New ids have had no results.
  lemma ExtendedGrows(histories: map<nat, seq<string>>, tracks: seq<Track>, faces: seq<Detection>, m: seq<int>,
                      nextId: nat, next2: nat)
    requires |m| == |tracks| && (forall t :: 0 <= t < |m| ==> m[t] < |faces|) && DistinctIds(tracks)
    requires forall id :: id in histories <==> 0 <= id < nextId
    requires (forall t :: 0 <= t < |tracks| ==> tracks[t].id in histories) && nextId <= next2
    ensures var e, e2 := Extended(histories, tracks, faces, m, nextId), Extended(histories, tracks, faces, m, next2);
            && (forall id :: id in e2 <==> 0 <= id < next2)
            && forall id :: id in e2 ==> e2[id] == if id in e then e[id] else []
  {
    forall id | nextId <= id < next2
      ensures ResultsFor(tracks, faces, m, id) == []
    {
      ResultsAre(tracks, faces, m, id);
    }
  }

  lemma WireIsNotEmpty(f: Frame)
    ensures Wire(f) != []
  {
  }
}
