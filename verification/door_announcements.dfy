// When a person is announced and when not: the exact condition of one round, what a mark without a
// command costs, and for which settings anybody is ever announced.
module DoorAnnouncements {
  import opened Words
  import opened Cobs
  import opened Frames
  import opened DoorTracker
  import opened DoorRounds

  // ---- one round ----

  /** The track id was marked as announced before, and this round's results say nothing else. */
  ghost predicate StillMarked(w: World, histories: map<nat, seq<string>>, id: nat) {
    exists i :: 0 <= i < |w.tracks| && MarkedTrack(w, histories, id, i)
  }

  ghost predicate MarkedTrack(w: World, histories: map<nat, seq<string>>, id: nat, i: nat)
    requires i < |w.tracks|
  {
    && w.tracks[i].id == id && w.tracks[i].resultSent && id in w.histories && id in histories
    && forall k :: |w.histories[id]| <= k < |histories[id]| ==> histories[id][k] == w.tracks[i].name
  }

  // After an inference a track named by its last result carries a mark exactly if it is an old one.
  lemma InferMarks(c: Config, w: World, faces: seq<Detection>, now: real, m: seq<int>, q: nat)
    requires Invariant(c, w) && Matches(c, w, faces, m) && q < |AfterInfer(c, w, faces, now, m).tracks|
    requires AfterInfer(c, w, faces, now, m).tracks[q].name != ""
    ensures var n := AfterInfer(c, w, faces, now, m);
            n.tracks[q].resultSent <==> StillMarked(w, n.histories, n.tracks[q].id)
  {
    hide Greedy, GreedyAt, AfterInfer, Tells, Streak;
    var n := AfterInfer(c, w, faces, now, m);
    var t := n.tracks[q];
    InferredTrack(c, w, faces, now, m, q);
    if q < |w.tracks| {
      assert t.resultSent ==> MarkedTrack(w, n.histories, t.id, q);
      assert t.id in w.histories;
      assert m[q] >= 0 ==> n.histories[t.id][|w.histories[t.id]|] == faces[m[q]].identified;
    }
  }

  lemma SeenMarks(c: Config, w: World, w2: World, q: nat)
    requires Invariant(c, w) && w2.tracks == w.tracks && w2.histories == w.histories && q < |w.tracks|
    ensures w2.tracks[q].resultSent <==> StillMarked(w, w2.histories, w2.tracks[q].id)
  {
    hide Tells;
    assert w.tracks[q].resultSent ==> MarkedTrack(w, w2.histories, w.tracks[q].id, q);
  }

  lemma BeforeReportMarks(c: Config, w: World, p: Picture, m: seq<int>)
    requires Invariant(c, w)
    requires Looks(c, w) ==> Matches(c, w, p.faces, m)
    ensures var w1 := BeforeReport(c, w, p, m);
            |w1.tracks| == 1 && w1.tracks[0].name != "" ==>
              (w1.tracks[0].resultSent <==> StillMarked(w, w1.histories, w1.tracks[0].id))
  {
    hide Tells, Fresh, Matches, AfterInfer, StillMarked, Invariant;
    var counted := w.(frameCount := w.frameCount + 1);
    CountedInvariant(c, w);
    if Looks(c, w) {
      MatchesAgain(c, w, counted, p.faces, m);
    }
    var seen := if Looks(c, w) then AfterInfer(c, counted, p.faces, p.now, m) else counted;
    var kept := FreshOf(seen.tracks, p.now);
    if |kept| == 1 && seen.tracks[kept[0]].name != "" {
      if Looks(c, w) {
        InferMarks(c, counted, p.faces, p.now, m, kept[0]);
        SameMark(w, counted, seen.histories, seen.tracks[kept[0]].id);
      } else {
        SeenMarks(c, w, seen, kept[0]);
      }
    }
  }

  lemma CountedInvariant(c: Config, w: World)
    requires Invariant(c, w)
    ensures Invariant(c, w.(frameCount := w.frameCount + 1)) && c.skipFrames > 0
  {
    hide Tells;
  }

  lemma SameMark(w: World, w2: World, histories: map<nat, seq<string>>, id: nat)
    requires w2.tracks == w.tracks && w2.histories == w.histories
    ensures StillMarked(w, histories, id) <==> StillMarked(w2, histories, id)
  {
    if StillMarked(w, histories, id) {
      var i :| 0 <= i < |w.tracks| && MarkedTrack(w, histories, id, i);
      assert MarkedTrack(w2, histories, id, i);
    }
    if StillMarked(w2, histories, id) {
      var i :| 0 <= i < |w.tracks| && MarkedTrack(w2, histories, id, i);
      assert MarkedTrack(w, histories, id, i);
    }
  }

  /** The only track left, its last confirmFrames results one name, not marked for it yet. */
  ghost predicate ToAnnounce(c: Config, w: World, w2: World) {
    && |w2.tracks| == 1 && w2.tracks[0].id in w2.histories
    && var h := w2.histories[w2.tracks[0].id];
       LastOf(h) != "" && Streak(h) >= c.confirmFrames && !StillMarked(w, w2.histories, w2.tracks[0].id)
  }

  /** Exactly when a round sends IDENTIFY: the port is open, one track is left, its results confirm a
      name that is not marked, the name fits, and the debouncing lets it through. */
  lemma IdentifyIff(c: Config, w: World, p: Picture, w2: World, sent: Option<Frame>)
    requires Invariant(c, w) && Round(c, w, p, w2, sent)
    ensures Is(sent, CMD_IDENTIFY) <==>
              && p.open && ToAnnounce(c, w, w2)
              && var name := LastOf(w2.histories[w2.tracks[0].id]);
                 && |c.gbk(name)| % 0x1_0000 <= 64
                 && ("IDENTIFY:" + name != w.lastUartCmd || p.now - w.lastUartTime > 3.0)
    ensures Is(sent, CMD_IDENTIFY) ==> Carries(c, sent.value, LastOf(w2.histories[w2.tracks[0].id]))
  {
    hide Matches, BeforeReport, StillMarked, Streak;
    var m := MatchingOf(c, w, p, w2, sent);
    var w1 := BeforeReport(c, w, p, m);
    BeforeReportKeeps(c, w, p, m);
    BeforeReportMarks(c, w, p, m);
    SameMemory(c, w, p, m);
    if |w1.tracks| == 1 {
      assert Tells(w1.tracks[0], w1.histories[w1.tracks[0].id]);
    }
  }

  /** Exactly when a round sends each of the other commands.  One track with a name that is not
      confirmed yet counts as no face. */
  lemma OthersIff(c: Config, w: World, p: Picture, w2: World, sent: Option<Frame>)
    requires Invariant(c, w) && Round(c, w, p, w2, sent)
    ensures Is(sent, CMD_UNKNOWN) <==>
              p.open && |w2.tracks| == 1 && w2.tracks[0].name == "" && w.lastUartCmd != "UNKNOWN"
    ensures Is(sent, CMD_MULTIFACE) <==> p.open && |w2.tracks| > 1 && w.lastUartCmd != "MULTIFACE"
    ensures Is(sent, CMD_NOFACE) <==>
              && p.open && p.now - w.lastNoFaceSent > 2.0
              && (|w2.tracks| == 0 ||
                  (|w2.tracks| == 1 && w2.tracks[0].name != "" && !w2.tracks[0].resultSent))
    ensures Is(sent, CMD_UNKNOWN) ==> sent.value == Frame(0x11, 0x01, [])
    ensures Is(sent, CMD_NOFACE) ==> sent.value == Frame(0x12, 0x01, [])
    ensures Is(sent, CMD_MULTIFACE) ==> sent.value == Frame(0x13, 0x01, [])
    ensures sent.Some? ==>
              Is(sent, CMD_IDENTIFY) || Is(sent, CMD_UNKNOWN) || Is(sent, CMD_NOFACE) || Is(sent, CMD_MULTIFACE)
  {
    hide Matches, BeforeReport;
    var m := MatchingOf(c, w, p, w2, sent);
    SameMemory(c, w, p, m);
  }

  /** And exactly when it marks a track that was not marked: the same without port, length and
      debouncing.  So a mark is no proof of a command. */
  lemma MarkIff(c: Config, w: World, p: Picture, w2: World, sent: Option<Frame>)
    requires Invariant(c, w) && Round(c, w, p, w2, sent)
    ensures ToAnnounce(c, w, w2) <==>
              && |w2.tracks| == 1 && w2.tracks[0].name != "" && w2.tracks[0].resultSent
              && !StillMarked(w, w2.histories, w2.tracks[0].id)
  {
    hide Matches, BeforeReport, StillMarked, Streak, Command;
    var m := MatchingOf(c, w, p, w2, sent);
    var w1 := BeforeReport(c, w, p, m);
    BeforeReportKeeps(c, w, p, m);
    BeforeReportMarks(c, w, p, m);
    if |w1.tracks| == 1 {
      assert Tells(w1.tracks[0], w1.histories[w1.tracks[0].id]);
    }
  }

  // ---- which tracks there are ----

  lemma FreshIff(tracks: seq<Track>, now: real)
    ensures forall t :: t in Fresh(tracks, now) <==> t in tracks && now - t.lastSeen <= 2.0
  {
    hide Fresh;
    var kept := FreshOf(tracks, now);
    forall t | t in tracks && now - t.lastSeen <= 2.0
      ensures t in Fresh(tracks, now)
    {
      var k: nat :| k < |tracks| && tracks[k] == t;
      var i :| 0 <= i < |kept| && kept[i] == k;
      assert Fresh(tracks, now)[i] == t;
    }
  }

  /** A track of this id, there, seen then. */
  ghost predicate HasTrack(tracks: seq<Track>, id: nat, box: Box, lastSeen: real) {
    exists i :: 0 <= i < |tracks| && tracks[i].id == id && tracks[i].box == box && tracks[i].lastSeen == lastSeen
  }

  /** A track with an id not used before. */
  ghost predicate HasNewTrack(tracks: seq<Track>, nextId: nat, box: Box, lastSeen: real) {
    exists id: nat :: nextId <= id && HasTrack(tracks, id, box, lastSeen)
  }

  lemma SameTracksMarked(c: Config, tracks: seq<Track>, id: nat, box: Box, lastSeen: real)
    ensures HasTrack(Marked(c, tracks), id, box, lastSeen) <==> HasTrack(tracks, id, box, lastSeen)
    ensures (forall t :: t in tracks ==> t.id != id) ==> forall t :: t in Marked(c, tracks) ==> t.id != id
  {
    var marked := Marked(c, tracks);
    assert |marked| == |tracks| && forall i :: 0 <= i < |tracks| ==>
      marked[i].id == tracks[i].id && marked[i].box == tracks[i].box && marked[i].lastSeen == tracks[i].lastSeen;
    if i :| 0 <= i < |tracks| && tracks[i].id == id && tracks[i].box == box && tracks[i].lastSeen == lastSeen {
      assert marked[i].id == id && marked[i].box == box && marked[i].lastSeen == lastSeen;
    }
    if i :| 0 <= i < |marked| && marked[i].id == id && marked[i].box == box && marked[i].lastSeen == lastSeen {
      assert tracks[i].id == id && tracks[i].box == box && tracks[i].lastSeen == lastSeen;
    }
  }

  lemma HasFresh(tracks: seq<Track>, now: real, k: nat)
    requires k < |tracks| && now - tracks[k].lastSeen <= 2.0
    ensures HasTrack(Fresh(tracks, now), tracks[k].id, tracks[k].box, tracks[k].lastSeen)
  {
    hide Fresh;
    FreshIff(tracks, now);
    assert tracks[k] in Fresh(tracks, now);
    var i :| 0 <= i < |Fresh(tracks, now)| && Fresh(tracks, now)[i] == tracks[k];
  }

  // A track before the inference, after it.
  lemma OldTrackSeen(c: Config, w: World, faces: seq<Detection>, now: real, m: seq<int>, i: nat)
    requires Invariant(c, w) && Matches(c, w, faces, m) && i < |w.tracks|
    ensures var n, t := AfterInfer(c, w, faces, now, m), w.tracks[i];
            && |w.tracks| <= |n.tracks| && n.tracks[i].id == t.id
            && n.tracks[i].box == (if m[i] >= 0 then faces[m[i]].box else t.box)
            && n.tracks[i].lastSeen == (if m[i] >= 0 then now else t.lastSeen)
  {
    hide Greedy, Created, Tells;
    UpdatedIs(w.tracks, faces, m, now, i);
  }

  lemma NewTrackSeen(c: Config, w: World, faces: seq<Detection>, now: real, m: seq<int>, d: nat) returns (k: nat)
    requires Invariant(c, w) && Matches(c, w, faces, m) && d < |faces|
    requires d !in m
    ensures var n := AfterInfer(c, w, faces, now, m);
            k < |n.tracks| && n.tracks[k] == Track(n.tracks[k].id, faces[d].box, "", 0, false, now)
            && n.tracks[k].id >= w.nextTrackId
  {
    hide Greedy, Created, Tells;
    var used := UsedBy(m, |faces|);
    var sources := CreatedFor(faces, used, w.nextTrackId, now);
    assert !used[d];
    var j :| 0 <= j < |sources| && sources[j] == d;
    k := |w.tracks| + j;
  }

  /** What becomes of every track and face in a round.  A track given a face is there and seen now; a
      track given none stays as long as it was seen within two seconds, and goes otherwise; a face given
      to no track starts one; and nothing stays longer. */
  lemma TracksOfRound(c: Config, w: World, p: Picture, w2: World, sent: Option<Frame>, m: seq<int>)
    requires Invariant(c, w) && Round(c, w, p, w2, sent)
    requires Looks(c, w) ==> Matches(c, w, p.faces, m)
    ensures forall t :: t in w2.tracks ==> p.now - t.lastSeen <= 2.0
    ensures forall i :: 0 <= i < |w.tracks| ==>
              var t := w.tracks[i];
              if Looks(c, w) && m[i] >= 0 then HasTrack(w2.tracks, t.id, p.faces[m[i]].box, p.now)
              else if p.now - t.lastSeen <= 2.0 then HasTrack(w2.tracks, t.id, t.box, t.lastSeen)
              else forall t2 :: t2 in w2.tracks ==> t2.id != t.id
    ensures Looks(c, w) ==>
              forall d :: 0 <= d < |p.faces| && d !in m ==>
                HasNewTrack(w2.tracks, w.nextTrackId, p.faces[d].box, p.now)
  {
    hide Matches, AfterInfer, Fresh, HasTrack, Invariant, Command, Marked, RoundWith, Round, Looks;
    CountedInvariant(c, w);
    var n := MatchingOf(c, w, p, w2, sent);
    if Looks(c, w) {
      SameMatching(c, w, p.faces, m, n);
    }
    var counted := w.(frameCount := w.frameCount + 1);
    if Looks(c, w) {
      MatchesAgain(c, w, counted, p.faces, n);
    }
    var seen := if Looks(c, w) then AfterInfer(c, counted, p.faces, p.now, n) else counted;
    var recent := Fresh(seen.tracks, p.now);
    RoundTracks(c, w, p, n, w2, sent, seen);
    FreshIff(seen.tracks, p.now);
    MarkedSeen(c, recent, p.now);
    forall i | 0 <= i < |w.tracks|
      ensures var t := w.tracks[i];
              if Looks(c, w) && m[i] >= 0 then HasTrack(w2.tracks, t.id, p.faces[m[i]].box, p.now)
              else if p.now - t.lastSeen <= 2.0 then HasTrack(w2.tracks, t.id, t.box, t.lastSeen)
              else forall t2 :: t2 in w2.tracks ==> t2.id != t.id
    {
      if Looks(c, w) {
        OldTrackSeen(c, counted, p.faces, p.now, n, i);
      }
      var t2 := seen.tracks[i];
      if p.now - t2.lastSeen <= 2.0 {
        HasFresh(seen.tracks, p.now, i);
      } else {
        IdsDiffer(c, seen, i);
      }
      SameTracksMarked(c, recent, t2.id, t2.box, t2.lastSeen);
    }
    if Looks(c, w) {
      forall d | 0 <= d < |p.faces| && d !in m
        ensures HasNewTrack(w2.tracks, w.nextTrackId, p.faces[d].box, p.now)
      {
        var k := NewTrackSeen(c, counted, p.faces, p.now, n, d);
        HasFresh(seen.tracks, p.now, k);
        SameTracksMarked(c, recent, seen.tracks[k].id, p.faces[d].box, p.now);
      }
    }
  }

  lemma SameMatching(c: Config, w: World, faces: seq<Detection>, m: seq<int>, n: seq<int>)
    requires Matches(c, w, faces, m) && Matches(c, w, faces, n)
    ensures m == n && |m| == |w.tracks| && forall t :: 0 <= t < |m| ==> -1 <= m[t] < |faces|
  {
    hide Greedy;
    GreedyIsUnique(Boxes(w.tracks), DetectionBoxes(faces), c.overlap, m, n);
  }

  lemma RoundTracks(c: Config, w: World, p: Picture, m: seq<int>, w2: World, sent: Option<Frame>, seen: World)
    requires c.skipFrames > 0 && (Looks(c, w) ==> Matches(c, w, p.faces, m))
    requires Looks(c, w) ==> Matches(c, w.(frameCount := w.frameCount + 1), p.faces, m)
    requires RoundWith(c, w, p, m, w2, sent)
    requires seen == if Looks(c, w) then AfterInfer(c, w.(frameCount := w.frameCount + 1), p.faces, p.now, m)
                     else w.(frameCount := w.frameCount + 1)
    ensures w2.tracks == Marked(c, Fresh(seen.tracks, p.now))
    ensures Invariant(c, w) ==> Invariant(c, seen)
  {
    hide Greedy, Command, Tells, Matches, AfterInfer, Created, Fresh;
    if Looks(c, w) && Invariant(c, w) {
      InferKeeps(c, w.(frameCount := w.frameCount + 1), p.faces, p.now, m);
    }
  }

  lemma MarkedSeen(c: Config, tracks: seq<Track>, now: real)
    requires forall t :: t in tracks ==> now - t.lastSeen <= 2.0
    ensures forall t :: t in Marked(c, tracks) ==> now - t.lastSeen <= 2.0
  {
  }

  lemma IdsDiffer(c: Config, w: World, i: nat)
    requires Invariant(c, w) && i < |w.tracks|
    ensures forall t :: t in w.tracks && t.id == w.tracks[i].id ==> t == w.tracks[i]
  {
    hide Tells;
  }

  // ---- marked and never announced ----

  /** Once the only track is marked for its name, whether or not anything was written then, no
      IDENTIFY comes for it until one of its results gives another name or nobody. */
  lemma MarkedStaysSilent(c: Config, ps: seq<Picture>, ws: seq<World>, sents: seq<Option<Frame>>, i: nat, j: nat)
    requires Runs(c, ps, ws, sents) && Invariant(c, ws[0]) && i < j < |ps| && Is(sents[j], CMD_IDENTIFY)
    requires |ws[i + 1].tracks| == 1 && ws[i + 1].tracks[0].name != "" && ws[i + 1].tracks[0].resultSent
    requires |ws[j + 1].tracks| == 1 && ws[j + 1].tracks[0].id == ws[i + 1].tracks[0].id
    ensures var id, name := ws[i + 1].tracks[0].id, ws[i + 1].tracks[0].name;
            && id in ws[i + 1].histories && id in ws[j + 1].histories
            && OtherSince(ws[j + 1].histories[id], name, |ws[i + 1].histories[id]|)
  {
    hide Round, OtherSince;
    RunKeeps(c, ps, ws, sents, 0, i + 1);
    var t := ws[i + 1].tracks[0];
    assert Tells(t, ws[i + 1].histories[t.id]);
    LastOfNamed(ws[i + 1].histories[t.id]);
    assert Remembers(ws[i + 1], t.id, t.name, |ws[i + 1].histories[t.id]|);
    RunKeeps(c, ps, ws, sents, i + 1, j);
    IdentifyIsConfirmed(c, ws[j], ps[j], ws[j + 1], sents[j]);
    RunKeeps(c, ps, ws, sents, i + 1, j + 1);
  }

  // ---- one person before the camera ----

  /** How many results in a row make a track announced. */
  function Needed(c: Config): nat { if c.confirmFrames == 0 then 1 else c.confirmFrames }

  /** The round in which one person, seen from the start, is confirmed. */
  function ConfirmedIn(c: Config): nat { 1 + c.skipFrames * Needed(c) }

  function Results(c: Config, f: nat): nat
    requires c.skipFrames > 0
  {
    if f == 0 then 0 else (f - 1) / c.skipFrames
  }

  /** The state after f pictures of one person, none of which has led to a command. */
  function Person(c: Config, box: Box, name: string, now: real, f: nat): World
    requires c.skipFrames > 0
  {
    if f == 0 then Start(now)
    else
      var k := Results(c, f);
      World([Track(0, box, if k == 0 then "" else name, k, k >= Needed(c), now)], 1, f, "", now, now,
            map[0 := Names(name, k)])
  }

  function Names(name: string, k: nat): seq<string> { seq(k, _ => name) }

  function Seen(box: Box, name: string, now: real, open: bool): Picture { Picture([Detection(box, name)], now, open) }

  ghost predicate Recognisable(c: Config, box: Box, name: string) {
    c.skipFrames > 1 && c.overlap(box, box) > 0.3 && name != ""
  }

  lemma ResultsGrow(c: Config, f: nat)
    requires c.skipFrames > 1 && f > 0
    ensures Results(c, f + 1) == Results(c, f) + (if (f + 1) % c.skipFrames == 1 then 1 else 0)
  {
    var n := c.skipFrames;
    var q, r := (f - 1) / n, (f - 1) % n;
    assert f - 1 == q * n + r;
    assert (q + 1) * n == q * n + n;
    if r + 1 < n {
      DivModUnique(f, n, q, r + 1);
      if r + 2 < n {
        DivModUnique(f + 1, n, q, r + 2);
      } else {
        DivModUnique(f + 1, n, q + 1, 0);
      }
    } else {
      DivModUnique(f, n, q + 1, 0);
      DivModUnique(f + 1, n, q + 1, 1);
    }
  }

  // The only way to match one face to one track that it overlaps.
  lemma OneToOne(c: Config, box: Box)
    requires c.overlap(box, box) > 0.3
    ensures Greedy([box], [box], c.overlap, [0])
  {
  }

  lemma FreshOne(t: Track, now: real)
    requires t.lastSeen == now
    ensures Fresh([t], now) == [t]
  {
    assert [t][..0] == [];
    assert Fresh([], now) == [];
  }

  // The first picture makes a track without results.
  lemma FirstSeen(c: Config, box: Box, name: string, now: real, w: World)
    requires w == Start(now).(frameCount := 1)
    ensures Matches(c, w, [Detection(box, name)], [])
    ensures AfterInfer(c, w, [Detection(box, name)], now, []) ==
              World([Track(0, box, "", 0, false, now)], 1, 1, "", now, now, map[0 := []])
  {
    var faces := [Detection(box, name)];
    assert UsedBy([], 1) == [false];
    OneMoreCreated(faces, [false], 0, 0, now);
    assert faces[..1] == faces && [false][..1] == [false] && faces[..0] == [] && [false][..0] == [];
    NothingCreated(0, now);
    assert Updated([], faces, [], now) == [];
    assert Extended(map[], [], faces, [], 1) == map[0 := []];
  }

  // Another picture that is looked at adds one result to the track.
  lemma SeenAgain(c: Config, box: Box, name: string, now: real, w: World, t: Track)
    requires c.overlap(box, box) > 0.3
    requires w.tracks == [t] && t.box == box && t.lastSeen == now && t.id == 0 && w.nextTrackId == 1
    requires w.histories.Keys == {0}
    ensures Matches(c, w, [Detection(box, name)], [0])
    ensures AfterInfer(c, w, [Detection(box, name)], now, [0]) ==
              w.(tracks := [Observe(t, name)], histories := map[0 := w.histories[0] + [name]])
  {
    hide Observe, Greedy;
    var faces := [Detection(box, name)];
    OneToOne(c, box);
    assert Boxes(w.tracks) == [box] && DetectionBoxes(faces) == [box];
    assert UsedBy([0], 1) == [true];
    OneMoreCreated(faces, [true], 0, 1, now);
    assert faces[..1] == faces && [true][..1] == [true] && faces[..0] == [] && [true][..0] == [];
    NothingCreated(1, now);
    assert t.(box := box, lastSeen := now) == t;
    assert Updated(w.tracks, faces, [0], now) == [Observe(t, name)];
    ResultsAre(w.tracks, faces, [0], 0);
    assert Extended(w.histories, w.tracks, faces, [0], 1) == map[0 := w.histories[0] + [name]];
  }

  lemma NamesGrow(name: string, k: nat)
    ensures Names(name, k) + [name] == Names(name, k + 1) && Names(name, 0) == []
  {
  }

  // The state of one person after one more picture, before the report.
  lemma PersonSeen(c: Config, box: Box, name: string, now: real, f: nat, p: Picture) returns (m: seq<int>)
    requires Recognisable(c, box, name) && p.faces == [Detection(box, name)] && p.now == now
    ensures Looks(c, Person(c, box, name, now, f)) ==> Matches(c, Person(c, box, name, now, f), p.faces, m)
    ensures var w1, w2 := BeforeReport(c, Person(c, box, name, now, f), p, m), Person(c, box, name, now, f + 1);
            w1 == w2.(tracks := [w2.tracks[0].(resultSent := Results(c, f) >= Needed(c))])
  {
    hide Matches, AfterInfer, Fresh, Results, Names;
    var w := Person(c, box, name, now, f);
    var counted := w.(frameCount := f + 1);
    ResultsAtStart(c);
    NamesGrow(name, Results(c, f));
    NamesGrow(name, 0);
    m := if f == 0 then [] else [0];
    if f == 0 {
      FirstSeen(c, box, name, now, counted);
      MatchesAgain(c, counted, w, p.faces, m);
      FreshOne(Track(0, box, "", 0, false, now), now);
    } else {
      ResultsGrow(c, f);
      var t := w.tracks[0];
      FreshOne(t, now);
      if Looks(c, w) {
        SeenAgain(c, box, name, now, counted, t);
        MatchesAgain(c, counted, w, p.faces, m);
        FreshOne(Observe(t, name), now);
      }
    }
  }

  lemma ResultsAtStart(c: Config)
    requires c.skipFrames > 1
    ensures Results(c, 0) == Results(c, 1) == 0 && 1 % c.skipFrames == 1
  {
    DivModUnique(0, c.skipFrames, 0, 0);
    DivModUnique(1, c.skipFrames, 0, 1);
  }

  /** With the port closed, or once the person is marked, a round sends nothing. */
  lemma PersonUnheard(c: Config, box: Box, name: string, now: real, f: nat, open: bool)
    requires Recognisable(c, box, name) && (open ==> Results(c, f) >= Needed(c))
    ensures Round(c, Person(c, box, name, now, f), Seen(box, name, now, open), Person(c, box, name, now, f + 1), None)
  {
    hide Matches, BeforeReport, Results, Names, Looks;
    var p := Seen(box, name, now, open);
    var m := PersonSeen(c, box, name, now, f, p);
    MoreResults(c, f);
    assert RoundWith(c, Person(c, box, name, now, f), p, m, Person(c, box, name, now, f + 1), None);
  }

  lemma MoreResults(c: Config, f: nat)
    requires c.skipFrames > 1
    ensures Results(c, f) <= Results(c, f + 1)
  {
    ResultsAtStart(c);
    if f > 0 {
      ResultsGrow(c, f);
    }
  }

  /** With the port open in the confirming round, IDENTIFY is sent. */
  lemma PersonAnnounced(c: Config, box: Box, name: string, now: real, f: nat) returns (w2: World)
    requires Recognisable(c, box, name) && |c.gbk(name)| % 0x1_0000 <= 64
    requires Results(c, f) < Needed(c) <= Results(c, f + 1)
    ensures Round(c, Person(c, box, name, now, f), Seen(box, name, now, true), w2,
                  Some(Frame(CMD_IDENTIFY, DIR_PI_TO_STM32, NameData(c, name))))
  {
    hide Matches, BeforeReport, Results, Names, Looks;
    var p := Seen(box, name, now, true);
    var w := Person(c, box, name, now, f);
    var m := PersonSeen(c, box, name, now, f, p);
    var sent := Some(Frame(CMD_IDENTIFY, DIR_PI_TO_STM32, NameData(c, name)));
    CommandsDiffer(Identified, name);
    NotEmptyText(name);
    w2 := AfterReport(Person(c, box, name, now, f + 1), sent, Identified, name, now);
    assert RoundWith(c, w, p, m, w2, sent);
  }

  lemma NotEmptyText(name: string)
    ensures CommandText(Identified, name) != ""
  {
    assert CommandText(Identified, name)[0] == 'I';
  }

  lemma ConfirmedThen(c: Config)
    requires c.skipFrames > 1
    ensures ConfirmedIn(c) > 1 && Results(c, ConfirmedIn(c)) == Needed(c) == Results(c, ConfirmedIn(c) - 1) + 1
  {
    var n, k := c.skipFrames, Needed(c);
    assert n * k == k * n && (k - 1) * n == k * n - n;
    Product(n, k);
    DivModUnique(n * k, n, k, 0);
    DivModUnique(n * k - 1, n, k - 1, n - 1);
  }

  lemma Product(n: nat, k: nat)
    requires n > 0 && k > 0
    ensures n * k > 0
  {
  }

  lemma {:induction false} ResultsStay(c: Config, f: nat, g: nat)
    requires c.skipFrames > 1 && f <= g
    ensures Results(c, f) <= Results(c, g)
    decreases g
  {
    hide Results;
    if f < g {
      ResultsStay(c, f, g - 1);
      MoreResults(c, g - 1);
    }
  }

  // One person for n pictures, with the port closed up to some picture.
  function Watched(box: Box, name: string, now: real, n: nat, opens: nat): seq<Picture> {
    seq(n, k => Seen(box, name, now, k >= opens))
  }

  function Persons(c: Config, box: Box, name: string, now: real, n: nat): seq<World>
    requires c.skipFrames > 0
  {
    seq(n + 1, k requires 0 <= k => Person(c, box, name, now, k))
  }

  lemma PersonRun(c: Config, box: Box, name: string, now: real, n: nat, opens: nat)
    requires Recognisable(c, box, name) && (opens < n ==> Results(c, opens) >= Needed(c))
    ensures Runs(c, Watched(box, name, now, n, opens), Persons(c, box, name, now, n), seq(n, _ => None))
    ensures Persons(c, box, name, now, n)[0] == Start(now)
  {
    hide Round, Results, Seen, Person;
    forall k | 0 <= k < n
      ensures Round(c, Person(c, box, name, now, k), Seen(box, name, now, k >= opens), Person(c, box, name, now, k + 1),
                    None)
    {
      if opens <= k {
        ResultsStay(c, opens, k);
      }
      PersonUnheard(c, box, name, now, k, k >= opens);
    }
    PersonAtStart(c, box, name, now);
  }

  lemma PersonAtStart(c: Config, box: Box, name: string, now: real)
    requires c.skipFrames > 0
    ensures Person(c, box, name, now, 0) == Start(now)
  {
  }

  /** A run that goes wrong.  One person stands before the camera and is recognised whenever a picture
      is looked at; the port is closed up to the round that confirms the name, and open from then on.
      The track is marked in that round, and however long the person stays, nothing is ever sent. */
  lemma ClosedPortSilences(c: Config, box: Box, name: string, now: real, later: nat)
    returns (ps: seq<Picture>, ws: seq<World>, sents: seq<Option<Frame>>)
    requires Recognisable(c, box, name)
    ensures ConfirmedIn(c) > 0 && |ps| == ConfirmedIn(c) + later && Runs(c, ps, ws, sents) && ws[0] == Start(now)
    ensures forall i :: 0 <= i < |ps| ==> ps[i] == Seen(box, name, now, i >= ConfirmedIn(c)) && sents[i].None?
    ensures ToAnnounce(c, ws[ConfirmedIn(c) - 1], ws[ConfirmedIn(c)])
  {
    hide Round, Results, Seen, ConfirmedIn, ToAnnounce, Person, Runs;
    var f := ConfirmedIn(c);
    ConfirmedThen(c);
    ps, ws, sents := Watched(box, name, now, f + later, f), Persons(c, box, name, now, f + later),
                     seq(f + later, _ => None);
    PersonRun(c, box, name, now, f + later, f);
    PersonToAnnounce(c, box, name, now, f - 1);
  }

  lemma PersonToAnnounce(c: Config, box: Box, name: string, now: real, f: nat)
    requires Recognisable(c, box, name) && f > 0 && Results(c, f) < Needed(c) == Results(c, f + 1)
    ensures ToAnnounce(c, Person(c, box, name, now, f), Person(c, box, name, now, f + 1))
  {
    hide Results;
    StreakOfNames(name, Needed(c));
    var w, w2 := Person(c, box, name, now, f), Person(c, box, name, now, f + 1);
    assert !w.tracks[0].resultSent;
    assert !StillMarked(w, w2.histories, 0);
  }

  lemma {:induction false} StreakOfNames(name: string, k: nat)
    requires name != "" && k > 0
    ensures LastOf(Names(name, k)) == name && Streak(Names(name, k)) == k
  {
    if k > 1 {
      StreakOfNames(name, k - 1);
      assert Names(name, k)[..k - 1] == Names(name, k - 1);
    }
  }

  /** The same pictures with the port open in the confirming round: the person is announced. */
  lemma OpenPortAnnounces(c: Config, box: Box, name: string, now: real)
    returns (ps: seq<Picture>, ws: seq<World>, sents: seq<Option<Frame>>)
    requires Recognisable(c, box, name) && |c.gbk(name)| % 0x1_0000 <= 64
    ensures ConfirmedIn(c) > 0 && |ps| == ConfirmedIn(c) && Runs(c, ps, ws, sents) && ws[0] == Start(now)
    ensures forall i :: 0 <= i < |ps| ==> ps[i] == Seen(box, name, now, i >= |ps| - 1)
    ensures sents[|ps| - 1].Some? && Carries(c, sents[|ps| - 1].value, name)
  {
    hide Round, Results, Seen, ConfirmedIn, Person;
    var f := ConfirmedIn(c) - 1;
    ConfirmedThen(c);
    PersonRun(c, box, name, now, f, f);
    var w := PersonAnnounced(c, box, name, now, f);
    var closed, states := Watched(box, name, now, f, f), Persons(c, box, name, now, f);
    ps, ws := closed + [Seen(box, name, now, true)], states + [w];
    sents := seq(f, _ => None) + [Some(Frame(CMD_IDENTIFY, DIR_PI_TO_STM32, NameData(c, name)))];
    assert Round(c, ws[f], ps[f], ws[f + 1], sents[f]);
    forall i | 0 <= i < f
      ensures Round(c, ws[i], ps[i], ws[i + 1], sents[i])
    {
      assert Round(c, states[i], closed[i], states[i + 1], None);
    }
  }

  // ---- for which settings anybody is announced ----

  ghost predicate Unnamed(w: World) { forall i :: 0 <= i < |w.tracks| ==> w.tracks[i].name == "" }

  // With skipFrames 1 a picture is looked at only without a track, so no track ever gets a result.
  lemma SkipOneKeepsUnnamed(c: Config, w: World, p: Picture, w2: World, sent: Option<Frame>)
    requires c.skipFrames == 1 && Unnamed(w) && Round(c, w, p, w2, sent)
    ensures Unnamed(w2) && !Is(sent, CMD_IDENTIFY)
  {
    hide Greedy, Created, Fresh, UsedBy;
    var m := MatchingOf(c, w, p, w2, sent);
    var counted := w.(frameCount := w.frameCount + 1);
    DivideByOne(w.frameCount + 1);
    CreatedAre(p.faces, UsedBy(m, |p.faces|), w.nextTrackId, p.now);
    var seen := if Looks(c, w) then AfterInfer(c, counted, p.faces, p.now, m) else counted;
    assert Unnamed(seen);
    var kept := FreshOf(seen.tracks, p.now);
  }

  /** With skipFrames 1 nobody is announced, in any run from the start. */
  lemma {:induction false} SkipOneIsSilent(c: Config, ps: seq<Picture>, ws: seq<World>, sents: seq<Option<Frame>>,
                                           i: nat)
    requires c.skipFrames == 1 && Runs(c, ps, ws, sents) && Unnamed(ws[0]) && i < |ps|
    ensures !Is(sents[i], CMD_IDENTIFY) && Unnamed(ws[i + 1])
  {
    hide Round, Unnamed;
    if i > 0 {
      SkipOneIsSilent(c, ps, ws, sents, i - 1);
    }
    SkipOneKeepsUnnamed(c, ws[i], ps[i], ws[i + 1], sents[i]);
  }

  ghost predicate Announces(c: Config, now: real, ps: seq<Picture>, ws: seq<World>, sents: seq<Option<Frame>>) {
    && c.skipFrames > 0 && Runs(c, ps, ws, sents) && ws[0] == Start(now)
    && exists i :: 0 <= i < |sents| && Is(sents[i], CMD_IDENTIFY)
  }

  /** Given a face that the overlap finds again and a name that fits, some run from the start
      announces somebody exactly if skipFrames is not 1. */
  lemma AnnouncesIff(c: Config, box: Box, name: string, now: real)
    requires c.skipFrames > 0 && c.overlap(box, box) > 0.3
    requires name != "" && |c.gbk(name)| % 0x1_0000 <= 64
    ensures (exists ps, ws, sents :: Announces(c, now, ps, ws, sents)) <==> c.skipFrames != 1
  {
    hide Runs, NameData, Start;
    if c.skipFrames != 1 {
      var ps, ws, sents := OpenPortAnnounces(c, box, name, now);
      RunLengths(c, ps, ws, sents);
      assert Announces(c, now, ps, ws, sents);
    } else {
      forall ps, ws, sents
        ensures !Announces(c, now, ps, ws, sents)
      {
        if Announces(c, now, ps, ws, sents) {
          var i :| 0 <= i < |sents| && Is(sents[i], CMD_IDENTIFY);
          StartIsUnnamed(now);
          RunLengths(c, ps, ws, sents);
          SkipOneIsSilent(c, ps, ws, sents, i);
        }
      }
    }
  }

  lemma RunLengths(c: Config, ps: seq<Picture>, ws: seq<World>, sents: seq<Option<Frame>>)
    requires Runs(c, ps, ws, sents)
    ensures |sents| == |ps| && |ws| == |ps| + 1
  {
    hide Round;
  }

  lemma StartIsUnnamed(now: real)
    ensures Unnamed(Start(now))
  {
  }
}
