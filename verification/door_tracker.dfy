// The tracks of the door: faces are matched to them from picture to picture, and each carries the
// name its last identifications gave and how many in a row did.
module DoorTracker {
  datatype Box = Box(x1: real, y1: real, x2: real, y2: real)

  /** A face in the picture, and the name identify gives for it: "" for nobody. */
  datatype Detection = Detection(box: Box, identified: string)

  datatype Track = Track(id: nat, box: Box, name: string, confirmCount: nat, resultSent: bool, lastSeen: real)

  // ---- matching ----

  const THRESHOLD := 0.3

  type Overlap = (Box, Box) -> real

  /** Track t is not taken by a detection before d. */
  predicate Free(m: seq<int>, t: nat, d: nat)
    requires t < |m|
  {
    !(0 <= m[t] < d)
  }

  /** Detection d has the first of the best free tracks above the threshold, or there is none. */
  ghost predicate GreedyAt(tracks: seq<Box>, detections: seq<Box>, overlap: Overlap, m: seq<int>, d: nat)
    requires |m| == |tracks| && d < |detections|
  {
    && (forall t :: 0 <= t < |m| && m[t] == d ==>
          && overlap(tracks[t], detections[d]) > THRESHOLD
          && forall u :: 0 <= u < |m| && Free(m, u, d) ==>
               && overlap(tracks[u], detections[d]) <= overlap(tracks[t], detections[d])
               && (u < t ==> overlap(tracks[u], detections[d]) < overlap(tracks[t], detections[d])))
    && ((forall t :: 0 <= t < |m| ==> m[t] != d) ==>
          forall u :: 0 <= u < |m| && Free(m, u, d) ==> overlap(tracks[u], detections[d]) <= THRESHOLD)
  }

  ghost predicate Greedy(tracks: seq<Box>, detections: seq<Box>, overlap: Overlap, m: seq<int>) {
    && |m| == |tracks|
    && (forall t :: 0 <= t < |m| ==> -1 <= m[t] < |detections|)
    && forall d :: 0 <= d < |detections| ==> GreedyAt(tracks, detections, overlap, m, d)
  }

  /** No detection is given to two tracks. */
  lemma GreedyIsOneToOne(tracks: seq<Box>, detections: seq<Box>, overlap: Overlap, m: seq<int>,
                                            t: nat, u: nat)
    requires Greedy(tracks, detections, overlap, m) && t < u < |m| && m[t] >= 0
    ensures m[t] != m[u]
  {
    if m[t] == m[u] {
      assert GreedyAt(tracks, detections, overlap, m, m[t]);
      assert Free(m, t, m[t]) && Free(m, u, m[t]);
    }
  }

  /** Which track a detection gets: of the tracks no detection before it has, the first of those that
      overlap it most, if that is more than 0.3. */
  lemma BestTrackIff(tracks: seq<Box>, detections: seq<Box>, overlap: Overlap, m: seq<int>, t: nat, d: nat)
    requires Greedy(tracks, detections, overlap, m) && t < |tracks| && d < |detections|
    ensures m[t] == d <==>
              && !(0 <= m[t] < d) && overlap(tracks[t], detections[d]) > 0.3
              && (forall u :: 0 <= u < |tracks| && !(0 <= m[u] < d) ==>
                    overlap(tracks[u], detections[d]) <= overlap(tracks[t], detections[d]))
              && (forall u :: 0 <= u < t && !(0 <= m[u] < d) ==>
                    overlap(tracks[u], detections[d]) < overlap(tracks[t], detections[d]))
  {
    assert GreedyAt(tracks, detections, overlap, m, d);
    if m[t] == d {
      forall u | 0 <= u < |tracks| && !(0 <= m[u] < d)
        ensures Free(m, u, d)
      {
      }
    } else if !(0 <= m[t] < d) {
      assert Free(m, t, d);
    }
  }

  /** The rule leaves no choice. */
  lemma GreedyIsUnique(tracks: seq<Box>, detections: seq<Box>, overlap: Overlap, m: seq<int>,
                                          n: seq<int>)
    requires Greedy(tracks, detections, overlap, m) && Greedy(tracks, detections, overlap, n)
    ensures m == n
  {
    GreedyAgrees(tracks, detections, overlap, m, n, |detections|);
  }

  lemma {:induction false} GreedyAgrees(tracks: seq<Box>, detections: seq<Box>, overlap: Overlap, m: seq<int>,
                                        n: seq<int>, d: nat)
    requires Greedy(tracks, detections, overlap, m) && Greedy(tracks, detections, overlap, n) && d <= |detections|
    ensures forall t :: 0 <= t < |m| ==> (0 <= m[t] < d || 0 <= n[t] < d ==> m[t] == n[t])
  {
    if d > 0 {
      GreedyAgrees(tracks, detections, overlap, m, n, d - 1);
      forall t | 0 <= t < |m| && (m[t] == d - 1 || n[t] == d - 1)
        ensures m[t] == n[t]
      {
        if m[t] == d - 1 {
          SameChoice(tracks, detections, overlap, m, n, d - 1, t);
        } else {
          SameChoice(tracks, detections, overlap, n, m, d - 1, t);
        }
      }
    }
  }

  lemma SameChoice(tracks: seq<Box>, detections: seq<Box>, overlap: Overlap, m: seq<int>,
                                      n: seq<int>, d: nat, t: nat)
    requires Greedy(tracks, detections, overlap, m) && Greedy(tracks, detections, overlap, n) && d < |detections|
    requires forall u :: 0 <= u < |m| ==> (0 <= m[u] < d || 0 <= n[u] < d ==> m[u] == n[u])
    requires t < |m| && m[t] == d
    ensures n[t] == d
  {
    assert GreedyAt(tracks, detections, overlap, m, d) && GreedyAt(tracks, detections, overlap, n, d);
    assert Free(n, t, d);
    if u :| 0 <= u < |n| && n[u] == d {
      assert Free(m, u, d);
    }
  }

  function Boxes(tracks: seq<Track>): seq<Box> { seq(|tracks|, i requires 0 <= i < |tracks| => tracks[i].box) }

  function DetectionBoxes(ds: seq<Detection>): seq<Box> { seq(|ds|, i requires 0 <= i < |ds| => ds[i].box) }

  /** Which of n detections a matching uses. */
  function UsedBy(m: seq<int>, n: nat): (used: seq<bool>)
    ensures |used| == n
  {
    seq(n, d => d in m)
  }

  /** The matching loops. */
  method Match(tracks: seq<Box>, detections: seq<Box>, overlap: Overlap) returns (matchedTo: seq<int>, used: seq<bool>)
    ensures Greedy(tracks, detections, overlap, matchedTo)
    ensures used == UsedBy(matchedTo, |detections|)
    ensures forall d :: 0 <= d < |used| ==> (used[d] <==> exists t :: 0 <= t < |matchedTo| && matchedTo[t] == d)
  {
    matchedTo := seq(|tracks|, _ => -1);
    used := seq(|detections|, _ => false);
    var di := 0;
    while di < |detections|
      invariant 0 <= di <= |detections| && |matchedTo| == |tracks| && |used| == |detections|
      invariant forall t :: 0 <= t < |matchedTo| ==> -1 <= matchedTo[t] < di
      invariant forall d :: 0 <= d < di ==> GreedyAt(tracks, detections, overlap, matchedTo, d)
      invariant forall d :: 0 <= d < |used| ==> (used[d] <==> exists t :: 0 <= t < |matchedTo| && matchedTo[t] == d)
    {
      var best := BestFree(tracks, detections[di], overlap, matchedTo);
      ghost var before := matchedTo;
      if best >= 0 {
        matchedTo := matchedTo[best := di];
        used := used[di := true];
        MatchedOne(tracks, detections, overlap, before, matchedTo, di, best);
        assert matchedTo[best] == di;
        forall d | 0 <= d < |used| && d != di
          ensures used[d] <==> exists t :: 0 <= t < |matchedTo| && matchedTo[t] == d
        {
          if t :| 0 <= t < |before| && before[t] == d {
            assert matchedTo[t] == d;
          }
        }
      } else {
        assert GreedyAt(tracks, detections, overlap, matchedTo, di);
      }
      di := di + 1;
    }
    assert used == UsedBy(matchedTo, |detections|);
  }

  // The inner loop: the first of the best tracks not matched yet, or -1.
  method BestFree(tracks: seq<Box>, detection: Box, overlap: Overlap, matchedTo: seq<int>) returns (bestTi: int)
    requires |matchedTo| == |tracks|
    ensures -1 <= bestTi < |tracks|
    ensures bestTi >= 0 ==>
              && matchedTo[bestTi] < 0 && overlap(tracks[bestTi], detection) > 0.3
              && forall u :: 0 <= u < |tracks| && matchedTo[u] < 0 ==>
                   && overlap(tracks[u], detection) <= overlap(tracks[bestTi], detection)
                   && (u < bestTi ==> overlap(tracks[u], detection) < overlap(tracks[bestTi], detection))
    ensures bestTi < 0 ==>
              forall u :: 0 <= u < |tracks| && matchedTo[u] < 0 ==> overlap(tracks[u], detection) <= 0.3
  {
    var bestIou := THRESHOLD;
    bestTi := -1;
    var ti := 0;
    while ti < |tracks|
      invariant 0 <= ti <= |tracks| && -1 <= bestTi < ti
      invariant bestTi < 0 ==> bestIou == THRESHOLD
      invariant bestTi >= 0 ==> matchedTo[bestTi] < 0 && bestIou == overlap(tracks[bestTi], detection) > THRESHOLD
      invariant forall u :: 0 <= u < ti && matchedTo[u] < 0 ==>
                  && overlap(tracks[u], detection) <= bestIou
                  && (u < bestTi ==> overlap(tracks[u], detection) < bestIou)
    {
      if matchedTo[ti] < 0 {
        var i := overlap(tracks[ti], detection);
        if i > bestIou {
          bestIou, bestTi := i, ti;
        }
      }
      ti := ti + 1;
    }
  }

  // Giving a free track to detection d does not touch the choices before it.
  lemma MatchedOne(tracks: seq<Box>, detections: seq<Box>, overlap: Overlap, m: seq<int>,
                                      n: seq<int>, d: nat, best: nat)
    requires |m| == |tracks| && d < |detections| && best < |m| && m[best] < 0 && n == m[best := d]
    requires forall t :: 0 <= t < |m| ==> -1 <= m[t] < d
    requires forall e :: 0 <= e < d ==> GreedyAt(tracks, detections, overlap, m, e)
    requires overlap(tracks[best], detections[d]) > THRESHOLD
    requires forall u :: 0 <= u < |m| && m[u] < 0 ==>
               && overlap(tracks[u], detections[d]) <= overlap(tracks[best], detections[d])
               && (u < best ==> overlap(tracks[u], detections[d]) < overlap(tracks[best], detections[d]))
    ensures forall e :: 0 <= e <= d ==> GreedyAt(tracks, detections, overlap, n, e)
  {
    forall e | 0 <= e < d
      ensures GreedyAt(tracks, detections, overlap, n, e)
    {
      assert GreedyAt(tracks, detections, overlap, m, e);
      assert forall u :: 0 <= u < |m| ==> (Free(m, u, e) <==> Free(n, u, e)) && (m[u] == e <==> n[u] == e);
    }
    assert n[best] == d;
    assert GreedyAt(tracks, detections, overlap, n, d);
  }

  // ---- identification results ----

  function LastOf(h: seq<string>): string { if h == [] then "" else h[|h| - 1] }

  /** How many identifications in a row, up to now, gave the present name. */
  function Streak(h: seq<string>): nat {
    if LastOf(h) == "" then 0
    else if |h| > 1 && h[|h| - 2] == LastOf(h) then Streak(h[..|h| - 1]) + 1
    else 1
  }

  lemma {:induction false} StreakIs(h: seq<string>)
    ensures Streak(h) <= |h|
    ensures forall k :: |h| - Streak(h) <= k < |h| ==> h[k] == LastOf(h)
    ensures LastOf(h) != "" && Streak(h) < |h| ==> h[|h| - Streak(h) - 1] != LastOf(h)
  {
    if LastOf(h) != "" && |h| > 1 && h[|h| - 2] == LastOf(h) {
      StreakIs(h[..|h| - 1]);
    }
  }

  /** What the loop does to a track for one identification result. */
  function Observe(t: Track, result: string): Track {
    if result == "" then t.(name := "", confirmCount := 0, resultSent := false)
    else if t.name == result then t.(confirmCount := t.confirmCount + 1)
    else t.(name := result, confirmCount := 1, resultSent := false)
  }

  // ---- the pieces of a round ----

  /** The matched tracks, updated. */
  function Updated(tracks: seq<Track>, ds: seq<Detection>, m: seq<int>, now: real): (r: seq<Track>)
    requires |m| == |tracks| && forall t :: 0 <= t < |m| ==> m[t] < |ds|
    ensures |r| == |tracks|
  {
    seq(|tracks|, t requires 0 <= t < |tracks| =>
      if m[t] < 0 then tracks[t]
      else Observe(tracks[t].(box := ds[m[t]].box, lastSeen := now), ds[m[t]].identified))
  }

  /** One new track for every detection not used, with fresh ids. */
  function Created(ds: seq<Detection>, used: seq<bool>, nextId: nat, now: real): seq<Track>
    requires |used| == |ds|
  {
    if ds == [] then []
    else
      var n := |ds| - 1;
      var before := Created(ds[..n], used[..n], nextId, now);
      if used[n] then before else before + [Track(nextId + |before|, ds[n].box, "", 0, false, now)]
  }

  /** Tracks seen within the last two seconds. */
  function Fresh(tracks: seq<Track>, now: real): seq<Track> {
    if tracks == [] then []
    else
      var n := |tracks| - 1;
      Fresh(tracks[..n], now) + (if now - tracks[n].lastSeen > 2.0 then [] else [tracks[n]])
  }

  /** The results the pictures' detections ds give the track id under the matching m. */
  function ResultsFor(tracks: seq<Track>, ds: seq<Detection>, m: seq<int>, id: nat): seq<string>
    requires |m| == |tracks| && forall t :: 0 <= t < |m| ==> m[t] < |ds|
  {
    if tracks == [] then []
    else
      var n := |tracks| - 1;
      ResultsFor(tracks[..n], ds, m[..n], id) +
      (if tracks[n].id == id && m[n] >= 0 then [ds[m[n]].identified] else [])
  }

  ghost predicate DistinctIds(tracks: seq<Track>) {
    forall i, j :: 0 <= i < j < |tracks| ==> tracks[i].id != tracks[j].id
  }

  /** A matched track gets exactly the result of its detection, any other track none. */
  lemma {:induction false} ResultsAre(tracks: seq<Track>, ds: seq<Detection>, m: seq<int>, id: nat)
    requires |m| == |tracks| && forall t :: 0 <= t < |m| ==> m[t] < |ds|
    requires DistinctIds(tracks)
    ensures forall t :: 0 <= t < |tracks| && tracks[t].id == id ==>
              ResultsFor(tracks, ds, m, id) == if m[t] >= 0 then [ds[m[t]].identified] else []
    ensures (forall t :: 0 <= t < |tracks| ==> tracks[t].id != id) ==> ResultsFor(tracks, ds, m, id) == []
  {
    if tracks != [] {
      var n := |tracks| - 1;
      ResultsAre(tracks[..n], ds, m[..n], id);
      forall t | 0 <= t < |tracks| && tracks[t].id == id
        ensures ResultsFor(tracks, ds, m, id) == if m[t] >= 0 then [ds[m[t]].identified] else []
      {
        if t < n {
          assert tracks[..n][t].id == id && tracks[n].id != id;
        } else {
          assert forall u :: 0 <= u < n ==> tracks[..n][u].id != id;
        }
      }
    }
  }

  lemma OneMoreResult(tracks: seq<Track>, ds: seq<Detection>, m: seq<int>, n: nat, id: nat)
    requires |m| == |tracks| && n < |tracks| && forall t :: 0 <= t < |m| ==> m[t] < |ds|
    ensures ResultsFor(tracks[..n + 1], ds, m[..n + 1], id) ==
              ResultsFor(tracks[..n], ds, m[..n], id) +
              (if tracks[n].id == id && m[n] >= 0 then [ds[m[n]].identified] else [])
  {
    assert tracks[..n + 1][..n] == tracks[..n] && m[..n + 1][..n] == m[..n];
  }

  /** The histories after a picture: each gains the track's results, new tracks start empty. */
  function Extended(histories: map<nat, seq<string>>, tracks: seq<Track>, ds: seq<Detection>, m: seq<int>, nextId: nat)
    : map<nat, seq<string>>
    requires |m| == |tracks| && forall t :: 0 <= t < |m| ==> m[t] < |ds|
  {
    map id: nat | 0 <= id < nextId ::
      (if id in histories then histories[id] else []) + ResultsFor(tracks, ds, m, id)
  }

  /** A track says what its results say. */
  ghost predicate Tells(t: Track, h: seq<string>) {
    t.name == LastOf(h) && t.confirmCount == Streak(h)
  }

  /** Recording a result keeps name and count those of the history. */
  lemma ObserveTells(t: Track, h: seq<string>, result: string)
    requires Tells(t, h)
    ensures Tells(Observe(t, result), h + [result])
  {
    var h2 := h + [result];
    assert h2[..|h2| - 1] == h;
  }

  lemma NothingCreated(nextId: nat, now: real)
    ensures Created([], [], nextId, now) == []
  {
  }

  lemma OneMoreCreated(ds: seq<Detection>, used: seq<bool>, n: nat, nextId: nat, now: real)
    requires |used| == |ds| && n < |ds|
    ensures var before := Created(ds[..n], used[..n], nextId, now);
            Created(ds[..n + 1], used[..n + 1], nextId, now) ==
              if used[n] then before else before + [Track(nextId + |before|, ds[n].box, "", 0, false, now)]
  {
    assert ds[..n + 1][..n] == ds[..n] && used[..n + 1][..n] == used[..n];
  }

  /** New tracks have the next ids, in order, and no name. */
  lemma {:induction false} CreatedAre(ds: seq<Detection>, used: seq<bool>, nextId: nat, now: real)
    requires |used| == |ds|
    ensures forall i :: 0 <= i < |Created(ds, used, nextId, now)| ==>
              var t := Created(ds, used, nextId, now)[i]; t.id == nextId + i && Tells(t, []) && !t.resultSent
  {
    if ds != [] {
      var n := |ds| - 1;
      CreatedAre(ds[..n], used[..n], nextId, now);
    }
  }

  /** The tracks are for the detections sources, in their order and not used: each with the next id, the
      box and the time, and without name, results or mark. */
  ghost predicate MadeFrom(ds: seq<Detection>, used: seq<bool>, nextId: nat, now: real, tracks: seq<Track>,
                           sources: seq<nat>)
    requires |used| == |ds|
  {
    && |sources| == |tracks|
    && (forall i :: 0 <= i < |sources| ==>
          && sources[i] < |ds| && !used[sources[i]]
          && tracks[i] == Track(nextId + i, ds[sources[i]].box, "", 0, false, now))
    && (forall i, j :: 0 <= i < j < |sources| ==> sources[i] < sources[j])
  }

  ghost predicate AllOf(used: seq<bool>, sources: seq<nat>) {
    forall d: nat :: d < |used| && !used[d] ==> d in sources
  }

  /** New tracks are made from exactly the detections not used. */
  lemma {:induction false} CreatedFor(ds: seq<Detection>, used: seq<bool>, nextId: nat, now: real)
    returns (sources: seq<nat>)
    requires |used| == |ds|
    ensures MadeFrom(ds, used, nextId, now, Created(ds, used, nextId, now), sources) && AllOf(used, sources)
  {
    hide Created, MadeFrom, AllOf;
    if ds == [] {
      NothingCreated(nextId, now);
      sources := [];
      NothingMade(nextId, now);
    } else {
      var n := |ds| - 1;
      assert ds[..n + 1] == ds && used[..n + 1] == used;
      OneMoreCreated(ds, used, n, nextId, now);
      var before := CreatedFor(ds[..n], used[..n], nextId, now);
      sources := if used[n] then before else before + [n];
      OneMoreMade(ds, used, nextId, now, Created(ds[..n], used[..n], nextId, now), before);
      OneMoreOf(used, before);
    }
  }

  lemma NothingMade(nextId: nat, now: real)
    ensures MadeFrom([], [], nextId, now, [], []) && AllOf([], [])
  {
  }

  lemma OneMoreMade(ds: seq<Detection>, used: seq<bool>, nextId: nat, now: real, tracks: seq<Track>, sources: seq<nat>)
    requires |used| == |ds| > 0
    requires MadeFrom(ds[..|ds| - 1], used[..|ds| - 1], nextId, now, tracks, sources)
    ensures MadeFrom(ds, used, nextId, now, tracks, sources)
    ensures !used[|ds| - 1] ==>
              MadeFrom(ds, used, nextId, now,
                       tracks + [Track(nextId + |tracks|, ds[|ds| - 1].box, "", 0, false, now)], sources + [|ds| - 1])
  {
  }

  lemma OneMoreOf(used: seq<bool>, sources: seq<nat>)
    requires used != [] && AllOf(used[..|used| - 1], sources)
    ensures AllOf(used, if used[|used| - 1] then sources else sources + [|used| - 1])
  {
    var n := |used| - 1;
    var sources2 := if used[n] then sources else sources + [n];
    forall d: nat | d < |used| && !used[d]
      ensures d in sources2
    {
      if d < n {
        assert used[..n][d] == used[d] && d in sources;
      } else {
        assert sources2[|sources|] == n;
      }
    }
  }

  /** What a round does to a track: one without a detection stays; one with a detection moves there, is
      seen now, takes the name identified, counts it, and keeps its mark only for the same name. */
  lemma UpdatedIs(tracks: seq<Track>, ds: seq<Detection>, m: seq<int>, now: real, t: nat)
    requires |m| == |tracks| && (forall u :: 0 <= u < |m| ==> m[u] < |ds|) && t < |tracks|
    ensures m[t] < 0 ==> Updated(tracks, ds, m, now)[t] == tracks[t]
    ensures m[t] >= 0 ==>
              var before, after, face := tracks[t], Updated(tracks, ds, m, now)[t], ds[m[t]];
              && after.id == before.id && after.box == face.box && after.lastSeen == now
              && after.name == face.identified
              && after.confirmCount == (if face.identified == "" then 0
                                        else if face.identified == before.name then before.confirmCount + 1 else 1)
              && (after.resultSent <==> before.resultSent && face.identified == before.name != "")
  {
  }

  /** Exactly the tracks seen within the last two seconds stay, in their order. */
  lemma {:induction false} FreshOf(tracks: seq<Track>, now: real) returns (kept: seq<nat>)
    ensures |kept| == |Fresh(tracks, now)|
    ensures forall i :: 0 <= i < |kept| ==> kept[i] < |tracks| && Fresh(tracks, now)[i] == tracks[kept[i]]
    ensures forall i, j :: 0 <= i < j < |kept| ==> kept[i] < kept[j]
    ensures forall k: nat :: k < |tracks| ==> (k in kept <==> now - tracks[k].lastSeen <= 2.0)
  {
    hide Fresh;
    if tracks == [] {
      NothingFresh(now);
      kept := [];
    } else {
      var n := |tracks| - 1;
      var rest := tracks[..n];
      assert tracks[..n + 1] == tracks;
      OneMoreFresh(tracks, n, now);
      var before := FreshOf(rest, now);
      kept := if now - tracks[n].lastSeen > 2.0 then before else before + [n];
      forall k: nat | k < |tracks|
        ensures k in kept <==> now - tracks[k].lastSeen <= 2.0
      {
        if k < n {
          assert rest[k] == tracks[k];
        } else {
          assert n !in before;
        }
      }
    }
  }

  lemma NothingFresh(now: real)
    ensures Fresh([], now) == []
  {
  }

  lemma OneMoreFresh(tracks: seq<Track>, n: nat, now: real)
    requires n < |tracks|
    ensures Fresh(tracks[..n + 1], now) ==
              Fresh(tracks[..n], now) + (if now - tracks[n].lastSeen > 2.0 then [] else [tracks[n]])
  {
    assert tracks[..n + 1][..n] == tracks[..n];
  }

  lemma GreedyIsBounded(tracks: seq<Box>, detections: seq<Box>, overlap: Overlap, m: seq<int>)
    requires Greedy(tracks, detections, overlap, m)
    ensures |m| == |tracks| && forall t :: 0 <= t < |m| ==> -1 <= m[t] < |detections|
  {
  }
}
