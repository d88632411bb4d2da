/**
  The branching wasteland adventure: the scene table and the engine that
  walks it, one numbered pick per non-ending scene.
 */
module Story {
  import opened Wrappers
  import opened Numeric

  /**
    A scene: the ids its choices lead to, in the order the choice dictionary
    declares them, and the ending tag for ending scenes. The narration and
    the choice captions are display text and not part of the model.
   */
  datatype Scene = Scene(choices: seq<string>, ending: Option<string>)

  const START := "start"

  /**
    The story's scene table: 31 scenes, each with its choices' target ids
    in declaration order, four of them endings.
   */
  function Scenes(): map<string, Scene> {
    map[
        "start" := Scene(["river_crossing", "outpost_gate"], None),
        "river_crossing" := Scene(["ford_attempt", "follow_tracks"], None),
        "ford_attempt" := Scene(["across_river", "river_retreat"], None),
        "follow_tracks" := Scene(["reeds_encounter", "reeds_watch"], None),
        "across_river" := Scene(["burned_wagon", "lonely_trail"], None),
        "river_retreat" := Scene(["storm_camp", "exhausted_march"], None),
        "reeds_encounter" := Scene(["protect_traveler", "leave_traveler"], None),
        "reeds_watch" := Scene(["protect_traveler", "leave_traveler"], None),
        "burned_wagon" := Scene(["canyon_path", "lonely_trail"], None),
        "lonely_trail" := Scene(["voice_in_shade", "silent_march"], None),
        "storm_camp" := Scene(["midnight_shapes", "restless_sleep"], None),
        "exhausted_march" := Scene(["collapse_road", "restless_sleep"], None),
        "protect_traveler" := Scene(["ruined_bridge", "lonely_trail"], None),
        "leave_traveler" := Scene(["river_retreat", "lonely_trail"], None),
        "canyon_path" := Scene(["ambush_site", "lonely_trail"], None),
        "voice_in_shade" := Scene(["guide_offer", "bad_blood"], None),
        "silent_march" := Scene(["rest_stop", "collapse_road"], None),
        "midnight_shapes" := Scene(["voice_in_shade", "rest_stop"], None),
        "restless_sleep" := Scene(["silent_march", "collapse_road"], None),
        "ruined_bridge" := Scene(["ending_fall", "canyon_path"], None),
        "ambush_site" := Scene(["ending_taken", "rest_stop"], None),
        "rest_stop" := Scene(["collapse_road", "ending_settlement"], None),
        "guide_offer" := Scene(["ending_servitude", "collapse_road"], None),
        "bad_blood" := Scene(["collapse_road", "ending_taken"], None),
        "collapse_road" := Scene(["ending_fall", "ending_taken"], None),
        "outpost_gate" := Scene(["outpost_inside", "river_crossing"], None),
        "outpost_inside" := Scene(["voice_in_shade", "reeds_watch"], None),
        "ending_fall" := Scene([], Some("lost_to_wilds")),
        "ending_taken" := Scene([], Some("mysterious_vanish")),
        "ending_settlement" := Scene([], Some("quiet_return")),
        "ending_servitude" := Scene([], Some("retired_wealthy"))
    ]
  }

  // ------------------------------------------------------- the table

  /** Every choice of every scene leads to a scene of the table. */
  predicate Closed(table: map<string, Scene>) {
    forall id, i :: id in table && 0 <= i < |table[id].choices| ==> table[id].choices[i] in table
  }

  /** No scene of the table leads anywhere undefined, and the story's first scene exists. */
  lemma TargetsExist()
    ensures Closed(Scenes())
    ensures START in Scenes()
  {
  }

  /** Ending scenes offer no choices, and every other scene offers at least one. */
  lemma EndingsHaveNoChoices()
    ensures forall id :: id in Scenes() ==> (Scenes()[id].ending.Some? <==> Scenes()[id].choices == [])
  {
  }

  function EndingIds(): set<string> {
    set id | id in Scenes() && Scenes()[id].ending.Some?
  }

  function EncounterIds(): set<string> {
    set id | id in Scenes() && Scenes()[id].ending.None?
  }

  lemma {:induction false} SubsetCard(a: set<string>, b: set<string>)
    requires a <= b
    ensures |a| <= |b|
  {
    if a != {} {
      var x :| x in a;
      SubsetCard(a - {x}, b - {x});
    }
  }

  /** The story has at least four endings. */
  lemma EndingCount()
    ensures |EndingIds()| >= 4
  {
    var known := {"ending_fall", "ending_taken", "ending_settlement", "ending_servitude"};
    SubsetCard(known, EndingIds());
  }

  // Twenty of the encounter scenes, in groups of five whose sizes and
  // disjointness are established separately.
  function GroupA(): set<string> { {"start", "river_crossing", "ford_attempt", "follow_tracks", "across_river"} }
  function GroupB(): set<string> { {"river_retreat", "reeds_encounter", "reeds_watch", "burned_wagon", "lonely_trail"} }
  function GroupC(): set<string> { {"storm_camp", "exhausted_march", "protect_traveler", "leave_traveler", "canyon_path"} }
  function GroupD(): set<string> { {"voice_in_shade", "silent_march", "midnight_shapes", "restless_sleep", "ruined_bridge"} }

  lemma GroupSizes()
    ensures |GroupA()| == 5 && |GroupB()| == 5 && |GroupC()| == 5 && |GroupD()| == 5
  {
  }

  lemma GroupsDisjointA()
    ensures GroupA() !! GroupB() && GroupA() !! GroupC() && GroupA() !! GroupD()
  {
  }

  lemma GroupsDisjointRest()
    ensures GroupB() !! GroupC() && GroupB() !! GroupD() && GroupC() !! GroupD()
  {
  }

  lemma GroupAEncounters() ensures GroupA() <= EncounterIds() {}
  lemma GroupBEncounters() ensures GroupB() <= EncounterIds() {}
  lemma GroupCEncounters() ensures GroupC() <= EncounterIds() {}
  lemma GroupDEncounters() ensures GroupD() <= EncounterIds() {}

  /** The story has at least twenty encounters (non-ending scenes). */
  lemma {:induction false} EncounterCount()
    ensures |EncounterIds()| >= 20
  {
    GroupSizes();
    GroupsDisjointA();
    GroupsDisjointRest();
    assert |GroupA() + GroupB()| == 10;
    assert |GroupA() + GroupB() + GroupC()| == 15;
    assert |GroupA() + GroupB() + GroupC() + GroupD()| == 20;
    GroupAEncounters();
    GroupBEncounters();
    GroupCEncounters();
    GroupDEncounters();
    SubsetCard(GroupA() + GroupB() + GroupC() + GroupD(), EncounterIds());
  }

  // ------------------------------------------------------- the engine

  /** How a run of the story stops. */
  datatype Outcome =
    | Ended(tag: string)        // an ending scene was shown
    | MissingScene(id: string)  // the current scene id is not in the table
    | Hesitated                 // the pick was not the number of a choice
    | Uncharted(id: string)     // the chosen choice leads to an id not in the table
    | InputClosed               // no line left to read: `input` raises EOFError

  /**
    The 0-based choice a typed line selects among `n` choices: the line must
    read as a decimal integer `v` with `1 <= v <= n`.
   */
  function PickIndex(pick: string, n: nat): (r: Option<nat>)
    ensures r.Some? ==> r.value < n
  {
    match ParseInt(pick, 10)
    case Some(v) => if 1 <= v <= n then Some((v - 1) as nat) else None
    case None => None
  }

  /** A pick is accepted exactly when it parses as an integer between 1 and the number of choices. */
  lemma PickIndexAccepts(pick: string, n: nat)
    ensures PickIndex(pick, n).Some? <==> (ParseInt(pick, 10).Some? && 1 <= ParseInt(pick, 10).value <= n)
    ensures PickIndex(pick, n).Some? ==> ParseInt(pick, 10) == Some(PickIndex(pick, n).value + 1)
  {
  }

  /** Typing the number shown beside the i-th choice selects that choice. */
  lemma PickShownNumber(i: nat, n: nat)
    requires i < n
    ensures PickIndex(ToDigits(i + 1, 10), n) == Some(i)
  {
    DecimalRoundTrip(i + 1);
  }

  /** The scenes a run shows, how it stops, and how many lines it read. */
  datatype Playthrough = Playthrough(visited: seq<string>, outcome: Outcome, consumed: nat)

  /** The run from scene `id` when the player types the lines `picks`. */
  function Play(table: map<string, Scene>, id: string, picks: seq<string>): Playthrough
    decreases |picks|
  {
    if id !in table then Playthrough([], MissingScene(id), 0)
    else
      var scene := table[id];
      if scene.ending.Some? then Playthrough([id], Ended(scene.ending.value), 0)
      else if picks == [] then Playthrough([id], InputClosed, 0)
      else
        match PickIndex(picks[0], |scene.choices|)
        case None => Playthrough([id], Hesitated, 1)
        case Some(i) =>
          var next := scene.choices[i];
          if next !in table then Playthrough([id], Uncharted(next), 1)
          else
            var rest := Play(table, next, picks[1..]);
            Playthrough([id] + rest.visited, rest.outcome, 1 + rest.consumed)
  }

  /**
    Each scene shown counts one encounter and every shown scene but an
    ending or the last before input runs out consumed one line; no run
    reads more lines than there are.
   */
  lemma {:induction false} PlayCounts(table: map<string, Scene>, id: string, picks: seq<string>)
    requires id in table
    ensures var p := Play(table, id, picks);
      && p.consumed <= |picks|
      && |p.visited| == p.consumed + (if p.outcome.Ended? || p.outcome.InputClosed? then 1 else 0)
      && (p.outcome.InputClosed? ==> p.consumed == |picks|)
    decreases |picks|
  {
    var scene := table[id];
    if scene.ending.None? && picks != [] {
      var pi := PickIndex(picks[0], |scene.choices|);
      if pi.Some? && scene.choices[pi.value] in table {
        PlayCounts(table, scene.choices[pi.value], picks[1..]);
      }
    }
  }

  /** Scene `from` is not an ending and the line `pick` selects its choice leading to `to`. */
  predicate Step(table: map<string, Scene>, from: string, pick: string, to: string) {
    && from in table
    && table[from].ending.None?
    && match PickIndex(pick, |table[from].choices|)
       case Some(i) => table[from].choices[i] == to
       case None => false
  }

  /**
    A run starts at `id`, shows only scenes of the table, and moves from
    each shown scene to the scene the pick read there selects; only the
    last scene shown can be an ending, and a run that ends shows that
    ending's scene last.
   */
  lemma {:induction false} PlayFollowsPicks(table: map<string, Scene>, id: string, picks: seq<string>)
    requires id in table
    ensures var p := Play(table, id, picks);
      && 1 <= |p.visited| <= |picks| + 1 && p.visited[0] == id
      && (forall j :: 0 <= j < |p.visited| ==> p.visited[j] in table)
      && (forall j :: 0 <= j < |p.visited| - 1 ==> Step(table, p.visited[j], picks[j], p.visited[j + 1]))
      && (p.outcome.Ended? ==> table[p.visited[|p.visited| - 1]].ending == Some(p.outcome.tag))
    decreases |picks|
  {
    var scene := table[id];
    if scene.ending.None? && picks != [] {
      var pi := PickIndex(picks[0], |scene.choices|);
      if pi.Some? && scene.choices[pi.value] in table {
        var next := scene.choices[pi.value];
        PlayFollowsPicks(table, next, picks[1..]);
        var rest := Play(table, next, picks[1..]);
        var p := Play(table, id, picks);
        assert p.visited == [id] + rest.visited;
        assert Step(table, id, picks[0], next);
        forall j | 1 <= j < |p.visited| - 1
          ensures Step(table, p.visited[j], picks[j], p.visited[j + 1])
        {
          assert p.visited[j] == rest.visited[j - 1] && p.visited[j + 1] == rest.visited[j];
          assert picks[j] == picks[1..][j - 1];
        }
      }
    }
  }

  /** In a table where every choice leads somewhere, a run from an existing scene never hits a missing scene. */
  lemma {:induction false} ClosedRunsNeverStrand(table: map<string, Scene>, id: string, picks: seq<string>)
    requires Closed(table) && id in table
    ensures !Play(table, id, picks).outcome.MissingScene?
    ensures !Play(table, id, picks).outcome.Uncharted?
    decreases |picks|
  {
    var scene := table[id];
    if scene.ending.None? && picks != [] {
      var pi := PickIndex(picks[0], |scene.choices|);
      if pi.Some? {
        ClosedRunsNeverStrand(table, scene.choices[pi.value], picks[1..]);
      }
    }
  }

  /** A run of this story stops only at an ending, on a rejected pick, or when input runs out. */
  lemma StoryNeverStrands(picks: seq<string>)
    ensures Play(Scenes(), START, picks).outcome.Ended?
         || Play(Scenes(), START, picks).outcome.Hesitated?
         || Play(Scenes(), START, picks).outcome.InputClosed?
  {
    TargetsExist();
    ClosedRunsNeverStrand(Scenes(), START, picks);
  }

  /**
    `run`: from "start" with no encounters, look the scene up, count it,
    stop at an ending, otherwise read a pick, validate it and move to the
    chosen scene if it exists. The story runs it on `Scenes()`.
   */
  method Run(table: map<string, Scene>, picks: seq<string>) returns (outcome: Outcome, encounterCount: nat, consumed: nat)
    ensures outcome == Play(table, START, picks).outcome
    ensures encounterCount == |Play(table, START, picks).visited|
    ensures consumed == Play(table, START, picks).consumed
  {
    ghost var whole := Play(table, START, picks);
    var sceneId := START;
    encounterCount := 0;
    consumed := 0;
    ghost var visited: seq<string> := [];
    while true
      invariant consumed <= |picks|
      invariant encounterCount == |visited|
      invariant whole.visited == visited + Play(table, sceneId, picks[consumed..]).visited
      invariant whole.outcome == Play(table, sceneId, picks[consumed..]).outcome
      invariant whole.consumed == consumed + Play(table, sceneId, picks[consumed..]).consumed
      decreases |picks| - consumed
    {
      ghost var here := picks[consumed..];
      PlayStops(table, sceneId, here);
      if sceneId !in table {
        outcome := MissingScene(sceneId);
        return;
      }
      var scene := table[sceneId];
      encounterCount := encounterCount + 1;
      if scene.ending.Some? {
        outcome := Ended(scene.ending.value);
        return;
      }
      if consumed == |picks| {
        outcome := InputClosed;
        return;
      }
      var pick := picks[consumed];
      assert here[0] == pick;
      var index := PickIndex(pick, |scene.choices|);
      if index.None? {
        consumed := consumed + 1;
        outcome := Hesitated;
        return;
      }
      var nextId := scene.choices[index.value];
      if nextId !in table {
        consumed := consumed + 1;
        outcome := Uncharted(nextId);
        return;
      }
      RunAdvance(table, sceneId, picks, consumed, index.value, visited);
      consumed := consumed + 1;
      visited := visited + [sceneId];
      sceneId := nextId;
    }
  }

  /** How a run stops at its first scene: a missing scene, an ending, no input, a rejected pick or an unknown target. */
  lemma PlayStops(table: map<string, Scene>, id: string, picks: seq<string>)
    ensures id !in table ==> Play(table, id, picks) == Playthrough([], MissingScene(id), 0)
    ensures id in table && table[id].ending.Some? ==>
              Play(table, id, picks) == Playthrough([id], Ended(table[id].ending.value), 0)
    ensures id in table && table[id].ending.None? && picks == [] ==>
              Play(table, id, picks) == Playthrough([id], InputClosed, 0)
    ensures id in table && table[id].ending.None? && picks != [] ==>
              match PickIndex(picks[0], |table[id].choices|)
              case None => Play(table, id, picks) == Playthrough([id], Hesitated, 1)
              case Some(i) =>
                table[id].choices[i] !in table ==>
                  Play(table, id, picks) == Playthrough([id], Uncharted(table[id].choices[i]), 1)
  {
  }

  /**
    One iteration of `run`, in the loop's terms: showing the scene and
    reading pick `consumed` leaves the same run ahead from the chosen scene.
   */
  lemma RunAdvance(table: map<string, Scene>, id: string, picks: seq<string>, consumed: nat, i: nat, visited: seq<string>)
    requires consumed < |picks| && id in table && table[id].ending.None?
    requires PickIndex(picks[consumed], |table[id].choices|) == Some(i)
    requires table[id].choices[i] in table
    ensures var here := Play(table, id, picks[consumed..]);
            var rest := Play(table, table[id].choices[i], picks[consumed + 1..]);
            && visited + here.visited == (visited + [id]) + rest.visited
            && here.outcome == rest.outcome
            && consumed + here.consumed == (consumed + 1) + rest.consumed
  {
    var here := picks[consumed..];
    assert here[0] == picks[consumed] && here[1..] == picks[consumed + 1..];
    PlayAdvance(table, id, here, i);
    var rest := Play(table, table[id].choices[i], picks[consumed + 1..]).visited;
    assert visited + ([id] + rest) == (visited + [id]) + rest;
  }

  /** One step of a run: the scene is shown, its pick is read and the run continues at the chosen scene. */
  lemma PlayAdvance(table: map<string, Scene>, id: string, picks: seq<string>, i: nat)
    requires id in table && table[id].ending.None? && picks != []
    requires PickIndex(picks[0], |table[id].choices|) == Some(i)
    requires table[id].choices[i] in table
    ensures var rest := Play(table, table[id].choices[i], picks[1..]);
      Play(table, id, picks) == Playthrough([id] + rest.visited, rest.outcome, 1 + rest.consumed)
  {
  }
}
