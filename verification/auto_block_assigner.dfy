/**
 * The policy of AutoBlockAssigner: a vehicle that reports its position but
 * has no block assignment is given one automatically when exactly one
 * currently active block, not already served by a real vehicle, matches
 * both its current AVL report and an earlier report far enough away, with
 * the earlier match not after the current one and both close enough to
 * the schedule.
 *
 * Everything the policy consults is a collaborator: the caches of which
 * vehicles serve a block and which are schedule based, the vehicle's
 * history of reports, the spatial and temporal matchers and the ordering
 * and bounds of temporal matches. They enter the model as the functions of
 * an Environment value; the currently active blocks are a parameter.
 */
module AutoBlockAssigner {
  import opened Wrappers
  import Time

  datatype Block = Block(id: string)
  datatype Trip = Trip(id: string)
  datatype AvlReport = AvlReport(vehicleId: string, time: int)
  datatype SpatialMatch = SpatialMatch(trip: Trip, stopPathIndex: nat)
  /** How early (negative) or late (positive) a vehicle is against its schedule. */
  datatype TemporalDifference = TemporalDifference(msecs: int)
  datatype TemporalMatch = TemporalMatch(spatialMatch: SpatialMatch, temporalDifference: TemporalDifference)
  datatype VehicleState = VehicleState(vehicleId: string, avlReport: AvlReport)

  /** The configuration values the assigner reads. */
  datatype Config = Config(
    autoAssignerEnabled: bool,
    ignoreAvlAssignments: bool,
    minDistanceFromCurrentReport: real,
    allowableEarlySeconds: int,
    allowableLateSeconds: int)

  /** The values the configuration takes when nothing overrides them. */
  const DefaultConfig: Config :=
    Config(false, false, 100.0, 3 * Time.SecPerMin, 5 * Time.SecPerMin)

  /** The collaborators the policy consults, as total functions. */
  datatype Environment = Environment(
    vehiclesByBlockId: string -> seq<string>,
    isForSchedBasedPreds: string -> bool,
    previousAvlReport: (VehicleState, real) -> Option<AvlReport>,
    tripsCurrentlyActive: (Block, AvlReport) -> seq<Trip>,
    spatialMatchesIgnoringLayovers: (AvlReport, seq<Trip>, Block) -> seq<SpatialMatch>,
    bestTemporalMatchComparedToSchedule: (AvlReport, seq<SpatialMatch>) -> Option<TemporalMatch>,
    isWithinBounds: (TemporalDifference, int, int) -> bool,
    lessThanOrEqualTo: (TemporalMatch, TemporalMatch) -> bool)

  /* ---------------------------------------------------------------------- */
  /* Unassigned blocks                                                      */
  /* ---------------------------------------------------------------------- */

  /**
   * A block is free for automatic assignment when no vehicle other than a
   * schedule-based one serves it; in particular when no vehicle serves it.
   */
  predicate BlockUnassigned(env: Environment, blockId: string)
  {
    forall vehicleId :: vehicleId in env.vehiclesByBlockId(blockId) ==> env.isForSchedBasedPreds(vehicleId)
  }

  /** isBlockUnassigned: true for no vehicles, false at the first real vehicle. */
  method IsBlockUnassigned(env: Environment, blockId: string) returns (r: bool)
    ensures |env.vehiclesByBlockId(blockId)| == 0 ==> r
    ensures r <==> BlockUnassigned(env, blockId)
  {
    var vehicleIdsForBlock := env.vehiclesByBlockId(blockId);
    if |vehicleIdsForBlock| == 0 {
      return true;
    }
    for i := 0 to |vehicleIdsForBlock|
      invariant forall j :: 0 <= j < i ==> env.isForSchedBasedPreds(vehicleIdsForBlock[j])
    {
      if !env.isForSchedBasedPreds(vehicleIdsForBlock[i]) {
        return false;
      }
    }
    return true;
  }

  /** The unassigned blocks among the given ones, in their order. */
  function UnassignedAmong(env: Environment, blocks: seq<Block>): (r: seq<Block>)
    ensures |r| <= |blocks|
  {
    if blocks == [] then []
    else
      var block := blocks[|blocks| - 1];
      UnassignedAmong(env, blocks[..|blocks| - 1]) + if BlockUnassigned(env, block.id) then [block] else []
  }

  /** unassignedBlocks: the active blocks that isBlockUnassigned accepts, in order. */
  method UnassignedBlocks(env: Environment, activeBlocks: seq<Block>)
    returns (currentlyUnassignedBlocks: seq<Block>)
    ensures currentlyUnassignedBlocks == UnassignedAmong(env, activeBlocks)
  {
    currentlyUnassignedBlocks := [];
    for i := 0 to |activeBlocks|
      invariant currentlyUnassignedBlocks == UnassignedAmong(env, activeBlocks[..i])
    {
      var block := activeBlocks[i];
      var unassigned := IsBlockUnassigned(env, block.id);
      if unassigned {
        currentlyUnassignedBlocks := currentlyUnassignedBlocks + [block];
      }
      assert activeBlocks[..i + 1][..i] == activeBlocks[..i];
    }
    assert activeBlocks[..|activeBlocks|] == activeBlocks;
  }

  /** A block is among the unassigned ones exactly when it is active and unassigned. */
  lemma {:induction false} UnassignedAmongMembers(env: Environment, blocks: seq<Block>, block: Block)
    ensures block in UnassignedAmong(env, blocks) <==> block in blocks && BlockUnassigned(env, block.id)
    decreases |blocks|
  {
    if blocks != [] {
      var init := blocks[..|blocks| - 1];
      UnassignedAmongMembers(env, init, block);
      assert blocks == init + [blocks[|blocks| - 1]];
    }
  }

  /** Filtering keeps the order: the blocks of a + b are those of a, then those of b. */
  lemma {:induction false} UnassignedAmongAppend(env: Environment, a: seq<Block>, b: seq<Block>)
    ensures UnassignedAmong(env, a + b) == UnassignedAmong(env, a) + UnassignedAmong(env, b)
    decreases |b|
  {
    if b == [] {
      assert a + b == a;
    } else {
      var init := b[..|b| - 1];
      var block := b[|b| - 1];
      UnassignedAmongAppend(env, a, init);
      assert (a + b)[..|a + b| - 1] == a + init;
      assert (a + b)[|a + b| - 1] == block;
    }
  }

  /* ---------------------------------------------------------------------- */
  /* Temporal matches                                                       */
  /* ---------------------------------------------------------------------- */

  /** The temporal matcher's best non-layover match of a report to a block, before the bounds check. */
  function ScheduleMatch(env: Environment, avlReport: AvlReport, block: Block)
    : Option<TemporalMatch>
  {
    var potentialTrips := env.tripsCurrentlyActive(block, avlReport);
    var spatialMatches := env.spatialMatchesIgnoringLayovers(avlReport, potentialTrips, block);
    env.bestTemporalMatchComparedToSchedule(avlReport, spatialMatches)
  }

  /** The match is no earlier and no later than the configuration allows. */
  predicate InBounds(env: Environment, config: Config, m: TemporalMatch)
  {
    env.isWithinBounds(m.temporalDifference, config.allowableEarlySeconds, config.allowableLateSeconds)
  }

  /**
   * bestTemporalMatch: the temporal matcher's result, null included, unless
   * it is out of the allowed bounds, in which case null.
   */
  function BestTemporalMatch(env: Environment, config: Config, avlReport: AvlReport, block: Block)
    : (r: Option<TemporalMatch>)
    ensures r.Some? ==> r == ScheduleMatch(env, avlReport, block) && InBounds(env, config, r.value)
    ensures ScheduleMatch(env, avlReport, block).Some? &&
            InBounds(env, config, ScheduleMatch(env, avlReport, block).value) ==>
              r == ScheduleMatch(env, avlReport, block)
  {
    var bestMatch := ScheduleMatch(env, avlReport, block);
    if bestMatch.Some? && !InBounds(env, config, bestMatch.value) then None else bestMatch
  }

  /**
   * A block vouches for the current report when both the current and the
   * previous report match it and the previous match is not after the current.
   */
  predicate Contributes(env: Environment, config: Config, avlReport: AvlReport, previous: AvlReport,
                        block: Block)
  {
    var bestMatch := BestTemporalMatch(env, config, avlReport, block);
    var previousMatch := BestTemporalMatch(env, config, previous, block);
    bestMatch.Some? && previousMatch.Some? && env.lessThanOrEqualTo(previousMatch.value, bestMatch.value)
  }

  /** The current report's match to each contributing block, in block order. */
  function ValidMatchesAmong(env: Environment, config: Config, avlReport: AvlReport,
                             previous: AvlReport, blocks: seq<Block>): (r: seq<TemporalMatch>)
    ensures |r| <= |blocks|
  {
    if blocks == [] then []
    else
      var block := blocks[|blocks| - 1];
      ValidMatchesAmong(env, config, avlReport, previous, blocks[..|blocks| - 1])
        + if Contributes(env, config, avlReport, previous, block)
          then [BestTemporalMatch(env, config, avlReport, block).value]
          else []
  }

  /** What determineTemporalMatches returns: nothing without a previous report far enough away. */
  function TemporalMatches(env: Environment, config: Config, vehicleState: VehicleState,
                           activeBlocks: seq<Block>): seq<TemporalMatch>
  {
    match env.previousAvlReport(vehicleState, config.minDistanceFromCurrentReport)
    case None => []
    case Some(previous) =>
      ValidMatchesAmong(env, config, vehicleState.avlReport, previous, UnassignedAmong(env, activeBlocks))
  }

  /** determineTemporalMatches: one pass over the unassigned blocks, collecting valid matches. */
  method DetermineTemporalMatches(env: Environment, config: Config, vehicleState: VehicleState,
                                  activeBlocks: seq<Block>)
    returns (validMatches: seq<TemporalMatch>)
    ensures validMatches == TemporalMatches(env, config, vehicleState, activeBlocks)
  {
    validMatches := [];
    var avlReport := vehicleState.avlReport;
    var minDistance := config.minDistanceFromCurrentReport;
    var previousAvlReport := env.previousAvlReport(vehicleState, minDistance);
    if previousAvlReport.None? {
      return;
    }
    var currentlyUnassignedBlocks := UnassignedBlocks(env, activeBlocks);
    for i := 0 to |currentlyUnassignedBlocks|
      invariant validMatches ==
                ValidMatchesAmong(env, config, avlReport, previousAvlReport.value,
                                  currentlyUnassignedBlocks[..i])
    {
      var block := currentlyUnassignedBlocks[i];
      var bestMatch := BestTemporalMatch(env, config, avlReport, block);
      if bestMatch.Some? {
        var previousAvlReportBestMatch := BestTemporalMatch(env, config, previousAvlReport.value, block);
        if previousAvlReportBestMatch.Some?
           && env.lessThanOrEqualTo(previousAvlReportBestMatch.value, bestMatch.value) {
          validMatches := validMatches + [bestMatch.value];
        }
      }
      assert currentlyUnassignedBlocks[..i + 1][..i] == currentlyUnassignedBlocks[..i];
    }
    assert currentlyUnassignedBlocks[..|currentlyUnassignedBlocks|] == currentlyUnassignedBlocks;
  }

  /** A match is collected exactly when it is the current report's match to some contributing block. */
  lemma {:induction false} ValidMatchMembers(env: Environment, config: Config, avlReport: AvlReport,
                                             previous: AvlReport, blocks: seq<Block>,
                                             m: TemporalMatch)
    ensures m in ValidMatchesAmong(env, config, avlReport, previous, blocks) <==>
              exists i :: 0 <= i < |blocks| && Contributes(env, config, avlReport, previous, blocks[i])
                          && BestTemporalMatch(env, config, avlReport, blocks[i]) == Some(m)
    decreases |blocks|
  {
    if blocks != [] {
      var init := blocks[..|blocks| - 1];
      ValidMatchMembers(env, config, avlReport, previous, init, m);
      if exists i :: 0 <= i < |blocks| && Contributes(env, config, avlReport, previous, blocks[i])
                     && BestTemporalMatch(env, config, avlReport, blocks[i]) == Some(m) {
        var i :| 0 <= i < |blocks| && Contributes(env, config, avlReport, previous, blocks[i])
                 && BestTemporalMatch(env, config, avlReport, blocks[i]) == Some(m);
        if i < |blocks| - 1 {
          assert init[i] == blocks[i];
        }
      }
      if m in ValidMatchesAmong(env, config, avlReport, previous, init) {
        var i :| 0 <= i < |init| && Contributes(env, config, avlReport, previous, init[i])
                 && BestTemporalMatch(env, config, avlReport, init[i]) == Some(m);
        assert blocks[i] == init[i];
      }
    }
  }

  /**
   * Each block adds at most one match, at its place: the matches of a + b
   * are those of a, then those of b.
   */
  lemma {:induction false} ValidMatchesAppend(env: Environment, config: Config,
                                              avlReport: AvlReport, previous: AvlReport,
                                              a: seq<Block>, b: seq<Block>)
    ensures ValidMatchesAmong(env, config, avlReport, previous, a + b)
            == ValidMatchesAmong(env, config, avlReport, previous, a)
               + ValidMatchesAmong(env, config, avlReport, previous, b)
    decreases |b|
  {
    if b == [] {
      assert a + b == a;
    } else {
      var init := b[..|b| - 1];
      ValidMatchesAppend(env, config, avlReport, previous, a, init);
      assert (a + b)[..|a + b| - 1] == a + init;
      assert (a + b)[|a + b| - 1] == b[|b| - 1];
    }
  }

  /* ---------------------------------------------------------------------- */
  /* The assignment                                                         */
  /* ---------------------------------------------------------------------- */

  /** What autoAssignVehicleToBlockIfEnabled returns: the single valid match, if there is one. */
  function AutoAssignment(env: Environment, config: Config, vehicleState: VehicleState,
                          activeBlocks: seq<Block>): Option<TemporalMatch>
  {
    if !config.autoAssignerEnabled then None
    else
      var matches := TemporalMatches(env, config, vehicleState, activeBlocks);
      if |matches| == 1 then Some(matches[0]) else None
  }

  /**
   * autoAssignVehicleToBlockIfEnabled: null when disabled, when nothing
   * matches and when the match is ambiguous.
   */
  method AutoAssignVehicleToBlockIfEnabled(env: Environment, config: Config,
                                           vehicleState: VehicleState, activeBlocks: seq<Block>)
    returns (r: Option<TemporalMatch>)
    ensures r == AutoAssignment(env, config, vehicleState, activeBlocks)
  {
    if !config.autoAssignerEnabled {
      return None;
    }
    var matches := DetermineTemporalMatches(env, config, vehicleState, activeBlocks);
    if |matches| == 0 {
      return None;
    }
    if |matches| > 1 {
      return None;
    }
    return Some(matches[0]);
  }

  /** With the feature switched off no vehicle is ever assigned. */
  lemma DisabledNeverAssigns(env: Environment, config: Config, vehicleState: VehicleState,
                             activeBlocks: seq<Block>)
    requires !config.autoAssignerEnabled
    ensures AutoAssignment(env, config, vehicleState, activeBlocks) == None
  {
  }

  /** The defaults: off, 100 m between the two reports, 3 minutes early and 5 minutes late. */
  lemma DefaultConfigValues(env: Environment, vehicleState: VehicleState, activeBlocks: seq<Block>)
    ensures DefaultConfig.minDistanceFromCurrentReport == 100.0 && !DefaultConfig.ignoreAvlAssignments
    ensures DefaultConfig.allowableEarlySeconds == 180 && DefaultConfig.allowableLateSeconds == 300
    ensures AutoAssignment(env, DefaultConfig, vehicleState, activeBlocks) == None
  {
  }

  /** Without an earlier report far enough away there are no matches, however well the current report fits. */
  lemma NoPreviousReportNeverAssigns(env: Environment, config: Config, vehicleState: VehicleState,
                                     activeBlocks: seq<Block>)
    requires env.previousAvlReport(vehicleState, config.minDistanceFromCurrentReport).None?
    ensures TemporalMatches(env, config, vehicleState, activeBlocks) == []
    ensures AutoAssignment(env, config, vehicleState, activeBlocks) == None
  {
  }

  /** A vehicle is assigned a match exactly when the feature is on and that match is the only valid one. */
  lemma AssignedIffSoleMatch(env: Environment, config: Config, vehicleState: VehicleState,
                             activeBlocks: seq<Block>, m: TemporalMatch)
    ensures AutoAssignment(env, config, vehicleState, activeBlocks) == Some(m) <==>
              config.autoAssignerEnabled && TemporalMatches(env, config, vehicleState, activeBlocks) == [m]
  {
    var matches := TemporalMatches(env, config, vehicleState, activeBlocks);
    if |matches| == 1 {
      assert matches == [matches[0]];
    }
  }

  /**
   * An assignment names an active block that no real vehicle serves, whose
   * schedule the current report matches within bounds, and which an earlier
   * report far enough away matched within bounds and no later.
   */
  lemma AssignedMatchProvenance(env: Environment, config: Config, vehicleState: VehicleState,
                                activeBlocks: seq<Block>, m: TemporalMatch)
    requires AutoAssignment(env, config, vehicleState, activeBlocks) == Some(m)
    ensures env.previousAvlReport(vehicleState, config.minDistanceFromCurrentReport).Some?
    ensures exists block :: block in activeBlocks && BlockUnassigned(env, block.id)
              && ScheduleMatch(env, vehicleState.avlReport, block) == Some(m) && InBounds(env, config, m)
              && var previous :=
                   env.previousAvlReport(vehicleState, config.minDistanceFromCurrentReport).value;
                 && ScheduleMatch(env, previous, block).Some?
                 && InBounds(env, config, ScheduleMatch(env, previous, block).value)
                 && env.lessThanOrEqualTo(ScheduleMatch(env, previous, block).value, m)
  {
    var previous := env.previousAvlReport(vehicleState, config.minDistanceFromCurrentReport).value;
    var unassigned := UnassignedAmong(env, activeBlocks);
    var matches := ValidMatchesAmong(env, config, vehicleState.avlReport, previous, unassigned);
    assert matches[0] == m;
    ValidMatchMembers(env, config, vehicleState.avlReport, previous, unassigned, m);
    var i :| 0 <= i < |unassigned|
             && Contributes(env, config, vehicleState.avlReport, previous, unassigned[i])
             && BestTemporalMatch(env, config, vehicleState.avlReport, unassigned[i]) == Some(m);
    var block := unassigned[i];
    UnassignedAmongMembers(env, activeBlocks, block);
  }

  /**
   * Ambiguity annuls an assignment: one more active, unassigned block that
   * both reports match turns the single match into two, and so into none.
   */
  lemma SecondContributorAnnuls(env: Environment, config: Config, vehicleState: VehicleState,
                                activeBlocks: seq<Block>, block: Block)
    requires AutoAssignment(env, config, vehicleState, activeBlocks).Some?
    requires BlockUnassigned(env, block.id)
    requires env.previousAvlReport(vehicleState, config.minDistanceFromCurrentReport).Some?
    requires Contributes(env, config, vehicleState.avlReport,
                         env.previousAvlReport(vehicleState,
                                               config.minDistanceFromCurrentReport).value,
                         block)
    ensures AutoAssignment(env, config, vehicleState, activeBlocks + [block]) == None
  {
    var previous := env.previousAvlReport(vehicleState, config.minDistanceFromCurrentReport).value;
    var extended := activeBlocks + [block];
    assert extended[..|extended| - 1] == activeBlocks;
    var unassigned := UnassignedAmong(env, activeBlocks);
    assert UnassignedAmong(env, extended) == unassigned + [block];
    assert (unassigned + [block])[..|unassigned + [block]| - 1] == unassigned;
    assert |TemporalMatches(env, config, vehicleState, extended)| == 2;
  }
}
