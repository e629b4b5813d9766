/**
 * What FollowResizeInstruction does to the holders of the cluster, as a
 * function of the nodes' addresses and fragments before the call. The
 * harness method of the same name is proved to have exactly this effect.
 */
module Migration {
  import opened Wrappers
  import opened Uris
  import opened Messages

  /** The fragments of one node's holder: their contents by key. */
  type Fragments = map<FragKey, seq<Byte>>

  /** How one copy step can fail inside the holder. */
  datatype StepFault =
    | CreateFailed(message: string)   // CreateFragmentIfNotExists on the destination
    | ExportFailed(message: string)   // WriteTo on the source fragment
    | ImportFailed(message: string)   // ReadFrom into the destination fragment

  /**
   * The holder operations' failures, which the harness does not decide:
   * ApplySchema's error and, by position in the source list, a step's fault.
   */
  datatype HolderFaults = HolderFaults(schemaError: Option<string>, steps: map<nat, StepFault>)
  {
    function At(k: nat): Option<StepFault>
    {
      if k in steps then Some(steps[k]) else None
    }
  }

  /**
   * The state of the copy loop: the destination's fragments, and whether
   * the loop is still running or has returned early with an outcome.
   */
  datatype Progress = Running(frags: Fragments) | Stopped(outcome: Outcome, frags: Fragments)

  /** Both holders have the fragment under key with the same bytes, or neither has it. */
  predicate SameFragment(a: Fragments, b: Fragments, key: FragKey)
  {
    (key in a <==> key in b) && (key in b ==> a[key] == b[key])
  }

  /** Whether a fault stops the step; a creation fault matters only when the fragment is absent. */
  predicate Strikes(fault: Option<StepFault>, destHasFragment: bool)
  {
    fault.Some? && (fault.value.CreateFailed? ==> !destHasFragment)
  }

  /** The fragments of node s while the destination dest holds frags and every other node its own. */
  function HolderOf(holders: seq<Fragments>, dest: nat, frags: Fragments, s: nat): Fragments
    requires s < |holders|
  {
    if s == dest then frags else holders[s]
  }

  /**
   * One iteration of the loop over the sources, on a destination holding
   * frags: find the source node, take its fragment, create the destination
   * fragment (empty) when absent, export the source and import it into the
   * destination.
   */
  function CopySource(uris: seq<URI>, holders: seq<Fragments>, dest: nat, frags: Fragments, src: ResizeSource, fault: Option<StepFault>): (r: Progress)
    requires |holders| == |uris|
    ensures r.Stopped? ==> !r.outcome.Ok?
  {
    var key := src.Key();
    match IndexOf(uris, src.uri)
    case None => Stopped(Panic("source cluster not found"), frags)
    case Some(s) =>
      var source := HolderOf(holders, dest, frags, s);
      var exported := if key in source then Some(source[key]) else None;
      if key !in frags && fault.Some? && fault.value.CreateFailed? then
        Stopped(Err(fault.value.message), frags)
      else
        var created := if key in frags then frags else frags[key := []];
        if exported.None? then Stopped(Panic("source fragment not found"), created)
        else if fault.Some? && !fault.value.CreateFailed? then Stopped(Err(fault.value.message), created)
        else Running(created[key := exported.value])
  }

  /** The first k iterations of the loop over the sources, from the destination's own fragments. */
  function RunSources(uris: seq<URI>, holders: seq<Fragments>, dest: nat, sources: seq<ResizeSource>, faults: HolderFaults, k: nat): (r: Progress)
    requires |holders| == |uris| && dest < |uris| && k <= |sources|
    ensures r.Stopped? ==> !r.outcome.Ok?
    decreases k
  {
    if k == 0 then Running(holders[dest])
    else match RunSources(uris, holders, dest, sources, faults, k - 1)
      case Stopped(o, f) => Stopped(o, f)
      case Running(f) => CopySource(uris, holders, dest, f, sources[k - 1], faults.At(k - 1))
  }

  /** The end of FollowResizeInstruction: its return value, the holders, and the completion it sends. */
  datatype FollowResult = FollowResult(outcome: Outcome, holders: seq<Fragments>, sent: Option<ResizeInstructionComplete>)

  /**
   * FollowResizeInstruction: find the destination node, apply the schema,
   * copy every source in order, then send the completion to the coordinator.
   */
  function Follow(uris: seq<URI>, holders: seq<Fragments>, instr: ResizeInstruction, faults: HolderFaults): (r: FollowResult)
    requires |holders| == |uris|
    ensures |r.holders| == |uris|
    ensures r.sent.Some? <==>
      instr.uri in uris && faults.schemaError.None? &&
      RunSources(uris, holders, IndexOf(uris, instr.uri).value, instr.sources, faults, |instr.sources|).Running?
    ensures r.sent.Some? ==> r.sent.value == ResizeInstructionComplete(instr.jobID, instr.uri, "")
    ensures r.outcome.Ok? <==> r.sent.Some? && instr.coordinator in uris
  {
    match IndexOf(uris, instr.uri)
    case None => FollowResult(Panic("destination cluster not found"), holders, None)
    case Some(d) =>
      if faults.schemaError.Some? then FollowResult(Err(faults.schemaError.value), holders, None)
      else match RunSources(uris, holders, d, instr.sources, faults, |instr.sources|)
        case Stopped(o, f) => FollowResult(o, holders[d := f], None)
        case Running(f) =>
          var complete := ResizeInstructionComplete(instr.jobID, instr.uri, "");
          FollowResult(if instr.coordinator in uris then Ok else Panic("coordinator cluster not found"), holders[d := f], Some(complete))
  }

  // ---------------------------------------------------------------------------
  // Properties
  // ---------------------------------------------------------------------------

  /**
   * One step touches only the fragment its source names; it goes on exactly
   * when the source node is found, holds the fragment, and no fault
   * strikes; and then the destination holds the source's bytes.
   */
  lemma CopySourceEffect(uris: seq<URI>, holders: seq<Fragments>, dest: nat, frags: Fragments, src: ResizeSource, fault: Option<StepFault>)
    requires |holders| == |uris|
    ensures var r := CopySource(uris, holders, dest, frags, src, fault);
      && (forall k :: k != src.Key() ==> SameFragment(r.frags, frags, k))
      && (r.Running? <==>
            src.uri in uris && src.Key() in HolderOf(holders, dest, frags, IndexOf(uris, src.uri).value) &&
            !Strikes(fault, src.Key() in frags))
      && (r.Running? ==>
            src.Key() in r.frags && r.frags[src.Key()] == HolderOf(holders, dest, frags, IndexOf(uris, src.uri).value)[src.Key()])
  {
  }

  /** Step k + 1 runs source k on what step k left, unless step k stopped. */
  lemma RunSourcesStep(uris: seq<URI>, holders: seq<Fragments>, dest: nat, sources: seq<ResizeSource>, faults: HolderFaults, k: nat, frags: Fragments)
    requires |holders| == |uris| && dest < |uris| && k < |sources|
    requires RunSources(uris, holders, dest, sources, faults, k) == Running(frags)
    ensures RunSources(uris, holders, dest, sources, faults, k + 1) == CopySource(uris, holders, dest, frags, sources[k], faults.At(k))
  {
  }

  /** Once a step fails, the remaining sources are not processed. */
  lemma {:induction false} StoppedIsFinal(uris: seq<URI>, holders: seq<Fragments>, dest: nat, sources: seq<ResizeSource>, faults: HolderFaults, k: nat, m: nat)
    requires |holders| == |uris| && dest < |uris| && k <= m <= |sources|
    requires RunSources(uris, holders, dest, sources, faults, k).Stopped?
    ensures RunSources(uris, holders, dest, sources, faults, m) == RunSources(uris, holders, dest, sources, faults, k)
    decreases m
  {
    if m > k {
      StoppedIsFinal(uris, holders, dest, sources, faults, k, m - 1);
    }
  }

  /** Running after k steps means every earlier step succeeded too. */
  lemma {:induction false} RunningPrefix(uris: seq<URI>, holders: seq<Fragments>, dest: nat, sources: seq<ResizeSource>, faults: HolderFaults, j: nat, k: nat)
    requires |holders| == |uris| && dest < |uris| && j <= k <= |sources|
    requires RunSources(uris, holders, dest, sources, faults, k).Running?
    ensures RunSources(uris, holders, dest, sources, faults, j).Running?
    decreases k
  {
    if j < k {
      RunningPrefix(uris, holders, dest, sources, faults, j, k - 1);
    }
  }

  /** A schema that cannot be applied ends the call before any fragment is touched or any completion sent. */
  lemma SchemaFailureTouchesNothing(uris: seq<URI>, holders: seq<Fragments>, instr: ResizeInstruction, faults: HolderFaults)
    requires |holders| == |uris| && instr.uri in uris && faults.schemaError.Some?
    ensures Follow(uris, holders, instr, faults) == FollowResult(Err(faults.schemaError.value), holders, None)
  {
  }

  /**
   * The first failing source ends the call: its error (or panic) is
   * returned, the destination is as that step left it, and no completion is
   * sent.
   */
  lemma FirstFailureStops(uris: seq<URI>, holders: seq<Fragments>, instr: ResizeInstruction, faults: HolderFaults, j: nat)
    requires |holders| == |uris| && instr.uri in uris && faults.schemaError.None?
    requires j < |instr.sources|
    requires RunSources(uris, holders, IndexOf(uris, instr.uri).value, instr.sources, faults, j).Running?
    requires RunSources(uris, holders, IndexOf(uris, instr.uri).value, instr.sources, faults, j + 1).Stopped?
    ensures var d := IndexOf(uris, instr.uri).value;
      var stop := RunSources(uris, holders, d, instr.sources, faults, j + 1);
      Follow(uris, holders, instr, faults) == FollowResult(stop.outcome, holders[d := stop.frags], None)
  {
    var d := IndexOf(uris, instr.uri).value;
    StoppedIsFinal(uris, holders, d, instr.sources, faults, j + 1, |instr.sources|);
  }

  /** Only the destination's holder ever changes. */
  lemma OnlyDestinationChanges(uris: seq<URI>, holders: seq<Fragments>, instr: ResizeInstruction, faults: HolderFaults, i: nat)
    requires |holders| == |uris| && i < |uris|
    requires instr.uri !in uris || i != IndexOf(uris, instr.uri).value
    ensures Follow(uris, holders, instr, faults).holders[i] == holders[i]
  {
  }

  /** After the first k steps have run, a key no step among them names is as it was. */
  lemma {:induction false} UntouchedKeyKept(uris: seq<URI>, holders: seq<Fragments>, dest: nat, sources: seq<ResizeSource>, faults: HolderFaults, k: nat, key: FragKey)
    requires |holders| == |uris| && dest < |uris| && k <= |sources|
    requires forall j :: 0 <= j < k ==> sources[j].Key() != key
    ensures SameFragment(RunSources(uris, holders, dest, sources, faults, k).frags, holders[dest], key)
    decreases k
  {
    if k > 0 {
      UntouchedKeyKept(uris, holders, dest, sources, faults, k - 1, key);
      StepKeepsOtherKey(uris, holders, dest, sources, faults, k, key);
    }
  }

  /** Step k does not touch a fragment that its source does not name. */
  lemma StepKeepsOtherKey(uris: seq<URI>, holders: seq<Fragments>, dest: nat, sources: seq<ResizeSource>, faults: HolderFaults, k: nat, key: FragKey)
    requires |holders| == |uris| && dest < |uris| && 0 < k <= |sources|
    requires sources[k - 1].Key() != key
    ensures SameFragment(
      RunSources(uris, holders, dest, sources, faults, k).frags,
      RunSources(uris, holders, dest, sources, faults, k - 1).frags, key)
  {
    var prev := RunSources(uris, holders, dest, sources, faults, k - 1);
    if prev.Running? {
      var step := CopySource(uris, holders, dest, prev.frags, sources[k - 1], faults.At(k - 1));
      assert RunSources(uris, holders, dest, sources, faults, k) == step;
      CopySourceEffect(uris, holders, dest, prev.frags, sources[k - 1], faults.At(k - 1));
    }
  }

  /** A step that succeeds leaves in the destination the bytes its source (another node) holds. */
  lemma StepCopies(uris: seq<URI>, holders: seq<Fragments>, dest: nat, sources: seq<ResizeSource>, faults: HolderFaults, k: nat, s: nat)
    requires |holders| == |uris| && dest < |uris| && k < |sources|
    requires IndexOf(uris, sources[k].uri) == Some(s) && s != dest
    requires RunSources(uris, holders, dest, sources, faults, k + 1).Running?
    ensures sources[k].Key() in holders[s]
    ensures SameFragment(RunSources(uris, holders, dest, sources, faults, k + 1).frags, holders[s], sources[k].Key())
  {
    var prev := RunSources(uris, holders, dest, sources, faults, k);
    assert prev.Running?;
    assert RunSources(uris, holders, dest, sources, faults, k + 1) == CopySource(uris, holders, dest, prev.frags, sources[k], faults.At(k));
    CopySourceEffect(uris, holders, dest, prev.frags, sources[k], faults.At(k));
  }

  /**
   * After step k has copied its source (held by another node), the
   * destination holds that source's fragment, byte for byte, until a later
   * source names the same fragment.
   */
  lemma {:induction false} CopiedFragmentPersists(uris: seq<URI>, holders: seq<Fragments>, dest: nat, sources: seq<ResizeSource>, faults: HolderFaults, k: nat, s: nat, m: nat)
    requires |holders| == |uris| && dest < |uris| && k < m <= |sources|
    requires IndexOf(uris, sources[k].uri) == Some(s) && s != dest
    requires RunSources(uris, holders, dest, sources, faults, m).Running?
    requires forall j :: k < j < m ==> sources[j].Key() != sources[k].Key()
    ensures sources[k].Key() in holders[s]
    ensures SameFragment(RunSources(uris, holders, dest, sources, faults, m).frags, holders[s], sources[k].Key())
    decreases m, 1
  {
    if m == k + 1 {
      StepCopies(uris, holders, dest, sources, faults, k, s);
    } else {
      CopiedFragmentSurvivesStep(uris, holders, dest, sources, faults, k, s, m);
    }
  }

  /** The inductive step of CopiedFragmentPersists: step m - 1 names another fragment. */
  lemma {:induction false} CopiedFragmentSurvivesStep(uris: seq<URI>, holders: seq<Fragments>, dest: nat, sources: seq<ResizeSource>, faults: HolderFaults, k: nat, s: nat, m: nat)
    requires |holders| == |uris| && dest < |uris| && k + 1 < m <= |sources|
    requires IndexOf(uris, sources[k].uri) == Some(s) && s != dest
    requires RunSources(uris, holders, dest, sources, faults, m).Running?
    requires forall j :: k < j < m ==> sources[j].Key() != sources[k].Key()
    ensures sources[k].Key() in holders[s]
    ensures SameFragment(RunSources(uris, holders, dest, sources, faults, m).frags, holders[s], sources[k].Key())
    decreases m, 0
  {
    var key := sources[k].Key();
    RunningPrefix(uris, holders, dest, sources, faults, m - 1, m);
    CopiedFragmentPersists(uris, holders, dest, sources, faults, k, s, m - 1);
    assert key != sources[m - 1].Key();
    StepKeepsOtherKey(uris, holders, dest, sources, faults, m, key);
  }

  /**
   * A completed instruction leaves in the destination, for every source held
   * by another node and not overridden by a later source, exactly the bytes
   * that source exported.
   */
  lemma FollowCopiesSources(uris: seq<URI>, holders: seq<Fragments>, instr: ResizeInstruction, faults: HolderFaults, k: nat)
    requires |holders| == |uris|
    requires Follow(uris, holders, instr, faults).sent.Some?
    requires k < |instr.sources| && instr.sources[k].uri != instr.uri
    requires forall j :: k < j < |instr.sources| ==> instr.sources[j].Key() != instr.sources[k].Key()
    ensures instr.sources[k].uri in uris
    ensures var s := IndexOf(uris, instr.sources[k].uri).value;
      SameFragment(Follow(uris, holders, instr, faults).holders[IndexOf(uris, instr.uri).value], holders[s], instr.sources[k].Key())
    ensures instr.sources[k].Key() in holders[IndexOf(uris, instr.sources[k].uri).value]
  {
    var d := IndexOf(uris, instr.uri).value;
    assert Follow(uris, holders, instr, faults).holders[d] == RunSources(uris, holders, d, instr.sources, faults, |instr.sources|).frags;
    AllStepsCopy(uris, holders, d, instr.sources, faults, k);
  }

  /** FollowCopiesSources at the level of the copy loop. */
  lemma AllStepsCopy(uris: seq<URI>, holders: seq<Fragments>, dest: nat, sources: seq<ResizeSource>, faults: HolderFaults, k: nat)
    requires |holders| == |uris| && dest < |uris| && k < |sources|
    requires RunSources(uris, holders, dest, sources, faults, |sources|).Running?
    requires sources[k].uri != uris[dest]
    requires forall j :: k < j < |sources| ==> sources[j].Key() != sources[k].Key()
    ensures sources[k].uri in uris
    ensures var s := IndexOf(uris, sources[k].uri).value;
      sources[k].Key() in holders[s] &&
      SameFragment(RunSources(uris, holders, dest, sources, faults, |sources|).frags, holders[s], sources[k].Key())
  {
    RunningPrefix(uris, holders, dest, sources, faults, k + 1, |sources|);
    StepFindsSource(uris, holders, dest, sources, faults, k);
    var s := IndexOf(uris, sources[k].uri).value;
    CopiedFragmentPersists(uris, holders, dest, sources, faults, k, s, |sources|);
  }

  /** A step that succeeds found its source node. */
  lemma StepFindsSource(uris: seq<URI>, holders: seq<Fragments>, dest: nat, sources: seq<ResizeSource>, faults: HolderFaults, k: nat)
    requires |holders| == |uris| && dest < |uris| && k < |sources|
    requires RunSources(uris, holders, dest, sources, faults, k + 1).Running?
    ensures sources[k].uri in uris
  {
    var prev := RunSources(uris, holders, dest, sources, faults, k);
    assert prev.Running?;
    assert RunSources(uris, holders, dest, sources, faults, k + 1) == CopySource(uris, holders, dest, prev.frags, sources[k], faults.At(k));
  }

  /** A completed instruction leaves every fragment that no source names as it was. */
  lemma FollowKeepsOtherFragments(uris: seq<URI>, holders: seq<Fragments>, instr: ResizeInstruction, faults: HolderFaults, key: FragKey)
    requires |holders| == |uris| && instr.uri in uris
    requires forall j :: 0 <= j < |instr.sources| ==> instr.sources[j].Key() != key
    ensures var d := IndexOf(uris, instr.uri).value;
      SameFragment(Follow(uris, holders, instr, faults).holders[d], holders[d], key)
  {
    var d := IndexOf(uris, instr.uri).value;
    UntouchedKeyKept(uris, holders, d, instr.sources, faults, |instr.sources|, key);
  }
}
