/**
  Running a plan: the stages in order, then the selected image. Plans that the
  availability analysis accepts never run into a missing component.
  */
module Pipeline {
  import opened Wrappers
  import opened Bytes
  import opened BootArena
  import opened BootConfig
  import opened BootOverlay
  import opened Plans
  import opened Outputs
  import opened Availability
  import opened Planner

  /** A directive with the root that a COPY from another stage reads. */
  datatype Performed = Performed(directive: Directive, source: Option<Root>)

  /** A stage under way: its name, the root it works with, and what was performed in it. */
  datatype Work = Work(stage: string, input: Root, performed: seq<Performed>)

  /**
    The work itself: whether a stage can begin, a directive can mount its storage
    and be performed, the commitment of the sealed layer, and whether a firmware
    file can be extracted. All may depend on everything done before.
    */
  datatype Workers = Workers(begins: Work -> bool, mounts: (Work, Directive) -> bool, performs: (Work, Performed) -> bool,
                             seal: Work -> Option<Hash>, extracts: bool)

  // ---- What running should give ----

  /** The root that a directive copies from. */
  function CopySource(directive: Directive, outputs: StageOutputs): Outcome<Option<Root>> {
    match directive
    case Inside => Done(None)
    case CopyFrom(name) =>
      if name in outputs && outputs[name].root.Some? then Done(outputs[name].root) else Failed(MissingCopySource)
  }

  /** The directives of a stage, one after the other. */
  function DirectivesRun(derive: seq<Directive>, workers: Workers, outputs: StageOutputs, work: Work): Outcome<Work>
    decreases |derive|
  {
    if derive == [] then Done(work)
    else if !workers.mounts(work, derive[0]) then Failed(Other)
    else
      var source :- CopySource(derive[0], outputs);
      var performed := Performed(derive[0], source);
      if !workers.performs(work, performed) then Failed(Other)
      else DirectivesRun(derive[1..], workers, outputs, work.(performed := work.performed + [performed]))
  }

  /** The commitment of the layer a stage seals. */
  function LayerOf(name: string, stage: Stage, workers: Workers, outputs: StageOutputs, root: Root): Outcome<Hash> {
    var work := Work(name, root, []);
    if !workers.begins(work) then Failed(Other)
    else
      var finished :- DirectivesRun(stage.derive, workers, outputs, work);
      match workers.seal(finished)
      case None => Failed(Other)
      case Some(layer) => Done(layer)
  }

  ghost function StageRun(codec: Codec, name: string, stage: Stage, images: Images, workers: Workers, outputs: StageOutputs):
    Outcome<StageOutput>
    requires KnownRef(stage.from, images) && AllSound(outputs) && Manifests(images)
  {
    var input :- OutputOf(codec, stage.from, images, outputs);
    if input.root == None then Failed(MissingCarapace)
    else
      var root := input.root.value;
      var layer :- LayerOf(name, stage, workers, outputs, root);
      if stage.format then Done(StageOutput(Some(Root(None, [layer])), None, None))
      else Bind(codec, input.(root := Some(root.(produced := root.produced + [layer]))))
  }

  lemma StageRunSound(codec: Codec, name: string, stage: Stage, images: Images, workers: Workers, outputs: StageOutputs)
    requires KnownRef(stage.from, images) && AllSound(outputs) && Manifests(images) && codec.Lawful()
    requires StageRun(codec, name, stage, images, workers, outputs).Done?
    ensures StageRun(codec, name, stage, images, workers, outputs).value.Sound()
  {
    hide Bound, LayerOf, OutputOf;
    OutputSound(codec, stage.from, images, outputs);
    var input := OutputOf(codec, stage.from, images, outputs).value;
    if !stage.format && input.config.Some? {
      BoundNonempty(codec, input.config.value, LayerOf(name, stage, workers, outputs, input.root.value).value);
    }
  }

  lemma BoundNonempty(codec: Codec, config: Encoded, root: Hash)
    requires codec.Lawful() && config.bytes != [] && Bound(codec, config, root).Some?
    ensures Bound(codec, config, root).value.bytes != []
  {
    hide Decode;
    var values := Decode(codec, config.bytes).value.values;
    BindIsRootUpdate(codec, config, root);
    if ROOT_KEY in values {
      EmptyDecodes(codec, Bound(codec, config, root).value.bytes);
    }
  }

  /** The outputs after `k` stages. */
  ghost function RunTo(codec: Codec, plan: Plan, images: Images, workers: Workers, k: nat): (run: Outcome<StageOutputs>)
    requires Resolved(plan, images) && Manifests(images) && k <= |plan.order| && codec.Lawful()
    ensures run.Done? ==> AllSound(run.value)
  {
    if k == 0 then Done(map[])
    else
      var outputs :- RunTo(codec, plan, images, workers, k - 1);
      var name := plan.order[k - 1];
      var output :- StageRun(codec, name, plan.stages[name], images, workers, outputs);
      StageRunSound(codec, name, plan.stages[name], images, workers, outputs);
      Done(outputs[name := output])
  }

  /** The whole run. */
  ghost function Ran(codec: Codec, plan: Plan, images: Images, workers: Workers): Outcome<StageOutput>
    requires Resolved(plan, images) && Manifests(images) && codec.Lawful()
  {
    var outputs :- RunTo(codec, plan, images, workers, |plan.order|);
    SelectedOutput(codec, plan.image, images, outputs, true, workers.extracts)
  }

  lemma {:induction false} RunToFails(codec: Codec, plan: Plan, images: Images, workers: Workers, k: nat, n: nat)
    requires Resolved(plan, images) && Manifests(images) && k <= n <= |plan.order| && codec.Lawful()
    requires RunTo(codec, plan, images, workers, k).Failed?
    ensures RunTo(codec, plan, images, workers, n) == RunTo(codec, plan, images, workers, k)
  {
    hide StageRun;
    if k < n {
      RunToFails(codec, plan, images, workers, k, n - 1);
    }
  }

  // ---- The operations ----

  method RunStage(codec: Codec, name: string, stage: Stage, images: Images, workers: Workers, outputs: StageOutputs)
    returns (output: Outcome<StageOutput>)
    requires KnownRef(stage.from, images) && AllSound(outputs) && Manifests(images)
    ensures output == StageRun(codec, name, stage, images, workers, outputs)
  {
    hide OutputOf, Bind, DirectivesRun;
    var input := Resolve(codec, stage.from, images, outputs);
    if input.Failed? {
      return input;
    }
    var source := input.value.root;
    if source == None {
      return Failed(MissingCarapace);
    }
    var work := Work(name, source.value, []);
    if !workers.begins(work) {
      return Failed(Other);
    }
    var finished := RunDirectives(stage.derive, workers, outputs, work);
    if finished.Failed? {
      return Failed(finished.error);
    }
    var layer := workers.seal(finished.value);
    if layer == None {
      return Failed(Other);
    }
    if stage.format {
      return Done(StageOutput(Some(Root(None, [layer.value])), None, None));
    }
    var derived := source.value.(produced := source.value.produced + [layer.value]);
    output := BindRoot(codec, input.value.(root := Some(derived)));
  }

  method RunDirectives(derive: seq<Directive>, workers: Workers, outputs: StageOutputs, begun: Work)
    returns (finished: Outcome<Work>)
    ensures finished == DirectivesRun(derive, workers, outputs, begun)
  {
    var work := begun;
    for i := 0 to |derive|
      invariant DirectivesRun(derive, workers, outputs, begun) == DirectivesRun(derive[i..], workers, outputs, work)
    {
      var directive := derive[i];
      assert derive[i..][1..] == derive[i + 1..];
      if !workers.mounts(work, directive) {
        return Failed(Other);
      }
      var source: Option<Root> := None;
      if directive.CopyFrom? {
        if directive.stage !in outputs || outputs[directive.stage].root == None {
          return Failed(MissingCopySource);
        }
        source := outputs[directive.stage].root;
      }
      if !workers.performs(work, Performed(directive, source)) {
        return Failed(Other);
      }
      work := work.(performed := work.performed + [Performed(directive, source)]);
    }
    return Done(work);
  }

  method Execute(codec: Codec, plan: Plan, images: Images, workers: Workers) returns (result: Outcome<StageOutput>)
    requires Resolved(plan, images) && Manifests(images) && codec.Lawful()
    ensures result == Ran(codec, plan, images, workers)
  {
    hide StageRun, SelectedOutput, Codec.Lawful;
    var outputs: StageOutputs := map[];
    for i := 0 to |plan.order|
      invariant RunTo(codec, plan, images, workers, i) == Done(outputs)
    {
      var name := plan.order[i];
      var output := RunStage(codec, name, plan.stages[name], images, workers, outputs);
      if output.Failed? {
        RunToFails(codec, plan, images, workers, i + 1, |plan.order|);
        return Failed(output.error);
      }
      outputs := outputs[name := output.value];
    }
    result := Select(codec, plan.image, images, outputs, true, workers.extracts);
  }

  predicate ReaderRequired(image: Image) {
    image.Components? && image.boot.Some? && image.boot.value.Extract?
  }

  /** A plan with nothing to execute is selected without stages and without a reader. */
  method Run(codec: Codec, plan: Plan, images: Images, workers: Workers) returns (result: Outcome<StageOutput>)
    requires Resolved(plan, images) && Manifests(images) && codec.Lawful()
    ensures result == Ran(codec, plan, images, workers)
  {
    hide SelectedOutput, StageRun;
    if plan.order == [] && !ReaderRequired(plan.image) {
      ReaderUnused(codec, plan.image, images, workers.extracts);
      result := Select(codec, plan.image, images, map[], false, workers.extracts);
    } else {
      result := Execute(codec, plan, images, workers);
    }
  }

  lemma ReaderUnused(codec: Codec, image: Image, images: Images, extracts: bool)
    requires KnownImage(image, images) && Manifests(images) && !ReaderRequired(image)
    ensures SelectedOutput(codec, image, images, map[], false, extracts) ==
            SelectedOutput(codec, image, images, map[], true, extracts)
  {
    hide OutputOf, Finished, Overlaid;
    assert Composed(codec, image, images, map[], false, extracts) == Composed(codec, image, images, map[], true, extracts);
  }

  /**
    What a stage does to its input: formatting starts afresh; extending keeps the
    firmware, adds the new layer on top, and points an existing `corium.root` at it.
    */
  lemma StageEffect(codec: Codec, name: string, stage: Stage, images: Images, workers: Workers, outputs: StageOutputs)
    requires KnownRef(stage.from, images) && AllSound(outputs) && Manifests(images) && codec.Lawful()
    requires StageRun(codec, name, stage, images, workers, outputs).Done?
    ensures
      var input, output := OutputOf(codec, stage.from, images, outputs).value, StageRun(codec, name, stage, images, workers, outputs).value;
      && input.root.Some? && output.root.Some? && output.root.value.Sound()
      && LayerOf(name, stage, workers, outputs, input.root.value) == Done(output.root.value.Hash())
      && if stage.format then
           output.root.value.base == None && output.pmi == None && output.config == None
         else
           && output.root.value.base == input.root.value.base && output.pmi == input.pmi
           && SettingsOrNone(codec, output) == Pointed(SettingsOrNone(codec, input), output.root.value.Hash())
  {
    hide OutputOf, Decode, Bound, AllNodes, Live, LayerOf;
    var input := OutputOf(codec, stage.from, images, outputs).value;
    if !stage.format && input.config.Some? {
      var layer := LayerOf(name, stage, workers, outputs, input.root.value).value;
      BoundDecodes(codec, input.config.value, layer);
      BindIsRootUpdate(codec, input.config.value, layer);
    }
  }

  /** Every COPY from a stage read the root that this stage had finished with. */
  lemma {:induction false} CopiesRead(derive: seq<Directive>, workers: Workers, outputs: StageOutputs, work: Work)
    requires DirectivesRun(derive, workers, outputs, work).Done?
    ensures
      var finished := DirectivesRun(derive, workers, outputs, work).value;
      && finished.stage == work.stage && finished.input == work.input
      && |finished.performed| == |work.performed| + |derive| && work.performed <= finished.performed
      && forall i | 0 <= i < |derive| ::
           var performed := finished.performed[|work.performed| + i];
           && performed.directive == derive[i]
           && match derive[i]
              case Inside => performed.source == None
              case CopyFrom(name) => name in outputs && performed.source == outputs[name].root && performed.source.Some?
    decreases |derive|
  {
    if derive != [] {
      var next := Performed(derive[0], CopySource(derive[0], outputs).value);
      CopiesRead(derive[1..], workers, outputs, work.(performed := work.performed + [next]));
    }
  }

  // ---- Sources of COPY ----

  /** The finished stages, all of them with a root that later ones can copy from. */
  ghost predicate Built(outputs: StageOutputs, order: seq<string>) {
    && (forall name :: name in outputs <==> name in order)
    && (forall name <- outputs :: outputs[name].root.Some?)
  }

  /** Whatever has been built has a root. */
  lemma {:induction false} FinishedHaveRoots(codec: Codec, plan: Plan, images: Images, workers: Workers, k: nat)
    requires Resolved(plan, images) && Manifests(images) && k <= |plan.order| && codec.Lawful()
    requires RunTo(codec, plan, images, workers, k).Done?
    ensures Built(RunTo(codec, plan, images, workers, k).value, plan.order[..k])
  {
    hide StageRun, Codec.Lawful, Manifests;
    if k > 0 {
      FinishedHaveRoots(codec, plan, images, workers, k - 1);
      var name, outputs := plan.order[k - 1], RunTo(codec, plan, images, workers, k - 1).value;
      StageHasRoot(codec, name, plan.stages[name], images, workers, outputs);
      assert plan.order[..k] == plan.order[..k - 1] + [name];
    }
  }

  lemma StageHasRoot(codec: Codec, name: string, stage: Stage, images: Images, workers: Workers, outputs: StageOutputs)
    requires KnownRef(stage.from, images) && AllSound(outputs) && Manifests(images)
    requires StageRun(codec, name, stage, images, workers, outputs).Done?
    ensures StageRun(codec, name, stage, images, workers, outputs).value.root.Some?
    ensures exists root, layer :: LayerOf(name, stage, workers, outputs, root) == Done(layer)
  {
    hide OutputOf, Bound, LayerOf;
    var root := OutputOf(codec, stage.from, images, outputs).value.root.value;
    assert LayerOf(name, stage, workers, outputs, root).Done?;
    assert LayerOf(name, stage, workers, outputs, root) == Done(LayerOf(name, stage, workers, outputs, root).value);
  }

  /** Where all its sources have been built, a stage fails in its own work or not at all. */
  lemma {:induction false} CopiesFound(derive: seq<Directive>, workers: Workers, outputs: StageOutputs, work: Work,
                                       built: seq<string>)
    requires SourcesIn(derive, built) && Built(outputs, built)
    ensures var run := DirectivesRun(derive, workers, outputs, work); run.Done? || run == Failed(Other)
    decreases |derive|
  {
    if derive != [] {
      assert derive[0] in derive;
      var next := Performed(derive[0], CopySource(derive[0], outputs).value);
      CopiesFound(derive[1..], workers, outputs, work.(performed := work.performed + [next]), built);
    }
  }

  /** A stage with a source that has not been built cannot finish, and so neither can the plan. */
  lemma UnbuiltSourceFails(codec: Codec, plan: Plan, images: Images, workers: Workers)
    requires Resolved(plan, images) && Manifests(images) && codec.Lawful() && !CopiesFirst(plan)
    ensures Ran(codec, plan, images, workers).Failed?
  {
    hide StageRun, LayerOf, SelectedOutput, Codec.Lawful, SourcesIn;
    var i :| 0 <= i < |plan.order| && !SourcesIn(plan.stages[plan.order[i]].derive, plan.order[..i]);
    var name := plan.order[i];
    if RunTo(codec, plan, images, workers, i + 1).Done? {
      var outputs := RunTo(codec, plan, images, workers, i).value;
      FinishedHaveRoots(codec, plan, images, workers, i);
      StageHasRoot(codec, name, plan.stages[name], images, workers, outputs);
      var root, layer :| LayerOf(name, plan.stages[name], workers, outputs, root) == Done(layer);
      LayerReads(name, plan.stages[name], workers, outputs, root, plan.order[..i]);
    } else {
      RunToFails(codec, plan, images, workers, i + 1, |plan.order|);
    }
  }

  lemma LayerReads(name: string, stage: Stage, workers: Workers, outputs: StageOutputs, root: Root, built: seq<string>)
    requires LayerOf(name, stage, workers, outputs, root).Done? && Built(outputs, built)
    ensures SourcesIn(stage.derive, built)
  {
    hide DirectivesRun;
    CopiesRead(stage.derive, workers, outputs, Work(name, root, []));
  }

  // ---- The analysis covers the run ----

  /** The two bits say exactly which components an output has. */
  ghost predicate Covers(available: Available, output: StageOutput) {
    && (available.root <==> output.root.Some?)
    && (available.boot <==> output.pmi.Some?)
  }

  ghost predicate AllCovered(stages: Provided, outputs: StageOutputs) {
    && stages.Keys == outputs.Keys
    && forall name <- stages :: Covers(stages[name], outputs[name])
  }

  /** Resolving a reference finds what the analysis says, or fails for another reason. */
  lemma SourceCovers(codec: Codec, reference: ImageRef, images: Images, stages: Provided, outputs: StageOutputs)
    requires KnownRef(reference, images) && AllCovered(stages, outputs)
    ensures
      var output, source := OutputOf(codec, reference, images, outputs), Source(reference, stages, images);
      && (source == None ==> output == Failed(MissingStage))
      && (source.Some? ==> output == Failed(Other) || (output.Done? && Covers(source.value, output.value)))
  {
    hide BootOverlay.Inherited;
  }

  lemma StageCovers(codec: Codec, name: string, stage: Stage, images: Images, workers: Workers,
                    stages: Provided, outputs: StageOutputs, built: seq<string>)
    requires KnownRef(stage.from, images) && AllSound(outputs) && Manifests(images) && AllCovered(stages, outputs)
    requires Built(outputs, built) && SourcesIn(stage.derive, built)
    ensures
      var source, output := Source(stage.from, stages, images), StageRun(codec, name, stage, images, workers, outputs);
      if source.Some? && source.value.root then
        || output == Failed(Other)
        || (output.Done? && Covers(if stage.format then Available(true, false) else source.value, output.value))
      else output.Failed?
  {
    hide OutputOf, Bound, Source, DirectivesRun, Built, SourcesIn, AllCovered;
    SourceCovers(codec, stage.from, images, stages, outputs);
    var input := OutputOf(codec, stage.from, images, outputs);
    if input.Done? && input.value.root.Some? {
      CopiesFound(stage.derive, workers, outputs, Work(name, input.value.root.value, []), built);
    }
  }

  /**
    For every prefix of the stages, the analysis and the run agree: where the
    analysis refuses, the run has failed; where it goes on, the run has the
    outputs it describes, or failed for a reason that is not a missing component.
    */
  lemma {:induction false} StagesCover(codec: Codec, plan: Plan, images: Images, workers: Workers, k: nat)
    requires Resolved(plan, images) && Manifests(images) && k <= |plan.order| && codec.Lawful() && CopiesFirst(plan)
    ensures
      var stages, outputs := StagesTo(plan, images, k), RunTo(codec, plan, images, workers, k);
      match stages
      case None => outputs.Failed?
      case Some(known) => outputs == Failed(Other) || (outputs.Done? && AllCovered(known, outputs.value))
  {
    hide StageRun, Source, Codec.Lawful, Covers, SourcesIn, Built;
    if k > 0 {
      StagesCover(codec, plan, images, workers, k - 1);
      var stages, outputs := StagesTo(plan, images, k - 1), RunTo(codec, plan, images, workers, k - 1);
      if stages.Some? && outputs.Done? {
        var name := plan.order[k - 1];
        FinishedHaveRoots(codec, plan, images, workers, k - 1);
        StageCovers(codec, name, plan.stages[name], images, workers, stages.value, outputs.value, plan.order[..k - 1]);
      }
    }
  }

  /** The components are there as the analysis says, or their composition fails for another reason. */
  ghost predicate Promised(selectable: bool, composed: Outcome<StageOutput>) {
    if selectable then
      || composed == Failed(Other)
      || (composed.Done? && (composed.value.root.Some? || composed.value.pmi.Some?))
    else composed.Failed? || (composed.value.root == None && composed.value.pmi == None)
  }

  lemma RootCovers(codec: Codec, reference: ImageRef, images: Images, stages: Provided, outputs: StageOutputs)
    requires KnownRef(reference, images) && AllCovered(stages, outputs)
    ensures
      var source, root := Source(reference, stages, images), RootOutput(codec, reference, images, outputs);
      if source.Some? && source.value.root then root.Done? || root == Failed(Other) else root.Failed?
  {
    hide OutputOf, Source, AllCovered;
    SourceCovers(codec, reference, images, stages, outputs);
  }

  lemma BootCovers(codec: Codec, boot: Boot, images: Images, stages: Provided, outputs: StageOutputs, extracts: bool)
    requires KnownRef(BootSource(boot), images) && AllCovered(stages, outputs)
    ensures
      var source, selected := Source(BootSource(boot), stages, images), BootOutput(codec, boot, images, outputs, true, extracts);
      if source.Some? && (if boot.Extract? then source.value.root else source.value.boot)
      then selected.Done? || selected == Failed(Other) else selected.Failed?
  {
    hide OutputOf, Source, AllCovered, Overlaid;
    SourceCovers(codec, BootSource(boot), images, stages, outputs);
  }

  lemma ComposedCovers(codec: Codec, image: Image, images: Images, stages: Provided, outputs: StageOutputs, extracts: bool)
    requires KnownImage(image, images) && AllCovered(stages, outputs)
    requires image.Components? ==> image.root.Some? || image.boot.Some?
    ensures Promised(Selectable(image, stages, images), Composed(codec, image, images, outputs, true, extracts))
  {
    hide OutputOf, Source, AllCovered, RootOutput, BootOutput;
    match image
    case Whole(source) =>
      SourceCovers(codec, source, images, stages, outputs);
    case Components(root, boot) =>
      if root.Some? {
        RootCovers(codec, root.value, images, stages, outputs);
      }
      if boot.Some? {
        BootCovers(codec, boot.value, images, stages, outputs, extracts);
      }
  }

  /** What is composed is selected, unless there is nothing in it or binding it fails. */
  lemma FinishedCovers(codec: Codec, output: StageOutput)
    requires output.Sound()
    ensures
      var finished := Finished(codec, output);
      if output.root.Some? || output.pmi.Some? then finished.Done? || finished == Failed(Other) else finished.Failed?
  {
    hide Bound, Changed;
  }

  /** Composing the image finds every component the analysis promised, or fails where it refused. */
  lemma ImageCovers(codec: Codec, image: Image, images: Images, stages: Provided, outputs: StageOutputs, extracts: bool)
    requires KnownImage(image, images) && AllSound(outputs) && Manifests(images) && AllCovered(stages, outputs)
    requires image.Components? ==> image.root.Some? || image.boot.Some?
    ensures
      var selected := SelectedOutput(codec, image, images, outputs, true, extracts);
      if Selectable(image, stages, images) then selected.Done? || selected == Failed(Other) else selected.Failed?
  {
    ComposedCovers(codec, image, images, stages, outputs, extracts);
    hide Composed, Finished, Selectable, AllCovered, Manifests, AllSound, KnownImage;
    var composed := Composed(codec, image, images, outputs, true, extracts);
    if composed.Done? {
      ComposedSound(codec, image, images, outputs, true, extracts);
      FinishedCovers(codec, composed.value);
    }
  }

  /**
    The analysis decides whether components suffice: an accepted plan whose COPY
    sources come first finishes, or fails for a reason other than a missing stage,
    COPY source, root, firmware, an empty image or stray configuration; a refused
    plan never finishes.
    */
  lemma AnalysisDecides(codec: Codec, plan: Plan, images: Images, workers: Workers)
    requires Resolved(plan, images) && Manifests(images) && SelectsSomething(plan) && codec.Lawful() && CopiesFirst(plan)
    ensures
      var result := Ran(codec, plan, images, workers);
      if Accepted(plan, images) then result.Done? || result == Failed(Other) else result.Failed?
  {
    hide SelectedOutput, StageRun, Selectable, Codec.Lawful, CopiesFirst;
    StagesCover(codec, plan, images, workers, |plan.order|);
    var stages, outputs := StagesTo(plan, images, |plan.order|), RunTo(codec, plan, images, workers, |plan.order|);
    if stages.Some? && outputs.Done? {
      ImageCovers(codec, plan.image, images, stages.value, outputs.value, workers.extracts);
    }
  }

  // ---- Plans from the planner ----

  /** A plan as the planner orders it, with all its remote images resolved. */
  ghost predicate FromPlanner(plan: Plan, images: Images) {
    && Planned(plan.stages, plan.image) == Some(plan.order)
    && (forall name <- plan.order :: name in plan.stages ==> KnownRef(plan.stages[name].from, images))
    && KnownImage(plan.image, images)
  }

  lemma PlannedResolved(plan: Plan, images: Images)
    requires FromPlanner(plan, images)
    ensures Resolved(plan, images) && SelectsSomething(plan) && CopiesFirst(plan) && InputsFirst(plan)
    ensures forall name <- LocalNames(ImageSources(plan.image)) :: name in plan.order
  {
    hide Planned, LocalNames;
    PlannedInOrder(plan.stages, plan.image);
  }

  /** A stage that is there, or an image that decodes. */
  lemma OutputFound(codec: Codec, reference: ImageRef, images: Images, outputs: StageOutputs)
    requires KnownRef(reference, images) && (reference.Local? ==> reference.stage in outputs)
    ensures OutputOf(codec, reference, images, outputs).Done? || OutputOf(codec, reference, images, outputs) == Failed(Other)
  {
    hide BootOverlay.Inherited;
  }

  ghost predicate Lost<T>(outcome: Outcome<T>) {
    outcome == Failed(MissingStage) || outcome == Failed(MissingCopySource)
  }

  lemma StageFound(codec: Codec, name: string, stage: Stage, images: Images, workers: Workers, outputs: StageOutputs,
                   built: seq<string>)
    requires KnownRef(stage.from, images) && AllSound(outputs) && Manifests(images)
    requires Built(outputs, built) && SourcesIn(stage.derive, built)
    requires stage.from.Local? ==> stage.from.stage in built
    ensures !Lost(StageRun(codec, name, stage, images, workers, outputs))
  {
    OutputFound(codec, stage.from, images, outputs);
    hide OutputOf, Bound, DirectivesRun, Built, SourcesIn;
    var input := OutputOf(codec, stage.from, images, outputs);
    if input.Done? && input.value.root.Some? {
      CopiesFound(stage.derive, workers, outputs, Work(name, input.value.root.value, []), built);
    }
  }

  lemma OrderGives(plan: Plan, images: Images, k: nat)
    requires Resolved(plan, images) && CopiesFirst(plan) && InputsFirst(plan) && k < |plan.order|
    ensures var stage := plan.stages[plan.order[k]];
      && KnownRef(stage.from, images) && SourcesIn(stage.derive, plan.order[..k])
      && (stage.from.Local? ==> stage.from.stage in plan.order[..k])
  {
    hide SourcesIn, KnownRef, KnownImage;
  }

  lemma {:induction false} StagesFound(codec: Codec, plan: Plan, images: Images, workers: Workers, k: nat)
    requires Resolved(plan, images) && CopiesFirst(plan) && InputsFirst(plan)
    requires Manifests(images) && codec.Lawful() && k <= |plan.order|
    ensures !Lost(RunTo(codec, plan, images, workers, k))
  {
    hide StageRun, Codec.Lawful, Manifests, SourcesIn, Built, CopiesFirst, InputsFirst, KnownRef, KnownImage;
    if k > 0 {
      StagesFound(codec, plan, images, workers, k - 1);
      var name := plan.order[k - 1];
      if RunTo(codec, plan, images, workers, k - 1).Done? {
        var outputs := RunTo(codec, plan, images, workers, k - 1).value;
        FinishedHaveRoots(codec, plan, images, workers, k - 1);
        OrderGives(plan, images, k - 1);
        StageFound(codec, name, plan.stages[name], images, workers, outputs, plan.order[..k - 1]);
      }
    }
  }

  /** Every source of an image is there. */
  ghost predicate SourcesFound(codec: Codec, image: Image, images: Images, outputs: StageOutputs)
    requires KnownImage(image, images)
  {
    match image
    case Whole(source) => Found(codec, source, images, outputs)
    case Components(root, boot) =>
      && (root.Some? ==> Found(codec, root.value, images, outputs))
      && (boot.Some? ==> Found(codec, BootSource(boot.value), images, outputs))
  }

  ghost predicate Found(codec: Codec, reference: ImageRef, images: Images, outputs: StageOutputs)
    requires KnownRef(reference, images)
  {
    OutputOf(codec, reference, images, outputs).Done? || OutputOf(codec, reference, images, outputs) == Failed(Other)
  }

  lemma BootFound(codec: Codec, boot: Boot, images: Images, outputs: StageOutputs, extracts: bool)
    requires KnownRef(BootSource(boot), images) && Found(codec, BootSource(boot), images, outputs)
    ensures !Lost(BootOutput(codec, boot, images, outputs, true, extracts))
  {
    hide OutputOf, Overlaid;
  }

  lemma ComposedFound(codec: Codec, image: Image, images: Images, outputs: StageOutputs, extracts: bool)
    requires KnownImage(image, images) && SourcesFound(codec, image, images, outputs)
    ensures !Lost(Composed(codec, image, images, outputs, true, extracts))
  {
    hide OutputOf, BootOutput;
    if image.Components? && image.boot.Some? {
      BootFound(codec, image.boot.value, images, outputs, extracts);
    }
  }

  lemma FinishedFound(codec: Codec, output: StageOutput)
    requires output.Sound()
    ensures !Lost(Finished(codec, output))
  {
    hide Bound, Changed;
  }

  lemma ImageFound(codec: Codec, image: Image, images: Images, outputs: StageOutputs, extracts: bool)
    requires KnownImage(image, images) && AllSound(outputs) && Manifests(images)
    requires forall name <- LocalNames(ImageSources(image)) :: name in outputs
    ensures !Lost(SelectedOutput(codec, image, images, outputs, true, extracts))
  {
    SourcesAreFound(codec, image, images, outputs);
    ComposedFound(codec, image, images, outputs, extracts);
    hide Composed, Finished, AllSound, Manifests, SourcesFound, KnownImage;
    var composed := Composed(codec, image, images, outputs, true, extracts);
    if composed.Done? {
      ComposedSound(codec, image, images, outputs, true, extracts);
      FinishedFound(codec, composed.value);
    }
  }

  lemma SourcesAreFound(codec: Codec, image: Image, images: Images, outputs: StageOutputs)
    requires KnownImage(image, images) && forall name <- LocalNames(ImageSources(image)) :: name in outputs
    ensures SourcesFound(codec, image, images, outputs)
  {
    hide OutputOf, LocalNames;
    forall reference | reference in ImageSources(image) && KnownRef(reference, images)
      ensures Found(codec, reference, images, outputs)
    {
      LocalNamesAll(ImageSources(image), reference);
      OutputFound(codec, reference, images, outputs);
    }
    match image
    case Whole(source) => assert source in ImageSources(image);
    case Components(root, boot) =>
      assert root.Some? ==> root.value in ImageSources(image);
      assert boot.Some? ==> BootSource(boot.value) in ImageSources(image);
  }

  lemma {:induction false} LocalNamesAll(sources: seq<ImageRef>, reference: ImageRef)
    requires reference in sources
    ensures reference.Local? ==> reference.stage in LocalNames(sources)
  {
    if sources[0] != reference {
      LocalNamesAll(sources[1..], reference);
    }
  }

  /**
    From the planner to the image: the analysis decides a planned build. An accepted
    one finishes or fails in its own work, a refused one never finishes, and no
    stage is ever missing when another one, or the image, needs it.
    */
  lemma PlannedDecides(codec: Codec, plan: Plan, images: Images, workers: Workers)
    requires FromPlanner(plan, images) && Manifests(images) && codec.Lawful()
    ensures Resolved(plan, images)
    ensures
      var result := Ran(codec, plan, images, workers);
      && !Lost(result)
      && if Accepted(plan, images) then result.Done? || result == Failed(Other) else result.Failed?
  {
    hide FromPlanner, SelectedOutput, StageRun, Codec.Lawful, Manifests, Accepted, LocalNames, ImageSources, CopiesFirst, InputsFirst;
    PlannedResolved(plan, images);
    AnalysisDecides(codec, plan, images, workers);
    StagesFound(codec, plan, images, workers, |plan.order|);
    var run := RunTo(codec, plan, images, workers, |plan.order|);
    if run.Done? {
      FinishedHaveRoots(codec, plan, images, workers, |plan.order|);
      assert plan.order[..|plan.order|] == plan.order;
      ImageFound(codec, plan.image, images, run.value, workers.extracts);
    }
  }
}
