/** The two-bit analysis of which components each stage provides. */
module Availability {
  import opened Wrappers
  import opened Plans

  datatype Available = Available(root: bool, boot: bool)

  type Provided = map<string, Available>

  function Source(reference: ImageRef, stages: Provided, images: Images): Option<Available>
    requires KnownRef(reference, images)
  {
    match reference
    case Local(name) => if name in stages then Some(stages[name]) else None
    case Remote(name) => Some(Available(images[name].root.Some?, HasPmi(images[name].layers)))
  }

  /** What the first `k` stages of the order provide, if each finds a root to start from. */
  function StagesTo(plan: Plan, images: Images, k: nat): Option<Provided>
    requires Resolved(plan, images) && k <= |plan.order|
  {
    if k == 0 then Some(map[])
    else
      var stages :- StagesTo(plan, images, k - 1);
      var name := plan.order[k - 1];
      var source :- Source(plan.stages[name].from, stages, images);
      if !source.root then None
      else Some(stages[name := if plan.stages[name].format then Available(true, false) else source])
  }

  /** Can the image be selected from these stages? */
  predicate Selectable(image: Image, stages: Provided, images: Images)
    requires KnownImage(image, images)
  {
    match image
    case Whole(source) =>
      var selected := Source(source, stages, images);
      selected.Some? && (selected.value.root || selected.value.boot)
    case Components(root, boot) =>
      && (root.Some? ==>
            var selected := Source(root.value, stages, images);
            selected.Some? && selected.value.root)
      && (boot.Some? ==>
            var selected := Source(BootSource(boot.value), stages, images);
            selected.Some? && if boot.value.Extract? then selected.value.root else selected.value.boot)
  }

  predicate Accepted(plan: Plan, images: Images)
    requires Resolved(plan, images)
  {
    var stages := StagesTo(plan, images, |plan.order|);
    stages.Some? && Selectable(plan.image, stages.value, images)
  }

  lemma {:induction false} StagesToPrefix(plan: Plan, images: Images, k: nat, n: nat)
    requires Resolved(plan, images) && k <= n <= |plan.order| && StagesTo(plan, images, k) == None
    ensures StagesTo(plan, images, n) == None
  {
    if k < n {
      StagesToPrefix(plan, images, k, n - 1);
    }
  }

  method Validate(plan: Plan, images: Images) returns (ok: bool)
    requires Resolved(plan, images)
    ensures ok <==> Accepted(plan, images)
  {
    var stages: Provided := map[];
    for i := 0 to |plan.order|
      invariant StagesTo(plan, images, i) == Some(stages)
    {
      var name := plan.order[i];
      var stage := plan.stages[name];
      var source := Source(stage.from, stages, images);
      if source == None || !source.value.root {
        StagesToPrefix(plan, images, i + 1, |plan.order|);
        return false;
      }
      stages := stages[name := if stage.format then Available(true, false) else source.value];
    }
    match plan.image {
      case Whole(reference) =>
        var selected := Source(reference, stages, images);
        return selected.Some? && (selected.value.root || selected.value.boot);
      case Components(root, boot) =>
        if root.Some? {
          var selected := Source(root.value, stages, images);
          if selected == None || !selected.value.root {
            return false;
          }
        }
        if boot.Some? {
          var selected := Source(BootSource(boot.value), stages, images);
          if boot.value.Extract? {
            return selected.Some? && selected.value.root;
          }
          return selected.Some? && selected.value.boot;
        }
        return true;
    }
  }
}
