/** Checked images, authored plans and the failures of running them. */
module Plans {
  import opened Wrappers
  import opened Bytes
  import opened BootOverlay

  /** Why a plan cannot be run; everything the components cannot explain is Other. */
  datatype Error =
    | MissingStage
    | MissingCarapace
    | MissingCopySource
    | MissingRoot
    | MissingPmi
    | EmptyImage
    | ConfigWithoutPmi
    | NoReader
    | Other

  datatype Outcome<+T> = Done(value: T) | Failed(error: Error) {
    predicate IsFailure() {
      Failed?
    }

    function PropagateFailure<U>(): Outcome<U>
      requires Failed?
    {
      Failed(error)
    }

    function Extract(): T
      requires Done?
    {
      value
    }
  }

  // ---- Images ----

  datatype Layer = Pmi | PmiZstd | Scute | BootConfig(bytes: seq<Byte>)

  /** An image with verified metadata. */
  datatype CheckedImage = CheckedImage(root: Option<Hash>, layers: seq<Layer>)

  predicate HasPmi(layers: seq<Layer>) {
    exists layer <- layers :: layer.Pmi? || layer.PmiZstd?
  }

  /** The first boot configuration layer. */
  function ConfigLayer(layers: seq<Layer>): (bytes: Option<seq<Byte>>)
    ensures bytes.Some? <==> exists layer <- layers :: layer.BootConfig?
  {
    if layers == [] then None
    else if layers[0].BootConfig? then Some(layers[0].bytes)
    else ConfigLayer(layers[1..])
  }

  /** The manifest rule that configuration comes with firmware. */
  predicate ConfigNeedsPmi(image: CheckedImage) {
    ConfigLayer(image.layers).Some? ==> HasPmi(image.layers)
  }

  // ---- Plans ----

  datatype ImageRef = Local(stage: string) | Remote(name: string)

  /** A step of a stage: a command or a COPY from the context, or a COPY from another stage. */
  datatype Directive = Inside | CopyFrom(stage: string)

  /** A stage extends its input, or formats a new root with it as the tool. */
  datatype Stage = Stage(from: ImageRef, format: bool, derive: seq<Directive>)

  datatype Boot =
    | Shorthand(source: ImageRef)
    | Inherit(source: ImageRef)
    | InheritDefined(source: ImageRef, define: Edits)
    | InheritExtended(source: ImageRef, extend: Edits)
    | Extract(from: ImageRef, define: Edits)

  datatype Image =
    | Whole(source: ImageRef)
    | Components(root: Option<ImageRef>, boot: Option<Boot>)

  datatype Plan = Plan(stages: map<string, Stage>, order: seq<string>, image: Image)

  type Images = map<string, CheckedImage>

  predicate KnownRef(reference: ImageRef, images: Images) {
    reference.Remote? ==> reference.name in images
  }

  function BootSource(boot: Boot): ImageRef {
    match boot case Extract(from, _) => from case _ => boot.source
  }

  predicate KnownImage(image: Image, images: Images) {
    match image
    case Whole(source) => KnownRef(source, images)
    case Components(root, boot) =>
      && (root.Some? ==> KnownRef(root.value, images))
      && (boot.Some? ==> KnownRef(BootSource(boot.value), images))
  }

  /** Every ordered stage is declared and every remote reference is resolved. */
  predicate Resolved(plan: Plan, images: Images) {
    && (forall name <- plan.order :: name in plan.stages && KnownRef(plan.stages[name].from, images))
    && KnownImage(plan.image, images)
  }

  /** Every stage that another one copies from is built before it. */
  predicate CopiesFirst(plan: Plan)
    requires forall name <- plan.order :: name in plan.stages
  {
    forall i | 0 <= i < |plan.order| :: SourcesIn(plan.stages[plan.order[i]].derive, plan.order[..i])
  }

  predicate SourcesIn(derive: seq<Directive>, built: seq<string>) {
    forall directive <- derive :: directive.CopyFrom? ==> directive.stage in built
  }

  /** The planner refuses an image that selects no component. */
  predicate SelectsSomething(plan: Plan) {
    plan.image.Components? ==> plan.image.root.Some? || plan.image.boot.Some?
  }
}
