/**
  Stage outputs, and the image composed from them: which root it carries and
  when its boot configuration is rebound to that root.
  */
module Outputs {
  import opened Wrappers
  import opened Bytes
  import opened Strings
  import opened BootText
  import opened BootArena
  import opened BootConfig
  import opened BootOverlay
  import opened Plans

  /** A base image's root with the layers produced on top of it. */
  datatype Root = Root(base: Option<CheckedImage>, produced: seq<Hash>) {
    predicate Sound() {
      produced != [] || (base.Some? && base.value.root.Some?)
    }

    /** The commitment of the topmost layer. */
    function Hash(): Hash
      requires Sound()
    {
      if produced != [] then produced[|produced| - 1] else base.value.root.value
    }
  }

  datatype Firmware = Inherited(image: CheckedImage) | File {
    function Root(): Option<Hash> {
      match this case Inherited(image) => image.root case File => None
    }
  }

  datatype StageOutput = StageOutput(root: Option<Root>, pmi: Option<Firmware>, config: Option<Encoded>) {
    predicate Sound() {
      && (root.Some? ==> root.value.Sound())
      && (config.Some? ==> pmi.Some? && config.value.bytes != [])
    }
  }

  type StageOutputs = map<string, StageOutput>

  // ---- What each step gives ----

  function Nonempty(config: Option<Encoded>): Option<Encoded> {
    if config.Some? && config.value.bytes == [] then None else config
  }

  ghost function RemoteOutput(codec: Codec, image: CheckedImage): Outcome<StageOutput> {
    var config :- RemoteConfig(codec, image);
    Done(StageOutput(if image.root.Some? then Some(Root(Some(image), [])) else None,
                     if HasPmi(image.layers) then Some(Inherited(image)) else None, config))
  }

  ghost function RemoteConfig(codec: Codec, image: CheckedImage): Outcome<Option<Encoded>> {
    match ConfigLayer(image.layers)
    case None => Done(None)
    case Some(bytes) =>
      match BootOverlay.Inherited(codec, bytes, image.root)
      case None => Failed(Other)
      case Some(config) => Done(Nonempty(Some(config)))
  }

  ghost function OutputOf(codec: Codec, reference: ImageRef, images: Images, outputs: StageOutputs): Outcome<StageOutput>
    requires KnownRef(reference, images)
  {
    match reference
    case Local(name) => if name in outputs then Done(outputs[name]) else Failed(MissingStage)
    case Remote(name) => RemoteOutput(codec, images[name])
  }

  ghost function Bind(codec: Codec, output: StageOutput): Outcome<StageOutput>
    requires output.root.Some? ==> output.root.value.Sound()
  {
    if output.root == None || output.config == None then Done(output)
    else match Bound(codec, output.config.value, output.root.value.Hash())
      case None => Failed(Other)
      case Some(config) => Done(output.(config := Some(config)))
  }

  ghost function ConfigFor(codec: Codec, base: Option<Encoded>, edits: Edits): Outcome<Option<Encoded>> {
    match Overlaid(codec, base, edits)
    case None => Failed(Other)
    case Some(config) => Done(Some(config))
  }

  /** Firmware and configuration; `extracts` says whether reading a firmware file succeeds. */
  ghost function BootOutput(codec: Codec, boot: Boot, images: Images, outputs: StageOutputs, reader: bool, extracts: bool):
    Outcome<(Firmware, Option<Encoded>)>
    requires KnownRef(BootSource(boot), images)
  {
    var source :- OutputOf(codec, BootSource(boot), images, outputs);
    if boot.Extract? then
      if source.root == None then Failed(MissingRoot)
      else if !reader then Failed(NoReader)
      else if !extracts then Failed(Other)
      else
        var config :- ConfigFor(codec, None, boot.define);
        Done((File, config))
    else if source.pmi == None then Failed(MissingPmi)
    else match boot
      case InheritDefined(_, define) =>
        var config :- ConfigFor(codec, None, define);
        Done((source.pmi.value, config))
      case InheritExtended(_, extend) =>
        var config :- ConfigFor(codec, source.config, extend);
        Done((source.pmi.value, config))
      case _ => Done((source.pmi.value, source.config))
  }

  ghost function RootOutput(codec: Codec, reference: ImageRef, images: Images, outputs: StageOutputs): Outcome<Root>
    requires KnownRef(reference, images)
  {
    var source :- OutputOf(codec, reference, images, outputs);
    if source.root == None then Failed(MissingRoot) else Done(source.root.value)
  }

  /** The components the image names, before they are bound to each other. */
  ghost function Composed(codec: Codec, image: Image, images: Images, outputs: StageOutputs, reader: bool, extracts: bool):
    Outcome<StageOutput>
    requires KnownImage(image, images)
  {
    match image
    case Whole(source) => OutputOf(codec, source, images, outputs)
    case Components(root, boot) =>
      var chosen: Option<Root> :- (if root == None then Done(None) else
        var r :- RootOutput(codec, root.value, images, outputs);
        Done(Some(r)));
      if boot == None then Done(StageOutput(chosen, None, None))
      else
        var (pmi, config) :- BootOutput(codec, boot.value, images, outputs, reader, extracts);
        Done(StageOutput(chosen, Some(pmi), Nonempty(config)))
  }

  /** Does the selected root differ from what firmware or configuration were built for? */
  predicate Changed(output: StageOutput)
    requires output.root.Some? && output.root.value.Sound()
  {
    var hash := Some(output.root.value.Hash());
    || output.root.value.produced != []
    || (output.pmi.Some? && output.pmi.value.Root() != hash)
    || (output.config.Some? && output.config.value.root != hash)
  }

  ghost function Finished(codec: Codec, output: StageOutput): Outcome<StageOutput>
    requires output.root.Some? ==> output.root.value.Sound()
  {
    if output.root == None && output.pmi == None then Failed(EmptyImage)
    else if output.config.Some? && output.pmi == None then Failed(ConfigWithoutPmi)
    else if output.root.Some? && Changed(output) then Bind(codec, output)
    else Done(output)
  }

  ghost predicate AllSound(outputs: StageOutputs) {
    forall name <- outputs :: outputs[name].Sound()
  }

  ghost predicate Manifests(images: Images) {
    forall name <- images :: ConfigNeedsPmi(images[name])
  }

  lemma OutputSound(codec: Codec, reference: ImageRef, images: Images, outputs: StageOutputs)
    requires KnownRef(reference, images) && AllSound(outputs) && Manifests(images)
    requires OutputOf(codec, reference, images, outputs).Done?
    ensures OutputOf(codec, reference, images, outputs).value.Sound()
  {
    hide BootOverlay.Inherited;
  }

  lemma ComposedSound(codec: Codec, image: Image, images: Images, outputs: StageOutputs, reader: bool, extracts: bool)
    requires KnownImage(image, images) && AllSound(outputs) && Manifests(images)
    requires Composed(codec, image, images, outputs, reader, extracts).Done?
    ensures Composed(codec, image, images, outputs, reader, extracts).value.Sound()
  {
    hide OutputOf, Overlaid;
    match image
    case Whole(source) => OutputSound(codec, source, images, outputs);
    case Components(root, boot) =>
      if root.Some? {
        OutputSound(codec, root.value, images, outputs);
      }
  }

  /** The selected image. */
  ghost function SelectedOutput(codec: Codec, image: Image, images: Images, outputs: StageOutputs, reader: bool, extracts: bool):
    Outcome<StageOutput>
    requires KnownImage(image, images) && AllSound(outputs) && Manifests(images)
  {
    var output :- Composed(codec, image, images, outputs, reader, extracts);
    ComposedSound(codec, image, images, outputs, reader, extracts);
    Finished(codec, output)
  }

  // ---- The operations ----

  method Remote(codec: Codec, image: CheckedImage) returns (output: Outcome<StageOutput>)
    ensures output == RemoteOutput(codec, image)
  {
    hide Decode;
    var layer := ConfigLayer(image.layers);
    var config: Option<Encoded> := None;
    if layer.Some? {
      var parsed := DecodeBytes(codec, layer.value);
      if parsed == None {
        return Failed(Other);
      }
      config := Nonempty(Some(Encoded(if parsed.value.values == map[] then [] else layer.value, image.root)));
    }
    return Done(StageOutput(if image.root.Some? then Some(Root(Some(image), [])) else None,
                            if HasPmi(image.layers) then Some(Inherited(image)) else None, config));
  }

  method Resolve(codec: Codec, reference: ImageRef, images: Images, outputs: StageOutputs) returns (output: Outcome<StageOutput>)
    requires KnownRef(reference, images)
    ensures output == OutputOf(codec, reference, images, outputs)
  {
    hide RemoteOutput;
    match reference {
      case Local(name) => return if name in outputs then Done(outputs[name]) else Failed(MissingStage);
      case Remote(name) => output := Remote(codec, images[name]);
    }
  }

  method BindRoot(codec: Codec, output: StageOutput) returns (bound: Outcome<StageOutput>)
    requires output.root.Some? ==> output.root.value.Sound()
    ensures bound == Bind(codec, output)
  {
    hide Bound;
    if output.root == None || output.config == None {
      return Done(output);
    }
    var config := new Component(output.config.value);
    var ok := config.Bind(codec, output.root.value.Hash());
    return if ok then Done(output.(config := Some(config.Value()))) else Failed(Other);
  }

  method SelectBoot(codec: Codec, boot: Boot, images: Images, outputs: StageOutputs, reader: bool, extracts: bool)
    returns (selected: Outcome<(Firmware, Option<Encoded>)>)
    requires KnownRef(BootSource(boot), images)
    ensures selected == BootOutput(codec, boot, images, outputs, reader, extracts)
  {
    hide Overlaid, OutputOf;
    var resolved := Resolve(codec, BootSource(boot), images, outputs);
    if resolved.Failed? {
      return Failed(resolved.error);
    }
    var source := resolved.value;
    var config: Option<Encoded>;
    match boot {
      case Extract(_, define) =>
        if source.root == None {
          return Failed(MissingRoot);
        }
        if !reader {
          return Failed(NoReader);
        }
        if !extracts {
          return Failed(Other);
        }
        config := Overlay(codec, None, define);
        return if config == None then Failed(Other) else Done((File, config));
      case InheritDefined(_, define) =>
        if source.pmi == None {
          return Failed(MissingPmi);
        }
        config := Overlay(codec, None, define);
        return if config == None then Failed(Other) else Done((source.pmi.value, config));
      case InheritExtended(_, extend) =>
        if source.pmi == None {
          return Failed(MissingPmi);
        }
        config := Overlay(codec, source.config, extend);
        return if config == None then Failed(Other) else Done((source.pmi.value, config));
      case _ =>
        if source.pmi == None {
          return Failed(MissingPmi);
        }
        return Done((source.pmi.value, source.config));
    }
  }

  method Compose(codec: Codec, image: Image, images: Images, outputs: StageOutputs, reader: bool, extracts: bool)
    returns (composed: Outcome<StageOutput>)
    requires KnownImage(image, images)
    ensures composed == Composed(codec, image, images, outputs, reader, extracts)
  {
    hide OutputOf, BootOutput;
    match image {
      case Whole(source) => composed := Resolve(codec, source, images, outputs);
      case Components(root, boot) =>
        var chosen: Option<Root> := None;
        if root.Some? {
          var source := Resolve(codec, root.value, images, outputs);
          if source.Failed? {
            return Failed(source.error);
          }
          if source.value.root == None {
            return Failed(MissingRoot);
          }
          chosen := source.value.root;
        }
        if boot == None {
          return Done(StageOutput(chosen, None, None));
        }
        var selected := SelectBoot(codec, boot.value, images, outputs, reader, extracts);
        if selected.Failed? {
          return Failed(selected.error);
        }
        return Done(StageOutput(chosen, Some(selected.value.0), Nonempty(selected.value.1)));
    }
  }

  /** Compose the image, check it and bind its configuration to its root. */
  method Select(codec: Codec, image: Image, images: Images, outputs: StageOutputs, reader: bool, extracts: bool)
    returns (selected: Outcome<StageOutput>)
    requires KnownImage(image, images) && AllSound(outputs) && Manifests(images)
    ensures selected == SelectedOutput(codec, image, images, outputs, reader, extracts)
  {
    hide Composed, Bind;
    var composed := Compose(codec, image, images, outputs, reader, extracts);
    if composed.Failed? {
      return composed;
    }
    var output := composed.value;
    ComposedSound(codec, image, images, outputs, reader, extracts);
    if output.root == None && output.pmi == None {
      return Failed(EmptyImage);
    }
    if output.config.Some? && output.pmi == None {
      return Failed(ConfigWithoutPmi);
    }
    if output.root.Some? && Changed(output) {
      selected := BindRoot(codec, output);
    } else {
      selected := Done(output);
    }
  }

  // ---- The rebinding rule ----

  /** The decoded configuration of an output, where it has one. */
  ghost function Settings(codec: Codec, output: StageOutput): Option<Values> {
    if output.config == None || Decode(codec, output.config.value.bytes) == None then None
    else Some(Decode(codec, output.config.value.bytes).value.values)
  }

  /** The settings an output has; without a configuration, none. */
  ghost function SettingsOrNone(codec: Codec, output: StageOutput): Values {
    if Settings(codec, output).Some? then Settings(codec, output).value else map[]
  }

  /** Settings with an existing `corium.root` pointed at `root`. */
  function Pointed(values: Values, root: Hash): Values {
    if ROOT_KEY in values then values[ROOT_KEY := [Hex(root)]] else values
  }

  /**
    A composed image with a root: root and firmware are never altered; when the
    root is new to its firmware or configuration, an existing `corium.root`
    becomes the hash of the selected root and no other key changes; otherwise the
    configuration stays exactly as composed.
    */
  lemma RebindingRule(codec: Codec, output: StageOutput)
    requires codec.Lawful() && output.Sound() && output.root.Some?
    requires Finished(codec, output).Done?
    ensures
      var finished, hash := Finished(codec, output).value, output.root.value.Hash();
      && finished.root == output.root && finished.pmi == output.pmi && (finished.config.Some? <==> output.config.Some?)
      && (Changed(output) && output.config.Some? ==>
            && finished.config.value.root == Some(hash)
            && Settings(codec, output).Some?
            && Settings(codec, finished) == Some(Pointed(Settings(codec, output).value, hash)))
      && (!Changed(output) ==> finished == output)
  {
    hide Decode, Bound, AllNodes, Live, Changed;
    if Changed(output) && output.config.Some? {
      BoundDecodes(codec, output.config.value, output.root.value.Hash());
      BindIsRootUpdate(codec, output.config.value, output.root.value.Hash());
    }
  }

  lemma BoundDecodes(codec: Codec, config: Encoded, root: Hash)
    requires Bound(codec, config, root).Some?
    ensures Decode(codec, config.bytes).Some?
  {
    hide Decode, Canonical;
  }

  /** `corium.root`, if settings have one, is the hash of a root. */
  predicate PointsAt(settings: Values, root: Hash) {
    ROOT_KEY in settings ==> settings[ROOT_KEY] == [Hex(root)]
  }

  /** `corium.root`, if the output has one, is the hash of its root. */
  ghost predicate PointsAtRoot(codec: Codec, output: StageOutput)
    requires output.root.Some? && output.root.value.Sound()
  {
    PointsAt(SettingsOrNone(codec, output), output.root.value.Hash())
  }

  /**
    The code does not always leave `corium.root` equal to the selected root's
    hash: it does exactly when the composition counts as changed, or already
    pointed there.
    */
  lemma RootKeyMatchesExactly(codec: Codec, output: StageOutput)
    requires codec.Lawful() && output.Sound() && output.root.Some?
    requires Finished(codec, output).Done?
    ensures Finished(codec, output).value.root == output.root
    ensures PointsAtRoot(codec, Finished(codec, output).value) <==> Changed(output) || PointsAtRoot(codec, output)
  {
    hide Decode, Finished, Changed;
    RebindingRule(codec, output);
  }

  /** The root of a base image, with its own configuration extended by an authored `corium.root`. */
  function AuthoredImage(name: string, value: string): Image {
    var source := ImageRef.Remote(name);
    Components(Some(source), Some(InheritExtended(source, map[ROOT_KEY := Some(Text(value))])))
  }

  /** An output with this root and this value of `corium.root`. */
  ghost predicate Carries(codec: Codec, output: StageOutput, root: Hash, value: string) {
    && output.root.Some? && output.root.value.Sound() && output.root.value.Hash() == root
    && var settings := SettingsOrNone(codec, output);
       ROOT_KEY in settings && settings[ROOT_KEY] == [value]
  }

  /**
    The family where it does not: extending an image's own configuration with an
    authored `corium.root`, selected together with that image's root, is not a
    change, so the authored value stays.
    */
  lemma AuthoredRootSurvives(codec: Codec, image: CheckedImage, name: string, images: Images, value: string)
    requires codec.Lawful() && name in images && images[name] == image && Manifests(images)
    requires image.root.Some? && HasPmi(image.layers)
    requires RemoteConfig(codec, image).Done? && RemoteConfig(codec, image).value.Some?
    requires Overlaid(codec, RemoteConfig(codec, image).value, map[ROOT_KEY := Some(Text(value))]).Some?
    ensures
      var selected := SelectedOutput(codec, AuthoredImage(name, value), images, map[], true, true);
      selected.Done? && Carries(codec, selected.value, image.root.value, value)
  {
    hide Decode, Canonical, Representable, RemoteConfig, Overlaid, Bound;
    var edits: Edits := map[ROOT_KEY := Some(Text(value))];
    AuthoredConfig(codec, image, value);
    var config := Overlaid(codec, RemoteConfig(codec, image).value, edits).value;
    var source := ImageRef.Remote(name);
    assert RemoteOutput(codec, image).value.root.value.Hash() == image.root.value;
    assert BootOutput(codec, InheritExtended(source, edits), images, map[], true, true) ==
           Done((Inherited(image), Some(config)));
    assert !Changed(StageOutput(Some(Root(Some(image), [])), Some(Inherited(image)), Some(config)));
  }

  lemma AuthoredConfig(codec: Codec, image: CheckedImage, value: string)
    requires codec.Lawful() && RemoteConfig(codec, image).Done? && RemoteConfig(codec, image).value.Some?
    requires Overlaid(codec, RemoteConfig(codec, image).value, map[ROOT_KEY := Some(Text(value))]).Some?
    ensures
      var config := Overlaid(codec, RemoteConfig(codec, image).value, map[ROOT_KEY := Some(Text(value))]).value;
      && config.root == image.root && config.bytes != [] && Decode(codec, config.bytes).Some?
      && var values := Decode(codec, config.bytes).value.values; ROOT_KEY in values && values[ROOT_KEY] == [value]
  {
    hide Decode, Canonical, Representable, Overlaid, Normalised, BaseValues;
    var base := RemoteConfig(codec, image).value;
    var edits: Edits := map[ROOT_KEY := Some(Text(value))];
    OverlayIsMapUpdate(codec, base, edits);
    var edited := Edited(BaseValues(codec, base).value, edits);
    NormalisedKeeps(edited, ROOT_KEY);
    EmptyDecodes(codec, Overlaid(codec, base, edits).value.bytes);
  }

  /** Settings of `corium.root` alone can be a configuration. */
  lemma RootOnly(value: string)
    requires Encodable(value)
    ensures Representable(map[ROOT_KEY := [value]])
  {
    var values := map[ROOT_KEY := [value]];
    RootKeyValid();
    RootKeyNodes();
    hide Encodable, ValidKey, Nodes;
    assert AllNodes(values) == Nodes(ROOT_KEY);
    LiveRemove(values, values.Keys, ROOT_KEY);
    assert values.Keys - {ROOT_KEY} == {};
  }

  lemma RootKeyNodes()
    ensures |Nodes(ROOT_KEY)| <= 2
  {
    assert forall i | 0 <= i < |ROOT_KEY| && ROOT_KEY[i] == '.' :: i == 6;
    assert Nodes(ROOT_KEY) <= {ROOT_KEY[..6], ROOT_KEY};
    SubsetSize(Nodes(ROOT_KEY), {ROOT_KEY[..6], ROOT_KEY});
  }

  lemma RootKeyValid()
    ensures ValidKey(ROOT_KEY)
  {
    hide Split, Segment;
    RootSegments();
    assert ROOT_KEY == "corium" + ['.'] + "root";
    SplitJoin("corium", "root", '.');
    SplitPlain("corium");
    SplitPlain("root");
    assert Split(ROOT_KEY, '.') == ["corium"] + ["root"] == ["corium", "root"];
  }

  lemma RootSegments()
    ensures Segment("corium") && Segment("root")
  {
  }

  lemma {:induction false} SplitPlain(s: string)
    requires '.' !in s
    ensures Split(s, '.') == [s]
  {
    if s != "" {
      assert s[0] in s && forall c <- s[1..] :: c in s;
      SplitPlain(s[1..]);
      assert [s[0]] + s[1..] == s;
    }
  }

  /** An image whose own configuration sets `corium.root`. */
  function Authored(codec: Codec, config: Config): CheckedImage {
    CheckedImage(Some(seq(32, _ => 0)), [Pmi, Layer.BootConfig(Compressed(codec, config))])
  }

  /** Selected with its own root and extended by `corium.root = "x"`, the image does not point at its root. */
  ghost predicate Astray(codec: Codec, image: CheckedImage) {
    var images := map["base" := image];
    Manifests(images) &&
    var selected := SelectedOutput(codec, AuthoredImage("base", "x"), images, map[], true, true);
    && selected.Done? && selected.value.root.Some? && selected.value.root.value.Sound()
    && !PointsAtRoot(codec, selected.value)
  }

  /** One concrete case: the selected image carries `corium.root = "x"`, which is no root's hash. */
  lemma AuthoredRootWitness(codec: Codec)
    requires codec.Lawful()
    ensures Canonical(map[ROOT_KEY := ["old"]]).Some?
    ensures Astray(codec, Authored(codec, Canonical(map[ROOT_KEY := ["old"]]).value))
  {
    hide Astray, HasPmi, Decode, Canonical, Representable, SelectedOutput, RemoteConfig, Overlaid, Compressed;
    RootOnly("old");
    CanonicalSome(map[ROOT_KEY := ["old"]]);
    var image := Authored(codec, Canonical(map[ROOT_KEY := ["old"]]).value);
    AuthoredDecodes(codec);
    AuthoredExtends(codec, RemoteConfig(codec, image).value);
    AuthoredSelected(codec, image);
  }

  lemma AuthoredExtends(codec: Codec, base: Option<Encoded>)
    requires codec.Lawful() && base.Some? && Decode(codec, base.value.bytes).Some?
    requires Decode(codec, base.value.bytes).value.values == map[ROOT_KEY := ["old"]]
    ensures Overlaid(codec, base, map[ROOT_KEY := Some(Text("x"))]).Some?
  {
    hide Decode, Canonical, Representable, Overlaid;
    var edits: Edits := map[ROOT_KEY := Some(Text("x"))];
    RootOnly("x");
    OverlayIsMapUpdate(codec, base, edits);
    assert Edited(map[ROOT_KEY := ["old"]], edits) == map[ROOT_KEY := ["x"]];
  }

  lemma AuthoredSelected(codec: Codec, image: CheckedImage)
    requires codec.Lawful() && image.root.Some? && HasPmi(image.layers)
    requires RemoteConfig(codec, image).Done? && RemoteConfig(codec, image).value.Some?
    requires Overlaid(codec, RemoteConfig(codec, image).value, map[ROOT_KEY := Some(Text("x"))]).Some?
    ensures Astray(codec, image)
  {
    hide Decode, SelectedOutput, RemoteConfig, Overlaid, Settings, HasPmi, Root.Hash, Root.Sound, Hex, AuthoredImage;
    var images := map["base" := image];
    assert Manifests(images);
    AuthoredRootSurvives(codec, image, "base", images, "x");
    assert |Hex(image.root.value)| == 64;
  }

  lemma AuthoredDecodes(codec: Codec)
    requires codec.Lawful() && Canonical(map[ROOT_KEY := ["old"]]).Some?
    ensures
      var image := Authored(codec, Canonical(map[ROOT_KEY := ["old"]]).value);
      var config := RemoteConfig(codec, image);
      && config.Done? && config.value.Some?
      && Decode(codec, config.value.value.bytes).Some?
      && Decode(codec, config.value.value.bytes).value.values == map[ROOT_KEY := ["old"]]
      && HasPmi(image.layers)
  {
    hide Decode, Canonical, Representable, Compressed, Normalised;
    var values := map[ROOT_KEY := ["old"]];
    EncodeDecode(codec, values);
    CanonicalValues(values);
    RootNormalised("old");
    var bytes := Compressed(codec, Canonical(values).value);
    EmptyDecodes(codec, bytes);
    AuthoredLayers(Authored(codec, Canonical(values).value).layers, bytes);
    assert ROOT_KEY in values && values != map[];
    assert Decode(codec, bytes).value.values == values;
    assert bytes != [];
  }

  lemma CanonicalSome(values: Values)
    requires Representable(values)
    ensures Canonical(values).Some?
  {
  }

  lemma RootNormalised(value: string)
    ensures Normalised(map[ROOT_KEY := [value]]) == map[ROOT_KEY := [value]]
  {
    NormalisedKeeps(map[ROOT_KEY := [value]], ROOT_KEY);
  }

  lemma AuthoredLayers(layers: seq<Layer>, bytes: seq<Byte>)
    requires layers == [Pmi, Layer.BootConfig(bytes)]
    ensures HasPmi(layers) && ConfigLayer(layers) == Some(bytes)
  {
    assert layers[0] in layers;
    assert layers[1..][0] == layers[1];
  }

  // ---- What each form of boot selection means ----

  /** The settings a boot selection asks for, given those of its source. */
  ghost function Requested(boot: Boot, inherited: Values): Values {
    match boot
    case Extract(_, define) => Normalised(Edited(map[], define))
    case InheritDefined(_, define) => Normalised(Edited(map[], define))
    case InheritExtended(_, extend) => Normalised(Edited(inherited, extend))
    case _ => inherited
  }

  /**
    Composition takes the root of one source and the firmware of the other, and
    its settings are what the form of the boot selection says: definitions
    replace all inherited settings, extensions edit them, anything else keeps them.
    */
  lemma ComposedSettings(codec: Codec, root: Option<ImageRef>, boot: Boot, images: Images, outputs: StageOutputs,
                         reader: bool, extracts: bool)
    requires codec.Lawful() && KnownImage(Components(root, Some(boot)), images)
    requires Composed(codec, Components(root, Some(boot)), images, outputs, reader, extracts).Done?
    ensures
      var composed := Composed(codec, Components(root, Some(boot)), images, outputs, reader, extracts).value;
      var source := OutputOf(codec, BootSource(boot), images, outputs).value;
      && composed.root == (if root == None then None else OutputOf(codec, root.value, images, outputs).value.root)
      && composed.pmi == (if boot.Extract? then Some(File) else source.pmi)
      && SettingsOrNone(codec, composed) == Requested(boot, SettingsOrNone(codec, source))
  {
    hide Decode, OutputOf, Overlaid, Normalised, Edited, BaseValues, Representable;
    var source := OutputOf(codec, BootSource(boot), images, outputs).value;
    EmptyDecodes(codec, []);
    match boot
    case Extract(_, define) => OverlaidSettings(codec, None, define);
    case InheritDefined(_, define) => OverlaidSettings(codec, None, define);
    case InheritExtended(_, extend) => OverlaidSettings(codec, source.config, extend);
    case _ =>
  }

  /** The root that the selected firmware was built for; a firmware file was built for none. */
  function FirmwareRoot(boot: Boot, source: StageOutput): Option<Hash> {
    if boot.Extract? || source.pmi == None then None else source.pmi.value.Root()
  }

  /** The root that the selected configuration is bound to; a defined one is bound to none. */
  function ConfigRoot(boot: Boot, source: StageOutput): Option<Hash> {
    match boot
    case Extract(_, _) => None
    case InheritDefined(_, _) => None
    case _ => if source.config == None then None else source.config.value.root
  }

  /** What firmware and configuration a composed image was built for, when it has a configuration. */
  lemma ComposedRoots(codec: Codec, root: Option<ImageRef>, boot: Boot, images: Images, outputs: StageOutputs,
                      reader: bool, extracts: bool)
    requires codec.Lawful() && KnownImage(Components(root, Some(boot)), images) && AllSound(outputs) && Manifests(images)
    requires Composed(codec, Components(root, Some(boot)), images, outputs, reader, extracts).Done?
    ensures
      var composed := Composed(codec, Components(root, Some(boot)), images, outputs, reader, extracts).value;
      var source := OutputOf(codec, BootSource(boot), images, outputs).value;
      && composed.pmi.Some? && composed.pmi.value.Root() == FirmwareRoot(boot, source)
      && (composed.config.Some? ==> composed.config.value.root == ConfigRoot(boot, source))
  {
    hide Decode, OutputOf, Overlaid;
    var source := OutputOf(codec, BootSource(boot), images, outputs).value;
    match boot
    case Extract(_, define) => OverlaidRoot(codec, None, define);
    case InheritDefined(_, define) => OverlaidRoot(codec, None, define);
    case InheritExtended(_, extend) => OverlaidRoot(codec, source.config, extend);
    case _ =>
  }

  lemma OverlaidRoot(codec: Codec, base: Option<Encoded>, edits: Edits)
    requires codec.Lawful() && Overlaid(codec, base, edits).Some?
    ensures Overlaid(codec, base, edits).value.root == if base.Some? then base.value.root else None
  {
    hide Decode, Representable, Edited;
    OverlayIsMapUpdate(codec, base, edits);
  }

  /**
    When a selected image points at its root, read off the plan and its sources:
    the root was produced by a stage, or the firmware or the configuration were
    built for another one, or the settings asked for leave `corium.root` out or
    have it right.
    */
  lemma SelectedRootKey(codec: Codec, root: ImageRef, boot: Boot, images: Images, outputs: StageOutputs,
                        reader: bool, extracts: bool)
    requires codec.Lawful() && KnownImage(Components(Some(root), Some(boot)), images)
    requires AllSound(outputs) && Manifests(images)
    requires SelectedOutput(codec, Components(Some(root), Some(boot)), images, outputs, reader, extracts).Done?
    ensures
      var selected := SelectedOutput(codec, Components(Some(root), Some(boot)), images, outputs, reader, extracts).value;
      var chosen, source := OutputOf(codec, root, images, outputs).value.root, OutputOf(codec, BootSource(boot), images, outputs).value;
      && chosen.Some? && chosen.value.Sound() && selected.root == chosen
      && var hash := chosen.value.Hash();
         (PointsAt(SettingsOrNone(codec, selected), hash) <==>
            || chosen.value.produced != []
            || FirmwareRoot(boot, source) != Some(hash)
            || ConfigRoot(boot, source) != Some(hash)
            || PointsAt(Requested(boot, SettingsOrNone(codec, source)), hash))
  {
    hide Composed, Finished, OutputOf, Decode, Requested, FirmwareRoot, ConfigRoot, BootSource;
    var image := Components(Some(root), Some(boot));
    var composed := Composed(codec, image, images, outputs, reader, extracts).value;
    ComposedSound(codec, image, images, outputs, reader, extracts);
    ComposedSettings(codec, Some(root), boot, images, outputs, reader, extracts);
    ComposedRoots(codec, Some(root), boot, images, outputs, reader, extracts);
    RootGiven(codec, root, boot, images, outputs, reader, extracts);
    RootKeyMatchesExactly(codec, composed);
  }

  lemma RootGiven(codec: Codec, root: ImageRef, boot: Boot, images: Images, outputs: StageOutputs,
                  reader: bool, extracts: bool)
    requires KnownImage(Components(Some(root), Some(boot)), images)
    requires Composed(codec, Components(Some(root), Some(boot)), images, outputs, reader, extracts).Done?
    ensures Composed(codec, Components(Some(root), Some(boot)), images, outputs, reader, extracts).value.root.Some?
  {
    hide OutputOf, BootOutput;
  }

  /** The settings of an overlay are the edited ones. */
  lemma OverlaidSettings(codec: Codec, base: Option<Encoded>, edits: Edits)
    requires codec.Lawful() && Overlaid(codec, base, edits).Some?
    ensures
      var config := Overlaid(codec, base, edits).value;
      var values := if base == None then map[] else Decode(codec, base.value.bytes).value.values;
      && (base.Some? ==> Decode(codec, base.value.bytes).Some?)
      && Decode(codec, config.bytes).Some? && Decode(codec, config.bytes).value.values == Normalised(Edited(values, edits))
  {
    hide Decode, Normalised, Edited, Representable;
    OverlayIsMapUpdate(codec, base, edits);
  }

  lemma NormalisedKeeps(values: Values, key: string)
    requires key in values && values[key] != []
    ensures key in Normalised(values) && Normalised(values)[key] == values[key]
  {
  }

  lemma EmptyDecodes(codec: Codec, bytes: seq<Byte>)
    ensures bytes == [] ==> Decode(codec, bytes).Some? && Decode(codec, bytes).value.values == map[]
  {
    hide FromText;
  }
}
