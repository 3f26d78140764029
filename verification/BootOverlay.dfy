/**
  Overlays and root binding of a compressed boot configuration component: map
  edits carried through the encoded text.
  */
module BootOverlay {
  import opened Wrappers
  import opened Bytes
  import opened BootText
  import opened BootArena
  import opened BootConfig
  import BootSyntax

  /** The zstd codec, of which only the round trip is assumed. */
  datatype Codec = Codec(compress: string -> seq<Byte>, decompress: seq<Byte> -> Option<string>) {
    ghost predicate Lawful() {
      forall text :: compress(text) != [] && decompress(compress(text)) == Some(text)
    }
  }

  const ROOT_KEY := "corium.root"

  /** The component's compressed text and the root it is bound to. */
  datatype Encoded = Encoded(bytes: seq<Byte>, root: Option<Hash>)

  /** An authored value: a string, or a list that may be empty. */
  datatype PlanValue = Text(text: string) | Items(items: seq<string>) {
    function Values(): seq<string> {
      match this case Text(text) => [text] case Items(items) => items
    }
  }

  /** Edits by key; None deletes exactly that key. */
  type Edits = map<string, Option<PlanValue>>

  ghost function Decode(codec: Codec, bytes: seq<Byte>): Option<Config> {
    if bytes == [] then Some(Config(map[], ""))
    else
      var text :- codec.decompress(bytes);
      FromText(text)
  }

  function Compressed(codec: Codec, config: Config): seq<Byte> {
    if config.values == map[] then [] else codec.compress(config.text)
  }

  ghost function Inherited(codec: Codec, bytes: seq<Byte>, root: Option<Hash>): Option<Encoded> {
    var config :- Decode(codec, bytes);
    Some(Encoded(if config.values == map[] then [] else bytes, root))
  }

  /** The base map with each edited key replaced or deleted. */
  function Edited(values: Values, edits: Edits): Values {
    map key | key in values.Keys + edits.Keys && (key in edits ==> edits[key].Some?) ::
      if key in edits then edits[key].value.Values() else values[key]
  }

  ghost function BaseValues(codec: Codec, base: Option<Encoded>): Option<Values> {
    match base
    case None => Some(map[])
    case Some(encoded) =>
      var config :- Decode(codec, encoded.bytes);
      Some(config.values)
  }

  ghost function Overlaid(codec: Codec, base: Option<Encoded>, edits: Edits): Option<Encoded> {
    var values :- BaseValues(codec, base);
    var config :- Canonical(Edited(values, edits));
    Some(Encoded(Compressed(codec, config), if base.Some? then base.value.root else None))
  }

  ghost function Bound(codec: Codec, config: Encoded, root: Hash): Option<Encoded> {
    var parsed :- Decode(codec, config.bytes);
    if ROOT_KEY in parsed.values then
      var bound :- Canonical(parsed.values[ROOT_KEY := [Hex(root)]]);
      Some(Encoded(Compressed(codec, bound), Some(root)))
    else Some(config.(root := Some(root)))
  }

  // ---- The encoded form carries exactly the canonical map ----

  lemma EncodeDecode(codec: Codec, values: Values)
    requires codec.Lawful() && Canonical(values).Some?
    ensures Decode(codec, Compressed(codec, Canonical(values).value)) == Canonical(values)
  {
    RoundTrip(values);
    NormalisedRepresentable(values);
    PrintedText(Normalised(values));
    hide FromText, Print, Representable;
  }

  lemma EmptyCanonical()
    ensures Canonical(map[]) == Some(Config(map[], ""))
  {
    assert Normalised(map[]) == map[];
    assert AllNodes(map[]) == {};
    PrintedText(map[]);
  }

  lemma CanonicalOnce(values: Values)
    requires Canonical(values).Some?
    ensures Canonical(Canonical(values).value.values) == Canonical(values)
  {
    NormalisedRepresentable(values);
    NormalisedParents(values);
    hide Representable, Print;
  }

  /** What decodes is its own canonical form. */
  lemma DecodedIsCanonical(codec: Codec, bytes: seq<Byte>)
    requires Decode(codec, bytes).Some?
    ensures Canonical(Decode(codec, bytes).value.values) == Decode(codec, bytes)
  {
    hide BootSyntax.Parse, Canonical;
    if bytes == [] {
      EmptyCanonical();
    } else {
      CanonicalOnce(BootSyntax.Parse(codec.decompress(bytes).value).value.values);
    }
  }

  /**
    An overlay is an exact map update: its encoded result decodes to the base
    map with the given keys replaced or deleted, then normalised, bound to the
    base's root. It fails exactly when the base does not decode or the edited
    map cannot be a configuration.
    */
  lemma OverlayIsMapUpdate(codec: Codec, base: Option<Encoded>, edits: Edits)
    requires codec.Lawful()
    ensures
      var result := Overlaid(codec, base, edits);
      && (result.Some? <==> BaseValues(codec, base).Some? && Representable(Edited(BaseValues(codec, base).value, edits)))
      && (result.Some? ==>
            && Decode(codec, result.value.bytes).Some?
            && Decode(codec, result.value.bytes).value.values == Normalised(Edited(BaseValues(codec, base).value, edits))
            && result.value.root == (if base.Some? then base.value.root else None))
  {
    hide Decode, Compressed, Representable, Edited;
    if Overlaid(codec, base, edits).Some? {
      EncodeDecode(codec, Edited(BaseValues(codec, base).value, edits));
    }
  }

  lemma HexEncodable(root: Hash)
    ensures Encodable(Hex(root))
  {
  }

  /** Binding an opted-in configuration rewrites that one value and nothing else. */
  lemma RootUpdate(values: Values, root: Hash)
    requires Canonical(values).Some? && Canonical(values).value.values == values && ROOT_KEY in values
    ensures var updated := values[ROOT_KEY := [Hex(root)]];
      && Normalised(updated) == updated
      && (Canonical(updated).Some? <==>
            |AllNodes(values)| + Live(values, values.Keys) - |values[ROOT_KEY]| + 1 <= MAX_NODES)
  {
    hide Encodable, ValidKey, Nodes, Ancestors, Print;
    var updated := values[ROOT_KEY := [Hex(root)]];
    HexEncodable(root);
    LiveUpdate(values, ROOT_KEY, [Hex(root)]);
    assert updated.Keys == values.Keys;
    assert Parents(updated) == Parents(values) && AllNodes(updated) == AllNodes(values);
    assert values == Normalised(values);
  }

  /**
    What `bind` does to a component that decodes: with no `corium.root` it only
    records the root; with one, exactly that key becomes the hex root. It fails
    only when a bare key at the node limit would have to gain a value.
    */
  lemma BindIsRootUpdate(codec: Codec, config: Encoded, root: Hash)
    requires codec.Lawful() && Decode(codec, config.bytes).Some?
    ensures
      var values := Decode(codec, config.bytes).value.values;
      var bound := Bound(codec, config, root);
      && (ROOT_KEY !in values ==> bound == Some(Encoded(config.bytes, Some(root))))
      && (ROOT_KEY in values ==>
            && (bound.Some? <==>
                  |AllNodes(values)| + Live(values, values.Keys) - |values[ROOT_KEY]| + 1 <= MAX_NODES)
            && (bound.Some? ==>
                  && bound.value.root == Some(root)
                  && Decode(codec, bound.value.bytes).Some?
                  && Decode(codec, bound.value.bytes).value.values == values[ROOT_KEY := [Hex(root)]]))
  {
    hide Decode, Compressed, Canonical, Normalised, AllNodes, Live;
    var values := Decode(codec, config.bytes).value.values;
    DecodedIsCanonical(codec, config.bytes);
    if ROOT_KEY in values {
      RootUpdate(values, root);
      var updated := values[ROOT_KEY := [Hex(root)]];
      if Canonical(updated).Some? {
        EncodeDecode(codec, updated);
        CanonicalValues(updated);
      }
    }
  }

  lemma CanonicalValues(values: Values)
    requires Canonical(values).Some?
    ensures Canonical(values).value.values == Normalised(values)
  {
  }

  /** Binding twice to the same root changes nothing, not even the bytes. */
  lemma BindIdempotent(codec: Codec, config: Encoded, root: Hash)
    requires codec.Lawful() && Bound(codec, config, root).Some?
    ensures Bound(codec, Bound(codec, config, root).value, root) == Bound(codec, config, root)
  {
    hide Decode, Compressed, Canonical, Normalised, AllNodes, Live;
    var values := Decode(codec, config.bytes).value.values;
    var bound := Bound(codec, config, root).value;
    BindIsRootUpdate(codec, config, root);
    if ROOT_KEY in values {
      var updated := values[ROOT_KEY := [Hex(root)]];
      EncodeDecode(codec, updated);
      assert updated[ROOT_KEY := [Hex(root)]] == updated;
      assert Decode(codec, bound.bytes) == Canonical(updated);
    }
  }

  /** A key that an overlay deleted is not brought back by binding. */
  lemma BindKeepsDeletion(codec: Codec, base: Option<Encoded>, edits: Edits, root: Hash)
    requires codec.Lawful() && Overlaid(codec, base, edits).Some?
    requires ROOT_KEY in edits && edits[ROOT_KEY] == None
    ensures Bound(codec, Overlaid(codec, base, edits).value, root) ==
            Some(Overlaid(codec, base, edits).value.(root := Some(root)))
  {
    OverlayIsMapUpdate(codec, base, edits);
    BindIsRootUpdate(codec, Overlaid(codec, base, edits).value, root);
    hide Decode, Overlaid, Bound, Representable, AllNodes, Live;
  }

  // ---- The operations ----

  method DecodeBytes(codec: Codec, bytes: seq<Byte>) returns (config: Option<Config>)
    ensures config == Decode(codec, bytes)
  {
    if bytes == [] {
      return Some(Config(map[], ""));
    }
    var text := codec.decompress(bytes);
    if text == None {
      return None;
    }
    config := FromStr(text.value);
  }

  lemma NoEdits(original: Values)
    ensures Edited(original, map[]) == original
  {
  }

  /** One more edit made. */
  lemma EditedStep(original: Values, edits: Edits, todo: set<string>, key: string)
    requires todo <= edits.Keys && key in todo
    ensures Edited(original, edits - (todo - {key})) ==
            match edits[key]
            case None => Edited(original, edits - todo) - {key}
            case Some(value) => Edited(original, edits - todo)[key := value.Values()]
  {
    hide PlanValue.Values;
    assert edits - (todo - {key}) == (edits - todo)[key := edits[key]];
  }

  method Overlay(codec: Codec, base: Option<Encoded>, edits: Edits) returns (result: Option<Encoded>)
    ensures result == Overlaid(codec, base, edits)
  {
    hide Canonical, Decode, Edited, PlanValue.Values;
    var values: Values := map[];
    if base.Some? {
      var config := DecodeBytes(codec, base.value.bytes);
      if config == None {
        return None;
      }
      values := config.value.values;
    }
    ghost var original := values;
    NoEdits(original);
    assert edits - edits.Keys == map[];
    var todo := edits.Keys;
    while todo != {}
      invariant todo <= edits.Keys
      invariant values == Edited(original, edits - todo)
    {
      var key :| key in todo;
      match edits[key] {
        case None => values := values - {key};
        case Some(value) => values := values[key := value.Values()];
      }
      EditedStep(original, edits, todo, key);
      todo := todo - {key};
    }
    assert edits - {} == edits;
    var config := TryFrom(values);
    if config == None {
      return None;
    }
    return Some(Encoded(Compressed(codec, config.value), if base.Some? then base.value.root else None));
  }

  /** A component owned by one output, bound in place. */
  class Component {
    var bytes: seq<Byte>
    var root: Option<Hash>

    constructor (value: Encoded)
      ensures Value() == value
    {
      bytes, root := value.bytes, value.root;
    }

    function Value(): Encoded
      reads this
    {
      Encoded(bytes, root)
    }

    method Bind(codec: Codec, root: Hash) returns (ok: bool)
      modifies this
      ensures ok <==> Bound(codec, old(Value()), root).Some?
      ensures Value() == if ok then Bound(codec, old(Value()), root).value else old(Value())
    {
      hide Canonical, Decode;
      var config := DecodeBytes(codec, bytes);
      if config == None {
        return false;
      }
      if ROOT_KEY in config.value.values {
        var bound := TryFrom(config.value.values[ROOT_KEY := [Hex(root)]]);
        if bound == None {
          return false;
        }
        bytes := Compressed(codec, bound.value);
      }
      this.root := Some(root);
      return true;
    }
  }
}
