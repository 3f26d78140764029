/**
  The canonical form of a native boot configuration: normalisation, the node
  limit and the deterministic printer. Printing then parsing is the identity.
  */
module BootConfig {
  import opened Wrappers
  import opened Orders
  import opened BootText
  import opened Strings
  import opened BootArena
  import opened BootGrammar
  import BootSyntax
  import BootParser

  datatype Config = Config(values: Values, text: string)

  /** The quote a value is printed in; None prints it bare. */
  function QuoteOf(value: string): Option<char> {
    if '"' !in value then Some('"') else if '\'' !in value then Some('\'') else None
  }

  predicate BareSafe(value: string) {
    && (forall c <- value :: !Delimiter(c))
    && (value != "" ==> !Space(value[0]) && !Quote(value[0]) && !Space(value[|value| - 1]))
  }

  predicate Encodable(value: string) {
    Printable(value) && (QuoteOf(value).Some? || BareSafe(value))
  }

  function Encode(value: string): (r: Option<string>)
    ensures r.Some? <==> Encodable(value)
  {
    if !Printable(value) then None
    else match QuoteOf(value)
      case Some(quote) => Some([quote] + (value + [quote]))
      case None => if BareSafe(value) then Some(value) else None
  }

  /** All keys that some other key extends. */
  ghost function Parents(values: Values): set<string> {
    set key, parent | key in values && parent in Ancestors(key) :: parent
  }

  ghost function AllNodes(values: Values): set<string> {
    set key, node | key in values && node in Nodes(key) :: node
  }

  ghost function Normalised(values: Values): Values {
    map key | key in values && (values[key] != [] || key !in Parents(values)) :: values[key]
  }

  ghost function Keys(values: Values): (keys: seq<string>)
    ensures forall key :: key in keys <==> key in values
    ensures Ascending(StringLess, keys)
  {
    StringOrder();
    Sorted(StringLess, values.Keys)
  }

  /** The values a configuration can hold. */
  ghost predicate Representable(values: Values) {
    && (forall key <- values :: ValidKey(key))
    && |AllNodes(values)| + Live(values, values.Keys) <= MAX_NODES
    && (forall key <- values :: forall value <- values[key] :: Encodable(value))
  }

  function ItemsText(items: seq<string>): string
    requires forall item <- items :: Encodable(item)
  {
    if items == [] then ""
    else if |items| == 1 then Encode(items[0]).value
    else Encode(items[0]).value + ", " + ItemsText(items[1..])
  }

  function EntryText(key: string, items: seq<string>): string
    requires forall item <- items :: Encodable(item)
  {
    if items == [] then key + ";\n" else key + " = " + ItemsText(items) + ";\n"
  }

  function EntriesText(keys: seq<string>, values: Values): string
    requires forall key <- keys :: key in values
    requires forall key <- keys :: forall value <- values[key] :: Encodable(value)
  {
    if keys == [] then ""
    else EntryText(keys[0], values[keys[0]]) + EntriesText(keys[1..], values)
  }

  /** The canonical text: one line per key in ascending order. */
  ghost function Print(values: Values): string
    requires forall key <- values :: forall value <- values[key] :: Encodable(value)
  {
    EntriesText(Keys(values), values)
  }

  ghost function Canonical(values: Values): Option<Config> {
    if Representable(values) then
      var normal := Normalised(values);
      Some(Config(normal, Print(normal)))
    else None
  }

  ghost function FromText(text: string): Option<Config> {
    var a :- BootSyntax.Parse(text);
    Canonical(a.values)
  }

  // ---- The printed text is the written form of a tree ----

  function ItemLiteral(lead: string, item: string): Literal {
    match QuoteOf(item)
    case Some(quote) => Quoted(lead, quote, item, "")
    case None => Plain(lead, item, "")
  }

  function ItemsList(lead: string, items: seq<string>): List
    requires items != []
    decreases |items|
  {
    if |items| == 1 then Last(ItemLiteral(lead, items[0]))
    else More(ItemLiteral(lead, items[0]), [White(' ')], ItemsList("", items[1..]))
  }

  function EntriesScript(keys: seq<string>, values: Values): Script
    requires forall key <- keys :: key in values
  {
    if keys == [] then End
    else
      var key, items := keys[0], values[keys[0]];
      var next := Break(';', Break('\n', EntriesScript(keys[1..], values)));
      if items == [] then Bare(key, "", next) else Assign(key, " ", Set, ItemsList(" ", items), next)
  }

  lemma LiteralPrinted(lead: string, item: string)
    requires Encodable(item)
    ensures LiteralText(ItemLiteral(lead, item)) == lead + Encode(item).value
  {
    if QuoteOf(item).None? {
      assert item + "" == item;
    } else {
      var quote := [QuoteOf(item).value];
      assert quote + "" == quote;
    }
  }

  lemma LiteralPrintedFits(lead: string, item: string, after: string)
    requires Encodable(item) && All(lead, Blank) && after != "" && Delimiter(after[0])
    ensures LiteralFits(ItemLiteral(lead, item), after)
  {
  }

  lemma {:induction false} ItemsPrinted(lead: string, items: seq<string>, after: string)
    requires items != [] && (forall item <- items :: Encodable(item)) && All(lead, Blank)
    requires after != "" && Delimiter(after[0]) && after[0] != ','
    ensures ListText(ItemsList(lead, items)) == lead + ItemsText(items)
    ensures Items(ItemsList(lead, items)) == items
    ensures ListFits(ItemsList(lead, items), after)
    decreases |items|
  {
    hide LiteralText, LiteralFits, Encode;
    assert items[0] in items;
    LiteralPrinted(lead, items[0]);
    if |items| == 1 {
      LiteralPrintedFits(lead, items[0], after);
      assert items == [items[0]];
    } else {
      LiteralPrintedFits(lead, items[0], ",");
      var rest := items[1..];
      ItemsPrinted("", rest, after);
      assert "" + ItemsText(rest) == ItemsText(rest);
      assert items == [items[0]] + rest;
      SpacePrinted(rest, after);
      MorePrinted(lead, Encode(items[0]).value, ItemsText(rest));
    }
  }

  lemma MorePrinted(lead: string, first: string, rest: string)
    ensures (lead + first) + ("," + (GapText([White(' ')]) + rest)) == lead + (first + ", " + rest)
  {
    assert GapText([White(' ')]) == " ";
    assert "," + (" " + rest) == ", " + rest;
    Assoc(first, ", ", rest);
    Assoc(lead, first, ", " + rest);
  }

  /** After the space that follows a comma comes the value itself. */
  lemma SpacePrinted(items: seq<string>, after: string)
    requires items != [] && forall item <- items :: Encodable(item)
    ensures var tail := ItemsText(items) + after;
      GapFits([White(' ')], tail) && Stops(tail, Space) && (tail != "" ==> tail[0] != '#')
  {
    assert items[0] in items;
    var first := Encode(items[0]).value;
    assert first != "" && !Space(first[0]) && first[0] != '#' by {
      if QuoteOf(items[0]).None? {
        assert items[0] != "" && items[0][0] in items[0];
      }
    }
    assert (ItemsText(items) + after)[0] == first[0];
  }

  lemma {:induction false} EntriesPrinted(keys: seq<string>, values: Values)
    requires forall key <- keys :: key in values && ValidKey(key)
    requires forall key <- keys :: forall value <- values[key] :: Encodable(value)
    ensures Text(EntriesScript(keys, values)) == EntriesText(keys, values)
    ensures Fits(EntriesScript(keys, values), "")
  {
    hide ItemsText, ItemsList, ListText, ListFits, ValidKey;
    if keys != [] {
      var key := keys[0];
      var items, rest := values[key], EntriesText(keys[1..], values);
      EntriesPrinted(keys[1..], values);
      assert key in keys;
      ValidKeyChars(key);
      var tail := ";" + ("\n" + rest);
      var next := Break(';', Break('\n', EntriesScript(keys[1..], values)));
      assert Text(next) == tail && tail + "" == tail && tail[0] == ';';
      assert Fits(next, "");
      assert ";\n" + rest == tail;
      hide Text, Fits;
      if items == [] {
        BarePrinted(key, next, tail, rest);
      } else {
        ItemsPrinted(" ", items, tail);
        AssignPrinted(key, ItemsText(items), rest);
        SetPrinted(key, ItemsList(" ", items), next, tail);
      }
    }
  }

  lemma BarePrinted(key: string, next: Script, tail: string, rest: string)
    requires Text(next) == tail == ";\n" + rest && Fits(next, "") && key != "" && All(key, KeyChar)
    ensures Text(Bare(key, "", next)) == (key + ";\n") + rest && Fits(Bare(key, "", next), "")
  {
    Assoc(key, ";\n", rest);
    assert "" + tail == tail && tail + "" == tail && tail[0] == ';';
  }

  lemma SetPrinted(key: string, list: List, next: Script, tail: string)
    requires Text(next) == tail && Fits(next, "") && key != "" && All(key, KeyChar) && ListFits(list, tail)
    ensures Text(Assign(key, " ", Set, list, next)) == key + (" " + ("=" + (ListText(list) + tail)))
    ensures Fits(Assign(key, " ", Set, list, next), "")
  {
    hide ListText, ListFits;
    assert tail + "" == tail;
  }

  lemma AssignPrinted(key: string, items: string, rest: string)
    ensures key + (" " + ("=" + ((" " + items) + (";" + ("\n" + rest))))) == (key + " = " + items + ";\n") + rest
  {
    assert ";" + ("\n" + rest) == ";\n" + rest;
    Assoc(" ", items, ";\n" + rest);
    assert " " + ("=" + (" " + (items + (";\n" + rest)))) == " = " + (items + (";\n" + rest));
    Assoc(items, ";\n", rest);
    Assoc(" = ", items, ";\n");
    Assoc(" = ", items + ";\n", rest);
    Assoc(key, " = ", items);
    Assoc(key + " = ", items, ";\n");
    Assoc(key, " = ", items + ";\n");
    Assoc(key, " = " + (items + ";\n"), rest);
  }

  // ---- What the printed tree means ----

  ghost function Only(keys: seq<string>, values: Values): Values
    requires forall key <- keys :: key in values
  {
    map key | key in keys :: values[key]
  }

  ghost function Total(keys: seq<string>, values: Values): nat
    requires forall key <- keys :: key in values
  {
    if keys == [] then 0 else |values[keys[0]]| + Total(keys[1..], values)
  }

  lemma {:induction false} TotalLive(keys: seq<string>, values: Values)
    requires (forall key <- keys :: key in values) && Distinct(keys)
    ensures Total(keys, values) == Live(values, set key | key in keys)
  {
    if keys != [] {
      var all := set key | key in keys;
      LiveRemove(values, all, keys[0]);
      assert all - {keys[0]} == set key | key in keys[1..];
      TotalLive(keys[1..], values);
    }
  }

  lemma EntriesSteps(keys: seq<string>, values: Values)
    requires keys != [] && forall key <- keys :: key in values
    requires forall value <- values[keys[0]] :: Encodable(value)
    ensures Steps(EntriesScript(keys, values), "") ==
            EntrySteps(keys[0], values[keys[0]]) + Steps(EntriesScript(keys[1..], values), "")
  {
    hide ItemsList;
    var more := EntriesScript(keys[1..], values);
    assert Steps(Break(';', Break('\n', more)), "") == Steps(more, "");
    if values[keys[0]] != [] {
      ItemsPrinted(" ", values[keys[0]], ";");
    }
  }

  /** Declaring fresh keys one by one stores exactly their values, within the node budget. */
  lemma {:induction false} EntriesFold(keys: seq<string>, values: Values, a: Arena, nodes: set<string>)
    requires (forall key <- keys :: key in values && key !in a.values && ValidKey(key)) && Distinct(keys)
    requires forall key <- keys :: forall value <- values[key] :: Encodable(value)
    requires a.keys <= nodes && (forall key <- keys :: Nodes(key) <= nodes)
    requires |nodes| + a.allocations + Total(keys, values) <= MAX_NODES
    ensures Fold(Steps(EntriesScript(keys, values), ""), a).Some?
    ensures Fold(Steps(EntriesScript(keys, values), ""), a).value.values == a.values + Only(keys, values)
  {
    hide ValidKey, Encodable, EntriesScript, EntrySteps, Apply, Steps, Fold, Only, Nodes;
    if keys == [] {
      EmptySteps(values, a);
    } else {
      var key := keys[0];
      var items, rest := values[key], Steps(EntriesScript(keys[1..], values), "");
      assert key in keys;
      EntryFold(key, items, rest, a, nodes);
      EntriesSteps(keys, values);
      var c := Entered(key, items, a);
      EntriesFold(keys[1..], values, c, nodes);
      OnlyStep(keys, values, a.values);
    }
  }

  lemma OnlyStep(keys: seq<string>, values: Values, base: Values)
    requires keys != [] && forall key <- keys :: key in values && key !in base
    requires Distinct(keys)
    ensures base + Only(keys, values) == base[keys[0] := values[keys[0]]] + Only(keys[1..], values)
  {
    assert keys == [keys[0]] + keys[1..];
  }

  lemma EmptySteps(values: Values, a: Arena)
    ensures Fold(Steps(EntriesScript([], values), ""), a) == Some(a)
    ensures a.values + Only([], values) == a.values
  {
  }

  /** The state after a fresh key has been given its values. */
  ghost function Entered(key: string, items: seq<string>, a: Arena): Arena {
    Arena(a.values[key := items], a.keys + Nodes(key), a.allocations + |items|)
  }

  function EntrySteps(key: string, items: seq<string>): seq<Step> {
    if items == [] then [Declare(key)] else [Declare(key), Write(key, Set, items)]
  }

  lemma EntryFold(key: string, items: seq<string>, rest: seq<Step>, a: Arena, nodes: set<string>)
    requires ValidKey(key) && key !in a.values && a.keys <= nodes && Nodes(key) <= nodes
    requires |nodes| + a.allocations + |items| <= MAX_NODES
    ensures Fold(EntrySteps(key, items) + rest, a) == Fold(rest, Entered(key, items, a))
  {
    hide ValidKey, Fold, Nodes;
    var b := Arena(a.values[key := []], a.keys + Nodes(key), a.allocations);
    SubsetSize(b.keys, nodes);
    if items == [] {
      FoldCons(Declare(key), rest, a);
    } else {
      var write := Write(key, Set, items);
      assert EntrySteps(key, items) + rest == [Declare(key)] + ([write] + rest);
      FoldCons(Declare(key), [write] + rest, a);
      FoldCons(write, rest, b);
      assert b.values[key := items] == a.values[key := items];
    }
  }

  lemma SubsetSize<T>(small: set<T>, large: set<T>)
    requires small <= large
    ensures |small| <= |large|
  {
    if small != {} {
      var x :| x in small;
      SubsetSize(small - {x}, large - {x});
    }
  }

  // ---- Printing then parsing is the identity ----

  lemma PrintedText(values: Values)
    requires Representable(values)
    ensures '\0' !in Print(values) && (Print(values) == "" <==> values == map[])
  {
    var keys := Keys(values);
    EntriesTextChars(keys, values);
    assert keys == [] ==> values == map[];
    assert keys != [] ==> keys[0] in values;
  }

  lemma {:induction false} ItemsTextChars(items: seq<string>)
    requires forall item <- items :: Encodable(item)
    ensures '\0' !in ItemsText(items)
    decreases |items|
  {
    if items != [] {
      assert items[0] in items;
      if |items| > 1 {
        ItemsTextChars(items[1..]);
      }
    }
  }

  lemma {:induction false} EntriesTextChars(keys: seq<string>, values: Values)
    requires forall key <- keys :: key in values && ValidKey(key)
    requires forall key <- keys :: forall value <- values[key] :: Encodable(value)
    ensures '\0' !in EntriesText(keys, values) && (keys != [] ==> EntriesText(keys, values) != "")
  {
    hide ValidKey, Encodable, ItemsText;
    if keys != [] {
      assert keys[0] in keys;
      ValidKeyChars(keys[0]);
      ItemsTextChars(values[keys[0]]);
      EntriesTextChars(keys[1..], values);
    }
  }

  /** Any representable map, bare parents included, is what its printed form parses to. */
  lemma PrintParses(values: Values)
    requires Representable(values)
    ensures BootSyntax.Parse(Print(values)).Some?
    ensures BootSyntax.Parse(Print(values)).value.values == values
  {
    hide BootSyntax.Parse, EntriesScript, EntriesText, Fold, Steps, Text, Fits;
    var keys := Keys(values);
    var script := EntriesScript(keys, values);
    EntriesPrinted(keys, values);
    Flattens(script, Print(values));
    PrintedText(values);
    KeysFold(values);
  }

  lemma KeysFold(values: Values)
    requires Representable(values)
    ensures Fold(Steps(EntriesScript(Keys(values), values), ""), EMPTY).Some?
    ensures Fold(Steps(EntriesScript(Keys(values), values), ""), EMPTY).value.values == values
  {
    hide EntriesScript, Fold, Steps, Encodable, ValidKey, Nodes, Live, Total, Only;
    var keys := Keys(values);
    KeysDistinct(values);
    OnlyAll(keys, values);
    TotalLive(keys, values);
    EntriesFold(keys, values, EMPTY, AllNodes(values));
  }

  lemma OnlyAll(keys: seq<string>, values: Values)
    requires forall key :: key in keys <==> key in values
    ensures map[] + Only(keys, values) == values
    ensures values.Keys == set key | key in keys
  {
  }

  lemma KeysDistinct(values: Values)
    ensures Distinct(Keys(values))
  {
    StringOrder();
  }

  lemma NormalisedParents(values: Values)
    ensures Parents(Normalised(values)) <= Parents(values)
    ensures Normalised(Normalised(values)) == Normalised(values)
  {
  }

  lemma {:induction false} LiveShrinks(small: Values, large: Values)
    requires small.Keys <= large.Keys && forall key <- small :: small[key] == large[key]
    ensures Live(small, small.Keys) <= Live(large, large.Keys)
  {
    LiveAgree(small, large, small.Keys);
    LiveSubset(large, small.Keys, large.Keys);
  }

  lemma {:induction false} LiveSubset(values: Values, small: set<string>, large: set<string>)
    requires small <= large <= values.Keys
    ensures Live(values, small) <= Live(values, large)
  {
    if small != {} {
      var key :| key in small;
      LiveRemove(values, small, key);
      LiveRemove(values, large, key);
      LiveSubset(values, small - {key}, large - {key});
    }
  }

  lemma NormalisedRepresentable(values: Values)
    requires Representable(values)
    ensures Representable(Normalised(values))
  {
    var normal := Normalised(values);
    LiveShrinks(normal, values);
    SubsetSize(AllNodes(normal), AllNodes(values));
  }

  /**
    For every map that can be a configuration, its canonical text parses back
    to exactly the normalised map and prints as the same text again.
    */
  lemma RoundTrip(values: Values)
    requires Representable(values)
    ensures FromText(Print(Normalised(values))) == Canonical(values)
    ensures Canonical(values) == Some(Config(Normalised(values), Print(Normalised(values))))
  {
    NormalisedRepresentable(values);
    NormalisedParents(values);
    PrintParses(Normalised(values));
    hide Representable, Print;
  }

  /** Every text that is accepted is a fixed point of printing then parsing. */
  lemma AcceptedRoundTrip(text: string)
    requires FromText(text).Some?
    ensures FromText(FromText(text).value.text) == FromText(text)
  {
    RoundTrip(BootSyntax.Parse(text).value.values);
  }

  // ---- The constructor and printer ----

  /** Print one value list. */
  method PushItems(items: seq<string>) returns (text: Option<string>)
    ensures text.Some? <==> forall item <- items :: Encodable(item)
    ensures text.Some? ==> text.value == ItemsText(items)
  {
    hide Encodable, Encode, ItemsText, ItemsRest;
    var out := "";
    ghost var all := forall item <- items :: Encodable(item);
    ItemsStart(items);
    for i := 0 to |items|
      invariant forall item <- items[..i] :: Encodable(item)
      invariant all ==> ItemsText(items) == out + ItemsRest(items, i)
    {
      var separator := if i != 0 then ", " else "";
      var encoded := Encode(items[i]);
      assert items[i] in items;
      if encoded == None {
        return None;
      }
      if all {
        ItemsStep(items, i, out, encoded.value);
      }
      out := out + separator + encoded.value;
      assert items[..i + 1] == items[..i] + [items[i]];
    }
    assert items[..|items|] == items;
    ItemsEnd(items, out);
    return Some(out);
  }

  /** What is still to be printed when `i` values have been. */
  ghost function ItemsRest(items: seq<string>, i: nat): string
    requires i <= |items| && forall item <- items :: Encodable(item)
  {
    if i == |items| then "" else if i == 0 then ItemsText(items) else ", " + ItemsText(items[i..])
  }

  lemma ItemsStart(items: seq<string>)
    ensures (forall item <- items :: Encodable(item)) ==> ItemsText(items) == "" + ItemsRest(items, 0)
  {
  }

  lemma ItemsEnd(items: seq<string>, out: string)
    requires forall item <- items :: Encodable(item)
    ensures out + ItemsRest(items, |items|) == out
  {
  }

  lemma ItemsStep(items: seq<string>, i: nat, out: string, encoded: string)
    requires i < |items| && forall item <- items :: Encodable(item)
    requires Encode(items[i]) == Some(encoded)
    ensures out + ItemsRest(items, i) == (out + (if i != 0 then ", " else "") + encoded) + ItemsRest(items, i + 1)
  {
    hide Encodable, Encode;
    var separator, rest := if i != 0 then ", " else "", ItemsRest(items, i + 1);
    assert items[i..][1..] == items[i + 1..] && items[i..][0] == items[i];
    assert ItemsRest(items, i) == separator + (encoded + rest);
    Assoc(out, separator, encoded + rest);
    Assoc(out + separator, encoded, rest);
  }

  lemma CanonicalCases(values: Values)
    ensures
      Canonical(values) ==
      var normal := Normalised(values);
      if && (forall key <- values :: ValidKey(key))
         && |AllNodes(values)| + Live(values, values.Keys) <= MAX_NODES
         && (forall key <- normal :: forall value <- normal[key] :: Encodable(value))
      then Some(Config(normal, Print(normal)))
      else None
  {
    hide Encodable, ValidKey, EntriesText, Nodes, AllNodes, Print;
    assert forall key <- values :: key in Normalised(values) || values[key] == [];
  }

  /** Count and check the entries; keep the bare keys that no other key extends; print. */
  method TryFrom(values: Values) returns (config: Option<Config>)
    ensures config == Canonical(values)
  {
    hide Encodable, ValidKey, EntriesText, Nodes, Print, Canonical;
    var parents: set<string>, nodes: set<string>, count := {}, {}, 0;
    var todo := values.Keys;
    while todo != {}
      invariant todo <= values.Keys
      invariant forall key <- values.Keys - todo :: ValidKey(key)
      invariant parents == set key, parent | key in values.Keys - todo && parent in Ancestors(key) :: parent
      invariant nodes == set key, node | key in values.Keys - todo && node in Nodes(key) :: node
      invariant count + Live(values, todo) == Live(values, values.Keys)
    {
      var key :| key in todo;
      if !ValidKey(key) {
        CanonicalCases(values);
        return None;
      }
      LiveRemove(values, todo, key);
      assert values.Keys - (todo - {key}) == values.Keys - todo + {key};
      parents := parents + Ancestors(key);
      nodes := nodes + Nodes(key);
      count := count + |values[key]|;
      todo := todo - {key};
    }
    assert parents == Parents(values) && nodes == AllNodes(values);
    CanonicalCases(values);
    if count + |nodes| > MAX_NODES {
      return None;
    }
    var normal := map key | key in values && (values[key] != [] || key !in parents) :: values[key];
    assert normal == Normalised(values);
    var text := PushEntries(normal);
    return if text == None then None else Some(Config(normal, text.value));
  }

  lemma KeysCount(values: Values)
    ensures |Keys(values)| == |values.Keys|
  {
    StringOrder();
    SortedUnique(StringLess, Keys(values), Sorted(StringLess, values.Keys));
  }

  /** The least of a set of keys. */
  method FirstKey(keys: set<string>) returns (key: string)
    requires keys != {}
    ensures key in keys && IsLeast(StringLess, key, keys)
  {
    StringOrder();
    hide StringLess;
    ghost var least := LeastExists(StringLess, keys);
    key :| key in keys && forall other <- keys :: other == key || StringLess(key, other);
  }

  /** Print one line. */
  method PushEntry(key: string, items: seq<string>) returns (text: Option<string>)
    ensures text.Some? <==> Quotable(items)
    ensures text.Some? ==> text.value == EntryText(key, items)
  {
    hide Encodable, ItemsText;
    var list := PushItems(items);
    if list == None {
      return None;
    }
    return Some(if items == [] then key + ";\n" else key + " = " + list.value + ";\n");
  }

  predicate Quotable(items: seq<string>) {
    forall item <- items :: Encodable(item)
  }

  /** The lines of the keys, if every value can be quoted. */
  function Lines(keys: seq<string>, values: Values): Option<string>
    requires forall key <- keys :: key in values
  {
    if keys == [] then Some("")
    else if !Quotable(values[keys[0]]) then None
    else
      var rest :- Lines(keys[1..], values);
      Some(EntryText(keys[0], values[keys[0]]) + rest)
  }

  /** Lines already written, followed by the others. */
  function Written(out: string, rest: Option<string>): Option<string> {
    match rest case None => None case Some(text) => Some(out + text)
  }

  lemma {:induction false} LinesExactly(keys: seq<string>, values: Values)
    requires forall key <- keys :: key in values
    ensures Lines(keys, values).Some? <==> forall key <- keys :: Quotable(values[key])
    ensures Lines(keys, values).Some? ==> Lines(keys, values).value == EntriesText(keys, values)
  {
    hide Encodable, EntryText;
    if keys != [] {
      LinesExactly(keys[1..], values);
      assert forall key <- keys :: key == keys[0] || key in keys[1..];
      assert keys[0] in keys && forall key <- keys[1..] :: key in keys;
    }
  }

  lemma LinesPrint(values: Values)
    ensures Lines(Keys(values), values).Some? <==> forall key <- values :: forall value <- values[key] :: Encodable(value)
    ensures Lines(Keys(values), values).Some? ==> Lines(Keys(values), values).value == Print(values)
  {
    hide Encodable, EntriesText, Lines;
    LinesExactly(Keys(values), values);
  }

  lemma LinesStep(keys: seq<string>, i: nat, values: Values, out: string)
    requires i < |keys| && forall key <- keys :: key in values
    ensures Written(out, Lines(keys[i..], values)) ==
            if !Quotable(values[keys[i]]) then None
            else Written(out + EntryText(keys[i], values[keys[i]]), Lines(keys[i + 1..], values))
  {
    hide Encodable, EntryText;
    assert keys[i..][1..] == keys[i + 1..] && keys[i..][0] == keys[i];
    var rest := Lines(keys[i + 1..], values);
    if Quotable(values[keys[i]]) && rest.Some? {
      Assoc(out, EntryText(keys[i], values[keys[i]]), rest.value);
    }
  }

  lemma LinesEnds(keys: seq<string>, values: Values, out: string)
    requires forall key <- keys :: key in values
    ensures keys[0..] == keys && Written("", Lines(keys, values)) == Lines(keys, values)
    ensures Written(out, Lines(keys[|keys|..], values)) == Some(out)
  {
    assert keys[|keys|..] == [] && out + "" == out;
    if Lines(keys, values).Some? {
      assert "" + Lines(keys, values).value == Lines(keys, values).value;
    }
  }

  /** Print the entries in ascending key order. */
  method PushEntries(values: Values) returns (text: Option<string>)
    ensures text.Some? <==> forall key <- values :: forall value <- values[key] :: Encodable(value)
    ensures text.Some? ==> text.value == Print(values)
  {
    hide Encodable, EntryText, Lines, Written, Quotable, StringLess, Ascending, IsLeast, Print, From;
    ghost var keys := Keys(values);
    KeysCount(values);
    FromStart(values);
    LinesPrint(values);
    var out, todo := "", values.Keys;
    ghost var i := 0;
    LinesEnds(keys, values, out);
    while todo != {}
      invariant i <= |keys| && |todo| == |keys| - i && todo == From(keys, i)
      invariant Lines(keys, values) == Written(out, Lines(keys[i..], values))
      decreases |keys| - i
    {
      var key := FirstKey(todo);
      LeastIsNext(keys, i, key);
      LinesStep(keys, i, values, out);
      var entry := PushEntry(key, values[key]);
      if entry == None {
        return None;
      }
      out := out + entry.value;
      todo := todo - {key};
      i := i + 1;
    }
    LinesEnds(keys, values, out);
    return Some(out);
  }

  ghost function From(keys: seq<string>, i: nat): set<string>
    requires i <= |keys|
  {
    set key | key in keys[i..]
  }

  /** In an ascending sequence the next key is the least of those left. */
  lemma LeastIsNext(keys: seq<string>, i: nat, key: string)
    requires i < |keys| && Ascending(StringLess, keys) && IsLeast(StringLess, key, From(keys, i))
    ensures key == keys[i] && From(keys, i) - {key} == From(keys, i + 1)
  {
    hide StringLess;
    StringOrder();
    LeastOfTail(StringLess, keys, i, key);
    AscendingTail(keys, i);
  }

  lemma AscendingTail(keys: seq<string>, i: nat)
    requires i < |keys| && Ascending(StringLess, keys) && StrictOrder(StringLess)
    ensures From(keys, i) - {keys[i]} == From(keys, i + 1)
  {
    hide StringLess;
    assert keys[i..] == [keys[i]] + keys[i + 1..];
    forall j | i < j < |keys|
      ensures keys[j] != keys[i]
    {
      Asymmetric(StringLess, keys[i], keys[j]);
    }
  }

  lemma FromStart(values: Values)
    ensures From(Keys(values), 0) == values.Keys
  {
    assert Keys(values)[0..] == Keys(values);
  }

  /** Parse, then canonicalise. */
  method FromStr(text: string) returns (config: Option<Config>)
    ensures config == FromText(text)
  {
    hide Canonical, BootSyntax.Parse;
    var values := BootParser.Parse(text);
    if values == None {
      return None;
    }
    config := TryFrom(values.value);
  }

  // ---- What parsed configurations can be printed ----

  /** The map a text parses to always satisfies the constructor's node limit. */
  lemma ParsedWithinLimit(text: string)
    requires BootSyntax.Parse(text).Some?
    ensures
      var values := BootSyntax.Parse(text).value.values;
      && (forall key <- values :: ValidKey(key))
      && |AllNodes(values)| + Live(values, values.Keys) <= MAX_NODES
  {
    hide BootSyntax.Parse, Fold, Steps, Text, Nodes, ValidKey;
    var a := BootSyntax.Parse(text).value;
    ParsesExactly(text, a);
    var script :| WrittenAs(script, text) && Meaning(script) == Some(a);
    FoldAccounted(Steps(script, ""), EMPTY);
    SubsetSize(AllNodes(a.values), a.keys);
  }

  /** The last value of a file, when nothing follows it. */
  function FinalValue(script: Script): Option<Literal> {
    match script
    case End => None
    case Break(_, next) => FinalValue(next)
    case Note(_, next) => FinalValue(next)
    case Bare(_, _, next) => FinalValue(next)
    case Group(_, _, _, next) => FinalValue(next)
    case Assign(_, _, _, list, next) => if next == End then Some(LastLiteral(list)) else FinalValue(next)
  }

  function LastLiteral(list: List): Literal {
    match list case Last(item) => item case More(_, _, rest) => LastLiteral(rest)
  }

  /** An unquoted value that needs quoting but contains both quotes. */
  predicate Awkward(literal: Literal) {
    var body := literal.body;
    literal.Plain? && '"' in body && '\'' in body && body != "" && Space(body[|body| - 1])
  }

  predicate EndsAwkwardly(script: Script) {
    FinalValue(script).Some? && Awkward(FinalValue(script).value)
  }

  lemma LiteralEncodable(literal: Literal, after: string)
    requires LiteralFits(literal, after)
    ensures Encodable(literal.body) <==> !(after == "" && Awkward(literal))
  {
  }

  ghost predicate AllEncodable(values: Values) {
    forall key <- values :: forall value <- values[key] :: Encodable(value)
  }

  ghost predicate WritesEncodable(steps: seq<Step>) {
    forall step <- steps :: step.Write? ==> forall item <- step.items :: Encodable(item)
  }

  lemma {:induction false} ListEncodable(list: List, after: string)
    requires ListFits(list, after) && !(after == "" && Awkward(LastLiteral(list)))
    ensures forall item <- Items(list) :: Encodable(item)
  {
    hide LiteralFits, Encodable, Awkward;
    match list
    case Last(item) => LiteralEncodable(item, after);
    case More(item, _, rest) =>
      LiteralEncodable(item, ",");
      ListEncodable(rest, after);
  }

  lemma {:induction false} ScriptEncodable(script: Script, prefix: string, after: string)
    requires Fits(script, after) && !(after == "" && EndsAwkwardly(script))
    ensures WritesEncodable(Steps(script, prefix))
  {
    hide ListFits, Encodable, Awkward;
    match script
    case End =>
    case Break(_, next) => ScriptEncodable(next, prefix, after);
    case Note(_, next) => ScriptEncodable(next, prefix, after);
    case Bare(_, _, next) => ScriptEncodable(next, prefix, after);
    case Group(word, _, body, next) =>
      ScriptEncodable(body, Dotted(prefix, word), "}" + (Text(next) + after));
      ScriptEncodable(next, prefix, after);
    case Assign(_, _, _, list, next) =>
      if next != End {
        TextNonempty(next, after);
      }
      ListEncodable(list, Text(next) + after);
      ScriptEncodable(next, prefix, after);
  }

  lemma TextNonempty(script: Script, after: string)
    requires script != End && Fits(script, after)
    ensures Text(script) != ""
  {
    hide ListFits, ListText;
  }

  lemma {:induction false} FoldEncodable(steps: seq<Step>, a: Arena)
    requires WritesEncodable(steps) && AllEncodable(a.values) && Fold(steps, a).Some?
    ensures AllEncodable(Fold(steps, a).value.values)
  {
    hide Encodable, ValidKey;
    if steps != [] {
      var b := Apply(steps[0], a).value;
      assert steps[0] in steps;
      FoldEncodable(steps[1..], b);
    }
  }

  /** The awkward value is written last, so it is in the final map. */
  lemma {:induction false} ScriptAwkward(script: Script, prefix: string, a: Arena)
    requires EndsAwkwardly(script) && Fold(Steps(script, prefix), a).Some?
    ensures !AllEncodable(Fold(Steps(script, prefix), a).value.values)
  {
    hide Apply;
    match script
    case Break(_, next) => ScriptAwkward(next, prefix, a);
    case Note(_, next) => ScriptAwkward(next, prefix, a);
    case Bare(word, _, next) =>
      FoldCons(Declare(Dotted(prefix, word)), Steps(next, prefix), a);
      ScriptAwkward(next, prefix, Apply(Declare(Dotted(prefix, word)), a).value);
    case Group(word, _, body, next) =>
      var key := Dotted(prefix, word);
      var b := Apply(Declare(key), a).value;
      FoldCons(Declare(key), Steps(body, key) + Steps(next, prefix), a);
      FoldConcat(Steps(body, key), Steps(next, prefix), b);
      ScriptAwkward(next, prefix, Fold(Steps(body, key), b).value);
    case Assign(word, _, op, list, next) =>
      var key := Dotted(prefix, word);
      var write := Write(key, op, Items(list));
      var rest := Steps(next, prefix);
      assert [Declare(key), write] + rest == [Declare(key)] + ([write] + rest);
      FoldCons(Declare(key), [write] + rest, a);
      var b := Apply(Declare(key), a).value;
      FoldCons(write, rest, b);
      if next == End {
        LastItem(list);
        AwkwardNotEncodable(LastLiteral(list));
        WrittenItem(write, b, LastLiteral(list).body);
      } else {
        ScriptAwkward(next, prefix, Apply(write, b).value);
      }
  }

  lemma LastItem(list: List)
    ensures LastLiteral(list).body in Items(list)
  {
  }

  lemma WrittenItem(write: Step, a: Arena, item: string)
    requires write.Write? && item in write.items && Apply(write, a).Some? && !Encodable(item)
    ensures !AllEncodable(Apply(write, a).value.values)
  {
    var values := Apply(write, a).value.values;
    assert write.key in values && item in values[write.key];
  }

  lemma AwkwardNotEncodable(literal: Literal)
    requires Awkward(literal)
    ensures !Encodable(literal.body)
  {
  }

  /**
    Exactly when a text is accepted: its tree has a meaning, and its last value
    is not an unquoted one that ends the text with white space and contains
    both quotes.
    */
  lemma AcceptsExactly(script: Script, text: string)
    requires WrittenAs(script, text)
    ensures FromText(text).Some? <==> Meaning(script).Some? && !EndsAwkwardly(script)
  {
    hide Encodable, Fold, Steps, Fits, Text, BootSyntax.Parse, ValidKey, EndsAwkwardly, AllNodes;
    Flattens(script, text);
    if Meaning(script).Some? {
      ParsedWithinLimit(text);
      if EndsAwkwardly(script) {
        ScriptAwkward(script, "", EMPTY);
      } else {
        ScriptEncodable(script, "", "");
        FoldEncodable(Steps(script, ""), EMPTY);
      }
    }
  }

  predicate EndsInSpace(text: string) {
    text != "" && Space(text[|text| - 1])
  }

  lemma EndsAppend(a: string, b: string)
    requires EndsInSpace(b)
    ensures EndsInSpace(a + b)
  {
  }

  lemma LiteralEnds(literal: Literal)
    requires LiteralFits(literal, "") && Awkward(literal)
    ensures EndsInSpace(LiteralText(literal))
  {
    assert literal.body + literal.trail == literal.body;
    EndsAppend(literal.lead, literal.body);
  }

  lemma {:induction false} ListEnds(list: List)
    requires ListFits(list, "") && Awkward(LastLiteral(list))
    ensures EndsInSpace(ListText(list))
  {
    hide EndsInSpace, LiteralText, Awkward;
    match list
    case Last(item) => LiteralEnds(item);
    case More(item, gap, rest) =>
      ListEnds(rest);
      EndsAppend(GapText(gap), ListText(rest));
      EndsAppend(",", GapText(gap) + ListText(rest));
      EndsAppend(LiteralText(item), "," + (GapText(gap) + ListText(rest)));
  }

  lemma {:induction false} ScriptEnds(script: Script)
    requires Fits(script, "") && EndsAwkwardly(script)
    ensures EndsInSpace(Text(script))
  {
    hide EndsInSpace, ListText, ListFits, Awkward;
    match script
    case Break(c, next) =>
      ScriptEnds(next);
      EndsAppend([c], Text(next));
    case Note(body, next) =>
      ScriptEnds(next);
      EndsAppend(body, Text(next));
      EndsAppend("#", body + Text(next));
    case Bare(word, gap, next) =>
      ScriptEnds(next);
      EndsAppend(gap, Text(next));
      EndsAppend(word, gap + Text(next));
    case Assign(word, gap, op, list, next) =>
      assert "" + "" == "";
      if next == End {
        ListEnds(list);
        assert ListText(list) + "" == ListText(list);
      } else {
        ScriptEnds(next);
        EndsAppend(ListText(list), Text(next));
      }
      EndsAppend(OpText(op), ListText(list) + Text(next));
      EndsAppend(gap, OpText(op) + (ListText(list) + Text(next)));
      EndsAppend(word, gap + (OpText(op) + (ListText(list) + Text(next))));
    case Group(word, gap, body, next) =>
      ScriptEnds(next);
      EndsAppend("}", Text(next));
      EndsAppend(Text(body), "}" + Text(next));
      EndsAppend("{", Text(body) + ("}" + Text(next)));
      EndsAppend(gap, "{" + (Text(body) + ("}" + Text(next))));
      EndsAppend(word, gap + ("{" + (Text(body) + ("}" + Text(next)))));
  }

  /** A parsed text that does not end in white space always has a canonical form. */
  lemma ParsedIsAccepted(text: string)
    requires BootSyntax.Parse(text).Some? && !EndsInSpace(text)
    ensures FromText(text).Some?
  {
    hide Fold, Steps, Fits, Text, BootSyntax.Parse, FromText, EndsAwkwardly, EndsInSpace;
    var a := BootSyntax.Parse(text).value;
    ParsesExactly(text, a);
    var script :| WrittenAs(script, text) && Meaning(script) == Some(a);
    AcceptsExactly(script, text);
    if EndsAwkwardly(script) {
      ScriptEnds(script);
    }
  }

  /** The file `k=a'b"c ` whose value keeps its trailing blank, so cannot be quoted again. */
  const AWKWARD := Assign("k", "", Set, Last(Plain("", "a'b\"c ", "")), End)

  /** Parsing alone would accept it. */
  lemma AwkwardRejected()
    ensures BootSyntax.Parse(Text(AWKWARD)).Some? && FromText(Text(AWKWARD)) == None
  {
    AwkwardFits();
    AwkwardMeaning();
    hide BootSyntax.Parse, Fits, Meaning, FromText;
    AcceptsExactly(AWKWARD, Text(AWKWARD));
    Flattens(AWKWARD, Text(AWKWARD));
  }

  lemma AwkwardLiteral(item: Literal)
    requires item == Plain("", "a'b\"c ", "")
    ensures LiteralText(item) == "a'b\"c " && LiteralFits(item, "")
  {
    assert item.body + "" == item.body;
    assert "" + item.body == item.body;
  }

  lemma AwkwardText()
    ensures Text(AWKWARD) == "k=a'b\"c " && '\0' !in Text(AWKWARD)
  {
    hide LiteralText;
    var item := Plain("", "a'b\"c ", "");
    AwkwardLiteral(item);
    assert ListText(Last(item)) + Text(End) == item.body;
    assert Text(AWKWARD) == "k" + ("" + ("=" + (ListText(Last(item)) + Text(End))));
    assert "k" + ("" + ("=" + "a'b\"c ")) == "k=a'b\"c ";
  }

  lemma AwkwardFits()
    ensures Fits(AWKWARD, "")
  {
    var item := Plain("", "a'b\"c ", "");
    AwkwardLiteral(item);
    hide LiteralText, LiteralFits;
    assert ListFits(Last(item), "") && WordFits("k", "");
    assert Text(End) + "" == "";
  }

  lemma AwkwardKey()
    ensures ValidKey("k") && Nodes("k") == {"k"}
  {
    assert "k"[1..] == "" && Split("", '.') == [""];
    assert Split("k", '.') == Extend('k', [""], '.') == [['k'] + ""];
    assert ['k'] + "" == "k";
  }

  lemma AwkwardMeaning()
    ensures Meaning(AWKWARD).Some?
  {
    var write := Write("k", Set, ["a'b\"c "]);
    assert '\0' !in Text(AWKWARD) by { AwkwardText(); }
    assert Steps(AWKWARD, "") == [Declare("k"), write];
    AwkwardKey();
    hide ValidKey, Nodes, Text, Steps;
    var a := Arena(map["k" := []], {"k"}, 0);
    assert Apply(Declare("k"), EMPTY) == Some(a);
    assert Apply(write, a).Some? && "k" in Apply(write, a).value.values;
    hide Apply;
    assert [Declare("k"), write][1..] == [write] && [write][1..] == [];
  }
}
