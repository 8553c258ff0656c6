/**
 The structured rate-limit headers: a list parser and the choice of the policy that throttles first.
 */
module RateLimits {
  import opened Folding
  import opened Json
  import opened Sequences
  import opened Text

  /** One member of a structured-field list. */
  datatype Item = Item(name: string, params: map<string, string>)

  // ----- parsing -----

  /** Lower-casing, rune by rune: the usual one on ASCII, and done in one go. */
  ghost predicate IsLowerCase(f: char -> char) {
    && (forall c | c < '\U{80}' :: f(c) == AsciiLower(c))
    && (forall c :: f(f(c)) == f(c))
  }

  type LowerCase = f: char -> char | IsLowerCase(f) witness AsciiLower

  // Left open beyond ASCII: everything below holds for every such lower-casing, Unicode's among them.
  const LOWER: LowerCase

  function ToLower(s: string): string {
    seq(|s|, i requires 0 <= i < |s| => LOWER(s[i]))
  }

  lemma ToLowerIsIdempotent(s: string)
    ensures ToLower(ToLower(s)) == ToLower(s)
  {
    assert IsLowerCase(LOWER);
  }

  /** What one parameter adds to those before it; the same key again replaces the value. */
  function AddParam(params: map<string, string>, part: string): map<string, string> {
    match Cut(TrimSpace(part), '=')
    case None => params
    case Some((key, val)) => params[ToLower(key) := Trim(val, '"')]
  }

  function Params(parts: seq<string>): map<string, string> {
    if parts == [] then map[] else AddParam(Params(parts[..|parts| - 1]), parts[|parts| - 1])
  }

  function ItemName(part: string): string {
    Trim(TrimSpace(part), '"')
  }

  function ParseMember(member: string): Option<Item> {
    var parts := Split(member, ';');
    if ItemName(parts[0]) == "" then None else Some(Item(ItemName(parts[0]), Params(parts[1..])))
  }

  function ParseMembers(members: seq<string>): seq<Item> {
    FilterMap(members, ParseMember)
  }

  /** The items of all header values, in order. */
  function ParseList(values: seq<string>): seq<Item> {
    if values == [] then []
    else ParseList(values[..|values| - 1]) + ParseMembers(Split(values[|values| - 1], ','))
  }

  method ParseStructuredList(values: seq<string>) returns (items: seq<Item>)
    ensures items == ParseList(values)
  {
    hide Split, Trim, TrimSpace, Params;
    items := [];
    for i := 0 to |values|
      invariant items == ParseList(values[..i])
    {
      assert values[..i + 1][..i] == values[..i];
      var members := Split(values[i], ',');
      for j := 0 to |members|
        invariant items == ParseList(values[..i]) + ParseMembers(members[..j])
      {
        assert members[..j + 1][..j] == members[..j];
        var parts := Split(members[j], ';');
        var name := Trim(TrimSpace(parts[0]), '"');
        if name == "" {
          continue;
        }
        var params := ParseParams(parts[1..]);
        items := items + [Item(name, params)];
      }
      assert members[..|members|] == members;
    }
    assert values[..|values|] == values;
  }

  method ParseParams(parts: seq<string>) returns (params: map<string, string>)
    ensures params == Params(parts)
  {
    params := map[];
    for i := 0 to |parts|
      invariant params == Params(parts[..i])
    {
      assert parts[..i + 1][..i] == parts[..i];
      var cut := Cut(TrimSpace(parts[i]), '=');
      if cut.Some? {
        params := params[ToLower(cut.value.0) := Trim(cut.value.1, '"')];
      }
    }
    assert parts[..|parts|] == parts;
  }

  /** Parameter keys come out in lower case, whatever the header says. */
  lemma {:induction false} KeysAreLower(values: seq<string>, item: Item, key: string)
    requires item in ParseList(values) && key in item.params
    ensures ToLower(key) == key
  {
    hide ParseMember, ToLower, Split;
    var prefix, last := values[..|values| - 1], values[|values| - 1];
    if item in ParseList(prefix) {
      KeysAreLower(prefix, item, key);
    } else {
      FilterMapExactly(Split(last, ','), ParseMember, item);
      var member :| member in Split(last, ',') && ParseMember(member) == Some(item);
      MemberKeysAreLower(member, key);
    }
  }

  lemma MemberKeysAreLower(member: string, key: string)
    requires ParseMember(member).Some? && key in ParseMember(member).value.params
    ensures ToLower(key) == key
  {
    ParamKeysAreLower(Split(member, ';')[1..], key);
  }

  lemma {:induction false} ParamKeysAreLower(parts: seq<string>, key: string)
    requires key in Params(parts)
    ensures ToLower(key) == key
  {
    hide ToLower, TrimSpace, Trim;
    var prefix, last := parts[..|parts| - 1], parts[|parts| - 1];
    if key in Params(prefix) {
      ParamKeysAreLower(prefix, key);
    } else {
      ToLowerIsIdempotent(Cut(TrimSpace(last), '=').value.0);
    }
  }

  // ----- splitting the list across header lines -----

  lemma ParseMembersDistribute(a: seq<string>, b: seq<string>)
    ensures ParseMembers(a + b) == ParseMembers(a) + ParseMembers(b)
  {
    FilterMapDistributes(a, b, ParseMember);
  }

  lemma {:induction false} SplitAllAppend(values: seq<string>, value: string, sep: char)
    ensures SplitAll(values + [value], sep) == SplitAll(values, sep) + Split(value, sep)
  {
    hide Split;
    var longer := values + [value];
    if values == [] {
      assert longer == [value] && longer[1..] == [];
    } else {
      SplitAllAppend(values[1..], value, sep);
      assert longer[0] == values[0] && longer[1..] == values[1..] + [value];
      var first, middle, last := Split(values[0], sep), SplitAll(values[1..], sep), Split(value, sep);
      assert first + (middle + last) == first + middle + last;
    }
  }

  lemma {:induction false} ParseListIsFlat(values: seq<string>)
    ensures ParseList(values) == ParseMembers(SplitAll(values, ','))
  {
    hide ParseMembers, Split;
    if values == [] {
      assert ParseMembers([]) == [] by { NoMembers(); }
    } else {
      var prefix, last := values[..|values| - 1], values[|values| - 1];
      ParseListIsFlat(prefix);
      SplitAllAppend(prefix, last, ',');
      ParseMembersDistribute(SplitAll(prefix, ','), Split(last, ','));
      assert values == prefix + [last];
    }
  }

  lemma NoMembers()
    ensures ParseMembers([]) == []
  {
  }

  /** However the list is split across header lines, it parses to what its comma-join on one line parses to. */
  lemma LinesDoNotMatter(values: seq<string>)
    ensures ParseList(values) == ParseList([Join(values, ',')])
  {
    hide ParseMembers, Split, Join;
    ParseListIsFlat(values);
    ParseListIsFlat([Join(values, ',')]);
    if values == [] {
      EmptyLine();
    } else {
      SplitOfJoin(values, ',');
      assert SplitAll([Join(values, ',')], ',') == Split(Join(values, ','), ',') by { OneValue(Join(values, ',')); }
    }
  }

  lemma OneValue(value: string)
    ensures SplitAll([value], ',') == Split(value, ',')
  {
    SplitAllAppend([], value, ',');
    assert [] + [value] == [value];
  }

  lemma EmptyLine()
    ensures ParseList([]) == [] && ParseList([Join([], ',')]) == []
  {
    assert Split("", ';') == [""];
    assert ItemName("") == "";
    assert ParseMember("") == None;
    assert [""][..0] == [] && ParseMembers([""]) == [];
    assert [""] == [Join([], ',')] && ParseList([""]) == ParseList([""][..0]) + ParseMembers(Split("", ','));
  }

  // ----- printing and parsing back -----

  /** Free of separators and quotes. */
  predicate Clean(s: string) {
    forall c | c in s :: c !in {',', ';', '"'}
  }

  /** A parameter with whitespace around it and its value in quotes or not; or one without a value. */
  datatype Field =
    | Valued(before: string, key: string, val: string, quoted: bool, after: string)
    | Flag(text: string)

  datatype Entry = Entry(before: string, name: string, quoted: bool, after: string, fields: seq<Field>)

  predicate PrintableText(before: string, text: string, quoted: bool, after: string) {
    Blank(before) && Blank(after) && Clean(text) && (quoted || Tight(text))
  }

  predicate PrintableField(field: Field) {
    match field
    case Valued(before, key, val, quoted, after) =>
      PrintableText(before, val, quoted, after) && Clean(key) && '=' !in key && (key == "" || !IsSpace(key[0]))
    case Flag(text) => ',' !in text && ';' !in text && '=' !in text
  }

  predicate Printable(entry: Entry) {
    && PrintableText(entry.before, entry.name, entry.quoted, entry.after)
    && forall field | field in entry.fields :: PrintableField(field)
  }

  function Quote(text: string, quoted: bool): string {
    if quoted then ['"'] + text + ['"'] else text
  }

  function PrintField(field: Field): string {
    match field
    case Valued(before, key, val, quoted, after) => before + (key + ['='] + Quote(val, quoted)) + after
    case Flag(text) => text
  }

  function PrintFields(fields: seq<Field>): seq<string> {
    seq(|fields|, i requires 0 <= i < |fields| => PrintField(fields[i]))
  }

  function PrintName(entry: Entry): string {
    entry.before + Quote(entry.name, entry.quoted) + entry.after
  }

  function PrintEntry(entry: Entry): string {
    Join([PrintName(entry)] + PrintFields(entry.fields), ';')
  }

  function PrintEntries(entries: seq<Entry>): seq<string> {
    seq(|entries|, i requires 0 <= i < |entries| => PrintEntry(entries[i]))
  }

  function PrintList(entries: seq<Entry>): string {
    Join(PrintEntries(entries), ',')
  }

  /** What the parameters stand for: keys in lower case, the last value of a key; one without a value is ignored. */
  function FieldMap(fields: seq<Field>): map<string, string> {
    if fields == [] then map[]
    else
      var earlier, last := FieldMap(fields[..|fields| - 1]), fields[|fields| - 1];
      if last.Valued? then earlier[ToLower(last.key) := last.val] else earlier
  }

  /** An entry without a name stands for nothing. */
  function ItemOf(entry: Entry): Option<Item> {
    if entry.name == "" then None else Some(Item(entry.name, FieldMap(entry.fields)))
  }

  function Items(entries: seq<Entry>): seq<Item> {
    FilterMap(entries, ItemOf)
  }

  lemma TrimNothing(s: string, c: char)
    requires s == [] || (s[0] != c && s[|s| - 1] != c)
    ensures Trim(s, c) == s
  {
  }

  lemma UnquoteQuoted(text: string, quoted: bool)
    requires Clean(text)
    ensures Trim(Quote(text, quoted), '"') == text
  {
    if text != "" {
      assert text[0] in text && text[|text| - 1] in text;
    }
    TrimNothing(text, '"');
    if quoted {
      var whole, tail := Quote(text, true), text + ['"'];
      assert whole[1..] == tail && tail[..|text|] == text;
      assert TrimLeft(whole, '"') == TrimLeft(tail, '"');
      if text == "" {
        assert tail[1..] == "" && TrimLeft("", '"') == "";
      } else {
        assert TrimLeft(tail, '"') == tail;
        assert TrimRight(tail, '"') == TrimRight(text, '"') == text;
      }
    }
  }

  lemma QuotedIsTight(text: string, quoted: bool)
    requires quoted || Tight(text)
    ensures Tight(Quote(text, quoted))
  {
  }

  lemma NameParsesBack(entry: Entry)
    requires PrintableText(entry.before, entry.name, entry.quoted, entry.after)
    ensures ItemName(PrintName(entry)) == entry.name
  {
    QuotedIsTight(entry.name, entry.quoted);
    TrimPadding(entry.before, Quote(entry.name, entry.quoted), entry.after);
    UnquoteQuoted(entry.name, entry.quoted);
  }

  lemma FieldParsesBack(params: map<string, string>, field: Field)
    requires PrintableField(field)
    ensures AddParam(params, PrintField(field)) ==
            if field.Valued? then params[ToLower(field.key) := field.val] else params
  {
    hide ToLower, TrimSpace, Trim, Cut, Clean, Blank;
    match field {
      case Valued(before, key, val, quoted, after) =>
        var shown := key + ['='] + Quote(val, quoted);
        QuotedIsTight(val, quoted);
        assert shown[0] == if key == "" then '=' else key[0];
        var last := Quote(val, quoted);
        assert shown[|shown| - 1] == if last == "" then '=' else last[|last| - 1];
        TrimPadding(before, shown, after);
        CutConcat(key, '=', Quote(val, quoted));
        UnquoteQuoted(val, quoted);
      case Flag(text) =>
        TrimSpaceKeepsOut(text, '=');
        CutNothing(TrimSpace(text), '=');
    }
  }

  lemma {:induction false} FieldsParseBack(fields: seq<Field>)
    requires forall field | field in fields :: PrintableField(field)
    ensures Params(PrintFields(fields)) == FieldMap(fields)
  {
    hide PrintableField, ToLower, AddParam, PrintField;
    if fields == [] {
    } else {
      var prefix, last := fields[..|fields| - 1], fields[|fields| - 1];
      assert last in fields && forall field | field in prefix :: field in fields;
      FieldsParseBack(prefix);
      FieldParsesBack(FieldMap(prefix), last);
      assert PrintFields(fields)[..|fields| - 1] == PrintFields(prefix);
    }
  }

  lemma TextHasNo(before: string, text: string, quoted: bool, after: string, sep: char)
    requires PrintableText(before, text, quoted, after) && (sep == ',' || sep == ';')
    ensures sep !in before && sep !in after && sep !in Quote(text, quoted)
  {
    assert !IsSpace(sep);
  }

  lemma FieldHasNo(field: Field, sep: char)
    requires PrintableField(field) && (sep == ',' || sep == ';')
    ensures sep !in PrintField(field)
  {
    match field {
      case Valued(before, key, val, quoted, after) =>
        TextHasNo(before, val, quoted, after, sep);
        hide Quote, Blank, IsSpace;
      case Flag(text) =>
    }
  }

  lemma PartsHaveNo(entry: Entry, sep: char)
    requires Printable(entry) && (sep == ',' || sep == ';')
    ensures forall part | part in [PrintName(entry)] + PrintFields(entry.fields) :: sep !in part
  {
    hide PrintableField, PrintField, Quote;
    var printed := PrintFields(entry.fields);
    forall part | part in [PrintName(entry)] + printed
      ensures sep !in part
    {
      if part in printed {
        var i :| 0 <= i < |printed| && printed[i] == part;
        assert entry.fields[i] in entry.fields;
        FieldHasNo(entry.fields[i], sep);
      } else {
        TextHasNo(entry.before, entry.name, entry.quoted, entry.after, sep);
      }
    }
  }

  lemma {:induction false} JoinHasNo(parts: seq<string>, sep: char, c: char)
    requires c != sep && forall part | part in parts :: c !in part
    ensures c !in Join(parts, sep)
  {
    if |parts| > 1 {
      assert parts[0] in parts && forall part | part in parts[1..] :: part in parts;
      JoinHasNo(parts[1..], sep, c);
    } else if |parts| == 1 {
      assert parts[0] in parts;
    }
  }

  lemma EntryParsesBack(entry: Entry)
    requires Printable(entry)
    ensures ParseMember(PrintEntry(entry)) == ItemOf(entry)
    ensures ',' !in PrintEntry(entry)
  {
    hide PrintableField, PrintableText, ItemName, Params, FieldMap, Split, Join, PrintName, ToLower;
    var parts := [PrintName(entry)] + PrintFields(entry.fields);
    PartsHaveNo(entry, ';');
    PartsHaveNo(entry, ',');
    JoinHasNo(parts, ';', ',');
    JoinThenSplit(parts, ';');
    NameParsesBack(entry);
    FieldsParseBack(entry.fields);
    assert parts[1..] == PrintFields(entry.fields);
  }

  lemma {:induction false} EntriesParseBack(entries: seq<Entry>)
    requires forall entry | entry in entries :: Printable(entry)
    ensures ParseMembers(PrintEntries(entries)) == Items(entries)
    ensures forall printed | printed in PrintEntries(entries) :: ',' !in printed
  {
    hide Printable, ParseMember, PrintEntry, ItemOf;
    if entries == [] {
    } else {
      var prefix, last := entries[..|entries| - 1], entries[|entries| - 1];
      assert last in entries && forall entry | entry in prefix :: entry in entries;
      EntriesParseBack(prefix);
      EntryParsesBack(last);
      assert PrintEntries(entries)[..|entries| - 1] == PrintEntries(prefix);
      assert PrintEntries(entries) == PrintEntries(prefix) + [PrintEntry(last)];
    }
  }

  /**
   Printing a list and parsing it back restores every named item with its parameters, whatever the whitespace around
   them, with names and values in quotes or not.
   */
  lemma PrintThenParse(entries: seq<Entry>)
    requires forall entry | entry in entries :: Printable(entry)
    ensures ParseList([PrintList(entries)]) == Items(entries)
  {
    hide ParseMembers, PrintEntry, Printable, Join, Split, ItemOf;
    EntriesParseBack(entries);
    ParseListIsFlat([PrintList(entries)]);
    OneValue(PrintList(entries));
    if entries == [] {
      EmptyLine();
      assert PrintEntries(entries) == [];
    } else {
      JoinThenSplit(PrintEntries(entries), ',');
    }
  }

  // ----- the policy that throttles first -----

  datatype Choice = Choice(name: string, remaining: int, reset: int, hasReset: bool)

  function ParamAt(item: Item, key: string): string {
    if key in item.params then item.params[key] else ""
  }

  /**
   An item's limit, if it is usable: a count of remaining requests and, where given, a delay, neither of them
   negative.
   */
  function Usable(item: Item): (choice: Option<Choice>)
    ensures choice.Some? ==> choice.value.remaining >= 0 && choice.value.reset >= 0
    ensures choice.Some? && !choice.value.hasReset ==> choice.value.reset == 0
  {
    match ParseInt(ParamAt(item, "r"))
    case None => None
    case Some(r) =>
      if r < 0 then None
      else if "t" !in item.params then Some(Choice(item.name, r, 0, false))
      else match ParseInt(item.params["t"])
        case None => None
        case Some(t) => if t < 0 then None else Some(Choice(item.name, r, t, true))
  }

  /** Throttles sooner: fewer requests remain, or as few and the reset is later. */
  predicate Sooner(a: Choice, b: Choice) {
    a.remaining < b.remaining || (a.remaining == b.remaining && a.reset > b.reset)
  }

  function Select(items: seq<Item>): Option<Choice> {
    if items == [] then None
    else
      var chosen, last := Select(items[..|items| - 1]), Usable(items[|items| - 1]);
      if last.Some? && (chosen.None? || Sooner(last.value, chosen.value)) then last else chosen
  }

  method SelectItem(items: seq<Item>) returns (chosen: Option<Choice>)
    ensures chosen == Select(items)
  {
    chosen := None;
    var remaining, reset := 0, 0;
    for i := 0 to |items|
      invariant chosen == Select(items[..i])
      invariant chosen.Some? ==> remaining == chosen.value.remaining && reset == chosen.value.reset
    {
      assert items[..i + 1][..i] == items[..i];
      var r := ParseInt(ParamAt(items[i], "r"));
      if r.None? || r.value < 0 {
        continue;
      }
      var t := Some(0);
      var itemHasReset := "t" in items[i].params;
      if itemHasReset {
        t := ParseInt(items[i].params["t"]);
        if t.None? || t.value < 0 {
          continue;
        }
      }
      if chosen.None? || r.value < remaining || (r.value == remaining && t.value > reset) {
        chosen := Some(Choice(items[i].name, r.value, t.value, itemHasReset));
        remaining, reset := r.value, t.value;
      }
    }
    assert items[..|items|] == items;
  }

  /** An item is usable if its r is a number and not negative, and its t too if it has one. */
  lemma UsableExactly(item: Item, choice: Choice)
    ensures Usable(item) == Some(choice) <==>
            && choice.name == item.name
            && "r" in item.params && ParseInt(item.params["r"]) == Some(choice.remaining) && choice.remaining >= 0
            && if choice.hasReset then
                 "t" in item.params && ParseInt(item.params["t"]) == Some(choice.reset) && choice.reset >= 0
               else "t" !in item.params && choice.reset == 0
  {
    hide AllDigits, DigitsValue;
  }

  /** The item at i is usable, no item throttles sooner, and every usable item before it throttles later. */
  ghost predicate IsFirstSoonest(items: seq<Item>, i: nat) {
    && i < |items| && Usable(items[i]).Some?
    && (forall k | 0 <= k < |items| && Usable(items[k]).Some? ::
          !Sooner(Usable(items[k]).value, Usable(items[i]).value))
    && (forall k | 0 <= k < i && Usable(items[k]).Some? :: Sooner(Usable(items[i]).value, Usable(items[k]).value))
  }

  /**
   The item at i is usable, none has fewer requests remaining, and none that has as few a later reset; an earlier one
   has more remaining or an earlier reset.
   */
  ghost predicate ThrottlesFirst(items: seq<Item>, i: nat) {
    && i < |items| && Usable(items[i]).Some?
    && var best := Usable(items[i]).value;
    && (forall k | 0 <= k < |items| && Usable(items[k]).Some? ::
          && Usable(items[k]).value.remaining >= best.remaining
          && (Usable(items[k]).value.remaining == best.remaining ==> Usable(items[k]).value.reset <= best.reset))
    && (forall k | 0 <= k < i && Usable(items[k]).Some? ::
          Usable(items[k]).value.remaining > best.remaining || Usable(items[k]).value.reset < best.reset)
  }

  lemma OneMoreItem(prefix: seq<Item>, last: Item, i: nat)
    requires IsFirstSoonest(prefix, i)
    ensures if Usable(last).Some? && Sooner(Usable(last).value, Usable(prefix[i]).value)
            then IsFirstSoonest(prefix + [last], |prefix|)
            else IsFirstSoonest(prefix + [last], i)
  {
    hide Usable;
    assert forall k | 0 <= k < |prefix| :: (prefix + [last])[k] == prefix[k];
  }

  /** The choice is the first of the usable items that none throttles sooner than. */
  lemma {:induction false} SelectExactly(items: seq<Item>)
    ensures match Select(items)
            case None => forall item | item in items :: Usable(item).None?
            case Some(chosen) => exists i: nat :: IsFirstSoonest(items, i) && Usable(items[i]) == Some(chosen)
  {
    hide Usable, Sooner;
    if items == [] {
    } else {
      var prefix, last := items[..|items| - 1], items[|items| - 1];
      SelectExactly(prefix);
      assert items == prefix + [last];
      if Select(prefix).Some? {
        var i: nat :| IsFirstSoonest(prefix, i) && Usable(prefix[i]) == Select(prefix);
        OneMoreItem(prefix, last, i);
      } else if Usable(last).Some? {
        FirstUsable(prefix, last);
      }
    }
  }

  lemma FirstUsable(prefix: seq<Item>, last: Item)
    requires Usable(last).Some? && forall item | item in prefix :: Usable(item).None?
    ensures IsFirstSoonest(prefix + [last], |prefix|)
  {
    hide Usable;
    assert forall k | 0 <= k < |prefix| :: (prefix + [last])[k] == prefix[k] && prefix[k] in prefix;
  }

  /**
   The choice is the usable item with the fewest requests remaining, of those one with the latest reset, and of those
   the first; there is none only if no item is usable.
   */
  lemma ThrottlesFirstExactly(items: seq<Item>)
    ensures match Select(items)
            case None => forall item | item in items :: Usable(item).None?
            case Some(chosen) => exists i: nat :: ThrottlesFirst(items, i) && Usable(items[i]) == Some(chosen)
  {
    SelectExactly(items);
    hide Usable, Select;
    if Select(items).Some? {
      var i: nat :| IsFirstSoonest(items, i) && Usable(items[i]) == Select(items);
      assert ThrottlesFirst(items, i);
    }
  }

  /**
   The remaining count and the delay chosen do not depend on the order of the items; nor does having a delay, unless
   it is 0.
   */
  lemma OrderDoesNotMatter(items: seq<Item>, others: seq<Item>)
    requires forall item :: item in items <==> item in others
    ensures Select(items).Some? == Select(others).Some?
    ensures Select(items).Some? ==>
              && Select(items).value.remaining == Select(others).value.remaining
              && Select(items).value.reset == Select(others).value.reset
              && (Select(items).value.reset > 0 ==> Select(items).value.hasReset && Select(others).value.hasReset)
  {
    SelectedIsUsable(items);
    SelectedIsUsable(others);
    hide Select, Usable;
  }

  lemma SelectedIsUsable(items: seq<Item>)
    ensures match Select(items)
            case None => forall item | item in items :: Usable(item).None?
            case Some(chosen) =>
              && (exists item | item in items :: Usable(item) == Some(chosen))
              && (forall item | item in items && Usable(item).Some? :: !Sooner(Usable(item).value, chosen))
              && (!chosen.hasReset ==> chosen.reset == 0)
  {
    SelectExactly(items);
    if Select(items).Some? {
      var i: nat :| IsFirstSoonest(items, i) && Usable(items[i]) == Select(items);
      assert items[i] in items;
    }
    hide Select;
  }

  /** Usable, and no usable item throttles sooner. */
  predicate Soonest(items: seq<Item>, item: Item) {
    && item in items && Usable(item).Some?
    && forall other | other in items && Usable(other).Some? :: !Sooner(Usable(other).value, Usable(item).value)
  }

  /** All items that tie for throttling first say the same, name and presence of a reset included. */
  predicate TiesAgree(items: seq<Item>) {
    forall a, b | a in items && b in items && Soonest(items, a) && Soonest(items, b) :: Usable(a) == Usable(b)
  }

  lemma SelectedIsSoonest(items: seq<Item>)
    ensures match Select(items)
            case None => forall item | item in items :: Usable(item).None?
            case Some(chosen) => exists item | item in items :: Soonest(items, item) && Usable(item) == Some(chosen)
  {
    hide Usable, Sooner, Select;
    SelectExactly(items);
    if Select(items).Some? {
      var i: nat :| IsFirstSoonest(items, i) && Usable(items[i]) == Select(items);
      assert items[i] in items;
      assert Soonest(items, items[i]);
    }
  }

  /** The items with the one at i moved to the front. */
  function InFront(items: seq<Item>, i: nat): seq<Item>
    requires i < |items|
  {
    [items[i]] + items[..i] + items[i + 1..]
  }

  lemma InFrontIsReordering(items: seq<Item>, i: nat)
    requires i < |items|
    ensures multiset(InFront(items, i)) == multiset(items)
    ensures forall item :: item in InFront(items, i) <==> item in items
  {
    assert items == items[..i] + [items[i]] + items[i + 1..];
  }

  lemma SoonestInFrontIsSelected(items: seq<Item>, i: nat)
    requires i < |items| && Soonest(items, items[i])
    ensures Select(InFront(items, i)) == Usable(items[i])
  {
    hide Usable, Sooner, Select;
    var others := InFront(items, i);
    InFrontIsReordering(items, i);
    SelectExactly(others);
    assert others[0] == items[i];
    if Select(others).Some? {
      var k: nat :| IsFirstSoonest(others, k) && Usable(others[k]) == Select(others);
      assert others[k] in others;
    }
  }

  /** What is chosen depends on the order of the items exactly when items that tie for throttling first disagree. */
  lemma OrderDoesNotMatterExactly(items: seq<Item>)
    ensures (forall others | multiset(others) == multiset(items) :: Select(others) == Select(items)) <==>
            TiesAgree(items)
  {
    hide Usable, Sooner, Select;
    if TiesAgree(items) {
      forall others | multiset(others) == multiset(items)
        ensures Select(others) == Select(items)
      {
        assert forall item :: item in others <==> item in multiset(items);
        assert forall item :: item in items <==> item in multiset(items);
        SelectedIsSoonest(items);
        SelectedIsSoonest(others);
        assert forall item | item in items :: Soonest(others, item) <==> Soonest(items, item);
      }
    } else {
      var a, b :| a in items && b in items && Soonest(items, a) && Soonest(items, b) && Usable(a) != Usable(b);
      var i :| 0 <= i < |items| && items[i] == a;
      var j :| 0 <= j < |items| && items[j] == b;
      InFrontIsReordering(items, i);
      InFrontIsReordering(items, j);
      SoonestInFrontIsSelected(items, i);
      SoonestInFrontIsSelected(items, j);
    }
  }

  /** Whether there is a reset time at all can depend on the order, when one item says 0 and another says nothing. */
  lemma HavingResetDependsOnOrder()
    ensures var silent, zero := Item("a", map["r" := "0"]), Item("b", map["r" := "0", "t" := "0"]);
            && Select([silent, zero]).Some? && !Select([silent, zero]).value.hasReset
            && Select([zero, silent]).Some? && Select([zero, silent]).value.hasReset
  {
    var silent, zero := Item("a", map["r" := "0"]), Item("b", map["r" := "0", "t" := "0"]);
    assert "0"[..0] == [] && ParseInt("0") == Some(0);
    assert [silent, zero][..1] == [silent] && [zero, silent][..1] == [zero];
    assert [silent][..0] == [] && [zero][..0] == [];
    assert Usable(silent) == Some(Choice("a", 0, 0, false)) && Usable(zero) == Some(Choice("b", 0, 0, true));
    assert Select([silent]) == Usable(silent) && Select([zero]) == Usable(zero);
  }

  // ----- the description -----

  datatype Status = Unspecified | Okay | OverLimit

  datatype Description = Description(status: Status, limit: int, remaining: int, resetAt: Option<int>)

  const TOO_MANY_REQUESTS := 429
  const SECOND: int := 1_000_000_000

  function Wrap64(n: int): int {
    (n + 0x8000_0000_0000_0000) % 0x1_0000_0000_0000_0000 - 0x8000_0000_0000_0000
  }

  /** The one number of 64 bits that differs by a multiple of their range. */
  lemma WrapExactly(n: int)
    ensures MIN_INT64 <= Wrap64(n) <= MAX_INT64 && (Wrap64(n) - n) % 0x1_0000_0000_0000_0000 == 0
    ensures Wrap64(n) == n <==> MIN_INT64 <= n <= MAX_INT64
  {
    var q := (n + 0x8000_0000_0000_0000) / 0x1_0000_0000_0000_0000;
    assert Wrap64(n) - n == -q * 0x1_0000_0000_0000_0000;
  }

  /** A policy's quota, if it states a positive one. */
  function Quota(policy: Item): int {
    match ParseInt(ParamAt(policy, "q"))
    case Some(q) => if q > 0 then q else 0
    case None => 0
  }

  /** The quota of the first policy with this name. */
  function QuotaOf(policies: seq<Item>, name: string): int {
    if policies == [] then 0
    else if policies[0].name != name then QuotaOf(policies[1..], name)
    else Quota(policies[0])
  }

  /** Times are nanoseconds since the Unix epoch; a delay in nanoseconds is a 64-bit number. */
  function Describe(statusCode: int, limits: seq<string>, policies: seq<string>, now: int): Option<Description> {
    match Select(ParseList(limits))
    case None => None
    case Some(chosen) =>
      var limit := QuotaOf(ParseList(policies), chosen.name);
      var resetAt := if chosen.hasReset then Some(now + Wrap64(chosen.reset * SECOND)) else None;
      Some(
        if statusCode == TOO_MANY_REQUESTS then Description(OverLimit, limit, 0, resetAt)
        else Description(if chosen.remaining > 0 then Okay else Unspecified, limit, chosen.remaining, resetAt))
  }

  predicate IsFirstNamed(policies: seq<Item>, name: string, i: nat) {
    i < |policies| && policies[i].name == name && forall k | 0 <= k < i :: policies[k].name != name
  }

  /** The limit reported is the quota of the first policy named like the item, and 0 when there is none. */
  lemma {:induction false} QuotaExactly(policies: seq<Item>, name: string)
    ensures if exists policy | policy in policies :: policy.name == name
            then exists i: nat :: IsFirstNamed(policies, name, i) && QuotaOf(policies, name) == Quota(policies[i])
            else QuotaOf(policies, name) == 0
  {
    hide Quota;
    if policies == [] {
    } else {
      var rest := policies[1..];
      assert policies == [policies[0]] + rest;
      if policies[0].name == name {
        assert IsFirstNamed(policies, name, 0);
      } else {
        QuotaExactly(rest, name);
        if policy :| policy in rest && policy.name == name {
          var i: nat :| IsFirstNamed(rest, name, i) && QuotaOf(rest, name) == Quota(rest[i]);
          assert IsFirstNamed(policies, name, i + 1);
        }
      }
    }
  }

  method LookUpQuota(policies: seq<Item>, name: string) returns (limit: int)
    ensures limit == QuotaOf(policies, name)
  {
    for i := 0 to |policies|
      invariant QuotaOf(policies, name) == QuotaOf(policies[i..], name)
    {
      if policies[i].name != name {
        continue;
      }
      var q := ParseInt(ParamAt(policies[i], "q"));
      return if q.Some? && q.value > 0 then q.value else 0;
    }
    return 0;
  }

  method ParseStructuredRateLimit(statusCode: int, limits: seq<string>, policies: seq<string>, now: int)
    returns (desc: Option<Description>)
    ensures desc == Describe(statusCode, limits, policies, now)
  {
    hide ParseList, Select, QuotaOf, Wrap64;
    var items := ParseStructuredList(limits);
    var chosen := SelectItem(items);
    if chosen.None? {
      return None;
    }
    var listed := ParseStructuredList(policies);
    var limit := LookUpQuota(listed, chosen.value.name);
    var remaining, status := chosen.value.remaining, Unspecified;
    if statusCode == TOO_MANY_REQUESTS {
      remaining, status := 0, OverLimit;
    } else if remaining > 0 {
      status := Okay;
    }
    var resetAt := if chosen.value.hasReset then Some(now + Wrap64(chosen.value.reset * SECOND)) else None;
    return Some(Description(status, limit, remaining, resetAt));
  }

  /** The quota is the number under q, if there is a positive one. */
  lemma QuotaReadsExactly(policy: Item, q: int)
    requires q > 0
    ensures Quota(policy) == q <==> "q" in policy.params && ParseInt(policy.params["q"]) == Some(q)
    ensures Quota(policy) >= 0
  {
    hide AllDigits, DigitsValue;
  }

  /**
   Over the limit on a 429 and then only; otherwise fine exactly while requests remain; nothing at all without a
   usable item. With one, the first that throttles soonest gives the remaining count, except on a 429, the policy
   whose quota is the limit, and whether there is a reset.
   */
  lemma DescriptionExactly(statusCode: int, limits: seq<string>, policies: seq<string>, now: int)
    ensures var desc, items := Describe(statusCode, limits, policies, now), ParseList(limits);
            && (desc.None? <==> forall item | item in items :: Usable(item).None?)
            && (desc.Some? ==>
                  && (desc.value.status == OverLimit <==> statusCode == 429)
                  && (desc.value.status == Okay <==> desc.value.remaining > 0)
                  && exists i: nat ::
                       && ThrottlesFirst(items, i)
                       && desc.value.remaining == (if statusCode == 429 then 0 else Usable(items[i]).value.remaining)
                       && desc.value.limit == QuotaOf(ParseList(policies), items[i].name)
                       && (desc.value.resetAt.Some? <==> Usable(items[i]).value.hasReset))
  {
    var items := ParseList(limits);
    hide Select, Usable, ParseList, QuotaOf, Wrap64;
    ThrottlesFirstExactly(items);
    if Select(items).Some? {
      var i: nat :| ThrottlesFirst(items, i) && Usable(items[i]) == Select(items);
      UsableExactly(items[i], Usable(items[i]).value);
      hide ThrottlesFirst;
    }
  }

  // ----- a header as Cloudflare sends it -----

  function Plain(key: string, n: nat): Field {
    Valued("", key, Itoa(n), false, "")
  }

  function LimitHeader(name: string, r: nat, t: nat): string {
    PrintList([Entry("", name, true, "", [Plain("r", r), Plain("t", t)])])
  }

  function PolicyHeader(name: string, q: nat, w: nat): string {
    PrintList([Entry("", name, true, "", [Plain("q", q), Plain("w", w)])])
  }

  lemma PlainIsPrintable(key: string, n: nat)
    requires key in {"r", "t", "q", "w"}
    ensures PrintableField(Plain(key, n)) && ToLower(key) == key
  {
    ItoaDigits(n);
    DigitsPrint(Itoa(n));
    KeyIsLower(key);
    hide Itoa, DigitsValue, AllDigits, ToLower;
  }

  lemma DigitsPrint(s: string)
    requires AllDigits(s) && s != ""
    ensures Clean(s) && Tight(s)
  {
    assert s[0] in s && s[|s| - 1] in s;
  }

  lemma KeyIsLower(key: string)
    requires key in {"r", "t", "q", "w"}
    ensures ToLower(key) == key
  {
    assert IsLowerCase(LOWER);
  }

  lemma OneHeader(name: string, a: string, m: nat, b: string, n: nat)
    requires name != "" && Clean(name) && a in {"r", "t", "q", "w"} && b in {"r", "t", "q", "w"} && a != b
    ensures ParseList([PrintList([Entry("", name, true, "", [Plain(a, m), Plain(b, n)])])]) ==
            [Item(name, map[a := Itoa(m), b := Itoa(n)])]
  {
    var fields := [Plain(a, m), Plain(b, n)];
    var entry := Entry("", name, true, "", fields);
    PlainIsPrintable(a, m);
    PlainIsPrintable(b, n);
    PrintThenParse([entry]);
    assert FieldMap(fields[..1][..0]) == map[];
    assert FieldMap(fields[..1]) == map[a := Itoa(m)];
    assert FieldMap(fields) == map[a := Itoa(m), b := Itoa(n)];
    FilterMapOne(entry, ItemOf);
    hide FieldMap, PrintList, ParseList, PrintableField;
  }

  /**
   A header in the form Cloudflare documents is described by the numbers in it: r requests remaining of q, and none left
   on a 429; and a reset t seconds ahead.
   */
  lemma DocumentedHeader(statusCode: int, now: int, name: string, r: nat, t: nat, q: nat, w: nat)
    requires name != "" && Clean(name) && r <= MAX_INT64 && t <= 9_223_372_036 && q <= MAX_INT64
    ensures Describe(statusCode, [LimitHeader(name, r, t)], [PolicyHeader(name, q, w)], now) ==
            Some(Description(
              if statusCode == 429 then OverLimit else if r > 0 then Okay else Unspecified,
              q,
              if statusCode == 429 then 0 else r,
              Some(now + t * 1_000_000_000)))
  {
    hide ParseList, PrintList, Plain, Itoa, Clean, Select, QuotaOf, Describe;
    OneHeader(name, "r", r, "t", t);
    OneHeader(name, "q", q, "w", w);
    ItemReads(name, r, t);
    PolicyReads(name, q, w);
    DescriptionOf(statusCode, [LimitHeader(name, r, t)], [PolicyHeader(name, q, w)], now, Choice(name, r, t, true), q);
  }

  lemma DescriptionOf(statusCode: int, limits: seq<string>, policies: seq<string>, now: int, chosen: Choice, q: int)
    requires Select(ParseList(limits)) == Some(chosen) && QuotaOf(ParseList(policies), chosen.name) == q
    requires chosen.hasReset && 0 <= chosen.reset <= 9_223_372_036 && chosen.remaining >= 0
    ensures Describe(statusCode, limits, policies, now) ==
            Some(Description(
              if statusCode == 429 then OverLimit else if chosen.remaining > 0 then Okay else Unspecified,
              q,
              if statusCode == 429 then 0 else chosen.remaining,
              Some(now + chosen.reset * 1_000_000_000)))
  {
    hide ParseList, Select, QuotaOf;
    WrapExactly(chosen.reset * SECOND);
    hide Wrap64;
  }

  lemma ItemReads(name: string, r: nat, t: nat)
    requires r <= MAX_INT64 && t <= MAX_INT64
    ensures Select([Item(name, map["r" := Itoa(r), "t" := Itoa(t)])]) == Some(Choice(name, r, t, true))
  {
    var item := Item(name, map["r" := Itoa(r), "t" := Itoa(t)]);
    ItoaRoundTrip(r);
    ItoaRoundTrip(t);
    UsableExactly(item, Choice(name, r, t, true));
    hide ParseInt, Itoa, Usable, Sooner;
    assert [item][..0] == [];
  }

  lemma PolicyReads(name: string, q: nat, w: nat)
    requires q <= MAX_INT64
    ensures QuotaOf([Item(name, map["q" := Itoa(q), "w" := Itoa(w)])], name) == q
  {
    ItoaRoundTrip(q);
    hide ParseInt, Itoa;
  }

  /** A missing time reads as the epoch. */
  function AsTime(at: Option<int>): int {
    match at
    case None => 0
    case Some(time) => time
  }

  /** sdk is what the SDK's own parser makes of the other headers, if anything. */
  function ExtractRateLimit(statusCode: int, limits: seq<string>, policies: seq<string>, retryAfter: string,
                            sdk: Option<Description>, now: int): Option<Description> {
    match Describe(statusCode, limits, policies, now)
    case None => sdk
    case Some(desc) =>
      if statusCode == TOO_MANY_REQUESTS && retryAfter != "" && sdk.Some? &&
        AsTime(sdk.value.resetAt) > AsTime(desc.resetAt)
      then Some(desc.(resetAt := sdk.value.resetAt))
      else Some(desc)
  }

  /** On a 429 with a Retry-After the later of the two resets wins, so the retry is never early for either. */
  lemma LaterResetWins(limits: seq<string>, policies: seq<string>, retryAfter: string, sdk: Description, now: int)
    requires retryAfter != "" && Select(ParseList(limits)).Some?
    ensures var extracted := ExtractRateLimit(TOO_MANY_REQUESTS, limits, policies, retryAfter, Some(sdk), now).value;
            var own := AsTime(Describe(TOO_MANY_REQUESTS, limits, policies, now).value.resetAt);
            && AsTime(extracted.resetAt) == (if own < AsTime(sdk.resetAt) then AsTime(sdk.resetAt) else own)
            && extracted.status == OverLimit && extracted.remaining == 0
  {
  }

  /**
   The structured headers decide wherever they are usable, except for the reset on a 429 whose Retry-After is later; the
   SDK's reading of the other headers stands in where they are not.
   */
  lemma RetryAfterExactly(statusCode: int, limits: seq<string>, policies: seq<string>, retryAfter: string,
                          sdk: Option<Description>, now: int)
    ensures var own := Describe(statusCode, limits, policies, now);
            var extracted := ExtractRateLimit(statusCode, limits, policies, retryAfter, sdk, now);
            if own.None? then extracted == sdk
            else
              && extracted.Some?
              && extracted.value.(resetAt := None) == own.value.(resetAt := None)
              && (extracted != own <==>
                  && statusCode == 429 && retryAfter != ""
                  && sdk.Some?
                  && (if own.value.resetAt.Some? then own.value.resetAt.value else 0) <
                     (if sdk.value.resetAt.Some? then sdk.value.resetAt.value else 0))
  {
    hide Describe;
  }

  /**
   The reset lies the stated number of seconds ahead exactly up to the longest delay 64 bits of nanoseconds can hold,
   and as far ahead as the delay wraps to beyond that.
   */
  lemma ResetExactly(statusCode: int, limits: seq<string>, policies: seq<string>, now: int)
    requires var chosen := Select(ParseList(limits)); chosen.Some? && chosen.value.hasReset
    ensures var chosen := Select(ParseList(limits)).value;
            var at := Describe(statusCode, limits, policies, now).value.resetAt;
            && (at == Some(now + chosen.reset * 1_000_000_000) <==> chosen.reset <= 9_223_372_036)
            && at.Some? && MIN_INT64 <= at.value - now <= MAX_INT64
            && (at.value - now - chosen.reset * 1_000_000_000) % 0x1_0000_0000_0000_0000 == 0
  {
    hide Describe, Select, ParseList, Wrap64;
    SelectedResetBounds(ParseList(limits));
    var chosen := Select(ParseList(limits)).value;
    var delay := chosen.reset * 1_000_000_000;
    WrapExactly(delay);
    ResetIs(statusCode, limits, policies, now);
    assert Describe(statusCode, limits, policies, now).value.resetAt.value - now - delay == Wrap64(delay) - delay;
  }

  lemma ResetIs(statusCode: int, limits: seq<string>, policies: seq<string>, now: int)
    requires var chosen := Select(ParseList(limits)); chosen.Some? && chosen.value.hasReset
    ensures var desc := Describe(statusCode, limits, policies, now);
            desc.Some? && desc.value.resetAt ==
                          Some(now + Wrap64(Select(ParseList(limits)).value.reset * 1_000_000_000))
  {
    hide ParseList, Select, Wrap64;
  }

  lemma SelectedResetBounds(items: seq<Item>)
    ensures Select(items).Some? ==> Select(items).value.reset >= 0
  {
    SelectedIsUsable(items);
    hide Select;
  }
}
