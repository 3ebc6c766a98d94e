/**
  The metrics registry, its Prometheus text, and the audit page's reader of that text.
  `PageShowsEveryLine` is the round trip from registry to page; `LabelsReadBack` shows that the
  label text loses nothing.
*/
module MetricText {
  import opened Prelude
  import opened Strings
  import opened Ordering

  const BACKSLASH: char := '\\'
  const QUOTE: char := '"'

  type Label = (string, string)

  // ---------------------------------------------------------------------------
  // Label text
  // ---------------------------------------------------------------------------

  function EscapeValue(value: string): string {
    Replace(Replace(value, BACKSLASH, [BACKSLASH, BACKSLASH]), QUOTE, [BACKSLASH, QUOTE])
  }

  function FormatLabel(pair: Label): string {
    pair.0 + "=" + [QUOTE] + EscapeValue(pair.1) + [QUOTE]
  }

  function LabelText(labels: seq<Label>): string {
    if labels == [] then ""
    else if |labels| == 1 then FormatLabel(labels[0])
    else FormatLabel(labels[0]) + "," + LabelText(labels[1..])
  }

  function FormatLabels(labels: seq<Label>): string {
    if labels == [] then "" else "{" + LabelText(labels) + "}"
  }

  /** A left-to-right reader: the value up to the first unescaped quote, and what follows it. */
  function ReadValue(s: string): (r: Option<(string, string)>)
    ensures r.Some? ==> |r.value.1| < |s|
  {
    if s == "" then None
    else if s[0] == QUOTE then Some(("", s[1..]))
    else if s[0] == BACKSLASH && |s| == 1 then None
    else
      var c, rest := if s[0] == BACKSLASH then s[1] else s[0], if s[0] == BACKSLASH then s[2..] else s[1..];
      var tail := ReadValue(rest);
      if tail.None? then None else Some(([c] + tail.value.0, tail.value.1))
  }

  /** One `key="value"` pair and what follows it. */
  function ReadLabel(s: string): (r: Option<(Label, string)>)
    ensures r.Some? ==> |r.value.1| < |s|
  {
    var n := IndexOf(s, '=');
    if n + 1 >= |s| || s[n + 1] != QUOTE then None
    else
      var value := ReadValue(s[n + 2..]);
      if value.None? then None else Some(((s[..n], value.value.0), value.value.1))
  }

  function ReadLabels(s: string): Option<seq<Label>>
    decreases |s|
  {
    var first := ReadLabel(s);
    if first.None? then None
    else if first.value.1 == "" then Some([first.value.0])
    else if first.value.1[0] != ',' then None
    else
      var rest := ReadLabels(first.value.1[1..]);
      if rest.None? then None else Some([first.value.0] + rest.value)
  }

  lemma EscapeValueStep(c: char, rest: string)
    ensures EscapeValue([c] + rest)
      == (if c == BACKSLASH || c == QUOTE then [BACKSLASH, c] else [c]) + EscapeValue(rest)
  {
    var head := Replace([c], BACKSLASH, [BACKSLASH, BACKSLASH]);
    ReplaceSplits([c], rest, BACKSLASH, [BACKSLASH, BACKSLASH]);
    ReplaceSplits(head, Replace(rest, BACKSLASH, [BACKSLASH, BACKSLASH]), QUOTE, [BACKSLASH, QUOTE]);
    ReplaceOne(c, BACKSLASH, [BACKSLASH, BACKSLASH]);
    ReplaceOne(c, QUOTE, [BACKSLASH, QUOTE]);
    ReplaceTwo(BACKSLASH, BACKSLASH, QUOTE, [BACKSLASH, QUOTE]);
  }

  lemma {:induction false} ValueReadsBack(value: string, rest: string)
    ensures ReadValue(EscapeValue(value) + [QUOTE] + rest) == Some((value, rest))
  {
    if value == "" {
      assert EscapeValue(value) + [QUOTE] + rest == [QUOTE] + rest;
    } else {
      var c, tail := value[0], value[1..];
      assert value == [c] + tail;
      EscapeValueStep(c, tail);
      ValueReadsBack(tail, rest);
      var head := if c == BACKSLASH || c == QUOTE then [BACKSLASH, c] else [c];
      var after := EscapeValue(tail) + [QUOTE] + rest;
      assert EscapeValue(value) + [QUOTE] + rest == head + after;
      assert (head + after)[|head|..] == after;
    }
  }

  lemma LabelReadsBack(pair: Label, rest: string)
    requires '=' !in pair.0
    ensures ReadLabel(FormatLabel(pair) + rest) == Some((pair, rest))
  {
    var s, n := FormatLabel(pair) + rest, |pair.0|;
    var tail := EscapeValue(pair.1) + [QUOTE] + rest;
    assert s == pair.0 + "=" + ([QUOTE] + tail);
    IndexOfIs(pair.0, '=', [QUOTE] + tail);
    assert s[n + 2..] == tail && s[..n] == pair.0;
    ValueReadsBack(pair.1, rest);
  }

  lemma LabelTextStep(labels: seq<Label>)
    requires |labels| > 1
    ensures var rest := LabelText(labels[1..]);
      && FormatLabel(labels[0]) + ("," + rest) == LabelText(labels)
      && ("," + rest)[1..] == rest
      && labels == [labels[0]] + labels[1..]
  {
    Regroup(FormatLabel(labels[0]), ",", LabelText(labels[1..]));
    HeadAndTail(',', LabelText(labels[1..]));
    hide FormatLabel;
  }

  ghost predicate KeysWithoutEquals(labels: seq<Label>) {
    forall i :: 0 <= i < |labels| ==> '=' !in labels[i].0
  }

  /** Whatever the values contain, quotes, commas and braces included, the label text reads back exactly. */
  lemma {:induction false} LabelsReadBack(labels: seq<Label>)
    requires labels != [] && KeysWithoutEquals(labels)
    ensures ReadLabels(LabelText(labels)) == Some(labels)
  {
    if |labels| == 1 {
      LabelReadsBack(labels[0], "");
      assert labels == [labels[0]];
      assert FormatLabel(labels[0]) + "" == LabelText(labels);
    } else {
      var rest := LabelText(labels[1..]);
      LabelTextStep(labels);
      hide LabelText, FormatLabel, ReadLabel;
      LabelReadsBack(labels[0], "," + rest);
      LabelsReadBack(labels[1..]);
    }
  }

  lemma LabelsAreInjective(a: seq<Label>, b: seq<Label>)
    requires KeysWithoutEquals(a) && KeysWithoutEquals(b)
    requires FormatLabels(a) == FormatLabels(b)
    ensures a == b
  {
    if a != [] && b != [] {
      assert FormatLabels(a)[1..|FormatLabels(a)| - 1] == LabelText(a);
      assert FormatLabels(b)[1..|FormatLabels(b)| - 1] == LabelText(b);
      LabelsReadBack(a);
      LabelsReadBack(b);
    }
  }

  // ---------------------------------------------------------------------------
  // The registry
  // ---------------------------------------------------------------------------

  predicate Letter(c: char) {
    'a' <= c <= 'z' || 'A' <= c <= 'Z' || '0' <= c <= '9'
  }

  predicate NameChar(c: char) {
    Letter(c) || c == '_' || c == ':'
  }

  predicate IdentifierChar(c: char) {
    Letter(c) || c in "._:/-"
  }

  /** The character classes at their borders. */
  lemma ClassBorders()
    ensures forall c :: c in "azAZ09_:" ==> NameChar(c)
    ensures forall c :: c in "`{@[/;.-" ==> !NameChar(c)
    ensures forall c :: c in "azAZ09._:/-" ==> IdentifierChar(c)
    ensures forall c :: c in "`{@[;=, " ==> !IdentifierChar(c)
    ensures forall key :: (forall c :: c in key ==> IdentifierChar(c)) ==> (SafeIdentifier(key) <==> 0 < |key| < 129)
  {
  }

  predicate SafeIdentifier(key: string) {
    1 <= |key| <= 128 && forall c :: c in key ==> IdentifierChar(c)
  }

  function SafeName(name: string): (r: string)
    ensures |r| == |name| && forall c :: c in r ==> NameChar(c)
    ensures forall i :: 0 <= i < |name| ==> r[i] == if NameChar(name[i]) then name[i] else '_'
    ensures (forall c :: c in name ==> NameChar(c)) ==> r == name
  {
    if name == "" then "" else [if NameChar(name[0]) then name[0] else '_'] + SafeName(name[1..])
  }

  const FIELD_LIMIT := 256

  /** One line, at most 256 characters. */
  function BoundedText(text: string): (r: string)
    ensures |r| <= FIELD_LIMIT && '\n' !in r
  {
    var line := Replace(Replace(text, '\r', [BACKSLASH, 'r']), '\n', [BACKSLASH, 'n']);
    ReplaceRemoves(Replace(text, '\r', [BACKSLASH, 'r']), '\n', [BACKSLASH, 'n'], '\n');
    if |line| <= FIELD_LIMIT then line else line[..FIELD_LIMIT - 3] + "..."
  }

  datatype SeriesKey = SeriesKey(name: string, labels: seq<Label>)
  datatype Series = Series(count: real, total: real)

  predicate CleanLabel(pair: Label) {
    SafeIdentifier(pair.0) && '\n' !in pair.1
  }

  predicate CleanKey(key: SeriesKey) {
    && (forall c :: c in key.name ==> NameChar(c))
    && (forall i :: 0 <= i < |key.labels| ==> CleanLabel(key.labels[i]))
  }

  /** The labels that may appear, redacted and bounded, in the order given. */
  function SafeLabels(labels: seq<Label>, sensitive: string -> bool, redact: string -> string): (r: seq<Label>)
    ensures forall i :: 0 <= i < |r| ==> CleanLabel(r[i])
  {
    if labels == [] then []
    else
      (if SafeIdentifier(labels[0].0) && !sensitive(labels[0].0)
       then [(labels[0].0, BoundedText(redact(labels[0].1)))] else [])
      + SafeLabels(labels[1..], sensitive, redact)
  }

  /** Exactly the labels with a safe key that is not sensitive appear, each with its redacted, bounded value. */
  lemma {:induction false} SafeLabelsAre(labels: seq<Label>, sensitive: string -> bool, redact: string -> string,
                                         pair: Label)
    ensures pair in SafeLabels(labels, sensitive, redact) <==>
      exists i :: 0 <= i < |labels| && SafeIdentifier(labels[i].0) && !sensitive(labels[i].0)
        && pair == (labels[i].0, BoundedText(redact(labels[i].1)))
  {
    if labels != [] {
      var tail := labels[1..];
      SafeLabelsAre(tail, sensitive, redact, pair);
      hide SafeIdentifier, BoundedText;
      forall i | 0 <= i < |tail| ensures tail[i] == labels[i + 1] {
      }
      forall i | 0 < i < |labels| ensures labels[i] == tail[i - 1] {
      }
    }
  }

  /** A short line is kept as it is; a long one keeps its first 253 characters and ends in dots. */
  lemma BoundedTextIs(text: string)
    requires '\n' !in text && '\r' !in text
    ensures |text| <= 256 ==> BoundedText(text) == text
    ensures |text| > 256 ==> BoundedText(text) == text[..253] + "..."
  {
    NothingToReplace(text, '\r', [BACKSLASH, 'r']);
    NothingToReplace(text, '\n', [BACKSLASH, 'n']);
  }

  lemma {:induction false} NothingToReplace(s: string, c: char, with: string)
    requires c !in s
    ensures Replace(s, c, with) == s
  {
    if s != "" {
      NothingToReplace(s[1..], c, with);
      assert s == [s[0]] + s[1..];
    }
  }

  /** A line break shows as the two characters that write it. */
  lemma LineBreaksAreWritten(before: string, after: string)
    requires '\n' !in before && '\r' !in before && '\n' !in after && '\r' !in after && |before| + |after| <= 254
    ensures BoundedText(before + "\n" + after) == before + [BACKSLASH, 'n'] + after
    ensures BoundedText(before + "\r" + after) == before + [BACKSLASH, 'r'] + after
  {
    var (n, r) := ([BACKSLASH, 'n'], [BACKSLASH, 'r']);
    ReplacedAround(before, '\n', after, '\r', r);
    ReplacedAround(before, '\n', after, '\n', n);
    ReplacedAround(before, '\r', after, '\r', r);
    NothingToReplace(before + r + after, '\n', n);
  }

  lemma ReplacedAround(before: string, c: char, after: string, x: char, with: string)
    requires x !in before && x !in after
    ensures Replace(before + [c] + after, x, with) == before + (if c == x then with else [c]) + after
  {
    ReplaceSplits(before + [c], after, x, with);
    ReplaceSplits(before, [c], x, with);
    ReplaceOne(c, x, with);
    NothingToReplace(before, x, with);
    NothingToReplace(after, x, with);
  }

  /** Python's order on (key, value) pairs. */
  predicate LabelAtMost(a: Label, b: Label) {
    if a.0 == b.0 then StringAtMost(a.1, b.1) else StringAtMost(a.0, b.0)
  }

  /** And on (name, labels) pairs. */
  predicate KeyAtMost(a: SeriesKey, b: SeriesKey) {
    if a.name == b.name then Lex(LabelAtMost, a.labels, b.labels) else StringAtMost(a.name, b.name)
  }

  lemma LabelOrderIsTotal()
    ensures TotalOrder(LabelAtMost)
  {
    StringOrderIsTotal();
    hide StringAtMost;
  }

  lemma KeyOrderIsTotal()
    ensures TotalOrder(KeyAtMost)
  {
    StringOrderIsTotal();
    LabelOrderIsTotal();
    LexOrderIsTotal(LabelAtMost);
    hide StringAtMost, LabelAtMost;
    var le := LexOrder(LabelAtMost);
    assert forall a: SeriesKey, b: SeriesKey :: a.name == b.name ==> KeyAtMost(a, b) == le(a.labels, b.labels);
    hide Lex;
  }

  lemma SortedLabelsStayClean(labels: seq<Label>)
    requires forall i :: 0 <= i < |labels| ==> CleanLabel(labels[i])
    ensures forall i :: 0 <= i < |Sorted(LabelAtMost, labels)| ==> CleanLabel(Sorted(LabelAtMost, labels)[i])
  {
    SortedPermutes(LabelAtMost, labels);
    var sorted := Sorted(LabelAtMost, labels);
    hide Sorted, CleanLabel;
    forall i | 0 <= i < |sorted| ensures CleanLabel(sorted[i]) {
      assert sorted[i] in multiset(sorted);
      assert sorted[i] in labels;
    }
  }

  /** The key of a series: a clean name, and the safe labels in sorted order. */
  function KeyOf(name: string, labels: seq<Label>, duration: bool, sensitive: string -> bool, redact: string -> string)
    : (key: SeriesKey)
    ensures CleanKey(key)
  {
    SortedLabelsStayClean(SafeLabels(labels, sensitive, redact));
    SeriesKey(SafeName(name) + if duration then "_seconds" else "",
              Sorted(LabelAtMost, SafeLabels(labels, sensitive, redact)))
  }

  lemma {:induction false} SafeLabelsSplit(a: seq<Label>, b: seq<Label>, sensitive: string -> bool,
                                           redact: string -> string)
    ensures SafeLabels(a + b, sensitive, redact) == SafeLabels(a, sensitive, redact) + SafeLabels(b, sensitive, redact)
  {
    if a == [] {
      assert a + b == b;
    } else {
      assert (a + b)[1..] == a[1..] + b;
      SafeLabelsSplit(a[1..], b, sensitive, redact);
    }
  }

  function Without(labels: seq<Label>, j: nat): (rest: seq<Label>)
    requires j < |labels|
    ensures |rest| == |labels| - 1 && multiset(rest) == multiset(labels) - multiset{labels[j]}
  {
    assert labels == labels[..j] + ([labels[j]] + labels[j + 1..]);
    labels[..j] + labels[j + 1..]
  }

  lemma SplitAround(labels: seq<Label>, j: nat)
    requires j < |labels|
    ensures labels == labels[..j] + ([labels[j]] + labels[j + 1..])
  {
  }

  lemma SafeLabelsWithout(labels: seq<Label>, j: nat, sensitive: string -> bool, redact: string -> string)
    requires j < |labels|
    ensures multiset(SafeLabels(labels, sensitive, redact))
         == multiset(SafeLabels([labels[j]], sensitive, redact))
           + multiset(SafeLabels(Without(labels, j), sensitive, redact))
  {
    hide SafeLabels;
    var a, x, b := labels[..j], [labels[j]], labels[j + 1..];
    SplitAround(labels, j);
    SafeLabelsSplit(a, x + b, sensitive, redact);
    SafeLabelsSplit(x, b, sensitive, redact);
    SafeLabelsSplit(a, b, sensitive, redact);
  }

  lemma {:induction false} SafeLabelsPermute(a: seq<Label>, b: seq<Label>, sensitive: string -> bool,
                                             redact: string -> string)
    requires multiset(a) == multiset(b)
    ensures multiset(SafeLabels(a, sensitive, redact)) == multiset(SafeLabels(b, sensitive, redact))
  {
    assert |multiset(a)| == |a| && |multiset(b)| == |b|;
    if a != [] {
      assert a[0] in multiset(b);
      var j :| 0 <= j < |b| && b[j] == a[0];
      hide SafeLabels;
      SafeLabelsWithout(a, 0, sensitive, redact);
      SafeLabelsWithout(b, j, sensitive, redact);
      SafeLabelsPermute(Without(a, 0), Without(b, j), sensitive, redact);
    }
  }

  /** The order in which labels are passed does not matter: it is the same series. */
  lemma LabelOrderDoesNotMatter(
    name: string, a: seq<Label>, b: seq<Label>, duration: bool, sensitive: string -> bool, redact: string -> string)
    requires multiset(a) == multiset(b)
    ensures KeyOf(name, a, duration, sensitive, redact) == KeyOf(name, b, duration, sensitive, redact)
  {
    SafeLabelsPermute(a, b, sensitive, redact);
    LabelOrderIsTotal();
    SortedIsCanonical(LabelAtMost, SafeLabels(a, sensitive, redact), SafeLabels(b, sensitive, redact));
  }

  class MetricsRegistry {
    const maxSeries: nat
    const sensitive: string -> bool
    const redact: string -> string
    var series: map<SeriesKey, Series>

    ghost predicate Valid()
      reads this
    {
      |series| <= maxSeries && forall key :: key in series ==> CleanKey(key)
    }

    constructor (maxSeries: nat, sensitive: string -> bool, redact: string -> string)
      requires maxSeries >= 1
      ensures Valid() && series == map[]
      ensures this.maxSeries == maxSeries && this.sensitive == sensitive && this.redact == redact
    {
      this.maxSeries, this.sensitive, this.redact, series := maxSeries, sensitive, redact, map[];
    }

    /** A new series beyond the limit is ignored. */
    method Update(name: string, labels: seq<Label>, value: real, duration: bool)
      requires Valid()
      modifies this
      ensures Valid()
      ensures var key := KeyOf(name, labels, duration, sensitive, redact);
        series == if key in old(series) then
                    old(series)[key := Series(old(series)[key].count + 1.0, old(series)[key].total + value)]
                  else if |old(series)| < maxSeries then old(series)[key := Series(1.0, value)]
                  else old(series)
    {
      hide CleanKey, KeyOf;
      var key := KeyOf(name, labels, duration, sensitive, redact);
      if key !in series {
        if |series| >= maxSeries {
          return;
        }
        series := series[key := Series(0.0, 0.0)];
      }
      series := series[key := Series(series[key].count + 1.0, series[key].total + value)];
    }

    /**
      Every series once, in ascending order of its key; whatever was recorded, the page reads the
      text back.
    */
    method RenderPrometheus(show: real -> string) returns (text: string)
      requires Valid()
      ensures text == Rendered(Items(InOrder(series.Keys), series), show)
      ensures (forall x :: Prints(show, x)) ==>
        ParseMetricSample(text) == Shown(Items(InOrder(series.Keys), series), show)
    {
      hide Lines, ParseMetricSample, Shown, CleanKey, Join, KeyAtMost, Sorted, InOrder;
      var keys := ListKeys(series.Keys);
      var sorted := Sorted(KeyAtMost, keys);
      SortedIsInOrder(keys, series.Keys);
      var items := Items(sorted, series);
      var lines := RenderLines(items, show);
      text := Join(lines, "\n") + if lines == [] then "" else "\n";
      if forall x :: Prints(show, x) {
        PageShowsEveryLine(items, show);
      }
    }

    /** The keys of a dictionary in whatever order it has them. */
    static method ListKeys(keys: set<SeriesKey>) returns (order: seq<SeriesKey>)
      ensures multiset(order) == multiset(keys)
    {
      order := [];
      var todo := keys;
      while todo != {}
        invariant todo <= keys && multiset(order) + multiset(todo) == multiset(keys)
        decreases |todo|
      {
        var key :| key in todo;
        order := order + [key];
        todo := todo - {key};
      }
    }

    static method RenderLines(items: seq<Item>, show: real -> string) returns (lines: seq<string>)
      ensures lines == Lines(items, show)
    {
      lines := [];
      for i := 0 to |items|
        invariant lines + Lines(items[i..], show) == Lines(items, show)
      {
        assert items[i..][1..] == items[i + 1..];
        var rendered := RenderItem(items[i], show);
        Regroup(lines, rendered, Lines(items[i + 1..], show));
        lines := lines + rendered;
      }
      assert items[|items|..] == [] && Lines([], show) == [];
    }

    /** A duration series takes two lines. */
    static method RenderItem(item: Item, show: real -> string) returns (lines: seq<string>)
      ensures lines == ItemLines(item, show)
    {
      var name, suffix := item.0.name, FormatLabels(item.0.labels);
      lines := [];
      if EndsWith(name, "_seconds") {
        lines := lines + [name + "_count" + suffix + " " + show(item.1.count)];
        lines := lines + [name + "_sum" + suffix + " " + show(item.1.total)];
      } else {
        lines := lines + [name + suffix + " " + show(item.1.total)];
      }
    }
  }

  ghost function AnyListing(keys: set<SeriesKey>): (order: seq<SeriesKey>)
    ensures multiset(order) == multiset(keys)
  {
    if keys == {} then []
    else
      var key :| key in keys;
      [key] + AnyListing(keys - {key})
  }

  /** The one ascending sequence that holds every key exactly once. */
  ghost function InOrder(keys: set<SeriesKey>): (order: seq<SeriesKey>)
    ensures Ascending(KeyAtMost, order) && multiset(order) == multiset(keys)
    ensures forall key :: key in order <==> key in keys
  {
    KeyOrderIsTotal();
    SortedPermutes(KeyAtMost, AnyListing(keys));
    SortedAscends(KeyAtMost, AnyListing(keys));
    ListsKeys(Sorted(KeyAtMost, AnyListing(keys)), keys);
    Sorted(KeyAtMost, AnyListing(keys))
  }

  lemma SortedIsInOrder(order: seq<SeriesKey>, keys: set<SeriesKey>)
    requires multiset(order) == multiset(keys)
    ensures Sorted(KeyAtMost, order) == InOrder(keys)
  {
    KeyOrderIsTotal();
    SortedIsCanonical(KeyAtMost, order, AnyListing(keys));
  }

  lemma ListsKeys(order: seq<SeriesKey>, keys: set<SeriesKey>)
    requires multiset(order) == multiset(keys)
    ensures forall key :: key in order <==> key in keys
  {
    forall key ensures key in order <==> key in keys {
      assert key in order <==> key in multiset(order);
      assert key in keys <==> key in multiset(keys);
    }
  }

  type Item = (SeriesKey, Series)

  function Items(order: seq<SeriesKey>, series: map<SeriesKey, Series>): (items: seq<Item>)
    requires forall key :: key in order ==> key in series
    ensures |items| == |order| && forall i :: 0 <= i < |items| ==> items[i] == (order[i], series[order[i]])
  {
    seq(|order|, i requires 0 <= i < |order| => (order[i], series[order[i]]))
  }

  function Sample(name: string, labels: seq<Label>): string {
    name + FormatLabels(labels)
  }

  function Line(name: string, labels: seq<Label>, value: string): string {
    Sample(name, labels) + " " + value
  }

  function ItemLines(item: Item, show: real -> string): seq<string> {
    var name, labels := item.0.name, item.0.labels;
    if EndsWith(name, "_seconds") then
      [Line(name + "_count", labels, show(item.1.count)), Line(name + "_sum", labels, show(item.1.total))]
    else
      [Line(name, labels, show(item.1.total))]
  }

  function Lines(items: seq<Item>, show: real -> string): seq<string> {
    if items == [] then [] else ItemLines(items[0], show) + Lines(items[1..], show)
  }

  function Rendered(items: seq<Item>, show: real -> string): string {
    var lines := Lines(items, show);
    Join(lines, "\n") + if lines == [] then "" else "\n"
  }

  // ---------------------------------------------------------------------------
  // The audit page
  // ---------------------------------------------------------------------------

  datatype MetricSample = MetricSample(name: string, labels: string, value: string)

  /** What JavaScript's `trim` removes. */
  predicate JsSpace(c: char) {
    c == ' ' || '\t' <= c <= '\r' || c as int in {0xA0, 0x1680, 0x2028, 0x2029, 0x202F, 0x205F, 0x3000, 0xFEFF}
    || 0x2000 <= c as int <= 0x200A
  }

  /** The white space of that function at its borders. */
  lemma SpaceBorders()
    ensures JsSpace(' ') && JsSpace('\t') && JsSpace('\r') && JsSpace('\U{00A0}') && JsSpace('\U{1680}')
    ensures JsSpace('\U{2000}') && JsSpace('\U{200A}') && JsSpace('\U{FEFF}') && JsSpace('\U{3000}')
    ensures forall c :: c in "0123456789.+-einfa{}=#" ==> !JsSpace(c)
    ensures !JsSpace('\U{1FFF}') && !JsSpace('\U{200B}') && !JsSpace('\U{0008}') && !JsSpace('\U{000E}')
  {
  }

  predicate Skipped(line: string) {
    (forall c :: c in line ==> JsSpace(c)) || (line != "" && line[0] == '#')
  }

  function ParseLine(line: string): Option<MetricSample> {
    var separator := LastIndexOf(line, ' ');
    if separator <= 0 then None else ParseSample(line[..separator], line[separator + 1..])
  }

  function ParseSample(sample: string, value: string): Option<MetricSample> {
    var openLabel, closeLabel := IndexOf(sample, '{'), LastIndexOf(sample, '}');
    if openLabel == |sample| then Some(MetricSample(sample, "", value))
    else if closeLabel == -1 || closeLabel < openLabel then None
    else Some(MetricSample(sample[..openLabel], sample[openLabel + 1..closeLabel], value))
  }

  function ParseLines(lines: seq<string>): seq<MetricSample> {
    if lines == [] then []
    else
      var sample := if Skipped(lines[0]) then None else ParseLine(lines[0]);
      (if sample.Some? then [sample.value] else []) + ParseLines(lines[1..])
  }

  function ParseMetricSample(text: string): seq<MetricSample> {
    ParseLines(Split(text, '\n'))
  }

  /** Blank lines and comments are passed over, and any other line is parsed by itself. */
  lemma LinesAreReadAlone(line: string, rest: seq<string>)
    ensures line == "" || line[0] == '#' ==> ParseLines([line] + rest) == ParseLines(rest)
    ensures (forall c :: c in line ==> c == ' ' || c == '\t' || c == '\r') ==>
      ParseLines([line] + rest) == ParseLines(rest)
    ensures line != "" && line[0] != '#' && !JsSpace(line[0]) ==>
      ParseLines([line] + rest)
      == (if ParseLine(line).Some? then [ParseLine(line).value] else []) + ParseLines(rest)
  {
    assert ([line] + rest)[1..] == rest;
    assert line != "" ==> line[0] in line;
    hide ParseLine;
  }

  /** A line without a blank, or that begins with its only one, and braces in the wrong order give nothing. */
  lemma MalformedLinesAreDropped(line: string, name: string, inner: string, value: string)
    ensures ' ' !in line ==> ParseLine(line).None?
    ensures ' ' !in value ==> ParseLine(" " + value).None?
    ensures '{' !in name && '}' !in inner && '}' !in name ==> ParseSample(name + "{" + inner, value).None?
  {
    if ' ' !in line {
      assert forall i :: 0 <= i < |line| ==> line[i] in line;
    }
    if ' ' !in value {
      LastIndexOfIs("", ' ', value);
      assert "" + [' '] + value == " " + value;
    }
    if '{' !in name && '}' !in inner && '}' !in name {
      var s := name + "{" + inner;
      IndexOfIs(name, '{', inner);
      var n := LastIndexOf(s, '}');
      assert n >= 0 ==> s[n] == '}';
      assert forall i :: 0 <= i < |name| ==> s[i] == name[i] && name[i] in name;
      assert forall i :: |name| < i < |s| ==> s[i] == inner[i - |name| - 1] && inner[i - |name| - 1] in inner;
    }
  }

  // ---------------------------------------------------------------------------
  // Printing and parsing
  // ---------------------------------------------------------------------------

  /** A printed number: visible and without blanks. */
  predicate Number(value: string) {
    value != "" && forall c :: c in value ==> !JsSpace(c)
  }

  predicate Prints(show: real -> string, x: real) {
    Number(show(x))
  }

  function ItemSamples(item: Item, show: real -> string): seq<MetricSample> {
    var name, labels := item.0.name, LabelText(item.0.labels);
    if EndsWith(name, "_seconds") then
      [MetricSample(name + "_count", labels, show(item.1.count)),
       MetricSample(name + "_sum", labels, show(item.1.total))]
    else
      [MetricSample(name, labels, show(item.1.total))]
  }

  /** The one kind of series the page cannot show: no name and no labels. */
  predicate Nameless(item: Item) {
    item.0.name == "" && item.0.labels == []
  }

  function Shown(items: seq<Item>, show: real -> string): seq<MetricSample> {
    if items == [] then []
    else (if Nameless(items[0]) then [] else ItemSamples(items[0], show)) + Shown(items[1..], show)
  }

  lemma {:induction false} LabelTextIsOneLine(labels: seq<Label>)
    requires forall i :: 0 <= i < |labels| ==> CleanLabel(labels[i])
    ensures '\n' !in LabelText(labels)
  {
    if labels != [] {
      var pair := labels[0];
      assert CleanLabel(pair);
      ReplaceRemoves(pair.1, BACKSLASH, [BACKSLASH, BACKSLASH], '\n');
      ReplaceRemoves(Replace(pair.1, BACKSLASH, [BACKSLASH, BACKSLASH]), QUOTE, [BACKSLASH, QUOTE], '\n');
      assert '\n' !in pair.0;
      assert '\n' !in FormatLabel(pair);
      LabelTextIsOneLine(labels[1..]);
    }
  }

  lemma OpenBrace(name: string, labels: seq<Label>)
    requires '{' !in name
    ensures IndexOf(Sample(name, labels), '{') == |name|
  {
    if labels == [] {
      assert Sample(name, labels) == name;
      assert '{' !in Sample(name, labels);
    } else {
      assert Sample(name, labels) == name + ['{'] + (LabelText(labels) + "}");
      IndexOfIs(name, '{', LabelText(labels) + "}");
    }
  }

  lemma Braced(name: string, inner: string)
    ensures var s := name + ("{" + inner + "}");
      && LastIndexOf(s, '}') == |s| - 1
      && |name| + 1 <= |s| - 1 && s[|name| + 1..|s| - 1] == inner
  {
    var s := name + ("{" + inner + "}");
    assert s[|s| - 1] == '}';
    LastIndexOfAt(s, '}', |s| - 1);
  }

  lemma CloseBrace(name: string, labels: seq<Label>)
    requires labels != []
    ensures var sample := Sample(name, labels);
      && LastIndexOf(sample, '}') == |sample| - 1
      && |name| + 1 <= |sample| - 1 && sample[|name| + 1..|sample| - 1] == LabelText(labels)
  {
    Braced(name, LabelText(labels));
  }

  lemma CutAt(a: string, c: char, b: string)
    ensures (a + [c] + b)[..|a|] == a && (a + [c] + b)[|a| + 1..] == b
  {
  }

  lemma SampleIsParsed(name: string, labels: seq<Label>, value: string)
    requires '{' !in name
    ensures ParseSample(Sample(name, labels), value) == Some(MetricSample(name, LabelText(labels), value))
  {
    var sample := Sample(name, labels);
    assert sample[..|name|] == name;
    assert labels == [] ==> sample == name;
    OpenBrace(name, labels);
    if labels != [] {
      CloseBrace(name, labels);
    }
    hide Sample, FormatLabels, IndexOf, LastIndexOf;
  }

  lemma LineIsParsed(name: string, labels: seq<Label>, value: string)
    requires '{' !in name && ' ' !in value
    ensures ParseLine(Line(name, labels, value))
      == if name == "" && labels == [] then None else Some(MetricSample(name, LabelText(labels), value))
  {
    var sample := Sample(name, labels);
    assert sample == "" <==> name == "" && labels == [];
    SampleIsParsed(name, labels, value);
    hide Sample, ParseSample, LabelText, LastIndexOf;
    LastIndexOfIs(sample, ' ', value);
    CutAt(sample, ' ', value);
  }

  lemma LineIsKept(name: string, labels: seq<Label>, value: string)
    requires '#' !in name && Number(value)
    ensures !Skipped(Line(name, labels, value))
  {
    var line := Line(name, labels, value);
    assert line[|line| - 1] == value[|value| - 1] && !JsSpace(line[|line| - 1]);
    if name != "" {
      assert line[0] == name[0];
    } else if labels != [] {
      assert line[0] == '{';
    }
  }

  /** One line: dropped exactly when it has neither name nor labels, and otherwise recovered. */
  lemma LineReadsBack(name: string, labels: seq<Label>, value: string)
    requires CleanKey(SeriesKey(name, labels)) && Number(value)
    ensures '\n' !in Line(name, labels, value)
    ensures !Skipped(Line(name, labels, value))
    ensures ParseLine(Line(name, labels, value))
      == if name == "" && labels == [] then None else Some(MetricSample(name, LabelText(labels), value))
  {
    assert !NameChar('{') && !NameChar('\n') && !NameChar('#');
    assert JsSpace(' ') && JsSpace('\n');
    LabelTextIsOneLine(labels);
    assert '\n' !in FormatLabels(labels);
    assert '\n' !in Line(name, labels, value);
    hide Line, Sample, LabelText, ParseLine, Skipped;
    LineIsKept(name, labels, value);
    LineIsParsed(name, labels, value);
  }

  lemma OneLineParses(line: string)
    ensures ParseLines([line]) == if Skipped(line) || ParseLine(line).None? then [] else [ParseLine(line).value]
  {
    assert [line][1..] == [];
  }

  lemma TwoLinesParse(first: string, second: string, a: MetricSample, b: MetricSample)
    requires !Skipped(first) && ParseLine(first) == Some(a)
    requires !Skipped(second) && ParseLine(second) == Some(b)
    ensures ParseLines([first, second]) == [a, b]
  {
    var lines := [first, second];
    OneLineParses(second);
    assert lines[1..] == [second];
    assert ParseLines(lines) == [a] + ParseLines(lines[1..]);
  }

  lemma SuffixedKey(name: string, labels: seq<Label>, suffix: string)
    requires CleanKey(SeriesKey(name, labels)) && suffix != "" && forall c :: c in suffix ==> NameChar(c)
    ensures CleanKey(SeriesKey(name + suffix, labels)) && name + suffix != ""
  {
  }

  lemma DurationReadsBack(item: Item, show: real -> string)
    requires CleanKey(item.0) && Prints(show, item.1.count) && Prints(show, item.1.total)
    requires EndsWith(item.0.name, "_seconds")
    ensures ParseLines(ItemLines(item, show)) == ItemSamples(item, show)
    ensures forall line :: line in ItemLines(item, show) ==> '\n' !in line
  {
    var name, labels := item.0.name, item.0.labels;
    var lines, samples := ItemLines(item, show), ItemSamples(item, show);
    SuffixedKey(name, labels, "_count");
    SuffixedKey(name, labels, "_sum");
    hide CleanKey, Line, LabelText, ParseLine, ParseLines, Skipped, EndsWith;
    LineReadsBack(name + "_count", labels, show(item.1.count));
    LineReadsBack(name + "_sum", labels, show(item.1.total));
    TwoLinesParse(lines[0], lines[1], samples[0], samples[1]);
  }

  lemma CounterReadsBack(item: Item, show: real -> string)
    requires CleanKey(item.0) && Prints(show, item.1.total) && !EndsWith(item.0.name, "_seconds")
    ensures ParseLines(ItemLines(item, show)) == if Nameless(item) then [] else ItemSamples(item, show)
    ensures forall line :: line in ItemLines(item, show) ==> '\n' !in line
  {
    var name, labels := item.0.name, item.0.labels;
    hide CleanKey, Line, LabelText, ParseLine, ParseLines, Skipped, EndsWith;
    OneLineParses(Line(name, labels, show(item.1.total)));
    LineReadsBack(name, labels, show(item.1.total));
  }

  lemma ItemReadsBack(item: Item, show: real -> string)
    requires CleanKey(item.0) && Prints(show, item.1.count) && Prints(show, item.1.total)
    ensures ParseLines(ItemLines(item, show)) == if Nameless(item) then [] else ItemSamples(item, show)
    ensures forall line :: line in ItemLines(item, show) ==> '\n' !in line
  {
    assert Nameless(item) ==> !EndsWith(item.0.name, "_seconds");
    hide CleanKey, ItemLines, ItemSamples, ParseLines, EndsWith;
    if EndsWith(item.0.name, "_seconds") {
      DurationReadsBack(item, show);
    } else {
      CounterReadsBack(item, show);
    }
  }

  lemma {:induction false} ParseLinesSplits(a: seq<string>, b: seq<string>)
    ensures ParseLines(a + b) == ParseLines(a) + ParseLines(b)
  {
    if a == [] {
      assert a + b == b;
    } else {
      assert (a + b)[1..] == a[1..] + b;
      ParseLinesSplits(a[1..], b);
    }
  }

  ghost predicate Printable(items: seq<Item>, show: real -> string) {
    forall i :: 0 <= i < |items| ==>
      CleanKey(items[i].0) && Prints(show, items[i].1.count) && Prints(show, items[i].1.total)
  }

  lemma {:induction false} LinesReadBack(items: seq<Item>, show: real -> string)
    requires Printable(items, show)
    ensures ParseLines(Lines(items, show)) == Shown(items, show)
    ensures forall line :: line in Lines(items, show) ==> '\n' !in line
  {
    if items != [] {
      ItemReadsBack(items[0], show);
      LinesReadBack(items[1..], show);
      ParseLinesSplits(ItemLines(items[0], show), Lines(items[1..], show));
    }
  }

  /**
    The page recovers name, label text and value of every rendered line in order, except for the
    lines of a series without name and labels.
  */
  lemma PageShowsEveryLine(items: seq<Item>, show: real -> string)
    requires Printable(items, show)
    ensures ParseMetricSample(Rendered(items, show)) == Shown(items, show)
  {
    var lines := Lines(items, show);
    LinesReadBack(items, show);
    SplitOfTerminated(lines, '\n');
    if lines != [] {
      ParseLinesSplits(lines, [""]);
    }
    assert ParseLines([""]) == [];
  }

  function AllSamples(items: seq<Item>, show: real -> string): seq<MetricSample> {
    if items == [] then [] else ItemSamples(items[0], show) + AllSamples(items[1..], show)
  }

  lemma {:induction false} ShownIsAllOrLess(items: seq<Item>, show: real -> string)
    ensures |Shown(items, show)| <= |AllSamples(items, show)|
    ensures Shown(items, show) == AllSamples(items, show) <==> forall i :: 0 <= i < |items| ==> !Nameless(items[i])
    ensures |Shown(items, show)| == |AllSamples(items, show)| ==> forall i :: 0 <= i < |items| ==> !Nameless(items[i])
  {
    if items != [] {
      ShownIsAllOrLess(items[1..], show);
      if Nameless(items[0]) {
        assert |AllSamples(items, show)| > |Shown(items, show)|;
      } else {
        var head := ItemSamples(items[0], show);
        assert (head + Shown(items[1..], show))[|head|..] == Shown(items[1..], show);
        assert (head + AllSamples(items[1..], show))[|head|..] == AllSamples(items[1..], show);
        if forall i :: 0 <= i < |items[1..]| ==> !Nameless(items[1..][i]) {
          assert forall i :: 0 < i < |items| ==> items[i] == items[1..][i - 1];
        }
      }
    }
  }

  /** Nothing is lost on the page exactly when no series lacks both name and labels. */
  lemma PageIsCompleteIff(items: seq<Item>, show: real -> string)
    requires Printable(items, show)
    ensures ParseMetricSample(Rendered(items, show)) == AllSamples(items, show)
      <==> forall i :: 0 <= i < |items| ==> !Nameless(items[i])
  {
    PageShowsEveryLine(items, show);
    ShownIsAllOrLess(items, show);
  }

  lemma CleanKeysHaveNoEquals(key: SeriesKey)
    requires CleanKey(key)
    ensures KeysWithoutEquals(key.labels) && '{' !in key.name
  {
    assert !IdentifierChar('=') && !NameChar('{');
    forall i | 0 <= i < |key.labels| ensures '=' !in key.labels[i].0 {
      assert CleanLabel(key.labels[i]);
    }
  }

  /** The text printed for a name and its labels determines both. */
  lemma SampleTextIsInjective(a: SeriesKey, b: SeriesKey)
    requires CleanKey(a) && CleanKey(b)
    requires Sample(a.name, a.labels) == Sample(b.name, b.labels)
    ensures a == b
  {
    CleanKeysHaveNoEquals(a);
    CleanKeysHaveNoEquals(b);
    OpenBrace(a.name, a.labels);
    OpenBrace(b.name, b.labels);
    assert Sample(a.name, a.labels)[..|a.name|] == a.name;
    assert Sample(b.name, b.labels)[..|b.name|] == b.name;
    assert Sample(a.name, a.labels)[|a.name|..] == FormatLabels(a.labels);
    assert Sample(b.name, b.labels)[|b.name|..] == FormatLabels(b.labels);
    LabelsAreInjective(a.labels, b.labels);
  }

  // ---------------------------------------------------------------------------
  // When two series print the same name and labels
  // ---------------------------------------------------------------------------

  /** The names under which a series is printed. */
  function PrintedNames(name: string): seq<string> {
    if EndsWith(name, "_seconds") then [name + "_count", name + "_sum"] else [name]
  }

  /** Some line of one series shows the same name and label text as some line of the other. */
  ghost predicate PrintAlike(a: Item, b: Item, show: real -> string) {
    exists s, t :: s in ItemSamples(a, show) && t in ItemSamples(b, show) && s.name == t.name && s.labels == t.labels
  }

  /** `other` is the name of a line of the duration series `name`. */
  predicate LineOf(name: string, other: string) {
    EndsWith(name, "_seconds") && (other == name + "_count" || other == name + "_sum")
  }

  lemma SamplesByName(item: Item, show: real -> string)
    ensures forall n :: n in PrintedNames(item.0.name) <==>
      exists s :: s in ItemSamples(item, show) && s.name == n && s.labels == LabelText(item.0.labels)
    ensures forall s :: s in ItemSamples(item, show) ==>
      s.name in PrintedNames(item.0.name) && s.labels == LabelText(item.0.labels)
  {
    var names, samples := PrintedNames(item.0.name), ItemSamples(item, show);
    hide LabelText;
    assert |names| == |samples| && forall i :: 0 <= i < |names| ==> samples[i].name == names[i];
    forall n | n in names ensures exists s :: s in samples && s.name == n && s.labels == LabelText(item.0.labels) {
      var i :| 0 <= i < |names| && names[i] == n;
      assert samples[i] in samples;
    }
  }

  lemma LastChars(name: string)
    ensures !EndsWith(name + "_count", "_seconds") && !EndsWith(name + "_sum", "_seconds")
    ensures forall other: string :: name + "_count" != other + "_sum"
  {
    var c, u := name + "_count", name + "_sum";
    assert c[|c| - 1] == 't' && u[|u| - 1] == 'm';
    assert |c| >= 8 ==> c[|c| - 8..][7] == 't';
    assert |u| >= 8 ==> u[|u| - 8..][7] == 'm';
    assert "_seconds"[7] == 's';
    forall other: string ensures c != other + "_sum" {
      assert (other + "_sum")[|other + "_sum"| - 1] == 'm';
    }
  }

  lemma SuffixCancels(a: string, b: string, suffix: string)
    requires a + suffix == b + suffix
    ensures a == b
  {
    assert |a| == |b|;
    assert (a + suffix)[..|a|] == a && (b + suffix)[..|b|] == b;
  }

  lemma PrintedAre(name: string)
    ensures forall n :: n in PrintedNames(name) <==>
      if EndsWith(name, "_seconds") then n == name + "_count" || n == name + "_sum" else n == name
  {
    hide EndsWith;
  }

  lemma SharedName(a: string, b: string, n: string)
    requires n in PrintedNames(a) && n in PrintedNames(b)
    ensures a == b || LineOf(a, b) || LineOf(b, a)
  {
    PrintedAre(a);
    PrintedAre(b);
    LastChars(a);
    LastChars(b);
    hide PrintedNames, EndsWith;
    if n == a + "_count" == b + "_count" {
      SuffixCancels(a, b, "_count");
    } else if n == a + "_sum" == b + "_sum" {
      SuffixCancels(a, b, "_sum");
    }
  }

  lemma LinesAreShared(a: string, b: string) returns (n: string)
    requires a == b || LineOf(a, b) || LineOf(b, a)
    ensures n in PrintedNames(a) && n in PrintedNames(b)
  {
    PrintedAre(a);
    PrintedAre(b);
    LastChars(a);
    LastChars(b);
    hide PrintedNames, EndsWith;
    n := if LineOf(a, b) then b else if LineOf(b, a) then a else if EndsWith(a, "_seconds") then a + "_count" else a;
  }

  lemma SharedNames(a: string, b: string)
    ensures (exists n :: n in PrintedNames(a) && n in PrintedNames(b)) <==> a == b || LineOf(a, b) || LineOf(b, a)
  {
    hide PrintedNames, LineOf;
    if n :| n in PrintedNames(a) && n in PrintedNames(b) {
      SharedName(a, b, n);
    }
    if a == b || LineOf(a, b) || LineOf(b, a) {
      var n := LinesAreShared(a, b);
    }
  }

  lemma LabelTextIsInjective(a: SeriesKey, b: SeriesKey)
    requires CleanKey(a) && CleanKey(b) && LabelText(a.labels) == LabelText(b.labels)
    ensures a.labels == b.labels
  {
    CleanKeysHaveNoEquals(a);
    CleanKeysHaveNoEquals(b);
    if a.labels != [] {
      LabelsReadBack(a.labels);
    }
    if b.labels != [] {
      LabelsReadBack(b.labels);
    }
    assert ReadLabels("") == None;
  }

  /**
    Two different series of a registry print a line with the same name and labels if and only if
    their labels are equal and one is a duration series and the other carries the name of one of
    its two lines.
  */
  lemma SeriesPrintAlikeIff(a: Item, b: Item, show: real -> string)
    requires CleanKey(a.0) && CleanKey(b.0) && a.0 != b.0
    ensures PrintAlike(a, b, show)
      <==> a.0.labels == b.0.labels && (LineOf(a.0.name, b.0.name) || LineOf(b.0.name, a.0.name))
  {
    SamplesByName(a, show);
    SamplesByName(b, show);
    SharedNames(a.0.name, b.0.name);
    if LabelText(a.0.labels) == LabelText(b.0.labels) {
      LabelTextIsInjective(a.0, b.0);
    }
    hide ItemSamples, PrintedNames, LineOf, LabelText, CleanKey;
  }

  /** Observing "x" and incrementing "x_seconds_count" makes two such series. */
  lemma CounterCollidesWithDuration(sensitive: string -> bool, redact: string -> string, s: Series, t: Series,
                                    show: real -> string)
    ensures var (a, b) := (KeyOf("x", [], true, sensitive, redact),
                           KeyOf("x_seconds_count", [], false, sensitive, redact));
      a != b && PrintAlike((a, s), (b, t), show)
  {
    PlainKey("x", true, sensitive, redact);
    PlainKey("x_seconds_count", false, sensitive, redact);
    CollidingNames();
    var a, b := KeyOf("x", [], true, sensitive, redact), KeyOf("x_seconds_count", [], false, sensitive, redact);
    hide KeyOf, ItemSamples, PrintAlike, CleanKey, LineOf;
    SeriesPrintAlikeIff((a, s), (b, t), show);
  }

  lemma CollidingNames()
    ensures "x" + "_seconds" != "x_seconds_count" + "" && LineOf("x" + "_seconds", "x_seconds_count" + "")
  {
    var a, b := "x" + "_seconds", "x_seconds_count" + "";
    assert |a| != |b| && a[1..] == "_seconds";
    assert a + "_count" == b;
  }

  /** A clean name without labels is its own key. */
  lemma PlainKey(name: string, duration: bool, sensitive: string -> bool, redact: string -> string)
    requires name == "x" || name == "x_seconds_count"
    ensures KeyOf(name, [], duration, sensitive, redact) == SeriesKey(name + if duration then "_seconds" else "", [])
  {
    forall c | c in name ensures NameChar(c) {
    }
  }
}
