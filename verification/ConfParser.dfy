/** Loading and printing a configuration: options, each with its keys and values. */
module ConfParser {
  import opened Text

  type Items = map<string, string>
  type Conf = map<string, Items>

  datatype Status = Fine | BadOption | BadItem

  /** What loading has built so far, and the option that items now belong to. */
  datatype Progress = Progress(conf: Conf, option: string)

  datatype Outcome = Outcome(at: Progress, status: Status)

  function Put(conf: Conf, option: string, key: string, value: string): Conf {
    conf[option := (if option in conf then conf[option] else map[])[key := value]]
  }

  // ---------- loading ----------

  /** One line: blank lines and comments are skipped, a bracketed line changes the option, and any
      other line must have exactly one '='. */
  function LoadLine(p: Progress, raw: string): Outcome {
    var line := Trim(raw);
    if line == [] || line[0] == '#' then Outcome(p, Fine)
    else if line[0] == '[' then
      var pos := Find(line, ']');
      if pos == |line| then Outcome(p, BadOption)
      else Outcome(p.(option := line[1..pos]), Fine)
    else
      var pair := Split(line, '=');
      if |pair| != 2 then Outcome(p, BadItem)
      else Outcome(p.(conf := Put(p.conf, p.option, Trim(pair[0]), Trim(pair[1]))), Fine)
  }

  /** The lines in order, up to the first bad one. */
  function LoadLines(p: Progress, lines: seq<string>): Outcome
    decreases |lines|
  {
    if lines == [] then Outcome(p, Fine)
    else
      var o := LoadLine(p, lines[0]);
      if o.status.Fine? then LoadLines(o.at, lines[1..]) else o
  }

  function LoadText(conf: Conf, text: string): Outcome {
    LoadLines(Progress(conf, ""), Lines(text))
  }

  // ---------- printing ----------

  /** The order in which an unordered map happens to be iterated: its options, each with its keys. */
  datatype Section = Section(option: string, keys: seq<string>)

  ghost predicate Distinct<T>(s: seq<T>) {
    forall i, j :: 0 <= i < j < |s| ==> s[i] != s[j]
  }

  /** keys lists every key of items once. */
  ghost predicate ListsKeys(items: Items, keys: seq<string>) {
    Distinct(keys) && forall k :: k in keys <==> k in items
  }

  function Options(order: seq<Section>): seq<string> {
    if order == [] then [] else [order[0].option] + Options(order[1..])
  }

  /** order lists every option of conf once, each with all its keys. */
  ghost predicate Enumerates(conf: Conf, order: seq<Section>) {
    && Distinct(Options(order))
    && (forall o :: o in Options(order) <==> o in conf)
    && Lists(conf, order)
  }

  ghost predicate Lists(conf: Conf, order: seq<Section>) {
    forall s :: s in order ==> s.option in conf && ListsKeys(conf[s.option], s.keys)
  }

  function ItemLines(items: Items, keys: seq<string>): seq<string>
    requires forall k :: k in keys ==> k in items
  {
    if keys == [] then [] else [keys[0] + " = " + items[keys[0]]] + ItemLines(items, keys[1..])
  }

  function SectionLines(conf: Conf, s: Section): seq<string>
    requires s.option in conf && ListsKeys(conf[s.option], s.keys)
  {
    ["[" + s.option + "]"] + ItemLines(conf[s.option], s.keys)
  }

  function PrintLines(conf: Conf, order: seq<Section>): seq<string>
    requires Lists(conf, order)
  {
    if order == [] then []
    else
      assert order[0] in order;
      SectionLines(conf, order[0]) + PrintLines(conf, order[1..])
  }

  /** The text that operator<< writes: a header, and the options or the notice that there are none. */
  function Output(path: string, conf: Conf, order: seq<Section>): string
    requires Lists(conf, order)
  {
    Header(path) + "\n" + (if conf == map[] then NOTICE else Print(conf, order))
  }

  function Header(path: string): string {
    "Configure information (" + path + "): "
  }

  const NOTICE: string := "No elements."

  /** The body of that text. */
  function Print(conf: Conf, order: seq<Section>): string
    requires Lists(conf, order)
  {
    Unlines(PrintLines(conf, order))
  }

  // ---------- well-formed configurations ----------

  predicate GoodKey(k: string) {
    Trimmed(k) && '=' !in k && '\n' !in k && (k != [] ==> k[0] != '#' && k[0] != '[')
  }

  predicate GoodValue(v: string) {
    Trimmed(v) && '=' !in v && '\n' !in v
  }

  predicate GoodOption(o: string) {
    ']' !in o && '\n' !in o
  }

  ghost predicate GoodItems(items: Items) {
    items != map[] && forall k :: k in items ==> GoodKey(k) && GoodValue(items[k])
  }

  ghost predicate WellFormed(conf: Conf) {
    forall o :: o in conf ==> GoodOption(o) && GoodItems(conf[o])
  }

  // ---------- loading yields only well-formed configurations ----------

  lemma LoadLineGood(p: Progress, raw: string)
    requires WellFormed(p.conf) && GoodOption(p.option) && '\n' !in raw
    ensures WellFormed(LoadLine(p, raw).at.conf) && GoodOption(LoadLine(p, raw).at.option)
  {
    var line := Trim(raw);
    TrimFacts(raw);
    if line != [] && line[0] != '#' && line[0] != '[' && |Split(line, '=')| == 2 {
      ItemGood(line);
      PutGood(p.conf, p.option, Trim(Split(line, '=')[0]), Trim(Split(line, '=')[1]));
    }
  }

  lemma PutGood(conf: Conf, option: string, k: string, v: string)
    requires WellFormed(conf) && GoodOption(option) && GoodKey(k) && GoodValue(v)
    ensures WellFormed(Put(conf, option, k, v))
  {
    var items := Put(conf, option, k, v)[option];
    assert k in items;
    assert GoodItems(items);
  }

  lemma ItemGood(line: string)
    requires Trimmed(line) && '\n' !in line && line != [] && line[0] != '#' && line[0] != '['
    requires |Split(line, '=')| == 2
    ensures GoodKey(Trim(Split(line, '=')[0])) && GoodValue(Trim(Split(line, '=')[1]))
  {
    var pair := Split(line, '=');
    SplitTwo(line, '=');
    TrimFacts(pair[0]);
    TrimFacts(pair[1]);
    if pair[0] != [] { assert pair[0][0] == line[0]; }
    forall c | c in pair[0] || c in pair[1] ensures c in line { }
  }

  lemma {:induction false} LoadLinesGood(p: Progress, lines: seq<string>)
    requires WellFormed(p.conf) && GoodOption(p.option) && forall l :: l in lines ==> '\n' !in l
    ensures WellFormed(LoadLines(p, lines).at.conf)
    decreases |lines|
  {
    if lines != [] {
      LoadLineGood(p, lines[0]);
      if LoadLine(p, lines[0]).status.Fine? {
        LoadLinesGood(LoadLine(p, lines[0]).at, lines[1..]);
      }
    }
  }

  /** Whatever the text, accepted or not, loading leaves a well-formed configuration well-formed. */
  lemma LoadTextGood(conf: Conf, text: string)
    requires WellFormed(conf)
    ensures WellFormed(LoadText(conf, text).at.conf)
  {
    LinesAreLines(text);
    LoadLinesGood(Progress(conf, ""), Lines(text));
  }

  // ---------- printing undone by loading ----------

  lemma OptionLine(p: Progress, o: string)
    requires GoodOption(o)
    ensures LoadLine(p, "[" + o + "]") == Outcome(p.(option := o), Fine)
  {
    var line := "[" + o + "]";
    TrimFacts(line);
    assert line[..|o| + 1] == "[" + o;
    FindIs(line, ']', |o| + 1);
    assert line[1..|o| + 1] == o;
  }

  lemma ItemLine(p: Progress, k: string, v: string)
    requires GoodKey(k) && GoodValue(v)
    ensures LoadLine(p, k + " = " + v) == Outcome(p.(conf := Put(p.conf, p.option, k, v)), Fine)
  {
    var raw := k + " = " + v;
    var left := if k == [] then "" else k + " ";
    var right := if v == [] then "" else " " + v;
    TrimItem(k, v, left, right);
    var line := left + "=" + right;
    assert line[0] != '#' && line[0] != '[';
    SplitAt(left, right, '=');
    SplitNone(right, '=');
    TrimPadded(k);
    TrimPadded(v);
  }

  /** Trimming a printed item takes the blank next to an empty key or value, and nothing else. */
  lemma TrimItem(k: string, v: string, left: string, right: string)
    requires Trimmed(k) && Trimmed(v)
    requires left == (if k == [] then "" else k + " ") && right == (if v == [] then "" else " " + v)
    ensures Trim(k + " = " + v) == left + "=" + right
  {
    TrimItemRight(k, v, right);
    TrimItemLeft(k, k + " =" + right, left, right);
  }

  lemma TrimItemLeft(k: string, body: string, left: string, right: string)
    requires Trimmed(k) && left == (if k == [] then "" else k + " ") && body == k + " =" + right
    ensures TrimLeft(body) == left + "=" + right
  {
    var line := left + "=" + right;
    TrimLeftFacts(line);
    if k == [] {
      assert body[0] == ' ' && body[1..] == line;
    } else {
      assert body == line;
    }
  }

  lemma TrimItemRight(k: string, v: string, right: string)
    requires Trimmed(v) && right == (if v == [] then "" else " " + v)
    ensures TrimRight(k + " = " + v) == k + " =" + right
  {
    var raw, body := k + " = " + v, k + " =" + right;
    TrimRightFacts(body);
    if v == [] {
      assert raw[..|raw| - 1] == body;
    } else {
      assert raw == body;
    }
  }

  lemma {:induction false} LoadAppend(p: Progress, a: seq<string>, b: seq<string>)
    requires LoadLines(p, a).status.Fine?
    ensures LoadLines(p, a + b) == LoadLines(LoadLines(p, a).at, b)
    decreases |a|
  {
    if a == [] {
      assert a + b == b;
    } else {
      assert (a + b)[0] == a[0] && (a + b)[1..] == a[1..] + b;
      LoadAppend(LoadLine(p, a[0]).at, a[1..], b);
    }
  }

  /** Items set one by one. */
  function PutAll(conf: Conf, option: string, items: Items, keys: seq<string>): Conf
    requires forall k :: k in keys ==> k in items
    decreases |keys|
  {
    if keys == [] then conf else PutAll(Put(conf, option, keys[0], items[keys[0]]), option, items, keys[1..])
  }

  lemma {:induction false} ItemLinesLoad(p: Progress, items: Items, keys: seq<string>)
    requires forall k :: k in keys ==> k in items && GoodKey(k) && GoodValue(items[k])
    ensures LoadLines(p, ItemLines(items, keys)) == Outcome(p.(conf := PutAll(p.conf, p.option, items, keys)), Fine)
    decreases |keys|
  {
    if keys != [] {
      ItemLine(p, keys[0], items[keys[0]]);
      assert ItemLines(items, keys)[1..] == ItemLines(items, keys[1..]);
      ItemLinesLoad(p.(conf := Put(p.conf, p.option, keys[0], items[keys[0]])), items, keys[1..]);
    }
  }

  function Overlay(old_: Items, items: Items, keys: seq<string>): Items
    requires forall k :: k in keys ==> k in items
    decreases |keys|
  {
    if keys == [] then old_ else Overlay(old_[keys[0] := items[keys[0]]], items, keys[1..])
  }

  lemma {:induction false} PutAllIs(conf: Conf, option: string, items: Items, keys: seq<string>)
    requires option in conf && forall k :: k in keys ==> k in items
    ensures PutAll(conf, option, items, keys) == conf[option := Overlay(conf[option], items, keys)]
    decreases |keys|
  {
    if keys != [] { PutAllIs(Put(conf, option, keys[0], items[keys[0]]), option, items, keys[1..]); }
  }

  lemma {:induction false} OverlayAt(old_: Items, items: Items, keys: seq<string>, k: string)
    requires forall k :: k in keys ==> k in items
    ensures k in Overlay(old_, items, keys) <==> k in old_ || k in keys
    ensures k in Overlay(old_, items, keys) ==>
              Overlay(old_, items, keys)[k] == if k in keys then items[k] else old_[k]
    decreases |keys|
  {
    if keys != [] { OverlayAt(old_[keys[0] := items[keys[0]]], items, keys[1..], k); }
  }

  function ItemsIn(conf: Conf, option: string): Items {
    if option in conf then conf[option] else map[]
  }

  /** Setting items one by one puts all of them on top of those that the option has. */
  lemma PutAllOver(conf: Conf, option: string, items: Items, keys: seq<string>)
    requires ListsKeys(items, keys) && keys != []
    ensures PutAll(conf, option, items, keys) == conf[option := ItemsIn(conf, option) + items]
  {
    var had := ItemsIn(conf, option);
    var first := had[keys[0] := items[keys[0]]];
    PutAllIs(Put(conf, option, keys[0], items[keys[0]]), option, items, keys[1..]);
    var all := Overlay(first, items, keys[1..]);
    forall k ensures k in all <==> k in had + items {
      OverlayAt(first, items, keys[1..], k);
    }
    forall k | k in all ensures all[k] == (had + items)[k] {
      OverlayAt(first, items, keys[1..], k);
    }
    assert all == had + items;
  }

  /** One option of conf on top of what base has. */
  function With(base: Conf, conf: Conf, option: string): Conf
    requires option in conf
  {
    base[option := ItemsIn(base, option) + conf[option]]
  }

  lemma SectionLoads(p: Progress, conf: Conf, s: Section)
    requires s.option in conf && GoodOption(s.option) && GoodItems(conf[s.option]) && ListsKeys(conf[s.option], s.keys)
    ensures LoadLines(p, SectionLines(conf, s)) == Outcome(Progress(With(p.conf, conf, s.option), s.option), Fine)
  {
    var items := conf[s.option];
    var k :| k in items;
    OptionLine(p, s.option);
    ItemLinesLoad(p.(option := s.option), items, s.keys);
    PutAllOver(p.conf, s.option, items, s.keys);
    assert SectionLines(conf, s)[1..] == ItemLines(items, s.keys);
  }

  /** The options of order, taken from conf, on top of base. */
  function Chosen(base: Conf, conf: Conf, order: seq<Section>): Conf
    requires forall s :: s in order ==> s.option in conf
    decreases |order|
  {
    if order == [] then base else Chosen(With(base, conf, order[0].option), conf, order[1..])
  }

  lemma {:induction false} ChosenAt(base: Conf, conf: Conf, order: seq<Section>, o: string)
    requires forall s :: s in order ==> s.option in conf
    ensures o in Chosen(base, conf, order) <==> o in base || o in Options(order)
    ensures o in Options(order) ==> o in conf && Chosen(base, conf, order)[o] == ItemsIn(base, o) + conf[o]
    ensures o in base && o !in Options(order) ==> Chosen(base, conf, order)[o] == base[o]
    decreases |order|
  {
    if order != [] {
      var next := With(base, conf, order[0].option);
      ChosenAt(next, conf, order[1..], o);
      if o == order[0].option {
        assert next[o] + conf[o] == next[o];
      }
    }
  }

  lemma ChosenAll(conf: Conf, order: seq<Section>)
    requires Enumerates(conf, order)
    ensures Chosen(map[], conf, order) == conf
  {
    forall o ensures o in Chosen(map[], conf, order) <==> o in conf {
      ChosenAt(map[], conf, order, o);
    }
    forall o | o in conf ensures Chosen(map[], conf, order)[o] == conf[o] {
      ChosenAt(map[], conf, order, o);
      assert map[] + conf[o] == conf[o];
    }
  }

  /** The printed sections put their options and items on top of what was loaded before. */
  lemma {:induction false} SectionsLoad(p: Progress, conf: Conf, order: seq<Section>)
    requires WellFormed(conf) && Lists(conf, order)
    ensures LoadLines(p, PrintLines(conf, order)).status.Fine?
    ensures LoadLines(p, PrintLines(conf, order)).at.conf == Chosen(p.conf, conf, order)
    decreases |order|
  {
    if order != [] {
      var s, rest := order[0], order[1..];
      assert s in order;
      SectionLoads(p, conf, s);
      LoadAppend(p, SectionLines(conf, s), PrintLines(conf, rest));
      SectionsLoad(Progress(With(p.conf, conf, s.option), s.option), conf, rest);
    }
  }

  lemma {:induction false} PrintedLines(conf: Conf, order: seq<Section>)
    requires WellFormed(conf) && Lists(conf, order)
    ensures forall l :: l in PrintLines(conf, order) ==> '\n' !in l
  {
    if order != [] {
      assert order[0] in order;
      PrintedItems(conf[order[0].option], order[0].keys);
      PrintedLines(conf, order[1..]);
    }
  }

  lemma {:induction false} PrintedItems(items: Items, keys: seq<string>)
    requires forall k :: k in keys ==> k in items && GoodKey(k) && GoodValue(items[k])
    ensures forall l :: l in ItemLines(items, keys) ==> '\n' !in l
  {
    if keys != [] { PrintedItems(items, keys[1..]); }
  }

  lemma PrintLoads(conf: Conf, order: seq<Section>)
    requires Enumerates(conf, order) && WellFormed(conf)
    ensures LoadText(map[], Print(conf, order)).status.Fine? && LoadText(map[], Print(conf, order)).at.conf == conf
  {
    PrintedLines(conf, order);
    LinesOfUnlines(PrintLines(conf, order));
    SectionsLoad(Progress(map[], ""), conf, order);
    ChosenAll(conf, order);
  }

  /** Printing a configuration, with its options and keys in any order, and loading the text again gives
      the same configuration exactly when it is well-formed. */
  lemma RoundTrip(conf: Conf, order: seq<Section>)
    requires Enumerates(conf, order)
    ensures LoadText(map[], Print(conf, order)).status.Fine? && LoadText(map[], Print(conf, order)).at.conf == conf
            <==> WellFormed(conf)
  {
    LoadTextGood(map[], Print(conf, order));
    if WellFormed(conf) {
      PrintLoads(conf, order);
    }
  }

  /** For every text, whether it loads to its end or not, and every iteration order, printing what was
      loaded on top of a well-formed configuration and loading it again changes nothing. */
  lemma LoadPrintLoad(before: Conf, text: string, order: seq<Section>)
    requires WellFormed(before) && Enumerates(LoadText(before, text).at.conf, order)
    ensures var conf := LoadText(before, text).at.conf;
            LoadText(map[], Print(conf, order)).status.Fine? && LoadText(map[], Print(conf, order)).at.conf == conf
  {
    LoadTextGood(before, text);
    RoundTrip(LoadText(before, text).at.conf, order);
  }

  // ---------- loading the header too ----------

  /** The item that the header is, when the path has one '='. */
  function HeaderKey(path: string): string {
    Trim("Configure information (" + Split(path, '=')[0])
  }

  function HeaderValue(path: string): string
    requires |Split(path, '=')| == 2
  {
    Trim(Split(path, '=')[1] + "):")
  }

  /** The header loads, as that item, exactly when the path has exactly one '='. */
  lemma HeaderLine(p: Progress, path: string)
    ensures |Split(path, '=')| == 2 ==>
              LoadLine(p, Header(path))
                == Outcome(p.(conf := Put(p.conf, p.option, HeaderKey(path), HeaderValue(path))), Fine)
    ensures |Split(path, '=')| != 2 ==> LoadLine(p, Header(path)) == Outcome(p, BadItem)
  {
    var before := "Configure information (";
    var line := before + path + "):";
    assert Header(path) == line + " ";
    TrimPadded(line);
    assert line == before + (path + "):");
    SplitBefore(before, path + "):", '=');
    SplitBehind(path, "):", '=');
    if |Split(path, '=')| == 2 {
      HeaderSplit(before, path);
    }
  }

  lemma HeaderSplit(before: string, path: string)
    requires '=' !in before && |Split(path, '=')| == 2
    ensures Split(before + path + "):", '=') == [before + Split(path, '=')[0], Split(path, '=')[1] + "):"]
  {
    SplitTwo(path, '=');
    var a, b := Split(path, '=')[0], Split(path, '=')[1];
    assert before + path + "):" == (before + a) + "=" + (b + "):");
    SplitAt(before + a, b + "):", '=');
    SplitNone(b + "):", '=');
  }

  lemma NoticeLine(p: Progress)
    ensures LoadLine(p, NOTICE) == Outcome(p, BadItem)
  {
    var line := NOTICE;
    TrimFacts(line);
    assert Trim(line) == line;
    assert line[0] == 'N' && '=' !in line;
    SplitNone(line, '=');
    assert |Split(line, '=')| == 1;
  }

  lemma HeaderIsLine(path: string)
    requires '\n' !in path
    ensures '\n' !in Header(path)
  {
  }

  lemma NoticeIsLine()
    ensures NOTICE != [] && '\n' !in NOTICE
  {
  }

  lemma OutputLines(path: string, conf: Conf, order: seq<Section>)
    requires Lists(conf, order) && WellFormed(conf) && '\n' !in path
    ensures Lines(Output(path, conf, order))
         == [Header(path)] + (if conf == map[] then [NOTICE] else PrintLines(conf, order))
  {
    HeaderIsLine(path);
    if conf == map[] {
      NoticeIsLine();
      LinesOne(NOTICE);
      LinesHead(Header(path), NOTICE);
    } else {
      PrintedLines(conf, order);
      LinesOfUnlines(PrintLines(conf, order));
      LinesHead(Header(path), Print(conf, order));
    }
  }

  /** What the header loads as, alone. */
  function HeaderItem(path: string): Conf
    requires |Split(path, '=')| == 2
  {
    map["" := map[HeaderKey(path) := HeaderValue(path)]]
  }

  lemma OutputStarts(path: string, conf: Conf, order: seq<Section>)
    requires Lists(conf, order) && WellFormed(conf) && '\n' !in path
    ensures var rest := if conf == map[] then [NOTICE] else PrintLines(conf, order);
            LoadText(map[], Output(path, conf, order))
              == if |Split(path, '=')| == 2 then LoadLines(Progress(HeaderItem(path), ""), rest)
                 else Outcome(Progress(map[], ""), BadItem)
  {
    var rest := if conf == map[] then [NOTICE] else PrintLines(conf, order);
    OutputLines(path, conf, order);
    HeaderLine(Progress(map[], ""), path);
    assert ([Header(path)] + rest)[1..] == rest;
  }

  /** What loading the whole text, header included, comes to: a bad item at once unless the path has exactly
      one '='; then the header is an item of the option without a name; and then the notice is a bad item, or
      all options are loaded on top of that item. */
  lemma OutputLoads(path: string, conf: Conf, order: seq<Section>)
    requires Enumerates(conf, order) && WellFormed(conf) && '\n' !in path
    ensures var o := LoadText(map[], Output(path, conf, order));
            if |Split(path, '=')| != 2 then o == Outcome(Progress(map[], ""), BadItem)
            else if conf == map[] then o == Outcome(Progress(HeaderItem(path), ""), BadItem)
            else o.status.Fine? && o.at.conf == Chosen(HeaderItem(path), conf, order)
  {
    OutputStarts(path, conf, order);
    if |Split(path, '=')| == 2 {
      if conf == map[] {
        NoticeLine(Progress(HeaderItem(path), ""));
      } else {
        SectionsLoad(Progress(HeaderItem(path), ""), conf, order);
      }
    }
  }

  lemma ChosenOn(base: Conf, conf: Conf, order: seq<Section>)
    requires Enumerates(conf, order)
    ensures Chosen(base, conf, order).Keys == base.Keys + conf.Keys
    ensures forall o :: o in Chosen(base, conf, order) <==> o in base || o in conf
    ensures forall o :: o in conf ==> Chosen(base, conf, order)[o] == ItemsIn(base, o) + conf[o]
  {
    forall o ensures o in Chosen(base, conf, order) <==> o in base || o in conf {
      ChosenAt(base, conf, order, o);
    }
    forall o | o in conf ensures Chosen(base, conf, order)[o] == ItemsIn(base, o) + conf[o] {
      ChosenAt(base, conf, order, o);
    }
  }

  /** Options on top of one item of the option without a name are those options exactly when they have that
      key themselves. */
  lemma ChosenOnItem(key: string, value: string, conf: Conf, order: seq<Section>)
    requires Enumerates(conf, order)
    ensures Chosen(map["" := map[key := value]], conf, order) == conf <==> "" in conf && key in conf[""]
  {
    var base := map["" := map[key := value]];
    ChosenOn(base, conf, order);
    assert "" in base.Keys && "" in Chosen(base, conf, order);
    if "" in conf && key in conf[""] {
      ChosenSame(base, conf, order);
    } else if "" in conf {
      assert key in ItemsIn(base, "") + conf[""];
    }
  }

  lemma ItemsOver(a: Items, b: Items)
    requires a.Keys <= b.Keys
    ensures a + b == b
  {
  }

  lemma ChosenSame(base: Conf, conf: Conf, order: seq<Section>)
    requires Enumerates(conf, order)
    requires forall o :: o in base ==> o in conf && base[o].Keys <= conf[o].Keys
    ensures Chosen(base, conf, order) == conf
  {
    ChosenOn(base, conf, order);
    var all := Chosen(base, conf, order);
    forall o | o in conf ensures all[o] == conf[o] {
      ItemsOver(ItemsIn(base, o), conf[o]);
    }
    assert forall o :: o in all <==> o in conf;
  }

  /** The whole text loads back to the configuration exactly when the path has exactly one '=' and the
      option without a name already has the key that the header becomes. */
  lemma OutputRoundTrip(path: string, conf: Conf, order: seq<Section>)
    requires Enumerates(conf, order) && WellFormed(conf) && '\n' !in path
    ensures LoadText(map[], Output(path, conf, order)).status.Fine?
            && LoadText(map[], Output(path, conf, order)).at.conf == conf
            <==> |Split(path, '=')| == 2 && "" in conf && HeaderKey(path) in conf[""]
  {
    OutputLoads(path, conf, order);
    if |Split(path, '=')| == 2 {
      ChosenOnItem(HeaderKey(path), HeaderValue(path), conf, order);
    }
  }
}
