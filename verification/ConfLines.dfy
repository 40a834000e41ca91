/** What every kind of line does when it is loaded, and which lines are printed. */
module ConfLines {
  import opened Text
  import opened ConfParser

  // ---------- loading ----------

  /** Blank lines and comments are skipped. */
  lemma LineSkipped(p: Progress, raw: string)
    requires Trim(raw) == [] || Trim(raw)[0] == '#'
    ensures LoadLine(p, raw) == Outcome(p, Fine)
  {
  }

  /** Wherever they stand. */
  lemma {:induction false} SkippedAnywhere(p: Progress, a: seq<string>, raw: string, b: seq<string>)
    requires Trim(raw) == [] || Trim(raw)[0] == '#'
    ensures LoadLines(p, a + [raw] + b) == LoadLines(p, a + b)
    decreases |a|
  {
    if a == [] {
      assert a + [raw] + b == [raw] + b && ([raw] + b)[1..] == b && a + b == b;
    } else {
      var o := LoadLine(p, a[0]);
      assert (a + [raw] + b)[1..] == a[1..] + [raw] + b && (a + b)[1..] == a[1..] + b;
      if o.status.Fine? {
        SkippedAnywhere(o.at, a[1..], raw, b);
      }
    }
  }

  /** A line that starts with '[' names the option up to the first ']'; what follows that is ignored. */
  lemma LineOption(p: Progress, raw: string, option: string, rest: string)
    requires Trim(raw) == "[" + option + "]" + rest && ']' !in option
    ensures LoadLine(p, raw) == Outcome(Progress(p.conf, option), Fine)
  {
    var line := Trim(raw);
    assert line[..|option| + 1] == "[" + option;
    FindIs(line, ']', |option| + 1);
    assert line[1..|option| + 1] == option;
  }

  /** Without a ']' it is a bad option. */
  lemma LineBadOption(p: Progress, raw: string)
    requires Trim(raw) != [] && Trim(raw)[0] == '[' && ']' !in Trim(raw)
    ensures LoadLine(p, raw) == Outcome(p, BadOption)
  {
  }

  /** Any other line with one '=' sets the trimmed key of the current option to the trimmed value, and changes
      nothing else. */
  lemma LineItem(p: Progress, raw: string, k: string, v: string)
    requires Trim(raw) == k + "=" + v && '=' !in k && '=' !in v && (k == [] || (k[0] != '#' && k[0] != '['))
    ensures LoadLine(p, raw).status.Fine? && LoadLine(p, raw).at.option == p.option
    ensures var conf := LoadLine(p, raw).at.conf;
            && conf.Keys == p.conf.Keys + {p.option}
            && (forall o :: o in p.conf && o != p.option ==> conf[o] == p.conf[o])
            && conf[p.option] == (if p.option in p.conf then p.conf[p.option] else map[])[Trim(k) := Trim(v)]
  {
    SplitAt(k, v, '=');
    SplitNone(v, '=');
  }

  /** Any other line without '=', or with two, is a bad item. */
  lemma LineBadItem(p: Progress, raw: string, a: string, b: string, c: string)
    requires var line := Trim(raw); line != [] && line[0] != '#' && line[0] != '['
    requires '=' !in Trim(raw) || Trim(raw) == a + "=" + b + "=" + c
    ensures LoadLine(p, raw) == Outcome(p, BadItem)
  {
    if '=' !in Trim(raw) {
      SplitNone(Trim(raw), '=');
    } else {
      SplitMany(a, b, c);
    }
  }

  lemma SplitMany(a: string, b: string, c: string)
    ensures |Split(a + "=" + b + "=" + c, '=')| > 2
  {
    SplitCount(a + "=" + b, c);
    SplitCount(a, b);
  }

  lemma {:induction false} SplitCount(a: string, b: string)
    ensures |Split(a + "=" + b, '=')| == |Split(a, '=')| + |Split(b, '=')|
  {
    var s := a + "=" + b;
    if a == [] {
      assert s[1..] == b;
    } else {
      assert s[0] == a[0] && s[1..] == a[1..] + "=" + b;
      SplitCount(a[1..], b);
    }
  }

  /** A bad line ends the loading, whatever follows it. */
  lemma LoadStops(p: Progress, a: seq<string>, bad: string, b: seq<string>)
    requires LoadLines(p, a).status.Fine? && !LoadLine(LoadLines(p, a).at, bad).status.Fine?
    ensures LoadLines(p, a + [bad] + b) == LoadLine(LoadLines(p, a).at, bad)
  {
    LoadAppend(p, a, [bad] + b);
    assert a + ([bad] + b) == a + [bad] + b;
  }

  // ---------- printing ----------

  /** The number of lines of the first i options: one each, and one for each of their keys. */
  function Start(order: seq<Section>, i: nat): nat
    requires i <= |order|
  {
    if i == 0 then 0 else Start(order, i - 1) + 1 + |order[i - 1].keys|
  }

  lemma {:induction false} StartTail(order: seq<Section>, i: nat)
    requires 0 < i <= |order|
    ensures Start(order, i) == 1 + |order[0].keys| + Start(order[1..], i - 1)
  {
    if i > 1 {
      StartTail(order, i - 1);
    }
  }

  lemma {:induction false} ItemLineAt(items: Items, keys: seq<string>, j: nat)
    requires (forall k :: k in keys ==> k in items) && j < |keys|
    ensures |ItemLines(items, keys)| == |keys|
    ensures ItemLines(items, keys)[j] == keys[j] + " = " + items[keys[j]]
    decreases |keys|
  {
    if |keys| > 1 {
      ItemLineAt(items, keys[1..], if j == 0 then 0 else j - 1);
    }
  }

  lemma SectionLength(conf: Conf, s: Section)
    requires s.option in conf && ListsKeys(conf[s.option], s.keys)
    ensures |SectionLines(conf, s)| == 1 + |s.keys|
  {
    if s.keys != [] { ItemLineAt(conf[s.option], s.keys, 0); }
  }

  lemma PrintCons(conf: Conf, order: seq<Section>)
    requires Lists(conf, order) && order != []
    ensures order[0] in order && |SectionLines(conf, order[0])| == 1 + |order[0].keys|
    ensures PrintLines(conf, order) == SectionLines(conf, order[0]) + PrintLines(conf, order[1..])
  {
    SectionLength(conf, order[0]);
  }

  lemma {:induction false} PrintLength(conf: Conf, order: seq<Section>)
    requires Lists(conf, order)
    ensures |PrintLines(conf, order)| == Start(order, |order|)
    decreases |order|
  {
    if order != [] {
      PrintCons(conf, order);
      PrintLength(conf, order[1..]);
      StartTail(order, |order|);
    }
  }

  lemma {:induction false} SectionLineAt(conf: Conf, order: seq<Section>, i: nat, j: nat)
    requires Lists(conf, order) && i < |order| && j <= |order[i].keys|
    ensures order[i] in order && j < |SectionLines(conf, order[i])|
    ensures Start(order, i) + j < |PrintLines(conf, order)|
    ensures PrintLines(conf, order)[Start(order, i) + j] == SectionLines(conf, order[i])[j]
    decreases |order|
  {
    assert order[i] in order;
    PrintCons(conf, order);
    SectionLength(conf, order[i]);
    if i > 0 {
      SectionLineAt(conf, order[1..], i - 1, j);
      StartTail(order, i);
    }
  }

  lemma PrintLinesAt(conf: Conf, order: seq<Section>, i: nat, j: nat)
    requires Lists(conf, order) && i < |order| && j < |order[i].keys|
    ensures order[i] in order && Start(order, i) + 1 + j < |PrintLines(conf, order)|
    ensures PrintLines(conf, order)[Start(order, i)] == "[" + order[i].option + "]"
    ensures PrintLines(conf, order)[Start(order, i) + 1 + j]
         == order[i].keys[j] + " = " + conf[order[i].option][order[i].keys[j]]
  {
    SectionLineAt(conf, order, i, 0);
    SectionLineAt(conf, order, i, j + 1);
    ItemLineAt(conf[order[i].option], order[i].keys, j);
  }

  lemma LinesPrinted(conf: Conf, order: seq<Section>)
    requires WellFormed(conf) && Lists(conf, order)
    ensures Lines(Print(conf, order)) == PrintLines(conf, order)
  {
    PrintedLines(conf, order);
    LinesOfUnlines(PrintLines(conf, order));
  }

  /** The lines of the body: for every option a line with the option in brackets, and then one for each of its
      keys, with its value behind " = "; and no others. */
  lemma PrintedAt(conf: Conf, order: seq<Section>, i: nat, j: nat, lines: seq<string>)
    requires WellFormed(conf) && Lists(conf, order) && i < |order| && j < |order[i].keys|
    requires lines == Lines(Print(conf, order))
    ensures |lines| == Start(order, |order|) && Start(order, i) + 1 + j < |lines| && order[i] in order
    ensures lines[Start(order, i)] == "[" + order[i].option + "]"
    ensures lines[Start(order, i) + 1 + j] == order[i].keys[j] + " = " + conf[order[i].option][order[i].keys[j]]
  {
    LinesPrinted(conf, order);
    PrintLength(conf, order);
    PrintLinesAt(conf, order, i, j);
  }

  /** The whole text, and the line feed that ends its body. */
  lemma OutputIs(path: string, conf: Conf, order: seq<Section>)
    requires Lists(conf, order)
    ensures Output(path, conf, order)
         == "Configure information (" + path + "): \n"
            + (if conf == map[] then "No elements." else Print(conf, order))
    ensures order == [] ==> Print(conf, order) == []
    ensures order != [] ==> Print(conf, order) != [] && Print(conf, order)[|Print(conf, order)| - 1] == '\n'
  {
    assert "Configure information (" + path + "): " + "\n" == "Configure information (" + path + "): \n";
    if order != [] {
      assert order[0] in order;
      UnlinesEnd(PrintLines(conf, order));
    }
  }

  lemma {:induction false} UnlinesEnd(lines: seq<string>)
    requires lines != []
    ensures Unlines(lines) != [] && Unlines(lines)[|Unlines(lines)| - 1] == '\n'
  {
    if |lines| > 1 {
      UnlinesEnd(lines[1..]);
    }
  }

  // ---------- every configuration has an order ----------

  lemma {:induction false} Enumerated(s: set<string>) returns (q: seq<string>)
    ensures Distinct(q) && forall k :: k in q <==> k in s
    decreases |s|
  {
    if s == {} {
      q := [];
    } else {
      var x :| x in s;
      q := Enumerated(s - {x});
      q := [x] + q;
    }
  }

  lemma {:induction false} Sections(conf: Conf, options: seq<string>) returns (order: seq<Section>)
    requires forall o :: o in options ==> o in conf
    ensures Options(order) == options && Lists(conf, order)
    decreases |options|
  {
    if options == [] {
      order := [];
    } else {
      order := Sections(conf, options[1..]);
      var keys := Enumerated(conf[options[0]].Keys);
      order := [Section(options[0], keys)] + order;
    }
  }

  lemma SomeOrder(conf: Conf) returns (order: seq<Section>)
    ensures Enumerates(conf, order)
  {
    var options := Enumerated(conf.Keys);
    order := Sections(conf, options);
  }
}
