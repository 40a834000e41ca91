/** The configuration object: its loops over lines, options and keys, and its lookups. */
module ConfFile {
  import opened Options
  import opened Text
  import opened ConfParser

  /** What get comes to: the converted value, or one of the three reasons for its exception. */
  datatype Lookup<T> = Found(value: T) | NoOption | NoKey | BadValue

  class ConfFile {
    const path: string
    var loaded: bool
    var conf: Conf

    constructor (path: string)
      ensures this.path == path && !loaded && conf == map[]
    {
      this.path, loaded, conf := path, false, map[];
    }

    /** Reads the text of the file line by line. A bad line ends the loading, and what was read before
        it stays. */
    method Load(text: string) returns (status: Status)
      modifies this
      ensures status == LoadText(old(conf), text).status
      ensures conf == LoadText(old(conf), text).at.conf
      ensures loaded == (old(loaded) || status.Fine?)
      ensures old(WellFormed(conf)) ==> WellFormed(conf)
    {
      if WellFormed(conf) {
        LoadTextGood(conf, text);
      }
      var pos, curOption := 0, "";
      assert text[0..] == text;
      while pos < |text|
        invariant pos <= |text| && loaded == old(loaded)
        invariant LoadLines(Progress(conf, curOption), Lines(text[pos..])) == LoadText(old(conf), text)
      {
        var n := Find(text[pos..], '\n');
        ghost var raw := text[pos..][..n];
        var line := Trim(text[pos..pos + n]);
        NextLine(text, pos, n);
        pos := if pos + n < |text| then pos + n + 1 else |text|;
        if line == [] {
          continue;
        }
        if line[0] == '#' {
          continue;
        }
        if line[0] == '[' {
          var end := Find(line, ']');
          if end == |line| {
            return BadOption;
          }
          curOption := line[1..end];
          continue;
        }
        var pair := Split(line, '=');
        if |pair| != 2 {
          return BadItem;
        }
        pair := [Trim(pair[0]), Trim(pair[1])];
        conf := Put(conf, curOption, pair[0], pair[1]);
      }
      loaded := true;
      status := Fine;
    }

    /** operator<<: a header, then the options and their keys in the order in which the maps are iterated. */
    method Write(order: seq<Section>) returns (out: string)
      requires Lists(conf, order)
      ensures out == Output(path, conf, order)
    {
      out := "Configure information (" + path + "): " + "\n";
      if conf == map[] {
        return out + "No elements.";
      }
      out := WriteBody(out, order);
    }

    /** The outer loop. */
    method WriteBody(before: string, order: seq<Section>) returns (out: string)
      requires Lists(conf, order)
      ensures out == before + Print(conf, order)
    {
      out := before;
      ghost var goal := before + Print(conf, order);
      assert order[0..] == order;
      for i := 0 to |order|
        invariant out + Unwritten(conf, order, i) == goal
      {
        PrintNext(conf, order, i);
        ghost var part, left := Unlines(SectionLines(conf, order[i])), Unwritten(conf, order, i + 1);
        assert out + (part + left) == (out + part) + left;
        out := WriteSection(out, order[i]);
      }
    }

    /** The inner loop: one option and its items. */
    method WriteSection(before: string, s: Section) returns (out: string)
      requires s.option in conf && ListsKeys(conf[s.option], s.keys)
      ensures out == before + Unlines(SectionLines(conf, s))
    {
      var items := conf[s.option];
      ghost var goal := before + Unlines(SectionLines(conf, s));
      out := before + "[" + s.option + "]" + "\n";
      assert SectionLines(conf, s)[1..] == ItemLines(items, s.keys) && s.keys[0..] == s.keys;
      for j := 0 to |s.keys|
        invariant out + Unlines(ItemLines(items, s.keys[j..])) == goal
      {
        var k := s.keys[j];
        assert k in s.keys;
        ItemsNext(items, s.keys, j);
        out := out + (k + " = " + items[k]) + "\n";
      }
    }

    method Get<T>(option: string, key: string, convert: string -> Option<T>) returns (r: Lookup<T>)
      ensures match r
              case NoOption => option !in conf
              case NoKey => option in conf && key !in conf[option]
              case BadValue => option in conf && key in conf[option] && convert(conf[option][key]).None?
              case Found(v) => option in conf && key in conf[option] && convert(conf[option][key]) == Some(v)
    {
      if option !in conf {
        return NoOption;
      }
      var items := conf[option];
      if key !in items {
        return NoKey;
      }
      var value := convert(items[key]);
      r := if value.Some? then Found(value.value) else BadValue;
    }

    method GetOr<T>(option: string, key: string, convert: string -> Option<T>, default: T) returns (value: T)
      ensures value == if option in conf && key in conf[option] && convert(conf[option][key]).Some?
                       then convert(conf[option][key]).value
                       else default
    {
      var r := Get(option, key, convert);
      value := if r.Found? then r.value else default;
    }

    /** Stores the text that the value converts to; a value without one changes nothing. */
    method Set<T>(option: string, key: string, value: T, convert: T -> Option<string>) returns (done: bool)
      modifies this`conf
      ensures done <==> convert(value).Some?
      ensures conf == if done then Put(old(conf), option, key, convert(value).value) else old(conf)
      ensures old(WellFormed(conf)) && done ==>
                (WellFormed(conf) <==> GoodOption(option) && GoodKey(key) && GoodValue(convert(value).value))
    {
      var text := convert(value);
      if text.None? {
        return false;
      }
      PutGoodExactly(conf, option, key, text.value);
      conf := Put(conf, option, key, text.value);
      done := true;
    }
  }

  /** Setting one item keeps a configuration well-formed exactly when the item is. */
  lemma PutGoodExactly(conf: Conf, option: string, key: string, value: string)
    ensures WellFormed(conf) ==>
              (WellFormed(Put(conf, option, key, value)) <==> GoodOption(option) && GoodKey(key) && GoodValue(value))
  {
    if WellFormed(conf) && GoodOption(option) && GoodKey(key) && GoodValue(value) {
      PutGood(conf, option, key, value);
    }
    var after := Put(conf, option, key, value);
    assert option in after && key in after[option] && after[option][key] == value;
  }

  lemma NextLine(text: string, pos: nat, n: nat)
    requires pos < |text| && n == Find(text[pos..], '\n')
    ensures pos + n <= |text| && text[pos..][..n] == text[pos..pos + n]
    ensures Lines(text[pos..]) == [text[pos..pos + n]] + Lines(if pos + n < |text| then text[pos + n + 1..] else [])
  {
    if n < |text[pos..]| {
      assert text[pos..][n + 1..] == text[pos + n + 1..];
    }
  }

  /** What is still to be written when i options have been. */
  ghost function Unwritten(conf: Conf, order: seq<Section>, i: nat): string
    requires Lists(conf, order) && i <= |order|
  {
    Print(conf, order[i..])
  }

  lemma PrintNext(conf: Conf, order: seq<Section>, i: nat)
    requires Lists(conf, order) && i < |order|
    ensures order[i] in order
    ensures Unwritten(conf, order, i) == Unlines(SectionLines(conf, order[i])) + Unwritten(conf, order, i + 1)
  {
    assert order[i] in order && order[i..][1..] == order[i + 1..];
    UnlinesAppend(SectionLines(conf, order[i]), PrintLines(conf, order[i + 1..]));
  }

  lemma ItemsNext(items: Items, keys: seq<string>, j: nat)
    requires j < |keys| && forall k :: k in keys ==> k in items
    ensures keys[j] in keys
    ensures Unlines(ItemLines(items, keys[j..]))
         == keys[j] + " = " + items[keys[j]] + "\n" + Unlines(ItemLines(items, keys[j + 1..]))
  {
    assert keys[j..][1..] == keys[j + 1..];
    assert ItemLines(items, keys[j..])[1..] == ItemLines(items, keys[j + 1..]);
  }

  lemma {:induction false} UnlinesAppend(a: seq<string>, b: seq<string>)
    ensures Unlines(a + b) == Unlines(a) + Unlines(b)
  {
    if a == [] {
      assert a + b == b;
    } else {
      assert (a + b)[1..] == a[1..] + b;
      UnlinesAppend(a[1..], b);
    }
  }
}
