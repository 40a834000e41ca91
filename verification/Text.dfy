/** The string operations that the configuration parser rests on: lines, trimming and splitting. */
module Text {

  /** The white space of the classic locale: blank and the control characters 9 to 13. */
  predicate IsSpace(c: char) {
    c == ' ' || '\t' <= c <= '\r'
  }

  function TrimLeft(s: string): string {
    if s != [] && IsSpace(s[0]) then TrimLeft(s[1..]) else s
  }

  function TrimRight(s: string): string {
    if s != [] && IsSpace(s[|s| - 1]) then TrimRight(s[..|s| - 1]) else s
  }

  function Trim(s: string): string {
    TrimLeft(TrimRight(s))
  }

  predicate Trimmed(s: string) {
    s == [] || (!IsSpace(s[0]) && !IsSpace(s[|s| - 1]))
  }

  /** The pieces between the separators: one more than there are separators. */
  function Split(s: string, sep: char): (r: seq<string>)
    ensures |r| >= 1
  {
    if s == [] then [[]]
    else
      var r := Split(s[1..], sep);
      if s[0] == sep then [[]] + r else [[s[0]] + r[0]] + r[1..]
  }

  /** The position of the first c, or the length. */
  function Find(s: string, c: char): (n: nat)
    ensures n <= |s|
    ensures n < |s| ==> s[n] == c
    ensures c !in s[..n]
  {
    if s == [] || s[0] == c then 0
    else
      var n := Find(s[1..], c);
      assert s[..1 + n] == [s[0]] + s[1..][..n];
      1 + n
  }

  /** What successive getline calls yield: a final line feed ends the last line. */
  function Lines(text: string): seq<string>
    decreases |text|
  {
    if text == [] then []
    else
      var n := Find(text, '\n');
      [text[..n]] + Lines(if n < |text| then text[n + 1..] else [])
  }

  function Unlines(lines: seq<string>): string {
    if lines == [] then [] else lines[0] + "\n" + Unlines(lines[1..])
  }

  // ---------- lines ----------

  lemma {:induction false} FindIs(s: string, c: char, n: nat)
    requires n < |s| && s[n] == c && c !in s[..n]
    ensures Find(s, c) == n
  {
    if n > 0 {
      assert s[0] in s[..n] && s[1..][..n - 1] == s[..n][1..];
      FindIs(s[1..], c, n - 1);
    }
  }

  lemma {:induction false} LinesOfUnlines(lines: seq<string>)
    requires forall l :: l in lines ==> '\n' !in l
    ensures Lines(Unlines(lines)) == lines
  {
    if lines != [] {
      LinesOfUnlines(lines[1..]);
      LinesHead(lines[0], Unlines(lines[1..]));
      assert lines == [lines[0]] + lines[1..];
    }
  }

  lemma {:induction false} LinesAreLines(text: string)
    ensures forall l :: l in Lines(text) ==> '\n' !in l
    decreases |text|
  {
    if text != [] {
      var n := Find(text, '\n');
      LinesAreLines(if n < |text| then text[n + 1..] else []);
    }
  }

  // ---------- trimming ----------

  lemma {:induction false} TrimLeftFacts(s: string)
    ensures TrimLeft(s) == [] || !IsSpace(TrimLeft(s)[0])
    ensures TrimLeft(s) != [] ==> TrimLeft(s)[|TrimLeft(s)| - 1] == s[|s| - 1]
    ensures forall c :: c in TrimLeft(s) ==> c in s
    ensures s != [] && !IsSpace(s[0]) ==> TrimLeft(s) == s
  {
    if s != [] && IsSpace(s[0]) { TrimLeftFacts(s[1..]); }
  }

  lemma {:induction false} TrimRightFacts(s: string)
    ensures TrimRight(s) == [] || !IsSpace(TrimRight(s)[|TrimRight(s)| - 1])
    ensures TrimRight(s) <= s
    ensures forall c :: c in TrimRight(s) ==> c in s
    ensures s != [] && !IsSpace(s[|s| - 1]) ==> TrimRight(s) == s
    ensures s != [] && !IsSpace(s[0]) ==> TrimRight(s) != []
  {
    if s != [] && IsSpace(s[|s| - 1]) { TrimRightFacts(s[..|s| - 1]); }
  }

  lemma TrimFacts(s: string)
    ensures Trimmed(Trim(s))
    ensures forall c :: c in Trim(s) ==> c in s
    ensures Trimmed(s) ==> Trim(s) == s
    ensures s != [] && !IsSpace(s[0]) ==> Trim(s) != [] && Trim(s)[0] == s[0]
  {
    TrimRightFacts(s);
    TrimLeftFacts(TrimRight(s));
  }

  /** Blanks around a trimmed string disappear. */
  lemma TrimPadded(s: string)
    requires Trimmed(s)
    ensures Trim(s + " ") == s && Trim(" " + s) == s
  {
    assert (s + " ")[..|s|] == s;
    TrimRightFacts(s);
    TrimLeftFacts(s);
    assert TrimRight(s + " ") == TrimRight(s);
    if s != [] {
      TrimRightFacts(" " + s);
      assert TrimRight(" " + s) == " " + s;
      assert (" " + s)[1..] == s;
    } else {
      assert " " + s == " " && " "[..0] == [];
      assert TrimRight(" ") == [];
    }
  }

  // ---------- splitting ----------

  lemma {:induction false} SplitNone(s: string, sep: char)
    requires sep !in s
    ensures Split(s, sep) == [s]
  {
    if s != [] {
      assert s[0] in s && s == [s[0]] + s[1..];
      SplitNone(s[1..], sep);
    }
  }

  lemma {:induction false} SplitAt(a: string, b: string, sep: char)
    requires sep !in a
    ensures Split(a + [sep] + b, sep) == [a] + Split(b, sep)
  {
    var s := a + [sep] + b;
    if a == [] {
      assert s[1..] == b;
    } else {
      assert s[1..] == a[1..] + [sep] + b && s[0] == a[0] && a[0] in a && a == [a[0]] + a[1..];
      SplitAt(a[1..], b, sep);
    }
  }

  /** A string splits in two exactly at its only separator. */
  lemma {:induction false} SplitTwo(s: string, sep: char)
    requires |Split(s, sep)| <= 2
    ensures |Split(s, sep)| == 1 ==> Split(s, sep)[0] == s && sep !in s
    ensures |Split(s, sep)| == 2 ==> s == Split(s, sep)[0] + [sep] + Split(s, sep)[1]
                                     && sep !in Split(s, sep)[0] && sep !in Split(s, sep)[1]
  {
    if s != [] {
      SplitTwo(s[1..], sep);
      assert s == [s[0]] + s[1..];
    }
  }

  lemma {:induction false} SplitBefore(a: string, s: string, sep: char)
    requires sep !in a
    ensures |Split(a + s, sep)| == |Split(s, sep)|
  {
    if a == [] {
      assert a + s == s;
    } else {
      assert (a + s)[0] == a[0] && (a + s)[1..] == a[1..] + s;
      assert a[0] in a;
      SplitBefore(a[1..], s, sep);
    }
  }

  lemma {:induction false} SplitBehind(s: string, b: string, sep: char)
    requires sep !in b
    ensures |Split(s + b, sep)| == |Split(s, sep)|
  {
    if s == [] {
      assert s + b == b;
      SplitNone(b, sep);
    } else {
      assert (s + b)[0] == s[0] && (s + b)[1..] == s[1..] + b;
      SplitBehind(s[1..], b, sep);
    }
  }

  lemma LinesHead(h: string, rest: string)
    requires '\n' !in h
    ensures Lines(h + "\n" + rest) == [h] + Lines(rest)
  {
    var text := h + "\n" + rest;
    assert text[..|h|] == h && text[|h|] == '\n' && text[|h| + 1..] == rest;
    FindIs(text, '\n', |h|);
  }

  lemma LinesOne(s: string)
    requires s != [] && '\n' !in s
    ensures Lines(s) == [s]
  {
    assert s[..|s|] == s;
    assert Find(s, '\n') == |s|;
  }

  // ---------- what the operations mean ----------

  /** White space is the blank and the characters 9 to 13: tab, line feed, vertical tab, form feed, return. */
  lemma SpaceIs(c: char)
    ensures IsSpace(c) <==> c as int == 32 || 9 <= c as int <= 13
    ensures IsSpace(' ') && IsSpace('\t') && IsSpace('\r') && IsSpace('\n')
  {
  }

  lemma {:induction false} TrimLeftCuts(s: string) returns (a: string)
    ensures s == a + TrimLeft(s) && forall c :: c in a ==> IsSpace(c)
  {
    a := [];
    if s != [] && IsSpace(s[0]) {
      a := TrimLeftCuts(s[1..]);
      a := [s[0]] + a;
    }
  }

  lemma {:induction false} TrimRightCuts(s: string) returns (b: string)
    ensures s == TrimRight(s) + b && forall c :: c in b ==> IsSpace(c)
  {
    b := [];
    if s != [] && IsSpace(s[|s| - 1]) {
      b := TrimRightCuts(s[..|s| - 1]);
      b := b + [s[|s| - 1]];
    }
  }

  /** Trimming cuts off white space at both ends, all of it, and nothing else. */
  lemma TrimCuts(s: string) returns (a: string, b: string)
    ensures s == a + Trim(s) + b && Trimmed(Trim(s))
    ensures forall c :: c in a || c in b ==> IsSpace(c)
    ensures Trim(s) != [] ==> !IsSpace(Trim(s)[0]) && !IsSpace(Trim(s)[|Trim(s)| - 1])
  {
    b := TrimRightCuts(s);
    a := TrimLeftCuts(TrimRight(s));
    TrimFacts(s);
  }

  function Join(pieces: seq<string>, sep: char): string
    requires pieces != []
  {
    if |pieces| == 1 then pieces[0] else pieces[0] + [sep] + Join(pieces[1..], sep)
  }

  /** Splitting is undone by joining, and no piece has a separator. */
  lemma {:induction false} SplitJoins(s: string, sep: char)
    ensures Join(Split(s, sep), sep) == s && forall p :: p in Split(s, sep) ==> sep !in p
  {
    if s != [] {
      SplitJoins(s[1..], sep);
      var r := Split(s[1..], sep);
      if s[0] == sep {
        assert Split(s, sep)[1..] == r;
      } else {
        assert Split(s, sep)[1..] == r[1..];
        assert s == [s[0]] + s[1..];
        assert r[0] in r && forall p :: p in Split(s, sep) ==> p == [s[0]] + r[0] || p in r;
      }
    }
  }
}
