/** The dictionaries built here are written one entry per line, each line
    ended by '\n'. This module reads such text back as lines and looks up
    the value written after a name, so that properties of a dictionary can
    be stated about what a reader finds in it rather than about how it was
    assembled. */
module Lines {
  import opened Results

  predicate IsLine(l: string)
  {
    '\n' !in l
  }

  /** Each line followed by '\n'. */
  function JoinLines(ls: seq<string>): string
  {
    if |ls| == 0 then [] else ls[0] + "\n" + JoinLines(ls[1..])
  }

  /** Position of the first '\n' in `s`, or `|s|` when there is none. */
  function NewlineIndex(s: string): (k: nat)
    ensures k <= |s|
    ensures forall j :: 0 <= j < k ==> s[j] != '\n'
    ensures k < |s| ==> s[k] == '\n'
  {
    if |s| == 0 || s[0] == '\n' then 0 else 1 + NewlineIndex(s[1..])
  }

  /** Cut text at each '\n'; a last line without its '\n' is kept. */
  function SplitLines(s: string): (ls: seq<string>)
    ensures forall i :: 0 <= i < |ls| ==> IsLine(ls[i])
    decreases |s|
  {
    if |s| == 0 then []
    else
      var k := NewlineIndex(s);
      if k == |s| then [s] else [s[..k]] + SplitLines(s[k + 1..])
  }

  lemma NewlineIndexOfLine(l: string, rest: string)
    requires IsLine(l)
    ensures NewlineIndex(l + "\n" + rest) == |l|
  {
    var s := l + "\n" + rest;
    var k := NewlineIndex(s);
    assert s[|l|] == '\n';
  }

  /** One line and its '\n' read back as that line, then whatever follows. */
  lemma SplitLinesCons(l: string, tail: string)
    requires IsLine(l)
    ensures SplitLines(l + "\n" + tail) == [l] + SplitLines(tail)
  {
    var s := l + "\n" + tail;
    NewlineIndexOfLine(l, tail);
    assert s[..|l|] == l;
    assert s[|l| + 1..] == tail;
  }

  /** Reading back joined lines followed by more text gives the lines, then
      whatever the rest reads as. */
  lemma {:induction false} SplitJoinLinesThen(ls: seq<string>, rest: string)
    requires forall i :: 0 <= i < |ls| ==> IsLine(ls[i])
    ensures SplitLines(JoinLines(ls) + rest) == ls + SplitLines(rest)
    decreases |ls|
  {
    if |ls| > 0 {
      var tail := JoinLines(ls[1..]) + rest;
      calc {
        SplitLines(JoinLines(ls) + rest);
      == { assert JoinLines(ls) + rest == ls[0] + "\n" + tail; }
        SplitLines(ls[0] + "\n" + tail);
      == { SplitLinesCons(ls[0], tail); }
        [ls[0]] + SplitLines(tail);
      == { SplitJoinLinesThen(ls[1..], rest); }
        [ls[0]] + (ls[1..] + SplitLines(rest));
      == { assert ls == [ls[0]] + ls[1..]; }
        ls + SplitLines(rest);
      }
    } else {
      assert JoinLines(ls) + rest == rest;
    }
  }

  lemma {:induction false} JoinLinesAppend(a: seq<string>, b: seq<string>)
    ensures JoinLines(a + b) == JoinLines(a) + JoinLines(b)
    decreases |a|
  {
    if |a| > 0 {
      assert (a + b)[1..] == a[1..] + b;
      JoinLinesAppend(a[1..], b);
    } else {
      assert a + b == b;
    }
  }

  // ----- Reading a dictionary by name ------------------------------------------------

  /** The text of a dictionary entry line for `name`, up to its value. */
  function KeyPrefix(name: string): string
  {
    "  /" + name + " "
  }

  /** The value of the first line written for `name`, if any. */
  function Lookup(ls: seq<string>, name: string): Option<string>
  {
    if |ls| == 0 then None
    else if KeyPrefix(name) <= ls[0] then Some(ls[0][|KeyPrefix(name)|..])
    else Lookup(ls[1..], name)
  }

  /** A lookup finds a value exactly when some line is the name's entry,
      and the value it finds is the rest of the first such line. */
  lemma {:induction false} LookupMeaning(ls: seq<string>, name: string)
    ensures Lookup(ls, name).Some? <==> exists i :: 0 <= i < |ls| && KeyPrefix(name) <= ls[i]
    ensures Lookup(ls, name).Some? ==>
      exists i :: 0 <= i < |ls| && ls[i] == KeyPrefix(name) + Lookup(ls, name).value
                  && forall j :: 0 <= j < i ==> !(KeyPrefix(name) <= ls[j])
    decreases |ls|
  {
    if |ls| > 0 {
      if KeyPrefix(name) <= ls[0] {
        assert ls[0] == KeyPrefix(name) + ls[0][|KeyPrefix(name)|..];
      } else {
        LookupMeaning(ls[1..], name);
        assert forall i :: 1 <= i < |ls| ==> ls[i] == ls[1..][i - 1];
        if Lookup(ls, name).Some? {
          var i :| 0 <= i < |ls[1..]| && ls[1..][i] == KeyPrefix(name) + Lookup(ls, name).value
                   && forall j :: 0 <= j < i ==> !(KeyPrefix(name) <= ls[1..][j]);
          assert ls[i + 1] == KeyPrefix(name) + Lookup(ls, name).value;
        }
      }
    }
  }

  // ----- Dictionaries as written ------------------------------------------------------

  /** Text that stays on one line. */
  type Inline = s: string | IsLine(s) witness ""

  /** An entry name: one line, no space. */
  type Name = n: string | ' ' !in n && IsLine(n) witness "N"

  /** Text other than an entry: one line that does not start with a space,
      so it cannot pass for an entry. */
  type Plain = t: string | IsLine(t) && (|t| == 0 || t[0] != ' ') witness ""

  /** A line of a dictionary as the writer composes it: an entry
      `  /<name> <value>`, or some other text such as a delimiter. */
  datatype Line = Pair(name: Name, value: Inline) | Text(text: Plain)

  function Render(l: Line): (r: Inline)
  {
    match l
    case Pair(n, v) => KeyPrefix(n) + v
    case Text(t) => t
  }

  function RenderLines(ls: seq<Line>): (r: seq<string>)
    ensures |r| == |ls| && forall j :: 0 <= j < |ls| ==> r[j] == Render(ls[j])
  {
    seq(|ls|, j requires 0 <= j < |ls| => Render(ls[j]))
  }

  /** The bytes of a dictionary: each line followed by '\n'. */
  function Write(ls: seq<Line>): string
  {
    JoinLines(RenderLines(ls))
  }

  /** The value of the first entry for `name`, if any. */
  function Value(ls: seq<Line>, name: string): Option<string>
  {
    if |ls| == 0 then None
    else if ls[0].Pair? && ls[0].name == name then Some(ls[0].value)
    else Value(ls[1..], name)
  }

  /** An entry line for one name is never read as the entry for another,
      since names contain no space. */
  lemma EntryDiffers(k1: string, value: string, k2: string)
    requires ' ' !in k1 && ' ' !in k2 && k1 != k2
    ensures !(KeyPrefix(k2) <= KeyPrefix(k1) + value)
  {
    var e := KeyPrefix(k1) + value;
    var p := KeyPrefix(k2);
    if |k2| < |k1| {
      assert p[3 + |k2|] == ' ' && e[3 + |k2|] == k1[|k2|];
    } else if |k1| < |k2| {
      assert e[3 + |k1|] == ' ' && p[3 + |k1|] == k2[|k1|];
    } else if p <= e {
      assert forall i :: 0 <= i < |k1| ==> k1[i] == e[3 + i] == p[3 + i] == k2[i];
    }
  }

  /** Reading a written dictionary back by name finds what was written
      under that name first. */
  lemma {:induction false} ReadValue(ls: seq<Line>, name: Name)
    ensures Lookup(RenderLines(ls), name) == Value(ls, name)
    decreases |ls|
  {
    if |ls| > 0 {
      var r := RenderLines(ls);
      assert r[1..] == RenderLines(ls[1..]);
      ReadValue(ls[1..], name);
      match ls[0]
      case Pair(n, v) =>
        if n != name {
          EntryDiffers(n, v, name);
        } else {
          assert r[0][|KeyPrefix(name)|..] == v;
        }
      case Text(t) =>
        if |t| > 0 {
          assert KeyPrefix(name)[0] == ' ';
        }
    }
  }

  /** What a line reader sees in a written dictionary followed by `rest`:
      the rendered lines, then the lines of `rest`. */
  lemma ReadLines(ls: seq<Line>, rest: string)
    ensures SplitLines(Write(ls) + rest) == RenderLines(ls) + SplitLines(rest)
  {
    SplitJoinLinesThen(RenderLines(ls), rest);
  }

  /** Reading a written dictionary back line by line and then by name. */
  lemma ReadBack(ls: seq<Line>, name: Name)
    ensures SplitLines(Write(ls)) == RenderLines(ls)
    ensures Lookup(SplitLines(Write(ls)), name) == Value(ls, name)
  {
    ReadLines(ls, []);
    assert Write(ls) + [] == Write(ls);
    ReadValue(ls, name);
  }

  /** The value sits on the first entry for the name. */
  lemma {:induction false} ValueAt(ls: seq<Line>, name: string, i: nat)
    requires i < |ls| && ls[i].Pair? && ls[i].name == name
    requires forall j :: 0 <= j < i ==> !(ls[j].Pair? && ls[j].name == name)
    ensures Value(ls, name) == Some(ls[i].value)
    decreases i
  {
    if i > 0 {
      assert forall j :: 0 <= j < i - 1 ==> ls[1..][j] == ls[j + 1];
      ValueAt(ls[1..], name, i - 1);
    }
  }

  /** No entry carries the name: nothing is found. */
  lemma {:induction false} ValueAbsent(ls: seq<Line>, name: string)
    requires forall j :: 0 <= j < |ls| ==> !(ls[j].Pair? && ls[j].name == name)
    ensures Value(ls, name) == None
    decreases |ls|
  {
    if |ls| > 0 {
      assert forall j :: 0 <= j < |ls| - 1 ==> ls[1..][j] == ls[j + 1];
      ValueAbsent(ls[1..], name);
    }
  }

  /** The bytes of two runs of lines are the bytes of the first run, then
      those of the second. */
  lemma WriteAppend(a: seq<Line>, b: seq<Line>)
    ensures Write(a + b) == Write(a) + Write(b)
  {
    assert RenderLines(a + b) == RenderLines(a) + RenderLines(b);
    JoinLinesAppend(RenderLines(a), RenderLines(b));
  }

  /** The bytes of one line. */
  lemma WriteOne(x: Line)
    ensures Write([x]) == Render(x) + "\n"
  {
    assert RenderLines([x]) == [Render(x)];
    assert JoinLines([Render(x)]) == Render(x) + "\n" + JoinLines([]);
  }

  /** The bytes of three lines. */
  lemma WriteThree(x: Line, y: Line, z: Line)
    ensures Write([x, y, z]) == (Render(x) + "\n") + (Render(y) + "\n") + (Render(z) + "\n")
  {
    WriteAppend([x], [y, z]);
    WriteAppend([y], [z]);
    WriteOne(x);
    WriteOne(y);
    WriteOne(z);
    assert [x] + [y, z] == [x, y, z] && [y] + [z] == [y, z];
  }

  /** A dictionary written as a head, a body and a tail starts with the
      head's bytes and ends with the tail's. */
  lemma Framed(head: seq<Line>, body: seq<Line>, tail: seq<Line>)
    ensures var w := Write(head + body + tail);
      Write(head) <= w && |Write(tail)| <= |w| && w[|w| - |Write(tail)|..] == Write(tail)
  {
    WriteAppend(head + body, tail);
    WriteAppend(head, body);
  }

  /** Looking a name up in two runs of text lines: the first run wins. */
  lemma {:induction false} LookupAppend(a: seq<string>, b: seq<string>, name: string)
    ensures Lookup(a + b, name) == if Lookup(a, name).Some? then Lookup(a, name) else Lookup(b, name)
    decreases |a|
  {
    if |a| > 0 {
      assert (a + b)[0] == a[0];
      assert (a + b)[1..] == a[1..] + b;
      LookupAppend(a[1..], b, name);
    } else {
      assert a + b == b;
    }
  }

  /** Reading back the entry written first for a name, when the written
      dictionary is followed by more text. */
  lemma EntryThen(ls: seq<Line>, rest: string, name: Name, i: nat)
    requires i < |ls| && ls[i].Pair? && ls[i].name == name
    requires forall j :: 0 <= j < i ==> !(ls[j].Pair? && ls[j].name == name)
    ensures Lookup(SplitLines(Write(ls) + rest), name) == Some(ls[i].value)
  {
    ReadLines(ls, rest);
    ReadValue(ls, name);
    ValueAt(ls, name, i);
    LookupAppend(RenderLines(ls), SplitLines(rest), name);
  }

  /** Reading back the entry written first for a name. */
  lemma Entry(ls: seq<Line>, name: Name, i: nat)
    requires i < |ls| && ls[i].Pair? && ls[i].name == name
    requires forall j :: 0 <= j < i ==> !(ls[j].Pair? && ls[j].name == name)
    ensures Lookup(SplitLines(Write(ls)), name) == Some(ls[i].value)
  {
    ReadBack(ls, name);
    ValueAt(ls, name, i);
  }

  /** A name written nowhere is not found. */
  lemma NoEntry(ls: seq<Line>, name: Name)
    requires forall j :: 0 <= j < |ls| ==> !(ls[j].Pair? && ls[j].name == name)
    ensures Lookup(SplitLines(Write(ls)), name) == None
  {
    ReadBack(ls, name);
    ValueAbsent(ls, name);
  }
}
