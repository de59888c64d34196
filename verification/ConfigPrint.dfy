/**
The printer of libdm-config.c with its fragment buffer.

`_line_append` formats each fragment into a buffer of 4095 bytes.  A fragment of more
than 4095 characters is an error; one of exactly 4095 is cut short without one.  Errors
below the top level are not passed on.
*/
module ConfigPrint {
  import opened Escaping
  import opened ConfigText
  import opened ConfigRoundTrip

  /** The size given to vsnprintf. */
  const FRAGMENT_SIZE: nat := 4095

  datatype Line = Line(text: string) | Failed

  /** `_line_append` */
  function Append(l: Line, fragment: string): Line {
    if l.Failed? || |fragment| > FRAGMENT_SIZE then Failed
    else if |fragment| == FRAGMENT_SIZE then Line(l.text + fragment[..FRAGMENT_SIZE - 1])
    else Line(l.text + fragment)
  }

  function AppendElements(l: Line, vs: seq<Value>): Line
    requires NoFloats(vs)
    decreases |vs|
  {
    if vs == [] || vs[0] == EmptyArray then l
    else
      var l1 := Append(l, ValueText(vs[0]));
      if |vs| > 1 && vs[1] != EmptyArray then AppendElements(Append(l1, ", "), vs[1..]) else l1
  }

  function AppendValues(l: Line, vs: seq<Value>): Line
    requires vs != [] && NoFloats(vs)
  {
    if |vs| > 1 then Append(AppendElements(Append(l, "["), vs), "]") else Append(l, ValueText(vs[0]))
  }

  function SettingLine(key: string, vs: seq<Value>, level: nat): Line
    requires vs != [] && NoFloats(vs)
  {
    AppendValues(Append(Append(Line(""), Indent(level) + key), "="), vs)
  }

  function OpeningLine(key: string, level: nat): Line {
    Append(Append(Line(""), Indent(level) + key), " {")
  }

  /** The result of `_write_config` and the lines handed to `putline`. */
  datatype Printed = Printed(ok: bool, lines: seq<string>)

  function WriteNode(n: Node, level: nat): Printed
    requires FloatFree(n)
    decreases n, 1
  {
    match n
    case Section(key, children) =>
      var l := OpeningLine(key, level);
      if l.Failed? then Printed(false, [])
      else Printed(true, [l.text] + WriteForest(children, level + 1).lines + [Indent(level) + "}"])
    case Setting(key, values) =>
      var l := SettingLine(key, values, level);
      if l.Failed? then Printed(false, []) else Printed(true, [l.text])
  }

  /** `_write_config` */
  function WriteForest(ns: seq<Node>, level: nat): Printed
    requires AllFloatFree(ns)
    decreases ns, 0
  {
    if ns == [] then Printed(true, [])
    else
      var w := WriteNode(ns[0], level);
      if !w.ok then w
      else
        var rest := WriteForest(ns[1..], level);
        Printed(rest.ok, w.lines + rest.lines)
  }

  function Joined(lines: seq<string>): string {
    if lines == [] then "" else lines[0] + "\n" + Joined(lines[1..])
  }

  lemma {:induction false} JoinedConcat(a: seq<string>, b: seq<string>)
    ensures Joined(a + b) == Joined(a) + Joined(b)
  {
    if a == [] {
      assert a + b == b;
    } else {
      assert (a + b)[1..] == a[1..] + b;
      JoinedConcat(a[1..], b);
    }
  }

  // ----- when everything fits -----

  ghost predicate FragmentFits(s: string) {
    |s| < FRAGMENT_SIZE
  }

  ghost predicate ValuesFit(vs: seq<Value>)
    requires NoFloats(vs)
  {
    forall i :: 0 <= i < |vs| ==> FragmentFits(ValueText(vs[i]))
  }

  ghost predicate Fits(n: Node, level: nat)
    requires FloatFree(n)
    decreases n, 1
  {
    FragmentFits(Indent(level) + n.key) &&
    match n
    case Section(_, children) => AllFit(children, level + 1)
    case Setting(_, values) => ValuesFit(values)
  }

  ghost predicate AllFit(ns: seq<Node>, level: nat)
    requires AllFloatFree(ns)
    decreases ns, 0
  {
    ns == [] || (Fits(ns[0], level) && AllFit(ns[1..], level))
  }

  lemma {:induction false} ElementsAppended(l: Line, vs: seq<Value>)
    requires l.Line? && NoFloats(vs) && ValuesFit(vs)
    ensures AppendElements(l, vs) == Line(l.text + ElementsText(vs))
    decreases |vs|
  {
    hide ValueText;
    if vs != [] && vs[0] != EmptyArray {
      var l1 := Append(l, ValueText(vs[0]));
      if |vs| > 1 && vs[1] != EmptyArray {
        assert forall i :: 0 <= i < |vs[1..]| ==> vs[1..][i] == vs[i+1];
        ElementsAppended(Append(l1, ", "), vs[1..]);
        assert l.text + ElementsText(vs) == l.text + ValueText(vs[0]) + ", " + ElementsText(vs[1..]);
      } else {
        assert ElementsText(vs) == ValueText(vs[0]);
      }
    } else {
      assert l.text + "" == l.text;
    }
  }

  lemma ValuesAppended(l: Line, vs: seq<Value>)
    requires l.Line? && vs != [] && NoFloats(vs) && ValuesFit(vs)
    ensures AppendValues(l, vs) == Line(l.text + ValuesText(vs))
  {
    hide ValueText, ElementsText, AppendElements;
    if |vs| > 1 {
      ElementsAppended(Append(l, "["), vs);
      assert l.text + ValuesText(vs) == l.text + "[" + ElementsText(vs) + "]";
    }
  }

  lemma {:induction false} NodePrinted(n: Node, level: nat)
    requires FloatFree(n) && Fits(n, level)
    ensures WriteNode(n, level).ok && Joined(WriteNode(n, level).lines) == NodeText(n, level)
    decreases n, 1
  {
    hide Indent, ValuesText, AppendValues, ForestText, WriteForest;
    match n
    case Section(key, children) =>
      ForestPrinted(children, level + 1);
      var head, tail := [Indent(level) + key + " {"], [Indent(level) + "}"];
      var inner := WriteForest(children, level + 1).lines;
      assert OpeningLine(key, level) == Line(head[0]);
      assert WriteNode(n, level).lines == head + inner + tail;
      JoinedConcat(head + inner, tail);
      JoinedConcat(head, inner);
      JoinedOne(head[0]);
      JoinedOne(tail[0]);
      assert NodeText(n, level) == (head[0] + "\n") + ForestText(children, level + 1) + (tail[0] + "\n");
    case Setting(key, values) =>
      var start := Append(Append(Line(""), Indent(level) + key), "=");
      assert start == Line(Indent(level) + key + "=");
      ValuesAppended(start, values);
      JoinedOne(start.text + ValuesText(values));
  }

  lemma JoinedOne(s: string)
    ensures Joined([s]) == s + "\n"
  {
    assert [s][1..] == [];
  }

  /** If every fragment fits, the printer prints the whole forest. */
  lemma {:induction false} ForestPrinted(ns: seq<Node>, level: nat)
    requires AllFloatFree(ns) && AllFit(ns, level)
    ensures WriteForest(ns, level).ok && Joined(WriteForest(ns, level).lines) == ForestText(ns, level)
    decreases ns, 0
  {
    if ns != [] {
      hide WriteNode, NodeText, Joined;
      NodePrinted(ns[0], level);
      ForestPrinted(ns[1..], level);
      JoinedConcat(WriteNode(ns[0], level).lines, WriteForest(ns[1..], level).lines);
    }
  }

  /** The round trip through the real printer. */
  lemma PrintedRoundTrip(ns: seq<Node>)
    requires ns != [] && AllPrintable(ns) && AllFloatFree(ns) && AllFit(ns, 0)
    ensures var w := WriteForest(ns, 0);
            w.ok && Parse(Joined(w.lines)) == Forest(ns)
  {
    ForestPrinted(ns, 0);
    RoundTrip(ns);
  }

  // ----- when something does not fit -----

  /** A key one character too long is cut short: the printer succeeds, and another forest is read back. */
  lemma LongKeyIsCut(key: string, v: Value)
    requires LegalKey(key) && |key| == FRAGMENT_SIZE && PrintableElement(v) && FragmentFits(ValueText(v))
    ensures var n, short := Setting(key, [v]), Setting(key[..FRAGMENT_SIZE - 1], [v]);
            && WriteForest([n], 0).ok
            && Parse(Joined(WriteForest([n], 0).lines)) == Forest([short])
            && short != n
  {
    hide ValueText;
    var n, short := Setting(key, [v]), Setting(key[..FRAGMENT_SIZE - 1], [v]);
    assert [n][1..] == [] && [short][1..] == [];
    assert Indent(0) + key == key && Indent(0) + short.key == short.key;
    assert SettingLine(key, [v], 0) == SettingLine(short.key, [v], 0);
    assert WriteForest([n], 0) == WriteForest([short], 0);
    assert LegalKey(short.key);
    assert AllPrintable([short]) && AllFloatFree([short]);
    assert Fits(short, 0);
    assert AllFit([short], 0);
    PrintedRoundTrip([short]);
  }

  lemma {:induction false} FailedStays(vs: seq<Value>)
    requires NoFloats(vs)
    ensures AppendElements(Failed, vs) == Failed
    decreases |vs|
  {
    if |vs| > 1 && vs[0] != EmptyArray && vs[1] != EmptyArray {
      FailedStays(vs[1..]);
    }
  }

  lemma LongKeyFails(n: Node, level: nat)
    requires FloatFree(n) && |n.key| > FRAGMENT_SIZE
    ensures WriteNode(n, level) == Printed(false, [])
  {
    assert |Indent(level) + n.key| > FRAGMENT_SIZE;
    assert Append(Line(""), Indent(level) + n.key) == Failed;
    if n.Setting? {
      FailedStays(n.values);
    }
  }

  /** An error inside a section goes unreported, and the rest of the section is lost. */
  lemma NestedErrorIsSilent(key: string, inner: Node, more: seq<Node>)
    requires LegalKey(key) && FragmentFits(key) && FloatFree(inner) && AllFloatFree(more)
    requires |inner.key| > FRAGMENT_SIZE
    ensures var n := Section(key, [inner] + more);
            && AllFloatFree([n]) && WriteForest([n], 0).ok
            && Parse(Joined(WriteForest([n], 0).lines)) == Forest([Section(key, [])])
  {
    var n, empty := Section(key, [inner] + more), Section(key, []);
    assert ([inner] + more)[1..] == more && [n][1..] == [] && [empty][1..] == [];
    LongKeyFails(inner, 1);
    var all := [inner] + more;
    assert all[0] == inner && AllFloatFree(all);
    assert WriteForest(all, 1) == Printed(false, []);
    assert FloatFree(n) && AllFloatFree([n]);
    assert Indent(0) + key == key;
    assert WriteNode(n, 0) == WriteNode(empty, 0);
    assert WriteForest([n], 0) == WriteForest([empty], 0);
    assert AllPrintable([]) && Printable(empty);
    assert AllPrintable([empty]) && AllFloatFree([empty]);
    assert Fits(empty, 0);
    assert AllFit([empty], 0);
    PrintedRoundTrip([empty]);
  }

  // ----- the printer itself -----

  /** Printing what is left of a list of siblings after `lines` were put out. */
  function Continued(lines: seq<string>, w: Printed): Printed {
    Printed(w.ok, lines + w.lines)
  }

  lemma OneMoreSibling(ns: seq<Node>, i: nat, level: nat, done: seq<string>)
    requires i < |ns| && AllFloatFree(ns[i..])
    ensures FloatFree(ns[i]) && AllFloatFree(ns[i+1..])
    ensures var w := WriteNode(ns[i], level);
            Continued(done, WriteForest(ns[i..], level)) ==
            if w.ok then Continued(done + w.lines, WriteForest(ns[i+1..], level)) else Printed(false, done + w.lines)
  {
    hide WriteNode;
    assert ns[i..][0] == ns[i] && ns[i..][1..] == ns[i+1..];
    var w, rest := WriteNode(ns[i], level), WriteForest(ns[i+1..], level);
    assert done + (w.lines + rest.lines) == done + w.lines + rest.lines;
  }

  lemma NoMoreSiblings(level: nat, done: seq<string>)
    ensures AllFloatFree([]) && Continued(done, WriteForest([], level)) == Printed(true, done)
  {
    assert done + [] == done;
  }

  /** `struct output_line` */
  class Printer {
    var line: string         // the line being assembled
    var lines: seq<string>   // the lines given to putline

    constructor ()
      ensures lines == []
    {
      line, lines := "", [];
    }

    ghost function Current(ok: bool): Line
      reads this
    {
      if ok then Line(line) else Failed
    }

    method LineAppend(fragment: string) returns (ok: bool)
      modifies `line
      ensures Current(ok) == Append(Line(old(line)), fragment)
    {
      if |fragment| > FRAGMENT_SIZE {
        return false;
      }
      var n := if |fragment| < FRAGMENT_SIZE then |fragment| else FRAGMENT_SIZE - 1;
      assert fragment[..|fragment|] == fragment;
      line := line + fragment[..n];
      return true;
    }

    method LineEnd()
      modifies `lines
      ensures lines == old(lines) + [line]
    {
      lines := lines + [line];
    }

    /** The loop of `_write_config` over the elements of an array. */
    method WriteElements(vs: seq<Value>) returns (ok: bool)
      requires NoFloats(vs)
      modifies `line
      ensures Current(ok) == AppendElements(Line(old(line)), vs)
    {
      hide ValueText;
      var i := 0;
      while i < |vs| && vs[i] != EmptyArray
        invariant 0 <= i <= |vs|
        invariant AppendElements(Line(old(line)), vs) ==
                  if i == 0 || (i < |vs| && vs[i] != EmptyArray) then AppendElements(Line(line), vs[i..])
                  else Line(line)
      {
        var was := line;
        ok := LineAppend(ValueText(vs[i]));
        assert vs[i..][0] == vs[i] && (i + 1 < |vs| ==> vs[i..][1] == vs[i+1]) && vs[i..][1..] == vs[i+1..];
        if !ok {
          FailedStays(vs[i+1..]);
          return false;
        }
        i := i + 1;
        if i < |vs| && vs[i] != EmptyArray {
          ok := LineAppend(", ");
        }
      }
      return true;
    }

    method WriteValues(vs: seq<Value>) returns (ok: bool)
      requires vs != [] && NoFloats(vs)
      modifies `line
      ensures Current(ok) == AppendValues(Line(old(line)), vs)
    {
      hide ValueText, AppendElements;
      if |vs| > 1 {
        ok := LineAppend("[");
        ok := WriteElements(vs);
        if !ok {
          return false;
        }
        ok := LineAppend("]");
      } else {
        ok := LineAppend(ValueText(vs[0]));
      }
    }

    /** `_write_config` */
    method WriteConfig(ns: seq<Node>, level: nat) returns (ok: bool)
      requires AllFloatFree(ns)
      modifies this
      ensures ok == WriteForest(ns, level).ok
      ensures lines == old(lines) + WriteForest(ns, level).lines
      decreases ns
    {
      hide WriteNode, WriteForest, FloatFree, AllFloatFree;
      ghost var done: seq<string> := [];
      assert ns[0..] == ns;
      assert [] + WriteForest(ns, level).lines == WriteForest(ns, level).lines;
      for i := 0 to |ns|
        invariant AllFloatFree(ns[i..])
        invariant lines == old(lines) + done
        invariant WriteForest(ns, level) == Continued(done, WriteForest(ns[i..], level))
      {
        OneMoreSibling(ns, i, level, done);
        var wrote := WriteOne(ns[i], level);
        done := done + WriteNode(ns[i], level).lines;
        if !wrote {
          return false;
        }
      }
      assert ns[|ns|..] == [];
      NoMoreSiblings(level, done);
      return true;
    }

    /** One turn of the loop over siblings. */
    method WriteOne(n: Node, level: nat) returns (ok: bool)
      requires FloatFree(n)
      modifies this
      ensures ok == WriteNode(n, level).ok
      ensures lines == old(lines) + WriteNode(n, level).lines
      decreases n
    {
      hide Indent, AppendValues;
      line := "";
      ok := LineAppend(Indent(level) + n.key);
      match n {
        case Section(key, children) =>
          if !ok {
            return false;
          }
          ok := LineAppend(" {");
          LineEnd();
          var _ := WriteConfig(children, level + 1);
          line := "";
          IndentIsShort(level);
          ok := LineAppend(Indent(level) + "}");
          assert line == "" + (Indent(level) + "}") == Indent(level) + "}";
          LineEnd();
          assert lines == old(lines) + ([OpeningLine(key, level).text] + WriteForest(children, level + 1).lines
                                        + [Indent(level) + "}"]);
        case Setting(key, values) =>
          if !ok {
            NothingAfterFailure(values);
            return false;
          }
          ok := LineAppend("=");
          ok := WriteValues(values);
          if !ok {
            return false;
          }
          LineEnd();
      }
    }
  }

  lemma IndentIsShort(level: nat)
    ensures |Indent(level)| <= MAX_INDENT
  {
  }

  lemma NothingAfterFailure(vs: seq<Value>)
    requires vs != [] && NoFloats(vs)
    ensures AppendValues(Failed, vs) == Failed
  {
    FailedStays(vs);
  }
}
