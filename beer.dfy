/** The record model: one menu entry and its display rendering (cloudwater.py, class `Beer`). */
module Beers {
  import opened Wrappers

  /** One menu entry. `strength` is the numeric token matched in the menu text, i.e. the text
      the source hands to `float()`. */
  datatype Beer = Beer(name: string, desc: string, extraInfo: Option<string>, strength: string)

  /** All beers observed at one time, keyed by name. */
  type Snapshot = map<string, Beer>

  /** The tail of the strength line: ` - <extra>` when extra info is present, else nothing. */
  function ExtraSuffix(extraInfo: Option<string>): string
  {
    match extraInfo
    case None => ""
    case Some(e) => " - " + e
  }

  /** The description, tab-indented and quoted. */
  function DescLine(b: Beer): string
  {
    "\t\"" + b.desc + "\""
  }

  /** The strength with `%`, tab-indented, then the extra info if any. */
  function StrengthLine(b: Beer, fmt: string -> string): string
  {
    "\t" + fmt(b.strength) + "%" + ExtraSuffix(b.extraInfo)
  }

  /** `Beer.__repr__`: the name, the description and the strength lines, each ended by a
      newline. The `{:.1f}` rendering of the strength is the parameter `fmt`. */
  function Render(b: Beer, fmt: string -> string): string
  {
    b.name + "\n" + DescLine(b) + "\n" + StrengthLine(b, fmt) + "\n"
  }

  /** Index of the first newline in `s`, or `|s|` when there is none. */
  function NewlineIndex(s: string): (i: nat)
    ensures i <= |s|
    ensures forall j | 0 <= j < i :: s[j] != '\n'
    ensures i < |s| ==> s[i] == '\n'
  {
    if s == [] || s[0] == '\n' then 0 else 1 + NewlineIndex(s[1..])
  }

  /** The lines of a text, each without its terminating newline; a last line without a
      newline still counts. */
  function Lines(s: string): seq<string>
    decreases |s|
  {
    if s == [] then []
    else
      var i := NewlineIndex(s);
      if i == |s| then [s] else [s[..i]] + Lines(s[i + 1..])
  }

  lemma LinesCons(a: string, rest: string)
    requires '\n' !in a
    ensures Lines(a + "\n" + rest) == [a] + Lines(rest)
  {
    var s := a + "\n" + rest;
    assert s[|a|] == '\n';
    assert forall j | 0 <= j < |a| :: s[j] == a[j];
    assert NewlineIndex(s) == |a|;
    assert s[..|a|] == a;
    assert s[|a| + 1..] == rest;
  }

  lemma LinesSingle(a: string)
    requires '\n' !in a
    ensures Lines(a + "\n") == [a]
  {
    LinesCons(a, "");
    assert a + "\n" + "" == a + "\n";
  }

  lemma NoNewlineConcat(a: string, b: string)
    requires '\n' !in a && '\n' !in b
    ensures '\n' !in a + b
  {
    assert forall i | 0 <= i < |a + b| :: (a + b)[i] in a || (a + b)[i] in b;
  }

  lemma LinesWithoutNewline(b: Beer, fmt: string -> string)
    requires '\n' !in b.desc && '\n' !in fmt(b.strength)
    requires b.extraInfo.Some? ==> '\n' !in b.extraInfo.value
    ensures '\n' !in DescLine(b) && '\n' !in StrengthLine(b, fmt)
  {
    NoNewlineConcat("\t\"", b.desc);
    NoNewlineConcat("\t\"" + b.desc, "\"");
    match b.extraInfo {
      case None =>
      case Some(e) => NoNewlineConcat(" - ", e);
    }
    NoNewlineConcat("\t", fmt(b.strength));
    NoNewlineConcat("\t" + fmt(b.strength), "%");
    NoNewlineConcat("\t" + fmt(b.strength) + "%", ExtraSuffix(b.extraInfo));
  }

  /** A rendered record is exactly three lines: the name, the quoted description, and the
      strength with `%` followed by ` - <extra>` only when extra info is present. */
  lemma RenderLines(b: Beer, fmt: string -> string)
    requires '\n' !in b.name && '\n' !in b.desc && '\n' !in fmt(b.strength)
    requires b.extraInfo.Some? ==> '\n' !in b.extraInfo.value
    ensures Lines(Render(b, fmt)) ==
            [b.name, "\t\"" + b.desc + "\"", "\t" + fmt(b.strength) + "%" + ExtraSuffix(b.extraInfo)]
  {
    var l1, l2 := DescLine(b), StrengthLine(b, fmt);
    LinesWithoutNewline(b, fmt);
    var tail := l2 + "\n";
    var mid := l1 + "\n" + tail;
    assert Render(b, fmt) == b.name + "\n" + mid;
    LinesSingle(l2);
    LinesCons(l1, tail);
    LinesCons(b.name, mid);
  }

  /** The first line of a rendering is the record's name. */
  lemma RenderFirstLine(b: Beer, fmt: string -> string)
    requires '\n' !in b.name
    ensures |Lines(Render(b, fmt))| > 0 && Lines(Render(b, fmt))[0] == b.name
  {
    var rest := DescLine(b) + "\n" + StrengthLine(b, fmt) + "\n";
    assert Render(b, fmt) == b.name + "\n" + rest;
    LinesCons(b.name, rest);
  }

  /** Records with different names (without newlines) never render alike. */
  lemma RenderDistinguishesNames(b1: Beer, b2: Beer, fmt: string -> string)
    requires '\n' !in b1.name && '\n' !in b2.name
    requires Render(b1, fmt) == Render(b2, fmt)
    ensures b1.name == b2.name
  {
    RenderFirstLine(b1, fmt);
    RenderFirstLine(b2, fmt);
  }

  /** The rendering ends in a newline, preceded by ` - <extra>` exactly for extra info,
      or by the `%` sign when there is none. */
  lemma RenderEnding(b: Beer, fmt: string -> string)
    ensures var r := Render(b, fmt);
            match b.extraInfo
            case None => |r| >= 2 && r[|r| - 2..] == "%\n"
            case Some(e) => |r| >= |e| + 4 && r[|r| - |e| - 4..] == " - " + e + "\n"
  {
    var r := Render(b, fmt);
    var head := b.name + "\n" + DescLine(b) + "\n\t" + fmt(b.strength);
    match b.extraInfo
    case None =>
      assert r == head + "%\n";
    case Some(e) =>
      assert r == (head + "%") + (" - " + e + "\n");
  }
}
