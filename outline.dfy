/** `main`: the lines of the outline file are stripped, blank lines and comments
    are skipped, the rest are parsed, and the records that parse are built into
    a tree. Reading the file and writing the JSON are not part of this model. */
module Outline {
  import opened Wrappers
  import opened Text
  import opened LineParser
  import opened TreeBuilder

  /** A line as `readlines()` yields it: a line feed can only be its last character. */
  predicate IsReadLine(s: string) {
    forall k :: 0 <= k < |s| - 1 ==> s[k] != '\n'
  }

  predicate AllReadLines(lines: seq<string>) {
    forall i :: 0 <= i < |lines| ==> IsReadLine(lines[i])
  }

  /** Stripping removes the line feed a read line ends with, and it had no other. */
  lemma StrippedHasNoNewline(s: string)
    requires IsReadLine(s)
    ensures '\n' !in Strip(s)
  {
    var r := Strip(s);
    var a := Run(s, Space);
    forall k | 0 <= k < |r| ensures r[k] != '\n' {
      assert r[k] == s[a + k];
      if a + k == |s| - 1 {
        assert k == |r| - 1;
      }
    }
  }

  /** The record a line contributes, if any: it is stripped, skipped when empty
      or a comment, and parsed otherwise. */
  function Keep(line: string): (r: Option<Record>)
    requires IsReadLine(line)
    ensures r.Some? <==> Strip(line) != [] && InClass(Strip(line)[0], IdChar)
    ensures r.Some? ==> r.value.children == [] && r.value.id <= Strip(line)
  {
    var t := Strip(line);
    StrippedHasNoNewline(line);
    if t == [] || t[0] == '#' then None else ParseLine(t)
  }

  /** A comment line would not parse anyway: `#` cannot start an id, so the
      comment test never changes which records are kept. */
  lemma CommentCheckRedundant(line: string)
    requires IsReadLine(line)
    ensures '\n' !in Strip(line)
    ensures Keep(line) == ParseLine(Strip(line))
  {
    StrippedHasNoNewline(line);
  }

  /** The records collected from `lines`, in order: at most one per line, each
      still without children. */
  function Kept(lines: seq<string>): (rs: seq<Record>)
    requires AllReadLines(lines)
    ensures |rs| <= |lines|
    ensures forall i :: 0 <= i < |rs| ==> rs[i].children == []
  {
    if lines == [] then []
    else
      var rest := Kept(lines[..|lines| - 1]);
      match Keep(lines[|lines| - 1])
      case None => rest
      case Some(r) => rest + [r]
  }

  /** Every line that strips to something starting with a digit or a dot
      contributes exactly one record; every other line contributes none. */
  lemma {:induction false} KeptCount(lines: seq<string>, line: string)
    requires AllReadLines(lines) && IsReadLine(line)
    ensures AllReadLines(lines + [line])
    ensures |Kept(lines + [line])| == |Kept(lines)| +
      (if Strip(line) != [] && InClass(Strip(line)[0], IdChar) then 1 else 0)
  {
    assert (lines + [line])[..|lines|] == lines;
  }

  /** Walks the lines in order and appends the record of every line that is
      kept: exactly the records `Kept` describes. */
  method CollectRecords(lines: seq<string>) returns (nodes: seq<Record>)
    requires AllReadLines(lines)
    ensures nodes == Kept(lines)
  {
    nodes := [];
    for i := 0 to |lines|
      invariant nodes == Kept(lines[..i])
    {
      assert lines[..i + 1][..i] == lines[..i];
      var line := Strip(lines[i]);
      StrippedHasNoNewline(lines[i]);
      if line == [] || line[0] == '#' {
        continue;
      }
      var parsedNode := ParseLine(line);
      if parsedNode.Some? {
        nodes := nodes + [parsedNode.value];
      }
    }
    assert lines[..|lines|] == lines;
  }

  /** The whole pipeline on a list of lines: the kept records, each with exactly the records placed under
      it as children, and the level-0 records as the tree. */
  method ParseOutline(lines: seq<string>) returns (records: array<Record>, tree: seq<nat>)
    requires AllReadLines(lines)
    ensures fresh(records)
    ensures records.Length == |Kept(lines)|
    ensures tree == Roots(Levels(Kept(lines)), records.Length)
    ensures forall i :: 0 <= i < records.Length ==>
      records[i] == Kept(lines)[i].(children := Attached(Levels(Kept(lines)), i, records.Length))
  {
    var nodes := CollectRecords(lines);
    records := new Record[|nodes|](i requires 0 <= i < |nodes| => nodes[i]);
    assert records[..] == nodes;
    tree := BuildTree(records);
    PlacedFromFresh(nodes);
  }
}
