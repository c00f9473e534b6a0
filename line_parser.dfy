/** `parse_line`: the anchored line pattern
      `^([\d\.]+)\s*(.*?)\s*(?:\((\d+)(?:-(\d+))?\))?$`
    written out by hand, and the record built from its four groups. */
module LineParser {
  import opened Wrappers
  import opened Text

  /** Groups 3 and 4 of the pattern: the digits of the lower bound and, for a
      range, the digits of the upper bound. */
  datatype Bounds = Bounds(low: string, high: Option<string>)

  /** One way of cutting a line along the pattern: the id (group 1), the
      whitespace after it, the name (group 2), the whitespace before the
      annotation, and the annotation's groups. */
  datatype Split = Split(id: string, lead: string, name: string, gap: string, bounds: Option<Bounds>)

  /** The closed interval `{min, max}`; `max < min` is passed through unchecked. */
  datatype Characteristic = Characteristic(min: nat, max: nat)

  /** The dictionary `{id, name, characteristic, children}`; `children` holds
      the positions of the child records in the record list. */
  datatype Record = Record(id: string, name: string, characteristic: Option<Characteristic>, children: seq<nat>)

  predicate WellFormed(b: Option<Bounds>) {
    b.Some? ==>
      && |b.value.low| > 0 && AllIn(b.value.low, Digit)
      && (b.value.high.Some? ==> |b.value.high.value| > 0 && AllIn(b.value.high.value, Digit))
  }

  /** The text the optional annotation consumes: nothing, `(N)` or `(N-M)`. */
  function AnnotationText(b: Option<Bounds>): string {
    match b
    case None => ""
    case Some(Bounds(low, None)) => "(" + low + ")"
    case Some(Bounds(low, Some(high))) => "(" + low + "-" + high + ")"
  }

  /** Matches `\((\d+)(?:-(\d+))?\)` against the whole of `a`. */
  function ParseAnnotation(a: string): (r: Option<Bounds>)
    ensures r.Some? ==> WellFormed(r) && a == AnnotationText(r)
  {
    if |a| < 3 || a[0] != '(' || a[|a| - 1] != ')' then None
    else
      var inner := a[1..|a| - 1];
      assert a == "(" + inner + ")";
      var d := Run(inner, Digit);
      if d == 0 then None
      else if d == |inner| then Some(Bounds(inner, None))
      else if inner[d] == '-' && d + 1 < |inner| && AllIn(inner[d + 1..], Digit) then
        assert inner == inner[..d] + "-" + inner[d + 1..];
        Some(Bounds(inner[..d], Some(inner[d + 1..])))
      else None
  }

  /** Reading an annotation back gives the groups it was written from. */
  lemma AnnotationRoundTrip(b: Option<Bounds>)
    requires WellFormed(b)
    ensures ParseAnnotation(AnnotationText(b)) == b
  {
    match b
    case None =>
    case Some(Bounds(low, None)) =>
      var a := AnnotationText(b);
      assert a[1..|a| - 1] == low + [];
      RunOfPrefix(low, [], Digit);
    case Some(Bounds(low, Some(high))) =>
      var a := AnnotationText(b);
      var inner := a[1..|a| - 1];
      assert inner == low + ("-" + high);
      RunOfPrefix(low, "-" + high, Digit);
      assert inner[..|low|] == low;
      assert inner[|low| + 1..] == high;
  }

  /** An annotation opens with `(` and holds no other `(`. */
  lemma OnlyOpeningParen(b: Option<Bounds>)
    requires b.Some? && WellFormed(b)
    ensures AnnotationText(b)[0] == '('
    ensures forall x :: 1 <= x < |AnnotationText(b)| ==> AnnotationText(b)[x] != '('
  {
    var a := AnnotationText(b);
    var low := b.value.low;
    forall x | 1 <= x < |a| ensures a[x] != '(' {
      if x <= |low| {
        assert a[x] == low[x - 1];
      } else if b.value.high.Some? && x < |a| - 1 {
        var high := b.value.high.value;
        assert a == "(" + low + "-" + high + ")";
        if x > |low| + 1 {
          assert a[x] == high[x - |low| - 2];
        }
      }
    }
  }

  /** Two suffixes of one string cannot both be annotations. */
  lemma AnnotationSuffixUnique(s: string, i: nat, j: nat)
    requires i <= j <= |s|
    requires ParseAnnotation(s[i..]).Some? && ParseAnnotation(s[j..]).Some?
    ensures i == j
  {
    OnlyOpeningParen(ParseAnnotation(s[i..]));
    OnlyOpeningParen(ParseAnnotation(s[j..]));
  }

  /** Whether `s` matches `\s*(?:\((\d+)(?:-(\d+))?\))?$`, the pattern after the name. */
  predicate TailFits(s: string) {
    var w := Run(s, Space);
    s[w..] == [] || ParseAnnotation(s[w..]).Some?
  }

  /** Whitespace followed by an optional annotation fits the tail of the pattern,
      and the whitespace is exactly what its `\s*` consumes. */
  lemma GapThenAnnotation(gap: string, b: Option<Bounds>)
    requires AllIn(gap, Space) && WellFormed(b)
    ensures Run(gap + AnnotationText(b), Space) == |gap|
    ensures TailFits(gap + AnnotationText(b))
  {
    if b.Some? {
      OnlyOpeningParen(b);
    }
    RunOfPrefix(gap, AnnotationText(b), Space);
    assert (gap + AnnotationText(b))[|gap|..] == AnnotationText(b);
    AnnotationRoundTrip(b);
  }

  /** A whitespace character in front of a fitting tail still fits: `\s*` takes it. */
  lemma TailFitsAfterSpace(c: char, s: string)
    requires IsSpace(c) && TailFits(s)
    ensures TailFits([c] + s)
  {
    var cs := [c] + s;
    assert cs[1..] == s;
    assert Run(cs, Space) == 1 + Run(s, Space);
    assert cs[1 + Run(s, Space)..] == s[Run(s, Space)..];
  }

  /** The lazy `(.*?)`: the first end position, from `k` on, after which the
      rest of the pattern matches. */
  function LazyEnd(t: string, k: nat): (e: nat)
    requires k <= |t|
    ensures k <= e <= |t| && TailFits(t[e..])
    ensures forall j {:trigger TailFits(t[j..])} :: k <= j < e ==> !TailFits(t[j..])
    decreases |t| - k
  {
    if TailFits(t[k..]) then k
    else
      assert t[|t|..] == [];
      LazyEnd(t, k + 1)
  }

  /** `line` is cut along the pattern by `sp`. */
  predicate Fits(line: string, sp: Split) {
    && |sp.id| > 0 && AllIn(sp.id, IdChar)
    && AllIn(sp.lead, Space) && AllIn(sp.gap, Space)
    && WellFormed(sp.bounds)
    && line == sp.id + (sp.lead + (sp.name + (sp.gap + AnnotationText(sp.bounds))))
  }

  /** `\s*(?:\((\d+)(?:-(\d+))?\))?$` applied to a tail that fits it: the
      whitespace, then the annotation's groups. */
  function MatchTail(tail: string): (r: (string, Option<Bounds>))
    requires TailFits(tail)
    ensures AllIn(r.0, Space) && WellFormed(r.1) && tail == r.0 + AnnotationText(r.1)
  {
    var g := Run(tail, Space);
    (tail[..g], ParseAnnotation(tail[g..]))
  }

  /** A tail has only one reading: its whitespace and its annotation are what
      it was written from. */
  lemma MatchTailUnique(gap: string, b: Option<Bounds>)
    requires AllIn(gap, Space) && WellFormed(b)
    ensures TailFits(gap + AnnotationText(b))
    ensures MatchTail(gap + AnnotationText(b)) == (gap, b)
  {
    GapThenAnnotation(gap, b);
    var tail := gap + AnnotationText(b);
    assert tail[..|gap|] == gap;
    assert tail[|gap|..] == AnnotationText(b);
    AnnotationRoundTrip(b);
  }

  /** `(.*?)` followed by the tail, applied to the text after the id and its
      whitespace: the shortest name after which the tail fits. */
  function MatchBody(t: string): (r: (string, string, Option<Bounds>))
    ensures AllIn(r.1, Space) && WellFormed(r.2)
    ensures t == r.0 + (r.1 + AnnotationText(r.2))
    ensures forall j {:trigger TailFits(t[j..])} :: 0 <= j < |r.0| ==> !TailFits(t[j..])
  {
    var k := LazyEnd(t, 0);
    var tail := MatchTail(t[k..]);
    assert t == t[..k] + t[k..];
    (t[..k], tail.0, tail.1)
  }

  /** `re.match` of the line pattern: the greedy id, the greedy whitespace, the
      shortest name after which the rest matches, then the whitespace and the
      annotation if there is one. */
  function MatchLine(line: string): (r: Option<Split>)
    requires '\n' !in line
    ensures r.None? <==> line == [] || !InClass(line[0], IdChar)
    ensures r.Some? ==> Fits(line, r.value) && r.value.id == line[..Run(line, IdChar)]
  {
    var n := Run(line, IdChar);
    if n == 0 then None
    else
      var rest := line[n..];
      var w := Run(rest, Space);
      var body := MatchBody(rest[w..]);
      Assemble(line, n, w, body.0, body.1, body.2);
      Some(Split(line[..n], rest[..w], body.0, body.1, body.2))
  }

  /** The greedy id, the greedy whitespace after it and a cut of the remainder
      into name, whitespace and annotation make a cut of the whole line. */
  lemma Assemble(line: string, n: nat, w: nat, name: string, gap: string, b: Option<Bounds>)
    requires 0 < n == Run(line, IdChar) && w == Run(line[n..], Space)
    requires AllIn(gap, Space) && WellFormed(b)
    requires line[n..][w..] == name + (gap + AnnotationText(b))
    ensures Fits(line, Split(line[..n], line[n..][..w], name, gap, b))
  {
    SplitAt(line, n);
    SplitAt(line[n..], w);
    assert forall k :: 0 <= k < n ==> line[..n][k] == line[k];
    assert forall k :: 0 <= k < w ==> line[n..][..w][k] == line[n..][k];
  }

  /** Of all the ways to cut the line along the pattern, the match is the one
      Python's backtracking tries first: the longest id, then the longest
      whitespace after it, then the shortest name; after those three the cut is
      unique. */
  lemma MatchIsPreferred(line: string, other: Split)
    requires '\n' !in line && Fits(line, other)
    ensures MatchLine(line).Some?
    ensures |other.id| <= |MatchLine(line).value.id|
    ensures other.id == MatchLine(line).value.id ==> |other.lead| <= |MatchLine(line).value.lead|
    ensures other.id == MatchLine(line).value.id && other.lead == MatchLine(line).value.lead ==>
              |MatchLine(line).value.name| <= |other.name|
    ensures other.id == MatchLine(line).value.id && other.lead == MatchLine(line).value.lead &&
            |other.name| == |MatchLine(line).value.name| ==>
              other == MatchLine(line).value
  {
    var sp := MatchLine(line).value;
    var n := Run(line, IdChar);
    var ann := AnnotationText(other.bounds);
    assert line == other.id + (other.lead + (other.name + (other.gap + ann)));
    assert line[..|other.id|] == other.id;
    if other.id == sp.id {
      var rest := line[n..];
      assert rest == other.lead + (other.name + (other.gap + ann));
      var w := Run(rest, Space);
      if other.lead == sp.lead {
        var t := rest[w..];
        assert t == other.name + (other.gap + ann);
        MatchTailUnique(other.gap, other.bounds);
        assert t[|other.name|..] == other.gap + ann;
        if |other.name| == |sp.name| {
          assert t == sp.name + (sp.gap + AnnotationText(sp.bounds));
          assert other.name == sp.name;
          assert sp.gap + AnnotationText(sp.bounds) == other.gap + ann;
          MatchTailUnique(sp.gap, sp.bounds);
        }
      }
    }
  }

  /** An annotation appended to any text is found again at the join. */
  lemma SuffixAnnotation(line: string, pre: string, b: Option<Bounds>)
    requires WellFormed(b) && line == pre + AnnotationText(b)
    ensures |pre| <= |line| && ParseAnnotation(line[|pre|..]) == b
  {
    DropConcat(pre, AnnotationText(b));
    AnnotationRoundTrip(b);
  }

  /** An annotation fits the tail of the pattern on its own: it starts with `(`,
      so the `\s*` before it takes nothing. */
  lemma AnnotationFits(a: string)
    requires ParseAnnotation(a).Some?
    ensures TailFits(a)
  {
    OnlyOpeningParen(ParseAnnotation(a));
    assert a[0] == '(';
  }

  /** In a text made of a name, whitespace and an annotation, an annotation
      found at or after the end of the name is that annotation. */
  lemma LaterAnnotation(t: string, name: string, gap: string, b: Option<Bounds>, j: nat)
    requires AllIn(gap, Space) && WellFormed(b)
    requires t == name + (gap + AnnotationText(b))
    requires |name| <= j <= |t| && ParseAnnotation(t[j..]).Some?
    ensures ParseAnnotation(t[j..]) == b
  {
    var k := |name|;
    var tail := gap + AnnotationText(b);
    DropConcat(name, tail);
    DropDrop(t, k, j);
    OnlyOpeningParen(ParseAnnotation(t[j..]));
    assert tail[j - k] == '(';
    SuffixAnnotation(tail, gap, b);
    AnnotationSuffixUnique(tail, |gap|, j - k);
  }

  /** After the id and its whitespace, any suffix that is an annotation is the
      annotation the match reads. */
  lemma BodyBounds(t: string, j: nat)
    requires j <= |t| && ParseAnnotation(t[j..]).Some?
    ensures MatchBody(t).2 == ParseAnnotation(t[j..])
  {
    var body := MatchBody(t);
    AnnotationFits(t[j..]);
    LaterAnnotation(t, body.0, body.1, body.2, j);
  }

  /** The lazy name never ends in whitespace, and starts with what the text
      after the id's whitespace starts with. */
  lemma BodyNameEdges(t: string)
    requires t == [] || !IsSpace(t[0])
    ensures Trimmed(MatchBody(t).0)
  {
    var body := MatchBody(t);
    var k := |body.0|;
    if k > 0 && IsSpace(t[k - 1]) {
      DropConcat(body.0, body.1 + AnnotationText(body.2));
      GapThenAnnotation(body.1, body.2);
      DropCons(t, k);
      TailFitsAfterSpace(t[k - 1], t[k..]);
      assert false;
    }
  }

  /** An annotation inside a line starts after the id and the whitespace that
      follows it. */
  lemma AnnotationPosition(line: string, j: nat)
    requires j <= |line| && ParseAnnotation(line[j..]).Some?
    ensures var n := Run(line, IdChar); var w := Run(line[n..], Space);
      n + w <= j && line[n..][w..][j - n - w..] == line[j..]
  {
    OnlyOpeningParen(ParseAnnotation(line[j..]));
    assert line[j] == line[j..][0] == '(';
    var n := Run(line, IdChar);
    RunBefore(line, IdChar, j);
    var rest := line[n..];
    assert rest[j - n] == '(';
    RunBefore(rest, Space, j - n);
    var w := Run(rest, Space);
    DropDrop(line, n, n + w);
    DropDrop(line, n + w, j);
  }

  /** The annotation at the end of the line, wherever the pattern finds one,
      is the one in the match. */
  lemma MatchedBounds(line: string, j: nat)
    requires '\n' !in line && MatchLine(line).Some?
    requires j <= |line| && ParseAnnotation(line[j..]).Some?
    ensures MatchLine(line).value.bounds == ParseAnnotation(line[j..])
  {
    var n := Run(line, IdChar);
    var w := Run(line[n..], Space);
    AnnotationPosition(line, j);
    BodyBounds(line[n..][w..], j - n - w);
  }

  /** The name group never starts or ends with whitespace: the lazy group
      leaves trailing blanks to the gap, and the greedy `\s*` before it takes
      the leading ones. */
  lemma MatchedNameTrimmed(line: string)
    requires '\n' !in line && MatchLine(line).Some?
    ensures Trimmed(MatchLine(line).value.name)
  {
    var sp := MatchLine(line).value;
    var n := Run(line, IdChar);
    var w := Run(line[n..], Space);
    assert sp.name == MatchBody(line[n..][w..]).0;
    BodyNameEdges(line[n..][w..]);
  }

  /** Whatever lies between the id and the annotation, stripped, is the name;
      and the `strip()` applied to group 2 never removes anything. */
  lemma MatchedName(line: string, mid: string)
    requires '\n' !in line && MatchLine(line).Some?
    requires line == MatchLine(line).value.id + (mid + AnnotationText(MatchLine(line).value.bounds))
    ensures MatchLine(line).value.name == Strip(mid)
    ensures Strip(MatchLine(line).value.name) == MatchLine(line).value.name
  {
    var sp := MatchLine(line).value;
    MatchedNameTrimmed(line);
    StripMiddle(line, sp.id, sp.lead, sp.name, sp.gap, AnnotationText(sp.bounds), mid);
    StripTrimmed(sp.name);
  }

  /** A trimmed part framed by whitespace is what `strip()` leaves of the text
      around it. */
  lemma StripMiddle(line: string, id: string, lead: string, name: string, gap: string, ann: string, mid: string)
    requires line == id + (lead + (name + (gap + ann)))
    requires line == id + (mid + ann)
    requires AllIn(lead, Space) && AllIn(gap, Space) && Trimmed(name)
    ensures Strip(mid) == name
  {
    DropConcat(id, mid + ann);
    DropConcat(id, lead + (name + (gap + ann)));
    assert lead + (name + (gap + ann)) == (lead + name + gap) + ann;
    DropConcat(mid, ann);
    DropConcat(lead + name + gap, ann);
    StripFrame(lead, name, gap);
  }

  /** The characteristic of a line: a present lower bound gives `min`; `max` is the upper bound
      when there is one and `min` otherwise. */
  function CharacteristicOf(b: Option<Bounds>): (r: Option<Characteristic>)
    requires WellFormed(b)
    ensures r.Some? <==> b.Some?
    ensures r.Some? && b.value.high.None? ==> r.value.min == r.value.max
  {
    match b
    case None => None
    case Some(Bounds(low, high)) =>
      var min := DecimalValue(low);
      var max := if high.Some? then DecimalValue(high.value) else min;
      Some(Characteristic(min, max))
  }

  /** `parse_line`: `None` when the pattern does not match, the record otherwise. */
  function ParseLine(line: string): (r: Option<Record>)
    requires '\n' !in line
    ensures r.None? <==> line == [] || !InClass(line[0], IdChar)
    ensures r.Some? ==> |r.value.id| > 0 && r.value.id == line[..Run(line, IdChar)]
    ensures r.Some? ==> r.value.children == []
    ensures r.Some? ==> Trimmed(r.value.name)
  {
    match MatchLine(line)
    case None => None
    case Some(sp) => Some(Record(sp.id, Strip(sp.name), CharacteristicOf(sp.bounds), []))
  }

  /** Whichever suffix of the line is an annotation decides the characteristic. */
  lemma AnnotatedLine(line: string, j: nat)
    requires '\n' !in line && line != [] && InClass(line[0], IdChar)
    requires j <= |line| && ParseAnnotation(line[j..]).Some?
    ensures ParseLine(line).Some?
    ensures ParseLine(line).value.characteristic == CharacteristicOf(ParseAnnotation(line[j..]))
  {
    MatchedBounds(line, j);
  }

  /** A line ending in `(N)` has the characteristic `{min: N, max: N}`;
      `(0)` and leading zeros are accepted. */
  lemma SingleValueLine(line: string, pre: string, ds: string)
    requires '\n' !in line && line != [] && InClass(line[0], IdChar)
    requires |ds| > 0 && AllIn(ds, Digit) && line == pre + ("(" + ds + ")")
    ensures ParseLine(line).Some?
    ensures ParseLine(line).value.characteristic == Some(Characteristic(DecimalValue(ds), DecimalValue(ds)))
  {
    var b := Some(Bounds(ds, None));
    assert line == pre + AnnotationText(b);
    SuffixAnnotation(line, pre, b);
    AnnotatedLine(line, |pre|);
  }

  /** A line ending in `(N-M)` has the characteristic `{min: N, max: M}`, with
      no check or reordering when `M < N`. */
  lemma RangeLine(line: string, pre: string, lo: string, hi: string)
    requires '\n' !in line && line != [] && InClass(line[0], IdChar)
    requires |lo| > 0 && AllIn(lo, Digit) && |hi| > 0 && AllIn(hi, Digit)
    requires line == pre + ("(" + lo + "-" + hi + ")")
    ensures ParseLine(line).Some?
    ensures ParseLine(line).value.characteristic == Some(Characteristic(DecimalValue(lo), DecimalValue(hi)))
  {
    var b := Some(Bounds(lo, Some(hi)));
    assert line == pre + AnnotationText(b);
    SuffixAnnotation(line, pre, b);
    AnnotatedLine(line, |pre|);
  }

  lemma Regroup(id: string, lead: string, name: string, gap: string, ann: string)
    ensures id + (lead + (name + (gap + ann))) == (id + (lead + (name + gap))) + ann
  {
  }

  /** A characteristic is only ever read from an annotation at the end of the line. */
  lemma CharacteristicHasAnnotation(line: string)
    requires '\n' !in line && ParseLine(line).Some? && ParseLine(line).value.characteristic.Some?
    ensures exists j :: 0 <= j <= |line| && ParseAnnotation(line[j..]).Some?
  {
    var sp := MatchLine(line).value;
    var pre := sp.id + (sp.lead + (sp.name + sp.gap));
    Regroup(sp.id, sp.lead, sp.name, sp.gap, AnnotationText(sp.bounds));
    SuffixAnnotation(line, pre, sp.bounds);
  }

  /** Without an annotation, everything after the id, stripped, is the name,
      parentheses included. */
  lemma UnannotatedName(line: string, rest: string)
    requires '\n' !in line && ParseLine(line).Some? && ParseLine(line).value.characteristic.None?
    requires line == ParseLine(line).value.id + rest
    ensures ParseLine(line).value.name == Strip(rest)
  {
    var sp := MatchLine(line).value;
    assert AnnotationText(sp.bounds) == [];
    AppendNil(rest);
    MatchedName(line, rest);
  }

  /** The characteristic is absent exactly when no suffix of the line is
      `(digits)` or `(digits-digits)`. */
  lemma UnannotatedLine(line: string)
    requires '\n' !in line && ParseLine(line).Some?
    ensures ParseLine(line).value.characteristic.None?
            <==> forall j :: 0 <= j <= |line| ==> ParseAnnotation(line[j..]).None?
  {
    if ParseLine(line).value.characteristic.Some? {
      CharacteristicHasAnnotation(line);
    } else {
      forall j | 0 <= j <= |line| ensures ParseAnnotation(line[j..]).None? {
        if ParseAnnotation(line[j..]).Some? {
          AnnotatedLine(line, j);
        }
      }
    }
  }
}
