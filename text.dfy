/** Characters, runs of characters, `str.strip()` and `int()` over the ASCII range. */
module Text {

  /** The character classes the outline grammar uses: `\d`, `[\d\.]` and `\s`. */
  datatype CharClass = Digit | IdChar | Space

  predicate IsDigit(c: char) {
    '0' <= c <= '9'
  }

  /** Python's whitespace restricted to ASCII: tab, line feed, vertical tab,
      form feed, carriage return, the four separators 0x1C-0x1F and the space. */
  predicate IsSpace(c: char) {
    c == ' ' || '\t' <= c <= '\r' || '\U{1C}' <= c <= '\U{1F}'
  }

  predicate InClass(c: char, cls: CharClass) {
    match cls
    case Digit => IsDigit(c)
    case IdChar => IsDigit(c) || c == '.'
    case Space => IsSpace(c)
  }

  predicate AllIn(s: string, cls: CharClass) {
    forall k :: 0 <= k < |s| ==> InClass(s[k], cls)
  }

  /** Length of the longest prefix of `s` made of characters of class `cls`:
      what a greedy `[...]*` consumes. */
  function Run(s: string, cls: CharClass): (n: nat)
    ensures n <= |s|
    ensures forall k :: 0 <= k < n ==> InClass(s[k], cls)
    ensures n < |s| ==> !InClass(s[n], cls)
  {
    if s != [] && InClass(s[0], cls) then 1 + Run(s[1..], cls) else 0
  }

  /** Length of the longest suffix of `s` made of characters of class `cls`. */
  function TrailRun(s: string, cls: CharClass): (n: nat)
    ensures n <= |s|
    ensures forall k :: |s| - n <= k < |s| ==> InClass(s[k], cls)
    ensures n < |s| ==> !InClass(s[|s| - 1 - n], cls)
  {
    if s != [] && InClass(s[|s| - 1], cls) then 1 + TrailRun(s[..|s| - 1], cls) else 0
  }

  /** A run stops exactly where a block of its class ends. */
  lemma RunOfPrefix(p: string, s: string, cls: CharClass)
    requires AllIn(p, cls)
    requires s == [] || !InClass(s[0], cls)
    ensures Run(p + s, cls) == |p|
  {
    assert forall k :: 0 <= k < |p| ==> (p + s)[k] == p[k];
    assert s != [] ==> (p + s)[|p|] == s[0];
  }

  lemma TrailRunOfSuffix(p: string, q: string, cls: CharClass)
    requires AllIn(q, cls)
    requires p == [] || !InClass(p[|p| - 1], cls)
    ensures TrailRun(p + q, cls) == |q|
  {
    var s := p + q;
    assert forall k :: 0 <= k < |q| ==> s[|p| + k] == q[k];
    assert p != [] ==> s[|p| - 1] == p[|p| - 1];
  }

  /** A run ends at or before the first character outside its class. */
  lemma RunBefore(s: string, cls: CharClass, j: nat)
    requires j < |s| && !InClass(s[j], cls)
    ensures Run(s, cls) <= j
  {
  }

  /** Cutting a sequence at `i` and joining the halves gives it back. */
  lemma SplitAt(s: string, i: nat)
    requires i <= |s|
    ensures s == s[..i] + s[i..]
  {
  }

  /** The two halves of a concatenation are recovered by slicing. */
  lemma DropConcat(a: string, b: string)
    ensures (a + b)[..|a|] == a && (a + b)[|a|..] == b
  {
  }

  /** A suffix is its first element followed by the rest. */
  lemma DropCons(s: string, i: nat)
    requires 0 < i <= |s|
    ensures s[i - 1..] == [s[i - 1]] + s[i..]
  {
  }

  lemma AppendNil(s: string)
    ensures s + [] == s
  {
  }

  /** Dropping `k` and then `j - k` elements drops `j`. */
  lemma DropDrop(s: string, k: nat, j: nat)
    requires k <= j <= |s|
    ensures s[k..][j - k..] == s[j..]
  {
  }

  /** Neither the first nor the last character is whitespace. */
  predicate Trimmed(s: string) {
    s == [] || (!IsSpace(s[0]) && !IsSpace(s[|s| - 1]))
  }

  /** Python's `str.strip()`: `s` minus its leading and trailing whitespace. */
  function Strip(s: string): (r: string)
    ensures Trimmed(r)
    ensures Run(s, Space) + |r| <= |s| && r == s[Run(s, Space)..Run(s, Space) + |r|]
    ensures AllIn(s[Run(s, Space) + |r|..], Space)
  {
    var t := s[Run(s, Space)..];
    t[..|t| - TrailRun(t, Space)]
  }

  /** Stripping removes exactly a whitespace frame around a core that has none at its ends. */
  lemma StripFrame(pre: string, core: string, suf: string)
    requires AllIn(pre, Space) && AllIn(suf, Space)
    requires Trimmed(core)
    ensures Strip(pre + core + suf) == core
  {
    var s := pre + core + suf;
    if core == [] {
      assert s == (pre + suf) + [];
      RunOfPrefix(pre + suf, [], Space);
      assert s[Run(s, Space)..] == [];
    } else {
      assert s == pre + (core + suf);
      RunOfPrefix(pre, core + suf, Space);
      var t := s[|pre|..];
      assert t == core + suf;
      TrailRunOfSuffix(core, suf, Space);
      assert t[..|t| - |suf|] == core;
    }
  }

  function DigitValue(c: char): (d: nat)
    requires IsDigit(c)
    ensures d < 10
  {
    c as int - '0' as int
  }

  function DigitChar(d: nat): (c: char)
    requires d < 10
    ensures IsDigit(c) && DigitValue(c) == d
  {
    ('0' as int + d) as char
  }

  /** Python's `int()` on a string of decimal digits. */
  function DecimalValue(ds: string): nat
    requires AllIn(ds, Digit)
  {
    if ds == [] then 0 else DecimalValue(ds[..|ds| - 1]) * 10 + DigitValue(ds[|ds| - 1])
  }

  /** Decimal notation of a natural number, without leading zeros. */
  function Decimal(n: nat): (ds: string)
    ensures |ds| > 0 && AllIn(ds, Digit)
    ensures |ds| > 1 ==> ds[0] != '0'
  {
    if n < 10 then [DigitChar(n)] else Decimal(n / 10) + [DigitChar(n % 10)]
  }

  /** `int()` reads back every number written in decimal. */
  lemma {:induction false} DecimalRoundTrip(n: nat)
    ensures DecimalValue(Decimal(n)) == n
  {
    if n >= 10 {
      var ds := Decimal(n);
      assert ds[..|ds| - 1] == Decimal(n / 10);
      DecimalRoundTrip(n / 10);
    }
  }

  /** A string with no whitespace at either end is left alone by `strip()`. */
  lemma StripTrimmed(s: string)
    requires Trimmed(s)
    ensures Strip(s) == s
  {
    assert [] + s + [] == s;
    StripFrame([], s, []);
  }

  /** `int()` ignores leading zeros, so `(007)` and `(7)` denote the same number. */
  lemma {:induction false} LeadingZero(ds: string)
    requires AllIn(ds, Digit)
    ensures AllIn("0" + ds, Digit) && DecimalValue("0" + ds) == DecimalValue(ds)
  {
    if ds != [] {
      var zs := "0" + ds;
      assert zs[..|zs| - 1] == "0" + ds[..|ds| - 1];
      LeadingZero(ds[..|ds| - 1]);
    }
  }
}
