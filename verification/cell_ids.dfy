/** Cell identifiers of the octagon grid: the string `oct_<col>_<row>`, with
    both coordinates written in decimal as a JavaScript template literal
    renders a non-negative integer. The module proves that the rendering is
    injective, which is what makes ids unique within a grid. */
module CellIds {

  predicate IsDigit(c: char) {
    '0' <= c <= '9'
  }

  predicate AllDigits(s: string) {
    forall i :: 0 <= i < |s| ==> IsDigit(s[i])
  }

  function DigitChar(d: nat): (c: char)
    requires d < 10
    ensures IsDigit(c)
  {
    ('0' as int + d) as char
  }

  function DigitValue(c: char): (d: nat)
    requires IsDigit(c)
    ensures d < 10
  {
    c as int - '0' as int
  }

  /** Decimal rendering of a natural number, without leading zeros. */
  function NatToDecimal(n: nat): (r: string)
    ensures |r| >= 1 && AllDigits(r)
    decreases n
  {
    if n < 10 then [DigitChar(n)] else NatToDecimal(n / 10) + [DigitChar(n % 10)]
  }

  /** The value of a string of decimal digits. */
  function DecimalValue(s: string): nat
    requires AllDigits(s)
  {
    if |s| == 0 then 0 else DecimalValue(s[..|s| - 1]) * 10 + DigitValue(s[|s| - 1])
  }

  /** Reading back a rendered number gives the number. */
  lemma {:induction false} DecimalRoundTrip(n: nat)
    ensures DecimalValue(NatToDecimal(n)) == n
    decreases n
  {
    if n >= 10 {
      var r := NatToDecimal(n);
      assert r[..|r| - 1] == NatToDecimal(n / 10);
      DecimalRoundTrip(n / 10);
    }
  }

  lemma DecimalInjective(a: nat, b: nat)
    ensures NatToDecimal(a) == NatToDecimal(b) <==> a == b
  {
    if NatToDecimal(a) == NatToDecimal(b) {
      DecimalRoundTrip(a);
      DecimalRoundTrip(b);
    }
  }

  /** The id of the cell at column `col` and row `row`. */
  function CellIdOf(col: nat, row: nat): (id: string)
    ensures |id| > 4 && id[..4] == "oct_"
  {
    "oct_" + NatToDecimal(col) + "_" + NatToDecimal(row)
  }

  /** The property names every plain JavaScript object inherits from
      `Object.prototype`. Reading a plain-object record under one of them
      finds the inherited property rather than a missing entry. */
  const ObjectPrototypeKeys: set<string> := {
    "constructor", "hasOwnProperty", "isPrototypeOf", "propertyIsEnumerable",
    "toLocaleString", "toString", "valueOf", "__proto__",
    "__defineGetter__", "__defineSetter__", "__lookupGetter__", "__lookupSetter__"}

  /** No cell id is an inherited property name, so records keyed by cell
      ids behave as plain maps. */
  lemma CellIdIsOwnKey(col: nat, row: nat)
    ensures CellIdOf(col, row) !in ObjectPrototypeKeys
  {
    var id := CellIdOf(col, row);
    assert id[0] == 'o';
    forall k | k in ObjectPrototypeKeys ensures k[0] != 'o' {
    }
  }

  /** In `a + "_" + b` with `a` all digits, the first underscore sits at `|a|`. */
  lemma FirstUnderscoreAt(a: string, b: string)
    requires AllDigits(a)
    ensures (a + "_" + b)[|a|] == '_'
    ensures forall i :: 0 <= i < |a| ==> (a + "_" + b)[i] != '_'
  {
  }

  /** A digit string followed by an underscore splits in one way only. */
  lemma SplitAtUnderscore(a: string, b: string, a': string, b': string)
    requires AllDigits(a) && AllDigits(a')
    requires a + "_" + b == a' + "_" + b'
    ensures a == a' && b == b'
  {
    var x := a + "_" + b;
    FirstUnderscoreAt(a, b);
    FirstUnderscoreAt(a', b');
    assert |a| == |a'|;
    assert a == x[..|a|] == a';
    assert b == x[|a| + 1..] == b';
  }

  /** Distinct coordinates get distinct ids. */
  lemma CellIdInjective(c1: nat, r1: nat, c2: nat, r2: nat)
    ensures CellIdOf(c1, r1) == CellIdOf(c2, r2) <==> c1 == c2 && r1 == r2
  {
    var id1, id2 := CellIdOf(c1, r1), CellIdOf(c2, r2);
    if id1 == id2 {
      var t1 := NatToDecimal(c1) + "_" + NatToDecimal(r1);
      var t2 := NatToDecimal(c2) + "_" + NatToDecimal(r2);
      assert id1 == "oct_" + t1 && id2 == "oct_" + t2;
      assert t1 == id1[4..] == id2[4..] == t2;
      SplitAtUnderscore(NatToDecimal(c1), NatToDecimal(r1), NatToDecimal(c2), NatToDecimal(r2));
      DecimalInjective(c1, c2);
      DecimalInjective(r1, r2);
    }
  }
}
