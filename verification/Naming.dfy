/** Names and numbers as text: decimal printing and parsing of ids, the naming
    scheme for virtual nodes, and the cut that recovers an owner's name. */
module Naming {

  datatype Option<+T> = None | Some(value: T)

  /** The width of Go's `uint64`. */
  const TWO_TO_THE_64: nat := 0x1_0000_0000_0000_0000

  type UInt64 = n: nat | n < TWO_TO_THE_64

  // ---------- decimal numerals ----------

  predicate IsDigit(c: char) {
    '0' <= c <= '9'
  }

  function Digit(d: nat): (c: char)
    requires d < 10
    ensures IsDigit(c) && DigitValue(c) == d
  {
    (('0' as int) + d) as char
  }

  function DigitValue(c: char): (d: nat)
    requires IsDigit(c)
    ensures d < 10
  {
    (c as int) - ('0' as int)
  }

  predicate AllDigits(s: string) {
    forall i :: 0 <= i < |s| ==> IsDigit(s[i])
  }

  /** `%d` of a non-negative number. */
  function Decimal(n: nat): (s: string)
    ensures s != [] && AllDigits(s)
  {
    if n < 10 then [Digit(n)] else Decimal(n / 10) + [Digit(n % 10)]
  }

  function NumeralValue(s: string): nat
    requires AllDigits(s)
  {
    if s == [] then 0
    else NumeralValue(s[..|s| - 1]) * 10 + DigitValue(s[|s| - 1])
  }

  /** `strconv.ParseUint(s, 10, 64)`: None stands for its error return. */
  function ParseUint(s: string): Option<UInt64> {
    if s == [] || !AllDigits(s) then None
    else if NumeralValue(s) < TWO_TO_THE_64 then Some(NumeralValue(s))
    else None
  }

  lemma {:induction false} NumeralValueOfDecimal(n: nat)
    ensures NumeralValue(Decimal(n)) == n
  {
    if n >= 10 {
      NumeralValueOfDecimal(n / 10);
      var s := Decimal(n);
      assert s[..|s| - 1] == Decimal(n / 10);
    }
  }

  /** Parsing inverts printing on every value that fits, and rejects every other one. */
  lemma ParseInvertsDecimal(n: nat)
    ensures ParseUint(Decimal(n)) == if n < TWO_TO_THE_64 then Some(n) else None
  {
    NumeralValueOfDecimal(n);
  }

  /** Exactly these texts are errors: the empty one, those with anything but digits, and numbers that do
      not fit. */
  lemma ParseUintRejects(s: string)
    ensures ParseUint(s) == None <==>
              || s == "" || (exists i :: 0 <= i < |s| && !('0' <= s[i] <= '9'))
              || (AllDigits(s) && NumeralValue(s) >= TWO_TO_THE_64)
  {
  }

  lemma DecimalInjective(m: nat, n: nat)
    requires Decimal(m) == Decimal(n)
    ensures m == n
  {
    NumeralValueOfDecimal(m);
    NumeralValueOfDecimal(n);
  }

  // ---------- virtual names ----------

  /** `fmt.Sprintf("%s_%d", name, i)`. */
  function VirtualName(name: string, i: nat): string {
    name + "_" + Decimal(i)
  }

  /** `strings.LastIndex(s, "_")`. */
  function LastUnderscore(s: string): (k: int)
    ensures -1 <= k < |s|
    ensures k >= 0 ==> s[k] == '_'
    ensures forall j :: k < j < |s| ==> s[j] != '_'
  {
    if s == [] then -1
    else if s[|s| - 1] == '_' then |s| - 1
    else LastUnderscore(s[..|s| - 1])
  }

  /** The owner's name as the hint walk cuts it out of a virtual name. */
  function OwnerName(vname: string): string
    requires LastUnderscore(vname) >= 0
  {
    vname[..LastUnderscore(vname)]
  }

  /** Whatever the name itself contains, underscores included, the cut returns exactly
      the name the virtual name was built from. */
  lemma OwnerOfVirtualName(name: string, i: nat)
    ensures LastUnderscore(VirtualName(name, i)) == |name|
    ensures OwnerName(VirtualName(name, i)) == name
  {
    var v := VirtualName(name, i);
    assert v[|name|] == '_';
    forall j | |name| < j < |v| ensures v[j] != '_' {
      assert v[j] == Decimal(i)[j - |name| - 1];
      assert IsDigit(v[j]);
    }
    assert v[..|name|] == name;
  }

  /** Behind that underscore stands the index. */
  lemma IndexOfVirtualName(name: string, i: nat)
    ensures var v := VirtualName(name, i);
            ParseUint(v[LastUnderscore(v) + 1..]) == if i < TWO_TO_THE_64 then Some(i) else None
  {
    OwnerOfVirtualName(name, i);
    assert VirtualName(name, i)[|name| + 1..] == Decimal(i);
    ParseInvertsDecimal(i);
  }

  lemma VirtualNameInjective(name: string, i: nat, name': string, i': nat)
    requires VirtualName(name, i) == VirtualName(name', i')
    ensures name == name' && i == i'
  {
    OwnerOfVirtualName(name, i);
    OwnerOfVirtualName(name', i');
    var v := VirtualName(name, i);
    assert v[|name| + 1..] == Decimal(i);
    assert v[|name| + 1..] == Decimal(i');
    DecimalInjective(i, i');
  }
}
